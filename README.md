# microprintf formatting engine, modelled in Dafny

This project models `printf.c` of microprintf. It is a small formatter for
bare-metal targets. It turns a format string and a variadic argument list into
characters and hands them, one at a time, to one of three output handlers:

- an external character handler (`__printf`);
- an unbounded buffer (`__sprintf`);
- a buffer of `count` bytes that stops at the limit (`__snprintf`).

The model has six modules:

- `Basics` (basics.dfy) holds `Min`, `Max` and the regrouping of
  concatenation that the other modules share.
- `Numeric` (numeric.dfy) holds the integer types of printf.h and the two digit
  tables. It defines the digit string that `xutoa` leaves in its scratch
  buffer (`Digits`), its read-back (`ValueOf`) and the signed text of `xitoa`
  (`SignedText`). `SignedText` takes the magnitude in a wider type, so it
  corrects `xitoa` for INT32_MIN (see the first finding); for every other
  value it is the text `xitoa` produces.
- `Padding` (padding.dfy) holds the FLAGS bits and the three layouts of
  `do_string`: zeros after the sign, spaces before the text, spaces after it.
  `Insert` gives an independent reference description of each layout.
- `Format` (format.dfy) describes the format mini-language as the parser reads
  it, `%[0|-|+][width]conv`. `OnePass` is one pass of the parser loop and
  `Stream` is every character a call hands to its handler.
  `Stored`/`Returned` say what a bounded buffer keeps and what the call returns.
- `Printf` (printf.dfy) is the imperative engine. The file-scope FLAGS,
  PAD_WIDTH, BYTE_COUNT and MAX_BYTE_COUNT become fields of a `Formatter`
  object, one object per call. The object also holds the handler the call
  writes to.
  - The three handlers are methods that update the fields and the caller's
    array in place.
  - `Utoa` fills a 256-slot scratch array back to front in a loop, as `xutoa`
    does.
  - `DoString` emits through the padding and copy loops of `do_string`.
  - `Parse` is the directive loop of `parse_string`.
  - Every method is proved against the functions of the other modules. Its
    ghost field `Attempted` records every character handed to the handler,
    kept or refused.
- `Scenarios` (scenarios.dfy) works through concrete formats, for example
  `%05d` of -42 gives `-0042`.

Where the code and the usual description of the library differ, the model
follows the code:

- The `-` flag puts the spaces before the text, exactly as a bare width does.
  `%-6d|` of 3 gives `     3|`, not `3     |`. Only `+` puts spaces after
  the text.
- The bounded handler keeps up to `count` bytes and reserves none for the
  terminator. `__snprintf(buf, 5, "abcdef")` stores `abcde` with no
  terminator and returns 5.
- An unknown conversion character is not consumed, but the `%` before it is.
  The next pass forwards that character as a literal, so the loop always
  advances. There is no `%%` escape: `%%` emits nothing.

## Model

| member | source | states |
|---|---|---|
| `Numeric.DivMod` | printf.c:114-115 | (proof helper) `Quot` and `Rem`, written as divisions by each constant base, are the `/` and `%` of the conversion loop |
| `Numeric.AlphabetDecodes` | printf.c:17-18 | each entry of both digit tables reads back as its own index and is neither NUL nor `-` |
| `Numeric.DigitsOntoIsDigits` | printf.c:112-118 | writing the digits least significant first, each in front of what is already written, leaves the digit string before the existing tail |
| `Numeric.DigitsInAlphabet` | printf.c:106-109 | every digit comes from the table HEXUPPER selects and has a value below the base; no NUL and no `-` |
| `Numeric.DigitsRoundTrip` | printf.c:101-120 | `Digits`, the text `xutoa` leaves (printf.c:112-118), is proved against the independent read-back `ValueOf`: the digits read back in the same base give the converted value |
| `Numeric.DigitsLeading` | printf.c:112-118 | 0 converts to exactly `"0"`; any other value has no leading zero |
| `Numeric.DigitsLengthPow2` | printf.c:112-118 | a value below 2^k has at most k digits in base 2, 10 or 16 |
| `Numeric.DigitsLength64` | printf.c:111-112 | a 64-bit value has at most 64 digits, so the conversion never reaches the guard at slot 1 |
| `Numeric.SignedRoundTrip` | printf.c:125-135 | `SignedText`, the text of `xitoa` (printf.c:127-134): the signed text is non-empty, starts with `-` exactly for a negative value, and reads back as the value, the most negative one included |
| `Numeric.AsWrittenAgreesAboveMinimum` | printf.c:127-130 | the source's 32-bit negation gives the same text as the corrected one for every negative value above INT32_MIN |
| `Numeric.AsWrittenMinimumMisread` | printf.c:129 | for INT32_MIN the source's text reads back as -(2^64 - 2^31), not as INT32_MIN |
| `Padding.PadCountIsShortfall` | printf.c:61-68 | `PadCount`, the padding amount of `do_string`: the padding amount is max(0, width - length) and is 0 when no width is given |
| `Padding.Padded` | printf.c:59-96 | the writer adds no character other than `0` and space |
| `Padding.PaddedIsInsertion` | printf.c:70-95 | with one padding bit the output is the text with PadCount fill characters inserted at one place: after the sign, before the text or after it |
| `Padding.PaddedLength` | printf.c:77-94 | the output is as long as the text plus the padding, that is max(width, length) |
| `Padding.ZeroPadSignFirst` | printf.c:71-79 | with zero padding and SIGNED the sign comes first, then exactly the padding zeros, then the digits |
| `Padding.SpacePlacement` | printf.c:81-94 | without zero padding the spaces go before the text, unless `+` is set, in which case they go after it |
| `Format.DigitRunEnd` | printf.c:175-176 | the width literal ends at the first non-digit; every character before it is a decimal digit |
| `Format.ParseDirective` | printf.c:157-176 | a directive sets the one padding bit its first character names. The width is the decimal run after the optional flag, and 0 when there is none. The conversion character is the one right after that run, and the directive ends after it exactly when it is a known conversion |
| `Format.CString` | printf.c:87-88 | a C string is the characters before its first NUL |
| `Format.CharOf` | printf.c:181 | the `int` argument of `%c` stored into a `char` keeps its low byte: the character is below 256 and congruent to the argument modulo 256 |
| `Format.Token` | printf.c:178-213 | what a conversion emits contains no NUL |
| `Format.OnePass` | printf.c:151-218 | every pass advances through the format and takes at most one argument |
| `Format.Stream` | printf.c:151-222 | the stream handed to the handler before the terminator contains no NUL |
| `Format.StreamUnfold` | printf.c:151-222 | (proof helper) the stream is the first pass's output followed by the rest's, and the rest stays defined |
| `Format.StopAfterPass` | printf.c:215-221 | a run that stops right after the pass at `i` has handed over a prefix of the stream: the stream up to that pass, which fitted, followed by that pass's whole output (`StoppedAfterPass`) |
| `Format.LiteralsForwarded` | printf.c:215-218 | a format without `%` is forwarded character for character |
| `Format.UnknownConversionDropsPercent` | printf.c:178-213 | `%` followed by an unknown character emits nothing but that character, which the next pass forwards |
| `Format.NoPercentEscape` | printf.c:155-213 | `%%` emits nothing; the second `%` starts a directive of its own |
| `Format.TrailingPercent` | printf.c:155-178 | a `%` at the end of the format ends the loop and emits nothing |
| `Format.SecondFlagIsLiteral` | printf.c:159-173 | only one flag character is honoured; a second `-` or `+` ends the directive and is forwarded |
| `Format.TruncationLaw` | printf.c:224-228 | a bounded call stores at most `count` bytes. It stores the terminator exactly when the text fits with a byte to spare, returns the number of text bytes stored, and returns less than the full length exactly when text was cut |
| `Format.Stored` | printf.c:224-228 | a bounded call stores a prefix of the stream followed by the terminator, at most `count` bytes of it |
| `Format.Returned` | printf.c:224-228 | a bounded call returns at most `count` and at most the stream's length, and less than the length exactly when the stream is longer than `count` |
| `Format.SharedFlagsDropTerminator` | printf.c:151-153 | with OVERFLOW left over from an earlier call, formatting `""` into a buffer with room stores nothing, where a fresh call stores the terminator |
| `Printf.Formatter.constructor` | printf.c:12-15 | a fresh formatter over the given handler and buffer, with FLAGS (OVERFLOW included), PAD_WIDTH, BYTE_COUNT and MAX_BYTE_COUNT all 0, nothing handed over yet, and the class invariant established |
| `Printf.Formatter.PutHandler` | printf.c:50-54 | the external handler receives the character; the count rises by one |
| `Printf.Formatter.PutBuffer` | printf.c:25-30 | the character is stored at the cursor, the cursor and the count rise by one, and nothing else in the buffer changes |
| `Printf.Formatter.PutBounded` | printf.c:35-45 | at the limit the character is dropped, OVERFLOW is set and the buffer and counters are unchanged; below it one byte is stored at the cursor. The count never exceeds the limit |
| `Printf.Formatter.Put` | printf.c:20 | one call of the handler the call was given; the handler keeps a prefix of everything it was handed |
| `Printf.Formatter.Utoa` | printf.c:101-120 | the scratch buffer holds the digit string of `x` followed by NUL, and the slots before it are unchanged. The returned start lies between slots 191 and 254, so a slot is free for a sign |
| `Printf.Formatter.PushFront` | printf.c:114 | one `*--p = digit` step: the digit goes in the slot before `p`, in front of what is there, and no other slot changes |
| `Printf.Formatter.Itoa` | printf.c:125-135 | the scratch buffer holds `SignedText(x)` (the corrected text for INT32_MIN, see "## Left out") followed by NUL, and the slots before it are unchanged; SIGNED is set exactly when `x` is negative and the flags are otherwise unchanged |
| `Printf.Formatter.PutRepeat` | printf.c:77-78 | a padding loop hands `n` copies of its character to the handler |
| `Printf.Formatter.PutText` | printf.c:87-88 | the copy loop hands the text to the handler in order |
| `Printf.Formatter.PadBefore` | printf.c:70-85 | the first phase emits the sign and zeros, or the leading spaces, and leaves exactly the rest of the text to copy |
| `Printf.Formatter.DoString` | printf.c:59-96 | the handler is handed exactly `Padded(text, FLAGS, PAD_WIDTH)` |
| `Printf.Formatter.ConvertDigits` | printf.c:190-207 | `u`, `b`, `x` and `X` hand over the padded digit string of the argument |
| `Printf.Formatter.ConvertSigned` | printf.c:186-189 | `d` hands over the padded signed text, with SIGNED set for a negative value |
| `Printf.Formatter.ConvertText` | printf.c:180-197 | `c`, `d` and `s` hand over exactly their `Token`; only `d` of a negative value sets SIGNED |
| `Printf.Formatter.ConvertPointer` | printf.c:208-212 | `p` hands over `"0x"` and the hexadecimal digits, each padded on its own |
| `Printf.Formatter.ConvertUnsigned` | printf.c:190-212 | `u`, `b`, `x`, `X` and `p` hand over exactly their `Token`; only `X` sets HEXUPPER |
| `Printf.Formatter.Convert` | printf.c:178-213 | the conversion switch hands over exactly the `Token` of the conversion, flags and width; FLAGS gains HEXUPPER for `X` and SIGNED for a negative `d`, and nothing else |
| `Printf.Formatter.ReadDirective` | printf.c:159-176 | FLAGS and PAD_WIDTH are set as `ParseDirective` says and the returned position is the conversion character |
| `Printf.Formatter.Step` | printf.c:153-218 | one pass hands over exactly `OnePass`'s output and moves the format and argument positions as it says. FLAGS and PAD_WIDTH end cleared after a literal. After a directive they hold its flag bit and width, plus HEXUPPER or SIGNED as the conversion set them |
| `Printf.Formatter.Passes` | printf.c:151-222 | the loop hands over the whole stream and stops at the terminator, or stops right after the first overflowing pass: it has then handed over the part of the stream before that pass, which fit, followed by that pass's whole output, and nothing of any later pass |
| `Printf.Formatter.Finish` | printf.c:224-228 | the terminator goes out only without overflow, and the result counts the text bytes the handler kept |
| `Printf.Formatter.Parse` | printf.c:140-229 | the handler history gains the stream and a terminator. An unbounded buffer holds the stream and a terminator, the rest unchanged. A bounded buffer holds `Stored(stream, count)`, the rest unchanged, and the result is `Returned(stream, count)` |
| `Printf.Formatter.ParseSharedFlags` | printf.c:140-231 | `parse_string` as written on a formatter whose FLAGS outlive the previous call: after an overflowed call an empty format sends nothing, not even the terminator, and returns 0; the bounded buffer then holds `SharedFlagsStored`. In every other case the call is `Parse`: the same handler history, buffer contents, return value and OVERFLOW |
| `Printf.Printf` | printf.c:231-238 | `__printf` hands the stream and a terminator to the handler and returns the stream's length |
| `Printf.Sprintf` | printf.c:240-247 | `__sprintf` writes the stream and a terminator, leaves the rest of the buffer unchanged and returns the stream's length |
| `Printf.Snprintf` | printf.c:249-256 | `__snprintf` writes `Stored(stream, count)`, leaves the rest unchanged and returns `Returned(stream, count)`, never more than `count` |
| `Scenarios.ZeroPaddedNegative` | printf.c:71-79 | `%05d` of -42 gives `-0042` |
| `Scenarios.MinusPadsBefore` | printf.c:81-84 | `%-4d|` of 7 gives three spaces, `7` and `|` |
| `Scenarios.PlusPadsAfter` | printf.c:91-94 | `%+4s|` of `ab` gives `ab`, two spaces and `|` |
| `Scenarios.HexCase` | printf.c:202-207 | `%x%X` of 255 and 255 gives `ffFF` |
| `Scenarios.StaleOverflowSkipsTerminator` | printf.c:151-153 | on one formatter: `""` into 1 byte from a fresh state stores the terminator and returns 0; `"abc"` into 2 bytes stores `ab`, overflows and returns 2; `""` into 8 bytes then stores nothing, so the buffer still starts `ab`, and returns 0 |
| `Scenarios.TruncatedWithoutTerminator` | printf.c:35-45 | a 5-byte bounded call with format `abcdef` parses to the stream `abcdef` and keeps `abcde`, no terminator, and returns 5 |

## Left out

- `printf_handler`, the external character handler behind `fn_printf`, is
  modelled as the sequence of characters it has received (`handled`). Its
  effect on hardware is not modelled.
- `va_list`/`va_arg` are modelled as a sequence of tagged `Arg` values. Reading
  an argument of the wrong type, or reading past the last argument, is
  undefined behaviour in C. `Defined` excludes both as a precondition.
- BYTE_COUNT is a u32 in C and the model counts with unbounded integers. The
  two differ only after 2^32 characters in one call.
- `Printf.Formatter.Parse`: widths above 2^31 - 1 are excluded as a
  precondition. `strtol` saturation and the narrowing of its `long` result
  into the s32 PAD_WIDTH are platform-dependent.
- `Printf.Formatter.DoString`: the padding amount is computed as the
  integer `PAD_WIDTH - length`. In C this mixes `s32` and `size_t` arithmetic,
  which gives the same value for texts shorter than 2^31 characters. Longer
  texts are not modelled.
- A NULL pointer for `%s`, the format string or the buffer is undefined
  behaviour in C. `Str` always carries a string.
- `%p` is modelled only with the external handler. printf.c:209 hands
  `"0x"` to the handler with `context`, not `context_ptr`. With the two
  buffer handlers that reads the buffer pointer as a pointer to it, which is
  undefined behaviour. `Sprintf`, `Snprintf` and `Parse` with a buffer
  handler therefore require that the format has no `p` conversion.
- `__sprintf` trusts its caller to supply a large enough buffer. `Sprintf`
  states that obligation as a precondition, because in C an overflow writes
  outside the buffer.
- Concurrency: the file-scope globals make the functions non-reentrant. Each
  call here gets its own `Formatter`. The one visible effect of sharing
  FLAGS between calls is kept as the second finding below.
- `Printf.Formatter.Itoa`, `Format.Token`: `%d` of INT32_MIN, where the
  negation at printf.c:129 overflows (undefined behaviour in C), is rendered
  with the magnitude taken in a wider type, `-2147483648`. The text the
  source gives on two's-complement targets is `Numeric.AsWrittenSignedText`;
  the first finding below compares the two.
- The format string and `%s` arguments are taken by value as Dafny strings:
  their characters are not limited to bytes, and they cannot alias the output
  buffer, as `__sprintf(buf, "%s", buf)` does in C.
- `%c` stores `int` into `char`. The model keeps the low byte
  (`v % 256`), which is what every two's-complement target does.

## Findings

| source | as written | input that shows it | evidently intended | confidence | as-written member | corrected member |
|---|---|---|---|---|---|---|
| printf.c:129 | `xutoa(buff, -x, base)` negates the s32 `x`. This overflows for INT32_MIN; on two's-complement targets the result is INT32_MIN again, which is widened to u64 as 2^64 - 2^31 | `__sprintf(buf, "%d", INT32_MIN)` gives `-18446744071562067968` | `-2147483648`, with the magnitude taken in a wider type | not executed | `Numeric.AsWrittenMinimumMisread` | `Numeric.SignedRoundTrip` |
| printf.c:12, 151-153, 225-226 | FLAGS, and with it OVERFLOW, is cleared only at the start of a loop pass and survives between calls | `__snprintf(b, 2, "abc")`, then `__snprintf(buf, 8, "")`: no pass runs, OVERFLOW is still set, and no terminator is stored | every call starts with FLAGS cleared, so `""` stores just the terminator | not executed | `Printf.Formatter.ParseSharedFlags`, `Scenarios.StaleOverflowSkipsTerminator`, `Format.SharedFlagsDropTerminator` | `Printf.Formatter.Parse` |
