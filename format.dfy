/**
 * The format mini-language as the parser reads it: `%[0|-|+][width]conv`
 * with conv one of `c d u s b x X p`, literal characters forwarded as they
 * are. `Stream` is every character one call hands to its sink, terminator
 * excluded, as if the sink never refused one; `Stored` and `Returned` are
 * what a bounded sink keeps and what the call reports.
 */
module Format {
  import opened Basics
  import opened Numeric
  import opened Padding

  /** The character at `i`, reading the terminator at and beyond the end. */
  function At(fmt: string, i: nat): (r: char) {
    if i < |fmt| then fmt[i] else '\0'
  }

  predicate IsDecimalDigit(c: char) {
    '0' <= c <= '9'
  }

  predicate IsFlagChar(c: char) {
    c == '0' || c == '-' || c == '+'
  }

  predicate IsConversion(c: char) {
    c in "cdusbxXp"
  }

  /** Where the decimal literal starting at `i` ends: the end pointer of the width conversion. */
  function DigitRunEnd(fmt: string, i: nat): (j: nat)
    requires i <= |fmt|
    ensures i <= j <= |fmt|
    ensures forall k :: i <= k < j ==> IsDecimalDigit(fmt[k])
    ensures !IsDecimalDigit(At(fmt, j))
    ensures IsDigitString(fmt[i..j], 10)
    decreases |fmt| - i
  {
    if IsDecimalDigit(At(fmt, i)) then DigitRunEnd(fmt, i + 1) else i
  }

  /** One directive: its flag bits, its width (0 when absent), the character in conversion position, and where the next pass starts. */
  datatype Directive = Directive(flags: Flags, width: nat, conv: char, next: nat)

  /**
   * The directive whose text starts at `i`, just after a '%': at most one
   * flag character, then a greedy decimal width, then the conversion
   * character, consumed only when it is one the parser knows.
   */
  function ParseDirective(fmt: string, i: nat): (d: Directive)
    requires i <= |fmt|
    ensures i <= d.next <= |fmt|
    ensures SinglePadFlag(d.flags)
    ensures !d.flags.hexUpper && !d.flags.signed
    ensures d.flags.zeroPad <==> At(fmt, i) == '0'
    ensures d.flags.leftPad <==> At(fmt, i) == '-'
    ensures d.flags.rightPad <==> At(fmt, i) == '+'
    ensures var j := if IsFlagChar(At(fmt, i)) then i + 1 else i;
      var k := DigitRunEnd(fmt, j);
      d.conv == At(fmt, k) && d.next == (if IsConversion(d.conv) then k + 1 else k) &&
      (k == j ==> d.width == 0) && (k > j ==> d.width == ValueOf(fmt[j..k], 10))
  {
    var c := At(fmt, i);
    var flags := NoFlags.(zeroPad := c == '0', leftPad := c == '-', rightPad := c == '+');
    var j := if IsFlagChar(c) then i + 1 else i;
    var k := DigitRunEnd(fmt, j);
    var width := if k == j then 0 else ValueOf(fmt[j..k], 10);
    var conv := At(fmt, k);
    Directive(flags, width, conv, if IsConversion(conv) then k + 1 else k)
  }

  /** One variadic argument, tagged with the type the conversion reads it as. */
  datatype Arg =
    | Int(i: s32)       // int / s32: `c`, `d`
    | U32(u: u32)       // u32: `b`, `x`, `X`
    | U64(w: u64)       // u64: `u`, `p`
    | Str(s: string)    // char *: `s`; the string ends at its first NUL, if any

  /** The argument type each conversion reads; any other pairing is undefined behaviour. */
  predicate Matches(conv: char, arg: Arg) {
    if conv == 'c' || conv == 'd' then arg.Int?
    else if conv == 'u' || conv == 'p' then arg.U64?
    else if conv == 'b' || conv == 'x' || conv == 'X' then arg.U32?
    else conv == 's' && arg.Str?
  }

  /** The characters of a C string: everything before the first NUL. */
  function CString(s: string): (t: string)
    ensures '\0' !in t
    ensures |t| <= |s| && t == s[..|t|]
    ensures |t| < |s| ==> s[|t|] == '\0'
  {
    if s == [] || s[0] == '\0' then [] else [s[0]] + CString(s[1..])
  }

  /** The byte an int argument becomes when stored into a char. */
  function CharOf(v: s32): (c: char)
    ensures c as int < 256 && (c as int - v) % 256 == 0
  {
    (v % 256) as char
  }

  /** Everything one conversion emits, before any sink has refused a character. */
  function Token(conv: char, f: Flags, width: nat, arg: Arg): (r: string)
    requires IsConversion(conv) && Matches(conv, arg) && !f.signed
    ensures '\0' !in r
  {
    if conv == 'c' then
      Padded(CString([CharOf(arg.i), '\0']), f, width)
    else if conv == 'd' then
      SignedRoundTrip(arg.i, 10, f.hexUpper);
      Padded(SignedText(arg.i, 10, f.hexUpper), if arg.i < 0 then f.(signed := true) else f, width)
    else if conv == 'u' then
      DigitsInAlphabet(arg.w, 10, f.hexUpper);
      Padded(Digits(arg.w, 10, f.hexUpper), f, width)
    else if conv == 's' then
      Padded(CString(arg.s), f, width)
    else if conv == 'b' then
      DigitsInAlphabet(arg.u, 2, f.hexUpper);
      Padded(Digits(arg.u, 2, f.hexUpper), f, width)
    else if conv == 'x' then
      DigitsInAlphabet(arg.u, 16, f.hexUpper);
      Padded(Digits(arg.u, 16, f.hexUpper), f, width)
    else if conv == 'X' then
      DigitsInAlphabet(arg.u, 16, true);
      Padded(Digits(arg.u, 16, true), f.(hexUpper := true), width)
    else
      DigitsInAlphabet(arg.w, 16, f.hexUpper);
      Padded("0x", f, width) + Padded(Digits(arg.w, 16, f.hexUpper), f, width)
  }

  /** One pass of the loop: the characters it emits, where the next pass starts, how many arguments it takes. */
  datatype Pass = Pass(out: string, next: nat, used: nat)

  /**
   * The pass starting at `i` has defined behaviour: a directive's width
   * fits in an s32, and its conversion finds an argument of the type it
   * reads.
   */
  predicate PassDefined(fmt: string, i: nat, args: seq<Arg>)
    requires i <= |fmt|
  {
    At(fmt, i) != '%' ||
      var d := ParseDirective(fmt, i + 1);
      d.width <= S32_MAX && (IsConversion(d.conv) ==> |args| > 0 && Matches(d.conv, args[0]))
  }

  /**
   * The pass starting at `i`, on a character other than the terminator: a
   * literal is forwarded; a directive emits its conversion's text and takes
   * one argument, or emits nothing when its conversion is unknown.
   */
  function OnePass(fmt: string, i: nat, args: seq<Arg>): (p: Pass)
    requires i < |fmt| && fmt[i] != '\0' && PassDefined(fmt, i, args)
    ensures i < p.next <= |fmt| && p.used <= |args| && p.used <= 1
    ensures '\0' !in p.out
  {
    if fmt[i] != '%' then Pass([fmt[i]], i + 1, 0)
    else
      var d := ParseDirective(fmt, i + 1);
      if IsConversion(d.conv) then Pass(Token(d.conv, d.flags, d.width, args[0]), d.next, 1)
      else Pass([], d.next, 0)
  }

  /** Every pass from position `i` on has defined behaviour. */
  predicate Defined(fmt: string, i: nat, args: seq<Arg>)
    requires i <= |fmt|
    decreases |fmt| - i
  {
    At(fmt, i) == '\0' ||
      (PassDefined(fmt, i, args) &&
       var p := OnePass(fmt, i, args);
       Defined(fmt, p.next, args[p.used..]))
  }

  /** The conversion characters the parser acts on from position `i` on, in order. */
  function Conversions(fmt: string, i: nat): (r: string)
    requires i <= |fmt|
    decreases |fmt| - i
  {
    if At(fmt, i) == '\0' then []
    else if fmt[i] != '%' then Conversions(fmt, i + 1)
    else
      var d := ParseDirective(fmt, i + 1);
      if IsConversion(d.conv) then [d.conv] + Conversions(fmt, d.next)
      else Conversions(fmt, d.next)
  }

  /**
   * Every character the loop hands to the sink from position `i` on,
   * terminator excluded: one pass per literal character or directive.
   */
  function Stream(fmt: string, i: nat, args: seq<Arg>): (out: string)
    requires i <= |fmt| && Defined(fmt, i, args)
    ensures '\0' !in out
    decreases |fmt| - i
  {
    if At(fmt, i) == '\0' then []
    else
      var p := OnePass(fmt, i, args);
      p.out + Stream(fmt, p.next, args[p.used..])
  }

  /**
   * One pass of the loop from position `i`, with the arguments from `a` on:
   * it is defined, the rest of the format stays defined, the stream is
   * the pass's output followed by the rest's, and the rest acts on no
   * conversion the whole does not.
   */
  lemma {:induction false} StreamUnfold(fmt: string, i: nat, args: seq<Arg>, a: nat)
    requires i <= |fmt| && a <= |args| && At(fmt, i) != '\0' && Defined(fmt, i, args[a..])
    ensures PassDefined(fmt, i, args[a..])
    ensures var p := OnePass(fmt, i, args[a..]);
      a + p.used <= |args| && args[a..][p.used..] == args[a + p.used..] &&
      Defined(fmt, p.next, args[a + p.used..]) &&
      Stream(fmt, i, args[a..]) == p.out + Stream(fmt, p.next, args[a + p.used..]) &&
      forall c :: c in Conversions(fmt, p.next) ==> c in Conversions(fmt, i)
  {
    var rest := args[a..];
    PassUnfold(fmt, i, rest);
    var p := OnePass(fmt, i, rest);
    assert rest[p.used..] == args[a + p.used..];
    ConversionsUnfold(fmt, i);
  }

  /** One pass from `i` unfolds the stream by that pass's output. */
  lemma PassUnfold(fmt: string, i: nat, args: seq<Arg>)
    requires i <= |fmt| && At(fmt, i) != '\0' && Defined(fmt, i, args)
    ensures PassDefined(fmt, i, args)
    ensures var p := OnePass(fmt, i, args);
      Defined(fmt, p.next, args[p.used..]) &&
      Stream(fmt, i, args) == p.out + Stream(fmt, p.next, args[p.used..])
  {
  }

  /** The conversions after one pass are among those from `i`. */
  lemma ConversionsUnfold(fmt: string, i: nat)
    requires i < |fmt| && fmt[i] != '\0'
    ensures var next := if fmt[i] != '%' then i + 1 else ParseDirective(fmt, i + 1).next;
      forall c :: c in Conversions(fmt, next) ==> c in Conversions(fmt, i)
  {
    if fmt[i] == '%' {
      var d := ParseDirective(fmt, i + 1);
      assert Conversions(fmt, i) == (if IsConversion(d.conv) then [d.conv] else []) + Conversions(fmt, d.next);
    }
  }

  /**
   * How a run that overflowed ends: `handed` is the stream up to the pass
   * starting at `i`, which fitted within `limit` bytes, followed by that
   * pass's whole output, and nothing of any later pass.
   */
  ghost predicate StoppedAfterPass(fmt: string, args: seq<Arg>, i: nat, a: nat, limit: nat, handed: string)
    requires Defined(fmt, 0, args)
  {
    i <= |fmt| && a <= |args| && At(fmt, i) != '\0' && Defined(fmt, i, args[a..]) &&
    var s, rest := Stream(fmt, 0, args), Stream(fmt, i, args[a..]);
    |rest| <= |s| && s == s[..|s| - |rest|] + rest && |s| - |rest| <= limit &&
    handed == s[..|s| - |rest|] + OnePass(fmt, i, args[a..]).out
  }

  /** A run that stops right after the pass at `i` has handed over a prefix of the stream. */
  lemma StopAfterPass(fmt: string, args: seq<Arg>, i: nat, a: nat, limit: nat, before: string, handed: string)
    requires Defined(fmt, 0, args) && i <= |fmt| && a <= |args|
    requires At(fmt, i) != '\0' && Defined(fmt, i, args[a..])
    requires before + Stream(fmt, i, args[a..]) == Stream(fmt, 0, args) && |before| <= limit
    requires handed == before + OnePass(fmt, i, args[a..]).out
    ensures StoppedAfterPass(fmt, args, i, a, limit, handed)
    ensures |handed| <= |Stream(fmt, 0, args)| && handed == Stream(fmt, 0, args)[..|handed|]
  {
    var s, rest := Stream(fmt, 0, args), Stream(fmt, i, args[a..]);
    StreamUnfold(fmt, i, args, a);
    assert before == s[..|s| - |rest|];
    var p := OnePass(fmt, i, args[a..]);
    assert handed == s[..|handed|] by {
      AppendAssoc(before, p.out, Stream(fmt, p.next, args[a + p.used..]));
    }
  }

  /** A format without directives is forwarded character for character. */
  lemma {:induction false} LiteralsForwarded(fmt: string, i: nat, args: seq<Arg>)
    requires i <= |fmt|
    requires forall k :: i <= k < |fmt| ==> fmt[k] != '%' && fmt[k] != '\0'
    ensures Defined(fmt, i, args)
    ensures Stream(fmt, i, args) == fmt[i..]
    decreases |fmt| - i
  {
    if i < |fmt| {
      LiteralsForwarded(fmt, i + 1, args);
      assert fmt[i..] == [fmt[i]] + fmt[i + 1..];
    }
  }

  /**
   * A '%' followed by a character that is neither a flag, a digit, a known
   * conversion, another '%' nor the terminator emits nothing and consumes
   * only the '%': the next pass forwards that character as a literal.
   */
  lemma {:induction false} UnknownConversionDropsPercent(fmt: string, i: nat, args: seq<Arg>)
    requires i + 1 < |fmt| && fmt[i] == '%'
    requires var c := fmt[i + 1]; !IsFlagChar(c) && !IsDecimalDigit(c) && !IsConversion(c) && c != '\0' && c != '%'
    ensures Defined(fmt, i, args) <==> Defined(fmt, i + 2, args)
    ensures Conversions(fmt, i) == Conversions(fmt, i + 2)
    ensures Defined(fmt, i, args) ==> Stream(fmt, i, args) == [fmt[i + 1]] + Stream(fmt, i + 2, args)
  {
    var d := ParseDirective(fmt, i + 1);
    assert d.next == i + 1 && d.width == 0 && !IsConversion(d.conv);
  }

  /** There is no "%%" escape: the second '%' starts a directive of its own. */
  lemma {:induction false} NoPercentEscape(fmt: string, i: nat, args: seq<Arg>)
    requires i + 1 < |fmt| && fmt[i] == '%' && fmt[i + 1] == '%'
    ensures Defined(fmt, i, args) <==> Defined(fmt, i + 1, args)
    ensures Conversions(fmt, i) == Conversions(fmt, i + 1)
    ensures Defined(fmt, i, args) ==> Stream(fmt, i, args) == Stream(fmt, i + 1, args)
  {
    var d := ParseDirective(fmt, i + 1);
    assert d.next == i + 1 && d.width == 0 && !IsConversion(d.conv);
  }

  /** A '%' as the last character ends the loop and emits nothing. */
  lemma {:induction false} TrailingPercent(fmt: string, args: seq<Arg>)
    requires |fmt| > 0 && fmt[|fmt| - 1] == '%'
    ensures Defined(fmt, |fmt| - 1, args)
    ensures Conversions(fmt, |fmt| - 1) == []
    ensures Stream(fmt, |fmt| - 1, args) == []
  {
    var d := ParseDirective(fmt, |fmt|);
    assert d.next == |fmt| && d.width == 0 && d.conv == '\0';
  }

  /**
   * Only the first flag character is honoured: a second '-' or '+' stops
   * the directive there, and it is forwarded by the next pass.
   */
  lemma {:induction false} SecondFlagIsLiteral(fmt: string, i: nat)
    requires i + 1 < |fmt| && IsFlagChar(fmt[i]) && (fmt[i + 1] == '-' || fmt[i + 1] == '+')
    ensures var d := ParseDirective(fmt, i);
      d.next == i + 1 && d.width == 0 && !IsConversion(d.conv) && d.conv == fmt[i + 1]
  {
  }

  /** What a bounded sink of `count` bytes holds after a call whose stream is `s`. */
  function Stored(s: string, count: nat): (t: string)
    ensures |t| <= count && |t| <= |s| + 1
    ensures t <= s + ['\0']
  {
    (s + ['\0'])[..Min(|s| + 1, count)]
  }

  /** What the bounded call returns for a stream `s`. */
  function Returned(s: string, count: nat): (n: nat)
    ensures n <= count && n <= |s|
    ensures n < |s| <==> |s| > count
  {
    Min(|s|, count)
  }

  /**
   * Truncation law: a bounded call never stores more than `count` bytes,
   * stores the terminator exactly when the text fits with a byte to spare,
   * returns the number of text bytes it stored, and returns less than the
   * unbounded length exactly when text was cut.
   */
  lemma {:induction false} TruncationLaw(s: string, count: nat)
    requires '\0' !in s
    ensures |Stored(s, count)| <= count
    ensures Stored(s, count) == if |s| < count then s + ['\0'] else s[..count]
    ensures ('\0' in Stored(s, count)) <==> |s| < count
    ensures Returned(s, count) == |Stored(s, count)| - (if '\0' in Stored(s, count) then 1 else 0)
    ensures Returned(s, count) < |s| <==> count < |s|
  {
    var t := Stored(s, count);
    if |s| < count {
      assert t == s + ['\0'];
      assert t[|s|] == '\0';
    } else {
      assert t == s[..count];
      assert '\0' !in t by {
        forall k | 0 <= k < |t| ensures t[k] != '\0' {
          assert t[k] == s[k];
        }
      }
    }
  }

  /**
   * What a bounded sink holds when the FLAGS word outlives the call, as the
   * file-scope FLAGS of the source does: `stale` is the overflow bit the
   * previous call left set. Only a pass of the loop clears FLAGS, so with an
   * empty format string the stale bit suppresses the terminator.
   */
  function SharedFlagsStored(fmt: string, args: seq<Arg>, count: nat, stale: bool): (r: string)
    requires Defined(fmt, 0, args)
  {
    if At(fmt, 0) == '\0' && stale then [] else Stored(Stream(fmt, 0, args), count)
  }

  /** After an overflowing call, formatting "" into a buffer with room leaves it unterminated. */
  lemma SharedFlagsDropTerminator()
    ensures Defined("", 0, [])
    ensures SharedFlagsStored("", [], 1, true) == []
    ensures Stored(Stream("", 0, []), 1) == ['\0']
  {
  }
}
