/**
 * The formatting engine. The source keeps FLAGS, PAD_WIDTH, BYTE_COUNT and
 * MAX_BYTE_COUNT at file scope; here they are fields of a Formatter, one
 * per call, together with the sink the call writes to. `Attempted` records
 * every character handed to the sink, kept or not; each method is proved
 * against the specification functions of the Format and Padding modules.
 */
module Printf {
  import opened Basics
  import opened Numeric
  import opened Padding
  import opened Format

  /** Size of the scratch buffer a number is converted in. */
  const BuffSize: nat := 256

  /** The three output handlers a call can be given. */
  datatype Sink =
    | Handler   // every character to the external character handler
    | Buffer    // a buffer the caller vouches is large enough
    | Bounded   // a buffer of MAX_BYTE_COUNT bytes

  class Formatter {
    const sink: Sink
    /** The caller's buffer (unused by the handler sink). */
    const buf: array<char>
    /** How far the buffer pointer has advanced. */
    var cursor: nat
    /** Everything the external handler has been given, across calls. */
    var handled: seq<char>
    /** The conversion bits of FLAGS. */
    var flags: Flags
    /** The OVERFLOW bit of FLAGS. */
    var overflow: bool
    var padWidth: nat
    var byteCount: nat
    var maxByteCount: nat

    /** Every character handed to the sink in this call. */
    ghost var Attempted: seq<char>
    /** The handler's history and the buffer's contents when the call began. */
    ghost var handledBase: seq<char>
    ghost var bufBase: seq<char>

    /**
     * The sink keeps a prefix of what it was handed: all of it, or for the
     * bounded sink the first MAX_BYTE_COUNT characters; the buffer beyond
     * the pointer is untouched; OVERFLOW is set exactly when the bounded
     * sink has refused a character.
     */
    ghost predicate Valid()
      reads this, buf
    {
      (sink.Bounded? ==> maxByteCount <= buf.Length) &&
      byteCount == (if sink.Bounded? then Min(|Attempted|, maxByteCount) else |Attempted|) &&
      (sink.Handler? ==> handled == handledBase + Attempted) &&
      (!sink.Handler? ==>
        cursor == byteCount <= buf.Length && |bufBase| == buf.Length &&
        buf[..cursor] == Attempted[..cursor] && buf[cursor..] == bufBase[cursor..]) &&
      (overflow <==> sink.Bounded? && |Attempted| > maxByteCount)
    }

    constructor (sink: Sink, buf: array<char>, handled: seq<char>)
      ensures this.sink == sink && this.buf == buf && this.handled == handled
      ensures Valid() && Attempted == [] && cursor == 0
      ensures flags == NoFlags && !overflow && padWidth == 0 && byteCount == 0 && maxByteCount == 0
    {
      this.sink := sink;
      this.buf := buf;
      this.handled := handled;
      cursor := 0;
      flags := NoFlags;
      overflow := false;
      padWidth := 0;
      byteCount := 0;
      maxByteCount := 0;
      Attempted := [];
      handledBase := handled;
      bufBase := buf[..];
    }

    /** The external handler: count the character and pass it on. */
    method PutHandler(c: char)
      requires Valid() && sink.Handler?
      modifies this`byteCount, this`handled, this`Attempted
      ensures Valid()
      ensures Attempted == old(Attempted) + [c]
      ensures handled == old(handled) + [c]
      ensures byteCount == old(byteCount) + 1
    {
      byteCount := byteCount + 1;
      handled := handled + [c];
      Attempted := Attempted + [c];
    }

    /** The unbounded buffer: count, store at the pointer, advance. */
    method PutBuffer(c: char)
      requires Valid() && sink.Buffer? && cursor < buf.Length
      modifies this`byteCount, this`cursor, this`Attempted, buf
      ensures Valid()
      ensures Attempted == old(Attempted) + [c]
      ensures byteCount == old(byteCount) + 1 && cursor == old(cursor) + 1
      ensures buf[..] == old(buf[..])[old(cursor) := c]
    {
      byteCount := byteCount + 1;
      buf[cursor] := c;
      cursor := cursor + 1;
      Attempted := Attempted + [c];
    }

    /**
     * The bounded buffer: at the limit the character is dropped and
     * OVERFLOW set; below it the character is stored as by PutBuffer.
     */
    method PutBounded(c: char)
      requires Valid() && sink.Bounded?
      modifies this`overflow, this`byteCount, this`cursor, this`Attempted, buf
      ensures Valid()
      ensures Attempted == old(Attempted) + [c]
      ensures byteCount <= maxByteCount
      ensures old(byteCount) == maxByteCount ==>
        overflow && byteCount == old(byteCount) && cursor == old(cursor) && buf[..] == old(buf[..])
      ensures old(byteCount) < maxByteCount ==>
        overflow == old(overflow) &&
        byteCount == old(byteCount) + 1 && cursor == old(cursor) + 1 &&
        buf[..] == old(buf[..])[old(cursor) := c]
    {
      if byteCount == maxByteCount {
        overflow := true;
        Attempted := Attempted + [c];
        return;
      }
      byteCount := byteCount + 1;
      buf[cursor] := c;
      cursor := cursor + 1;
      Attempted := Attempted + [c];
    }

    /** One call of the output handler the call was given. */
    method Put(c: char)
      requires Valid()
      requires sink.Buffer? ==> |Attempted| < buf.Length
      modifies this`overflow, this`byteCount, this`cursor, this`handled, this`Attempted, buf
      ensures Valid()
      ensures Attempted == old(Attempted) + [c]
    {
      match sink
      case Handler => PutHandler(c);
      case Buffer => PutBuffer(c);
      case Bounded => PutBounded(c);
    }

    /**
     * Converts `x` into the scratch buffer back to front: the terminator in
     * the last slot, then one digit per step until the quotient is 0, with
     * the digit table HEXUPPER selects. The digits start at `p`, which
     * stays clear of slot 0 by a wide margin.
     */
    method Utoa(buff: array<char>, x: u64, base: u32) returns (p: nat)
      requires buff.Length == BuffSize && IsBase(base)
      modifies buff
      ensures BuffSize - 1 - 64 <= p < BuffSize - 1
      ensures buff[p..BuffSize - 1] == Digits(x, base, old(flags.hexUpper))
      ensures buff[BuffSize - 1] == '\0'
      ensures buff[..p] == old(buff[..p])
    {
      ghost var before := buff[..];
      p := BuffSize - 1;
      buff[p] := '\0';
      var upper := flags.hexUpper;
      var digit := Alphabet(upper);
      var v: nat := x;
      DigitsLength64(x, base, upper);
      DigitsOntoIsDigits(x, base, upper, []);
      ghost var all := DigitsOnto(x, base, upper, []);
      assert all == Digits(x, base, upper);
      while p > 1
        invariant 1 <= p <= BuffSize - 1
        invariant buff[BuffSize - 1] == '\0'
        invariant all == DigitsOnto(v, base, upper, buff[p..BuffSize - 1])
        invariant |all| <= 64
        invariant buff[..p] == before[..p]
        decreases p
      {
        DivMod(v, base);
        ghost var written := [digit[v % base]] + buff[p..BuffSize - 1];
        assert all == if v / base == 0 then written else DigitsOnto(v / base, base, upper, written);
        PushFront(buff, p, digit[v % base]);
        p := p - 1;
        v := v / base;
        if v == 0 {
          return;
        }
      }
    }

    /** Writes `d` into the slot just before `p`, leaving every other slot as it was. */
    static method PushFront(buff: array<char>, p: nat, d: char)
      requires 1 <= p < buff.Length
      modifies buff
      ensures buff[p - 1..buff.Length - 1] == [d] + old(buff[p..buff.Length - 1])
      ensures buff[..p - 1] == old(buff[..p - 1])
      ensures buff[buff.Length - 1] == old(buff[buff.Length - 1])
    {
      buff[p - 1] := d;
    }

    /** Converts a signed value: the magnitude's digits, then a '-' in front and SIGNED set. */
    method Itoa(buff: array<char>, x: s32, base: u32) returns (p: nat)
      requires buff.Length == BuffSize && IsBase(base)
      modifies buff, this`flags
      ensures p < BuffSize - 1
      ensures buff[p..BuffSize - 1] == SignedText(x, base, old(flags).hexUpper)
      ensures buff[BuffSize - 1] == '\0'
      ensures buff[..p] == old(buff[..p])
      ensures flags == if x < 0 then old(flags).(signed := true) else old(flags)
    {
      if x < 0 {
        // The magnitude is taken in a wider type, so the most negative value is safe.
        p := Utoa(buff, -(x as int), base);
        p := p - 1;
        buff[p] := '-';
        flags := flags.(signed := true);
        return;
      }
      p := Utoa(buff, x, base);
    }

    /** One of the writer's padding loops: `c` handed to the sink `n` times. */
    method PutRepeat(c: char, n: nat)
      requires Valid()
      requires sink.Buffer? ==> |Attempted| + n <= buf.Length
      modifies this`overflow, this`byteCount, this`cursor, this`handled, this`Attempted, buf
      ensures Valid()
      ensures Attempted == old(Attempted) + Repeat(c, n)
    {
      var i := 0;
      while i < n
        invariant Valid() && i <= n
        invariant Attempted == old(Attempted) + Repeat(c, i)
      {
        Put(c);
        i := i + 1;
      }
    }

    /** The writer's copy loop: the characters of `s` handed to the sink in order. */
    method PutText(s: string)
      requires Valid()
      requires sink.Buffer? ==> |Attempted| + |s| <= buf.Length
      modifies this`overflow, this`byteCount, this`cursor, this`handled, this`Attempted, buf
      ensures Valid()
      ensures Attempted == old(Attempted) + s
    {
      var k := 0;
      while k < |s|
        invariant Valid() && k <= |s|
        invariant Attempted == old(Attempted) + s[..k]
      {
        Put(s[k]);
        k := k + 1;
      }
      assert s[..k] == s;
    }

    /**
     * The writer's first phase: with zero padding the sign (when SIGNED)
     * and then the zeros, with space padding before the text the spaces.
     * Returns how much of the text has been emitted.
     */
    method PadBefore(text: string, padding: nat) returns (k: nat)
      requires Valid() && (flags.signed ==> |text| > 0) && padding == PadCount(padWidth, |text|)
      requires sink.Buffer? ==> |Attempted| + |Leading(text, flags, padWidth)| <= buf.Length
      modifies this`overflow, this`byteCount, this`cursor, this`handled, this`Attempted, buf
      ensures Valid()
      ensures Attempted == old(Attempted) + Leading(text, flags, padWidth)
      ensures k <= |text| && text[k..] == Body(text, flags)
    {
      ghost var start := Attempted;
      k := 0;
      if flags.zeroPad {
        if flags.signed {
          Put(text[0]);
          k := 1;
          LeadingAppend(start, text, flags, padWidth);
        }
        PutRepeat('0', padding);
      } else if flags.leftPad || (!flags.rightPad && padWidth != 0) {
        PutRepeat(' ', padding);
      }
    }

    /**
     * The output writer: the padding and the text of one conversion,
     * through the sink, laid out as Padded says.
     */
    method DoString(text: string)
      requires Valid() && '\0' !in text && (flags.signed ==> |text| > 0)
      requires sink.Buffer? ==> |Attempted| + |Padded(text, flags, padWidth)| <= buf.Length
      modifies this`overflow, this`byteCount, this`cursor, this`handled, this`Attempted, buf
      ensures Valid()
      ensures Attempted == old(Attempted) + Padded(text, old(flags), old(padWidth))
    {
      ghost var start, f, w := Attempted, flags, padWidth;
      var padding: int := 0;
      if padWidth != 0 {
        padding := padWidth - |text|;
        if padding < 0 {
          padding := 0;
        }
      }
      var k := PadBefore(text, padding);
      PutText(text[k..]);
      ghost var written := Attempted;
      if flags.rightPad {
        PutRepeat(' ', padding);
      }
      assert Attempted == written + Trailing(text, f, w);
      PaddedAppend(start, text, f, w);
    }

    /** An unsigned conversion (`u`, `b`, `x`, `X`, the digits of `p`): the digits of `x`, padded. */
    method ConvertDigits(x: u64, base: u32, buff: array<char>)
      requires Valid() && IsBase(base) && !flags.signed
      requires buff.Length == BuffSize && buff != buf
      requires sink.Buffer? ==>
        |Attempted| + |Padded(Digits(x, base, flags.hexUpper), flags, padWidth)| <= buf.Length
      modifies this`overflow, this`byteCount, this`cursor, this`handled, this`Attempted, buf, buff
      ensures Valid()
      ensures Attempted == old(Attempted) + Padded(Digits(x, base, flags.hexUpper), flags, padWidth)
    {
      var p := Utoa(buff, x, base);
      DigitsInAlphabet(x, base, flags.hexUpper);
      DoString(buff[p..BuffSize - 1]);
    }

    /** The `d` conversion: the signed text of `x`, padded, with SIGNED set for a negative value. */
    method ConvertSigned(x: s32, buff: array<char>)
      requires Valid() && !flags.signed
      requires buff.Length == BuffSize && buff != buf
      requires sink.Buffer? ==> |Attempted| + |Token('d', flags, padWidth, Int(x))| <= buf.Length
      modifies this`flags, this`overflow, this`byteCount, this`cursor, this`handled, this`Attempted, buf, buff
      ensures Valid()
      ensures Attempted == old(Attempted) + Token('d', old(flags), padWidth, Int(x))
      ensures flags == if x < 0 then old(flags).(signed := true) else old(flags)
    {
      ghost var f := flags;
      SignedRoundTrip(x, 10, f.hexUpper);
      var p := Itoa(buff, x, 10);
      DoString(buff[p..BuffSize - 1]);
    }

    /** The conversions of an int or a string argument: `c`, `d` and `s`. */
    method ConvertText(conv: char, arg: Arg, buff: array<char>)
      requires Valid() && (conv == 'c' || conv == 'd' || conv == 's') && Matches(conv, arg)
      requires buff.Length == BuffSize && buff != buf
      requires !flags.signed
      requires sink.Buffer? ==> |Attempted| + |Token(conv, flags, padWidth, arg)| <= buf.Length
      modifies this`flags, this`overflow, this`byteCount, this`cursor, this`handled, this`Attempted, buf, buff
      ensures Valid()
      ensures Attempted == old(Attempted) + Token(conv, old(flags), padWidth, arg)
      ensures flags == old(flags).(signed := conv == 'd' && arg.i < 0)
    {
      ghost var start, f, w := Attempted, flags, padWidth;
      if conv == 'c' {
        buff[0] := CharOf(arg.i);
        buff[1] := '\0';
        assert buff[..2] == [CharOf(arg.i), '\0'];
        DoString(CString(buff[..2]));
        assert Attempted == start + Token(conv, f, w, arg);
      } else if conv == 'd' {
        ConvertSigned(arg.i, buff);
      } else {
        DoString(CString(arg.s));
        assert Attempted == start + Token(conv, f, w, arg);
      }
    }

    /** The `p` conversion: "0x" through the writer, then the hexadecimal digits, each padded on its own. */
    method ConvertPointer(x: u64, buff: array<char>)
      requires Valid() && !flags.signed
      requires buff.Length == BuffSize && buff != buf
      requires sink.Buffer? ==> |Attempted| + |Token('p', flags, padWidth, U64(x))| <= buf.Length
      modifies this`overflow, this`byteCount, this`cursor, this`handled, this`Attempted, buf, buff
      ensures Valid()
      ensures Attempted == old(Attempted) + Token('p', flags, padWidth, U64(x))
    {
      ghost var start := Attempted;
      assert Token('p', flags, padWidth, U64(x))
          == Padded("0x", flags, padWidth) + Padded(Digits(x, 16, flags.hexUpper), flags, padWidth);
      DoString("0x");
      ConvertDigits(x, 16, buff);
      AppendAssoc(start, Padded("0x", flags, padWidth), Padded(Digits(x, 16, flags.hexUpper), flags, padWidth));
    }

    /** The conversions of an unsigned argument: `u`, `b`, `x`, `X` and `p`. */
    method ConvertUnsigned(conv: char, arg: Arg, buff: array<char>)
      requires Valid() && (conv == 'u' || conv == 'b' || conv == 'x' || conv == 'X' || conv == 'p')
      requires Matches(conv, arg)
      requires buff.Length == BuffSize && buff != buf
      requires !flags.hexUpper && !flags.signed
      requires sink.Buffer? ==> |Attempted| + |Token(conv, flags, padWidth, arg)| <= buf.Length
      modifies this`flags, this`overflow, this`byteCount, this`cursor, this`handled, this`Attempted, buf, buff
      ensures Valid()
      ensures Attempted == old(Attempted) + Token(conv, old(flags), padWidth, arg)
      ensures flags == old(flags).(hexUpper := conv == 'X')
    {
      ghost var start, f, w := Attempted, flags, padWidth;
      if conv == 'u' {
        ConvertDigits(arg.w, 10, buff);
        assert Attempted == start + Token(conv, f, w, arg);
      } else if conv == 'b' {
        ConvertDigits(arg.u, 2, buff);
        assert Attempted == start + Token(conv, f, w, arg);
      } else if conv == 'x' {
        ConvertDigits(arg.u, 16, buff);
        assert Attempted == start + Token(conv, f, w, arg);
      } else if conv == 'X' {
        flags := flags.(hexUpper := true);
        ConvertDigits(arg.u, 16, buff);
        assert Attempted == start + Token(conv, f, w, arg);
      } else {
        ConvertPointer(arg.w, buff);
      }
    }

    /**
     * One conversion of the directive switch: the argument is rendered
     * (into the scratch buffer for numbers) and handed to the writer; `X`
     * first sets HEXUPPER, `p` writes "0x" through the writer before the
     * digits.
     */
    method Convert(conv: char, arg: Arg, buff: array<char>)
      requires Valid() && IsConversion(conv) && Matches(conv, arg)
      requires buff.Length == BuffSize && buff != buf
      requires !flags.hexUpper && !flags.signed
      requires sink.Handler? || conv != 'p'
      requires sink.Buffer? ==> |Attempted| + |Token(conv, flags, padWidth, arg)| <= buf.Length
      modifies this`flags, this`overflow, this`byteCount, this`cursor, this`handled, this`Attempted, buf, buff
      ensures Valid()
      ensures Attempted == old(Attempted) + Token(conv, old(flags), padWidth, arg)
      ensures flags == old(flags).(hexUpper := conv == 'X', signed := conv == 'd' && arg.i < 0)
    {
      if conv == 'c' || conv == 'd' || conv == 's' {
        ConvertText(conv, arg, buff);
      } else {
        ConvertUnsigned(conv, arg, buff);
      }
    }

    /**
     * The directive's flag character (at most one) and its width, read into
     * FLAGS and PAD_WIDTH. Returns the position of the conversion character.
     */
    method ReadDirective(fmt: string, i: nat) returns (j: nat)
      requires i <= |fmt| && flags == NoFlags && padWidth == 0
      modifies this`flags, this`padWidth
      ensures var d := ParseDirective(fmt, i);
        flags == d.flags && padWidth == d.width && j <= |fmt| && At(fmt, j) == d.conv &&
        d.next == (if IsConversion(d.conv) then j + 1 else j)
    {
      j := i;
      var c := At(fmt, j);
      if c == '0' {
        flags := flags.(zeroPad := true);
        j := j + 1;
      } else if c == '-' {
        flags := flags.(leftPad := true);
        j := j + 1;
      } else if c == '+' {
        flags := flags.(rightPad := true);
        j := j + 1;
      }
      if IsDecimalDigit(At(fmt, j)) {
        var end := DigitRunEnd(fmt, j);
        padWidth := ValueOf(fmt[j..end], 10);
        j := end;
      }
    }

    /**
     * One pass of the directive loop: FLAGS and PAD_WIDTH are cleared, then
     * a literal character is handed to the sink; a '%' is followed by at most one flag character, a decimal
     * width and, when the parser knows it, a conversion with its argument.
     */
    method Step(fmt: string, i: nat, args: seq<Arg>, a: nat, buff: array<char>) returns (next: nat, used: nat)
      requires Valid() && !overflow
      requires i < |fmt| && fmt[i] != '\0' && a <= |args| && PassDefined(fmt, i, args[a..])
      requires sink.Handler? || 'p' !in Conversions(fmt, i)
      requires buff.Length == BuffSize && buff != buf
      requires sink.Buffer? ==> |Attempted| + |OnePass(fmt, i, args[a..]).out| <= buf.Length
      modifies this`flags, this`padWidth, this`overflow, this`byteCount, this`cursor, this`handled, this`Attempted, buf, buff
      ensures Valid()
      ensures var p := OnePass(fmt, i, args[a..]);
        next == p.next && used == a + p.used && Attempted == old(Attempted) + p.out
      ensures fmt[i] != '%' ==> flags == NoFlags && padWidth == 0
      ensures fmt[i] == '%' ==>
        var d := ParseDirective(fmt, i + 1);
        padWidth == d.width &&
        flags == d.flags.(hexUpper := d.conv == 'X', signed := d.conv == 'd' && args[a].i < 0)
    {
      flags, overflow, padWidth := NoFlags, false, 0;
      if fmt[i] == '%' {
        var j := ReadDirective(fmt, i + 1);
        var conv := At(fmt, j);
        if IsConversion(conv) {
          Convert(conv, args[a], buff);
          next, used := j + 1, a + 1;
        } else {
          next, used := j, a;
        }
      } else {
        Put(fmt[i]);
        next, used := i + 1, a;
      }
    }

    /**
     * The directive loop: FLAGS and PAD_WIDTH (and with them OVERFLOW)
     * cleared before every pass, one pass per literal character or
     * directive, and a stop after the first pass that overflows the
     * bounded sink. The sink is handed the whole stream, or, after an
     * overflow, the stream up to the pass at `at` (which fit) followed by
     * that pass's whole output, and nothing of any later pass.
     */
    method Passes(fmt: string, args: seq<Arg>, buff: array<char>) returns (ghost at: nat, ghost taken: nat)
      requires Valid() && Attempted == [] && !overflow
      requires Defined(fmt, 0, args)
      requires sink.Handler? || 'p' !in Conversions(fmt, 0)
      requires sink.Buffer? ==> |Stream(fmt, 0, args)| < buf.Length
      requires buff.Length == BuffSize && buff != buf
      modifies this`flags, this`padWidth, this`overflow, this`byteCount, this`cursor, this`handled, this`Attempted, buf, buff
      ensures Valid()
      ensures !overflow ==> Attempted == Stream(fmt, 0, args)
      ensures overflow ==> |Attempted| <= |Stream(fmt, 0, args)| && Attempted == Stream(fmt, 0, args)[..|Attempted|]
      ensures at <= |fmt| && taken <= |args| && Defined(fmt, at, args[taken..])
      ensures !overflow ==> At(fmt, at) == '\0'
      ensures overflow ==> StoppedAfterPass(fmt, args, at, taken, maxByteCount, Attempted)
    {
      ghost var s := Stream(fmt, 0, args);
      var i: nat := 0;
      var a: nat := 0;
      while At(fmt, i) != '\0'
        invariant Valid() && !overflow
        invariant i <= |fmt| && a <= |args|
        invariant Defined(fmt, i, args[a..])
        invariant sink.Handler? || 'p' !in Conversions(fmt, i)
        invariant Attempted + Stream(fmt, i, args[a..]) == s
        decreases |fmt| - i
      {
        ghost var before, p := Attempted, OnePass(fmt, i, args[a..]);
        StreamUnfold(fmt, i, args, a);
        at, taken := i, a;
        i, a := Step(fmt, i, args, a, buff);
        if overflow {
          StopAfterPass(fmt, args, at, taken, maxByteCount, before, Attempted);
          return;
        }
        AppendAssoc(before, p.out, Stream(fmt, i, args[a..]));
      }
      at, taken := i, a;
      assert Stream(fmt, i, args[a..]) == [];
    }

    /**
     * The end of the call: the terminator is handed to the sink unless
     * OVERFLOW is set, and the result is BYTE_COUNT, less the terminator
     * when it was stored. `s` is the stream the loop was handing over.
     */
    method Finish(ghost s: string, count: nat) returns (n: nat)
      requires Valid() && maxByteCount == count && '\0' !in s
      requires !overflow ==> Attempted == s
      requires overflow ==> |Attempted| <= |s| && Attempted == s[..|Attempted|]
      requires sink.Buffer? ==> |s| < buf.Length
      modifies this`overflow, this`byteCount, this`cursor, this`handled, this`Attempted, buf
      ensures sink.Handler? ==> handled == handledBase + s + ['\0'] && n == |s|
      ensures sink.Buffer? ==>
        buf[..|s| + 1] == s + ['\0'] && buf[|s| + 1..] == bufBase[|s| + 1..] && n == |s|
      ensures var t := Stored(s, count);
        sink.Bounded? ==>
          buf[..|t|] == t && buf[|t|..] == bufBase[|t|..] &&
          n == Returned(s, count) && (overflow <==> |s| >= count)
    {
      ghost var out := s + ['\0'];
      if !overflow {
        Put('\0');
        assert Attempted == out;
      } else {
        assert Attempted == out[..|Attempted|];
      }
      n := if overflow then byteCount else byteCount - 1;
      TruncationLaw(s, count);
    }

    /**
     * `parse_string`: the sink is handed exactly Stream(fmt, 0, args) and
     * a terminator, the terminator only when no overflow has occurred,
     * and the result counts the text bytes the sink kept.
     */
    method Parse(count: u32, fmt: string, args: seq<Arg>) returns (n: nat)
      requires Defined(fmt, 0, args)
      requires sink.Handler? || 'p' !in Conversions(fmt, 0)
      requires sink.Bounded? ==> count <= buf.Length
      requires sink.Buffer? ==> |Stream(fmt, 0, args)| < buf.Length
      modifies this, buf
      ensures var s := Stream(fmt, 0, args);
        sink.Handler? ==> handled == old(handled) + s + ['\0'] && n == |s|
      ensures var s := Stream(fmt, 0, args);
        sink.Buffer? ==>
          buf[..|s| + 1] == s + ['\0'] && buf[|s| + 1..] == old(buf[..])[|s| + 1..] && n == |s|
      ensures var s, t := Stream(fmt, 0, args), Stored(Stream(fmt, 0, args), count);
        sink.Bounded? ==>
          buf[..|t|] == t && buf[|t|..] == old(buf[..])[|t|..] &&
          n == Returned(s, count) && (overflow <==> |s| >= count)
    {
      byteCount := 0;
      maxByteCount := count;
      cursor := 0;
      flags, overflow, padWidth := NoFlags, false, 0;
      Attempted := [];
      handledBase := handled;
      bufBase := buf[..];
      var buff := new char[BuffSize](_ => '\0');
      ghost var at, taken := Passes(fmt, args, buff);
      n := Finish(Stream(fmt, 0, args), count);
    }

    /**
     * `parse_string` as written, on a formatter whose FLAGS outlive the
     * previous call, as the file-scope FLAGS word does. The word is cleared
     * only at the top of a pass, so with an empty format no pass runs, an
     * OVERFLOW left by the previous call survives, the terminator is not
     * sent and the call returns BYTE_COUNT, which is 0. With any other
     * format the first pass clears the stale bit and the call is `Parse`.
     */
    method ParseSharedFlags(count: u32, fmt: string, args: seq<Arg>) returns (n: nat)
      requires Defined(fmt, 0, args)
      requires sink.Handler? || 'p' !in Conversions(fmt, 0)
      requires sink.Bounded? ==> count <= buf.Length
      requires sink.Buffer? ==> |Stream(fmt, 0, args)| < buf.Length
      modifies this, buf
      ensures old(overflow) && At(fmt, 0) == '\0' ==>
        n == 0 && overflow && handled == old(handled) && buf[..] == old(buf[..])
      ensures var t := SharedFlagsStored(fmt, args, count, old(overflow));
        sink.Bounded? ==> buf[..|t|] == t && buf[|t|..] == old(buf[..])[|t|..]
      ensures var s := Stream(fmt, 0, args);
        (At(fmt, 0) != '\0' || !old(overflow)) && sink.Handler? ==> handled == old(handled) + s + ['\0'] && n == |s|
      ensures var s := Stream(fmt, 0, args);
        (At(fmt, 0) != '\0' || !old(overflow)) && sink.Buffer? ==>
          buf[..|s| + 1] == s + ['\0'] && buf[|s| + 1..] == old(buf[..])[|s| + 1..] && n == |s|
      ensures var s := Stream(fmt, 0, args);
        (At(fmt, 0) != '\0' || !old(overflow)) && sink.Bounded? ==>
          n == Returned(s, count) && (overflow <==> |s| >= count)
    {
      if At(fmt, 0) == '\0' && overflow {
        byteCount, maxByteCount := 0, count;
        n := byteCount;
        return;
      }
      n := Parse(count, fmt, args);
    }
  }

  /** `__printf`: format to the external handler; returns the handler's new history too. */
  method Printf(history: seq<char>, fmt: string, args: seq<Arg>) returns (n: nat, handled: seq<char>)
    requires Defined(fmt, 0, args)
    ensures handled == history + Stream(fmt, 0, args) + ['\0']
    ensures n == |Stream(fmt, 0, args)|
  {
    var none := new char[0];
    var f := new Formatter(Handler, none, history);
    n := f.Parse(U32_MAX, fmt, args);
    handled := f.handled;
  }

  /** `__sprintf`: format into a buffer the caller guarantees is large enough. */
  method Sprintf(buf: array<char>, fmt: string, args: seq<Arg>) returns (n: nat)
    requires Defined(fmt, 0, args) && 'p' !in Conversions(fmt, 0)
    requires |Stream(fmt, 0, args)| < buf.Length
    modifies buf
    ensures n == |Stream(fmt, 0, args)|
    ensures buf[..n + 1] == Stream(fmt, 0, args) + ['\0']
    ensures buf[n + 1..] == old(buf[n + 1..])
  {
    var f := new Formatter(Buffer, buf, []);
    n := f.Parse(U32_MAX, fmt, args);
  }

  /** `__snprintf`: format into a buffer of `count` bytes, truncating. */
  method Snprintf(buf: array<char>, count: u32, fmt: string, args: seq<Arg>) returns (n: nat)
    requires count <= buf.Length
    requires Defined(fmt, 0, args) && 'p' !in Conversions(fmt, 0)
    modifies buf
    ensures var t := Stored(Stream(fmt, 0, args), count);
      buf[..|t|] == t && buf[|t|..] == old(buf[|t|..])
    ensures n == Returned(Stream(fmt, 0, args), count) && n <= count
  {
    var f := new Formatter(Bounded, buf, []);
    n := f.Parse(count, fmt, args);
  }
}
