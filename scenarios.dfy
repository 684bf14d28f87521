/**
 * Worked formats: concrete calls whose output follows from the
 * definitions, for the behaviours a reader of the parser is most likely
 * to get wrong.
 */
module Scenarios {
  import opened Numeric
  import opened Padding
  import opened Format
  import opened Printf

  /** Zero padding goes between the sign and the digits. */
  lemma ZeroPaddedNegative()
    ensures Defined("%05d", 0, [Int(-42)])
    ensures Stream("%05d", 0, [Int(-42)]) == "-0042"
  {
    var fmt := "%05d";
    assert DigitRunEnd(fmt, 2) == 3;
    assert ValueOf("5", 10) == 5;
    var f := NoFlags.(zeroPad := true);
    assert ParseDirective(fmt, 1) == Directive(f, 5, 'd', 4);
    assert Digits(42, 10, false) == "42";
    assert Padded("-42", f.(signed := true), 5) == "-0042";
    assert OnePass(fmt, 0, [Int(-42)]) == Pass("-0042", 4, 1);
  }

  /** '-' pads with spaces in front of the text, like a bare width. */
  lemma MinusPadsBefore()
    ensures Defined("%-4d|", 0, [Int(7)])
    ensures Stream("%-4d|", 0, [Int(7)]) == "   7|"
  {
    var fmt := "%-4d|";
    assert DigitRunEnd(fmt, 2) == 3;
    assert ValueOf("4", 10) == 4;
    var f := NoFlags.(leftPad := true);
    assert ParseDirective(fmt, 1) == Directive(f, 4, 'd', 4);
    assert Digits(7, 10, false) == "7";
    assert Padded("7", f, 4) == "   7";
    assert OnePass(fmt, 0, [Int(7)]) == Pass("   7", 4, 1);
    assert OnePass(fmt, 4, []) == Pass("|", 5, 0);
  }

  /** '+' pads with spaces after the text. */
  lemma PlusPadsAfter()
    ensures Defined("%+4s|", 0, [Str("ab")])
    ensures Stream("%+4s|", 0, [Str("ab")]) == "ab  |"
  {
    var fmt := "%+4s|";
    assert DigitRunEnd(fmt, 2) == 3;
    assert ValueOf("4", 10) == 4;
    var f := NoFlags.(rightPad := true);
    assert ParseDirective(fmt, 1) == Directive(f, 4, 's', 4);
    assert CString("ab") == "ab";
    assert Padded("ab", f, 4) == "ab  ";
    assert OnePass(fmt, 0, [Str("ab")]) == Pass("ab  ", 4, 1);
    assert OnePass(fmt, 4, []) == Pass("|", 5, 0);
  }

  /** `x` and `X` pick the two digit tables. */
  lemma HexCase()
    ensures Defined("%x%X", 0, [U32(255), U32(255)])
    ensures Stream("%x%X", 0, [U32(255), U32(255)]) == "ffFF"
  {
    var fmt := "%x%X";
    assert ParseDirective(fmt, 1) == Directive(NoFlags, 0, 'x', 2);
    assert ParseDirective(fmt, 3) == Directive(NoFlags, 0, 'X', 4);
    assert Digits(255, 16, false) == "ff";
    assert Digits(255, 16, true) == "FF";
    assert OnePass(fmt, 0, [U32(255), U32(255)]) == Pass("ff", 2, 1);
    assert OnePass(fmt, 2, [U32(255)]) == Pass("FF", 4, 1);
  }

  /** A bounded call of 5 bytes with format "abcdef" keeps five characters, no terminator, and returns 5. */
  lemma TruncatedWithoutTerminator()
    ensures Defined("abcdef", 0, [])
    ensures Stored(Stream("abcdef", 0, []), 5) == "abcde"
    ensures Returned(Stream("abcdef", 0, []), 5) == 5
  {
    LiteralsForwarded("abcdef", 0, []);
    assert Stream("abcdef", 0, []) == "abcdef";
  }

  /**
   * The shared-FLAGS finding, run through the engine on one formatter that
   * keeps its FLAGS across calls: a fresh formatter terminates "", but
   * after "abc" overflows a 2-byte limit, "" into 8 bytes stores nothing.
   */
  method StaleOverflowSkipsTerminator(buf: array<char>) returns (first: nat, second: nat, third: nat)
    requires buf.Length >= 8
    modifies buf
    ensures buf[0] == 'a' && buf[1] == 'b'
    ensures first == 0 && second == 2 && third == 0
  {
    LiteralsForwarded("abc", 0, []);
    assert Stream("", 0, []) == [] && Stored([], 1) == ['\0'];
    assert Stream("abc", 0, []) == "abc" && Stored("abc", 2) == "ab";
    var f := new Formatter(Bounded, buf, []);
    first := f.ParseSharedFlags(1, "", []);
    assert buf[..1] == ['\0'];
    second := f.ParseSharedFlags(2, "abc", []);
    assert f.overflow && buf[..2] == "ab";
    ghost var kept := buf[..];
    third := f.ParseSharedFlags(8, "", []);
    assert buf[..] == kept;
  }
}
