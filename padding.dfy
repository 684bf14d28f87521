/**
 * The padding policy of the output writer: the FLAGS word, the padding
 * amount, the three layouts (zeros after the sign, spaces before the text,
 * spaces after the text), and an independent description of every layout
 * as "the text with one run of fill characters inserted at one place".
 */
module Padding {
  import opened Basics

  /**
   * The conversion bits of the FLAGS word, one field per mask bit. The
   * sink's OVERFLOW bit is kept by the formatter beside them.
   */
  datatype Flags = Flags(
    zeroPad: bool,    // '0': zero padding
    leftPad: bool,    // '-': spaces before the text
    rightPad: bool,   // '+': spaces after the text
    hexUpper: bool,   // 'X': upper-case digit table
    signed: bool)     // the text starts with the sign of a negative value

  const NoFlags: Flags := Flags(false, false, false, false, false)

  /** At most one of the three padding bits, as the directive parser leaves them. */
  predicate SinglePadFlag(f: Flags) {
    !(f.zeroPad && f.leftPad) && !(f.zeroPad && f.rightPad) && !(f.leftPad && f.rightPad)
  }

  function Repeat(c: char, n: nat): (s: string)
    ensures |s| == n
    ensures forall k :: 0 <= k < n ==> s[k] == c
  {
    if n == 0 then [] else Repeat(c, n - 1) + [c]
  }

  /** The padding amount: no padding without a width, otherwise what the text falls short of it. */
  function PadCount(width: nat, len: nat): (r: nat) {
    if width == 0 then 0
    else if width - len < 0 then 0
    else width - len
  }

  lemma PadCountIsShortfall(width: nat, len: nat)
    ensures PadCount(width, len) == Max(0, width - len)
    ensures width == 0 ==> PadCount(width, len) == 0
    ensures len + PadCount(width, len) == Max(width, len)
  {
  }

  /** Whether the layout puts spaces before the text. */
  predicate SpacesBefore(f: Flags, width: nat) {
    !f.zeroPad && (f.leftPad || (!f.rightPad && width != 0))
  }

  /** The characters emitted before the text proper: the sign and the zeros, or the leading spaces. */
  function Leading(text: string, f: Flags, width: nat): (r: string)
    requires f.signed ==> |text| > 0
  {
    var pad := PadCount(width, |text|);
    if f.zeroPad then (if f.signed then [text[0]] else []) + Repeat('0', pad)
    else if SpacesBefore(f, width) then Repeat(' ', pad)
    else []
  }

  /** The part of the text emitted after the leading characters. */
  function Body(text: string, f: Flags): (r: string)
    requires f.signed ==> |text| > 0
  {
    if f.zeroPad && f.signed then text[1..] else text
  }

  /** The spaces emitted after the text. */
  function Trailing(text: string, f: Flags, width: nat): (r: string) {
    if f.rightPad then Repeat(' ', PadCount(width, |text|)) else []
  }

  /** Everything the output writer emits for one text: it adds nothing but '0' and ' '. */
  function Padded(text: string, f: Flags, width: nat): (r: string)
    requires f.signed ==> |text| > 0
    ensures forall c :: c in r ==> c in text || c == '0' || c == ' '
  {
    Leading(text, f, width) + Body(text, f) + Trailing(text, f, width)
  }

  /** Appending the sign and then the zeros appends the zero-padded lead. */
  lemma LeadingAppend(start: string, text: string, f: Flags, width: nat)
    requires f.zeroPad && f.signed && |text| > 0
    ensures start + [text[0]] + Repeat('0', PadCount(width, |text|)) == start + Leading(text, f, width)
  {
  }

  /** Appending the writer's output piece by piece appends Padded. */
  lemma PaddedAppend(start: string, text: string, f: Flags, width: nat)
    requires f.signed ==> |text| > 0
    ensures start + Leading(text, f, width) + Body(text, f) + Trailing(text, f, width)
         == start + Padded(text, f, width)
  {
  }

  /** Reference layout: `n` copies of `fill` inserted into `text` at position `at`. */
  function Insert(text: string, at: nat, fill: char, n: nat): (r: string)
    requires at <= |text|
    ensures |r| == |text| + n
    ensures r[..at] == text[..at] && r[at + n..] == text[at..]
    ensures forall k :: at <= k < at + n ==> r[k] == fill
  {
    text[..at] + Repeat(fill, n) + text[at..]
  }

  /** Where the padding goes: after the sign, before the text, or after it. */
  function PadPosition(text: string, f: Flags): (r: nat) {
    if f.zeroPad then (if f.signed && |text| > 0 then 1 else 0)
    else if f.rightPad then |text|
    else 0
  }

  function PadChar(f: Flags): (r: char) {
    if f.zeroPad then '0' else ' '
  }

  /**
   * With one padding bit, the writer's output is the text with exactly
   * PadCount fill characters inserted at PadPosition: nothing of the text
   * is lost, duplicated or reordered.
   */
  lemma {:induction false} PaddedIsInsertion(text: string, f: Flags, width: nat)
    requires SinglePadFlag(f) && (f.signed ==> |text| > 0)
    ensures PadPosition(text, f) <= |text|
    ensures Padded(text, f, width)
         == Insert(text, PadPosition(text, f), PadChar(f), PadCount(width, |text|))
  {
    var pad := PadCount(width, |text|);
    if f.zeroPad && f.signed {
      assert text == text[..1] + text[1..];
    } else if f.zeroPad {
    } else if SpacesBefore(f, width) {
    } else if f.rightPad {
      assert text[|text|..] == [];
    } else {
      assert pad == 0;
    }
  }

  /** With one padding bit, the output is as long as the width, or the text when it is longer. */
  lemma {:induction false} PaddedLength(text: string, f: Flags, width: nat)
    requires SinglePadFlag(f) && (f.signed ==> |text| > 0)
    ensures |Padded(text, f, width)| == |text| + PadCount(width, |text|)
    ensures |Padded(text, f, width)| == Max(width, |text|)
  {
    PaddedIsInsertion(text, f, width);
  }

  /** Zero padding of signed text: the sign first, then the zeros, then the digits. */
  lemma {:induction false} ZeroPadSignFirst(text: string, f: Flags, width: nat)
    requires SinglePadFlag(f) && f.zeroPad && f.signed && |text| > 0
    ensures var out, pad := Padded(text, f, width), PadCount(width, |text|);
      out[0] == text[0] &&
      (forall k :: 1 <= k <= pad ==> out[k] == '0') &&
      out[pad + 1..] == text[1..]
  {
    PaddedIsInsertion(text, f, width);
  }

  /** Spaces go before the text for '-' or a bare width, and after it only for '+'. */
  lemma {:induction false} SpacePlacement(text: string, f: Flags, width: nat)
    requires SinglePadFlag(f) && !f.zeroPad && (f.signed ==> |text| > 0)
    ensures var pad := PadCount(width, |text|);
      (!f.rightPad ==> Padded(text, f, width) == Repeat(' ', pad) + text) &&
      (f.rightPad ==> Padded(text, f, width) == text + Repeat(' ', pad))
  {
    var pad := PadCount(width, |text|);
    if !f.rightPad && !SpacesBefore(f, width) {
      assert pad == 0 && Repeat(' ', pad) == [];
    }
  }
}
