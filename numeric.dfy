/**
 * Integer-to-text conversion of the formatter: the fixed-width integer
 * types of printf.h, the two digit tables, the digit string that the
 * back-to-front converter leaves in its scratch buffer, the read-back of
 * such a string, and the signed rendering used by the `%d` conversion.
 */
module Numeric {
  import opened Basics

  type u32 = x: int | 0 <= x < 0x1_0000_0000
  type u64 = x: int | 0 <= x < 0x1_0000_0000_0000_0000
  type s32 = x: int | -0x8000_0000 <= x < 0x8000_0000

  const S32_MIN: int := -0x8000_0000
  const S32_MAX: int := 0x7FFF_FFFF
  const U32_MAX: int := 0xFFFF_FFFF
  const U64_LIMIT: int := 0x1_0000_0000_0000_0000

  /** The digit tables, indexed by digit value. */
  const LowerDigits: string := "0123456789abcdef"
  const UpperDigits: string := "0123456789ABCDEF"

  /** The bases the conversions ask for: binary, decimal and hexadecimal. */
  predicate IsBase(base: int) {
    base == 2 || base == 10 || base == 16
  }

  /** The quotient `x / base`, written as a division by each constant base. */
  function Quot(x: nat, base: nat): (q: nat)
    requires IsBase(base)
    ensures q <= x
  {
    if base == 2 then x / 2 else if base == 10 then x / 10 else x / 16
  }

  /** The remainder `x % base`, written the same way. */
  function Rem(x: nat, base: nat): (r: nat)
    requires IsBase(base)
    ensures r < base
  {
    if base == 2 then x % 2 else if base == 10 then x % 10 else x % 16
  }

  /** Quot and Rem are C's `/` and `%` on the unsigned value. */
  lemma DivMod(x: nat, base: nat)
    requires IsBase(base)
    ensures x / base == Quot(x, base) && x % base == Rem(x, base)
  {
  }

  /** Division with remainder; every base is at least 2, so the quotient is at most half. */
  lemma QuotRem(x: nat, base: nat)
    requires IsBase(base)
    ensures x == Quot(x, base) * base + Rem(x, base)
    ensures 2 * Quot(x, base) <= x
  {
  }

  function Alphabet(upper: bool): (t: string)
    ensures |t| == 16
  {
    if upper then UpperDigits else LowerDigits
  }

  /** Value of a digit character of either table; -1 for any other character. */
  function DigitValue(c: char): (r: int) {
    if '0' <= c <= '9' then c as int - '0' as int
    else if 'a' <= c <= 'f' then c as int - 'a' as int + 10
    else if 'A' <= c <= 'F' then c as int - 'A' as int + 10
    else -1
  }

  /** Each table entry reads back as its own index. */
  lemma {:induction false} AlphabetDecodes(d: nat, upper: bool)
    requires d < 16
    ensures DigitValue(Alphabet(upper)[d]) == d
    ensures Alphabet(upper)[d] != '\0' && Alphabet(upper)[d] != '-'
  {
  }

  /**
   * The digits of `x` in `base`, most significant first: one digit per
   * step of "emit x % base, divide by base, stop once the quotient is 0".
   */
  function Digits(x: nat, base: nat, upper: bool): (ds: string)
    requires IsBase(base)
    ensures |ds| >= 1
    decreases x
  {
    var d := Alphabet(upper)[Rem(x, base)];
    if Quot(x, base) == 0 then [d] else Digits(Quot(x, base), base, upper) + [d]
  }

  /**
   * The converter's own order of work: the digits of `v` written in front
   * of `tail`, least significant first, each one prepended to what is
   * already written.
   */
  function DigitsOnto(v: nat, base: nat, upper: bool, tail: string): (r: string)
    requires IsBase(base)
    ensures |r| > |tail|
    decreases v
  {
    var t := [Alphabet(upper)[Rem(v, base)]] + tail;
    if Quot(v, base) == 0 then t else DigitsOnto(Quot(v, base), base, upper, t)
  }

  /** Writing the digits back to front in front of `tail` leaves the digit string before `tail`. */
  lemma {:induction false} DigitsOntoIsDigits(v: nat, base: nat, upper: bool, tail: string)
    requires IsBase(base)
    ensures DigitsOnto(v, base, upper, tail) == Digits(v, base, upper) + tail
    decreases v
  {
    var q, d := Quot(v, base), Alphabet(upper)[Rem(v, base)];
    if q != 0 {
      var front := Digits(q, base, upper);
      assert Digits(v, base, upper) == front + [d];
      DigitsOntoIsDigits(q, base, upper, [d] + tail);
      AppendAssoc(front, [d], tail);
    } else {
      assert Digits(v, base, upper) == [d];
    }
  }

  /** A string every character of which is a digit of `base`. */
  predicate IsDigitString(ds: string, base: nat) {
    forall k :: 0 <= k < |ds| ==> 0 <= DigitValue(ds[k]) < base
  }

  /** Reads a digit string back in `base`, most significant digit first. */
  function ValueOf(ds: string, base: nat): (v: nat)
    requires IsDigitString(ds, base)
  {
    if ds == [] then 0
    else ValueOf(ds[..|ds| - 1], base) * base + DigitValue(ds[|ds| - 1])
  }

  /** Every character comes from the selected table and is a digit of `base`. */
  lemma {:induction false} DigitsInAlphabet(x: nat, base: nat, upper: bool)
    requires IsBase(base)
    ensures forall c :: c in Digits(x, base, upper) ==> c in Alphabet(upper)[..base]
    ensures IsDigitString(Digits(x, base, upper), base)
    ensures '\0' !in Digits(x, base, upper) && '-' !in Digits(x, base, upper)
  {
    var ds := Digits(x, base, upper);
    var r := Rem(x, base);
    var d := Alphabet(upper)[r];
    AlphabetDecodes(r, upper);
    assert Alphabet(upper)[..base][r] == d;
    if Quot(x, base) == 0 {
      assert ds == [d];
    } else {
      var front := Digits(Quot(x, base), base, upper);
      DigitsInAlphabet(Quot(x, base), base, upper);
      assert ds == front + [d];
      forall k | 0 <= k < |ds|
        ensures 0 <= DigitValue(ds[k]) < base
      {
        if k < |front| {
          assert ds[k] == front[k];
        }
      }
    }
  }

  /** Reading the digits back in the same base gives the converted value. */
  lemma {:induction false} DigitsRoundTrip(x: nat, base: nat, upper: bool)
    requires IsBase(base)
    ensures IsDigitString(Digits(x, base, upper), base)
    ensures ValueOf(Digits(x, base, upper), base) == x
  {
    var ds := Digits(x, base, upper);
    var q, r := Quot(x, base), Rem(x, base);
    QuotRem(x, base);
    DigitsInAlphabet(x, base, upper);
    AlphabetDecodes(r, upper);
    assert DigitValue(ds[|ds| - 1]) == r;
    if q != 0 {
      DigitsRoundTrip(q, base, upper);
      assert ds[..|ds| - 1] == Digits(q, base, upper);
      assert ValueOf(ds, base) == ValueOf(Digits(q, base, upper), base) * base + r;
    } else {
      assert ds[..|ds| - 1] == [];
    }
  }

  /** Zero is the single digit "0"; any other value has no leading zero. */
  lemma {:induction false} DigitsLeading(x: nat, base: nat, upper: bool)
    requires IsBase(base)
    ensures x == 0 <==> Digits(x, base, upper) == "0"
    ensures x != 0 ==> DigitValue(Digits(x, base, upper)[0]) != 0
  {
    var ds := Digits(x, base, upper);
    if Quot(x, base) != 0 {
      DigitsLeading(Quot(x, base), base, upper);
      assert ds[0] == Digits(Quot(x, base), base, upper)[0];
    } else {
      AlphabetDecodes(Rem(x, base), upper);
    }
  }

  function Pow2(k: nat): (r: nat) {
    if k == 0 then 1 else 2 * Pow2(k - 1)
  }

  lemma {:induction false} Pow2Add(a: nat, b: nat)
    ensures Pow2(a + b) == Pow2(a) * Pow2(b)
  {
    if a > 0 {
      Pow2Add(a - 1, b);
    }
  }

  lemma Pow2Of64()
    ensures Pow2(64) == U64_LIMIT
  {
    assert Pow2(1) == 2;
    Pow2Add(1, 1);
    Pow2Add(2, 2);
    Pow2Add(4, 4);
    Pow2Add(8, 8);
    Pow2Add(16, 16);
    Pow2Add(32, 32);
  }

  /** A value below 2^k has at most k digits in any of the three bases. */
  lemma {:induction false} DigitsLengthPow2(x: nat, base: nat, upper: bool, k: nat)
    requires IsBase(base) && 1 <= k && x < Pow2(k)
    ensures |Digits(x, base, upper)| <= k
  {
    if Quot(x, base) != 0 {
      var q := Quot(x, base);
      QuotRem(x, base);
      assert Pow2(k) == 2 * Pow2(k - 1);
      assert q < Pow2(k - 1);
      assert k - 1 >= 1;
      DigitsLengthPow2(q, base, upper, k - 1);
    }
  }

  /** A 64-bit value has at most 64 digits, the base-2 worst case. */
  lemma {:induction false} DigitsLength64(x: u64, base: nat, upper: bool)
    requires IsBase(base)
    ensures |Digits(x, base, upper)| <= 64
  {
    Pow2Of64();
    DigitsLengthPow2(x, base, upper, 64);
  }

  /** The text of a signed value: a '-' and the digits of its magnitude when negative. */
  function SignedText(x: s32, base: nat, upper: bool): (t: string)
    requires IsBase(base)
  {
    if x < 0 then ['-'] + Digits(-(x as int), base, upper) else Digits(x, base, upper)
  }

  /** Reads signed text back: an optional leading '-' and a digit string. */
  function SignedValueOf(t: string, base: nat): (r: int)
    requires |t| > 0 && t[0] == '-' ==> IsDigitString(t[1..], base)
    requires |t| > 0 && t[0] != '-' ==> IsDigitString(t, base)
  {
    if |t| > 0 && t[0] == '-' then -(ValueOf(t[1..], base) as int) else ValueOf(t, base)
  }

  /** Every 32-bit value, the most negative one included, reads back from its text. */
  lemma {:induction false} SignedRoundTrip(x: s32, base: nat, upper: bool)
    requires IsBase(base)
    ensures |SignedText(x, base, upper)| > 0
    ensures (SignedText(x, base, upper)[0] == '-') <==> x < 0
    ensures '\0' !in SignedText(x, base, upper)
    ensures x < 0 ==> IsDigitString(SignedText(x, base, upper)[1..], base)
    ensures x >= 0 ==> IsDigitString(SignedText(x, base, upper), base)
    ensures SignedValueOf(SignedText(x, base, upper), base) == x
  {
    var t := SignedText(x, base, upper);
    if x < 0 {
      var m: nat := -(x as int);
      var ds := Digits(m, base, upper);
      DigitsRoundTrip(m, base, upper);
      DigitsInAlphabet(m, base, upper);
      assert t == ['-'] + ds;
      assert t[1..] == ds;
    } else {
      var ds := Digits(x, base, upper);
      DigitsRoundTrip(x, base, upper);
      DigitsInAlphabet(x, base, upper);
      assert t == ds;
      assert t[0] in ds;
    }
  }

  /**
   * The magnitude the source hands to the unsigned converter for a negative
   * value: `-x` computed in 32-bit two's complement, where negating the most
   * negative value gives it back, then widened to 64 bits.
   */
  function AsWrittenMagnitude(x: s32): (m: u64)
    requires x < 0
  {
    var negated := if x == S32_MIN then x else -x;
    negated % U64_LIMIT
  }

  /** The text the source produces for a negative value. */
  function AsWrittenSignedText(x: s32, base: nat, upper: bool): (r: string)
    requires IsBase(base) && x < 0
  {
    ['-'] + Digits(AsWrittenMagnitude(x), base, upper)
  }

  /** The two renderings agree on every negative value except the most negative one. */
  lemma {:induction false} AsWrittenAgreesAboveMinimum(x: s32, base: nat, upper: bool)
    requires IsBase(base) && S32_MIN < x < 0
    ensures AsWrittenSignedText(x, base, upper) == SignedText(x, base, upper)
  {
  }

  /** On the most negative value the source's text reads back as -(2^64 - 2^31). */
  lemma {:induction false} AsWrittenMinimumMisread(base: nat, upper: bool)
    requires IsBase(base)
    ensures IsDigitString(AsWrittenSignedText(S32_MIN, base, upper)[1..], base)
    ensures SignedValueOf(AsWrittenSignedText(S32_MIN, base, upper), base)
         == -(U64_LIMIT - 0x8000_0000)
    ensures SignedValueOf(AsWrittenSignedText(S32_MIN, base, upper), base) != S32_MIN
  {
    var t := AsWrittenSignedText(S32_MIN, base, upper);
    assert AsWrittenMagnitude(S32_MIN) == U64_LIMIT - 0x8000_0000;
    DigitsRoundTrip(AsWrittenMagnitude(S32_MIN), base, upper);
    assert t[1..] == Digits(AsWrittenMagnitude(S32_MIN), base, upper);
  }
}
