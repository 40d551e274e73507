/** Decimal numerals: digit strings, which JavaScript's `Number` reads
    exactly as long as their value is at most 2^53, and the canonical
    numerals its `String` writes for a safe integer. From 10^21 on `String`
    switches to exponent form; that range is excluded by `Bumpable`, not by
    the build script, which would write "1.2.1e+21" for the version
    "1.2.999999999999999999999". */
module Decimal {

  predicate IsDigit(c: char) { '0' <= c <= '9' }

  /** Every character is a decimal digit; the empty string qualifies. */
  predicate IsDigits(s: string) { forall i :: 0 <= i < |s| ==> IsDigit(s[i]) }

  /** A non-empty numeral without superfluous leading zeros. */
  predicate IsCanonical(s: string)
  {
    |s| >= 1 && IsDigits(s) && (s[0] == '0' ==> |s| == 1)
  }

  function DigitValue(c: char): (d: nat)
    requires IsDigit(c)
    ensures d < 10
  {
    c as int - '0' as int
  }

  function DigitChar(d: nat): (c: char)
    requires d < 10
    ensures IsDigit(c) && DigitValue(c) == d
    ensures (c == '0') <==> (d == 0)
  {
    ('0' as int + d) as char
  }

  function Pow10(k: nat): (p: nat)
    ensures p >= 1
  {
    if k == 0 then 1 else 10 * Pow10(k - 1)
  }

  /** The value of a digit string, most significant digit first; the empty
      string is worth 0, as `Number("")` is. A numeral of k digits is worth
      less than 10^k. */
  function DigitsToNat(s: string): (n: nat)
    requires IsDigits(s)
    ensures n < Pow10(|s|)
    decreases |s|
  {
    if |s| == 0 then 0
    else DigitsToNat(s[..|s| - 1]) * 10 + DigitValue(s[|s| - 1])
  }

  /** The canonical numeral of `n`; it reads back as `n`. */
  function NatToDigits(n: nat): (s: string)
    ensures IsCanonical(s)
    ensures DigitsToNat(s) == n
    decreases n
  {
    if n < 10 then [DigitChar(n)]
    else
      var init := NatToDigits(n / 10);
      var s := init + [DigitChar(n % 10)];
      assert s[..|s| - 1] == init;
      s
  }

  /** A numeral whose first digit is not zero is worth at least one. */
  lemma {:induction false} LeadingDigitPositive(s: string)
    requires IsDigits(s) && |s| >= 1 && s[0] != '0'
    ensures DigitsToNat(s) >= 1
    decreases |s|
  {
    if |s| > 1 {
      LeadingDigitPositive(s[..|s| - 1]);
    }
  }

  /** Every canonical numeral is the rendering of its own value, so two
      canonical numerals with the same value are the same string. */
  lemma {:induction false} CanonicalRoundTrip(s: string)
    requires IsCanonical(s)
    ensures NatToDigits(DigitsToNat(s)) == s
    decreases |s|
  {
    var n := DigitsToNat(s);
    if |s| == 1 {
      var none: string := s[..|s| - 1];
      assert none == [];
      assert DigitsToNat(none) == 0;
      assert n == DigitsToNat(none) * 10 + DigitValue(s[|s| - 1]);
      assert NatToDigits(n) == [DigitChar(n)];
      assert DigitChar(n) == s[0];
    } else {
      var init := s[..|s| - 1];
      var last := s[|s| - 1];
      assert init[0] == s[0] && s[0] != '0';
      LeadingDigitPositive(init);
      CanonicalRoundTrip(init);
      assert n == DigitsToNat(init) * 10 + DigitValue(last);
      assert n / 10 == DigitsToNat(init) && n % 10 == DigitValue(last);
      assert DigitChar(n % 10) == last;
      assert NatToDigits(n) == init + [last];
      assert init + [last] == s;
    }
  }
}
