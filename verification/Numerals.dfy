/** Numerals in a radix up to 16, most significant digit first. */
module Numerals {
  import opened Arith
  import opened Words

  const DIGITS := "0123456789abcdef"

  function DigitChar(d: nat): (c: char)
    requires d < 16
    ensures DigitOf(c) == d && IsDigit(c, 16) && (c == '0' <==> d == 0)
    ensures d < 10 ==> c as int == '0' as int + d
  {
    DIGITS[d]
  }

  function DigitOf(c: char): (d: nat) {
    if 'a' <= c then c as int - 'a' as int + 10 else if '0' <= c then c as int - '0' as int else 0
  }

  predicate IsDigit(c: char, radix: nat) {
    ('0' <= c <= '9' || 'a' <= c <= 'f') && DigitOf(c) < radix
  }

  /** The value of a digit string. */
  function ParseDigits(s: string, radix: nat): nat {
    if s == "" then 0 else ParseDigits(s[..|s| - 1], radix) * radix + DigitOf(s[|s| - 1])
  }

  /** The value of a numeral with an optional minus sign. */
  function Parse(s: string, radix: nat): int {
    if s != "" && s[0] == '-' then 0 - ParseDigits(s[1..], radix) else ParseDigits(s, radix)
  }

  /** Digits only, at least one, and no leading zeros. */
  predicate IsNumeral(s: string, radix: nat) {
    && s != ""
    && (forall i :: 0 <= i < |s| ==> IsDigit(s[i], radix))
    && (s[0] == '0' ==> |s| == 1)
  }

  /** The digits of a reversed string, least significant first. */
  function DigitsOf(t: string): (ds: seq<nat>)
    ensures |ds| == |t| && forall i :: 0 <= i < |t| ==> ds[i] == DigitOf(t[i])
  {
    if t == "" then [] else [DigitOf(t[0])] + DigitsOf(t[1..])
  }

  /** std::reverse. */
  function Reversed(t: string): (r: string)
    ensures |r| == |t| && forall i :: 0 <= i < |t| ==> r[i] == t[|t| - 1 - i]
  {
    if t == "" then "" else Reversed(t[1..]) + [t[0]]
  }

  lemma {:induction false} ReversedValue(t: string, radix: nat)
    ensures ParseDigits(Reversed(t), radix) == Val(DigitsOf(t), radix)
  {
    hide DigitOf, Val;
    if t == "" {
      ValCons(0, [], radix);
    } else {
      ReversedValue(t[1..], radix);
      assert Reversed(t)[..|t| - 1] == Reversed(t[1..]);
      ValCons(DigitOf(t[0]), DigitsOf(t[1..]), radix);
    }
  }

  lemma DigitsSnoc(t: string, c: char, radix: nat)
    ensures Val(DigitsOf(t + [c]), radix) == Val(DigitsOf(t), radix) + DigitOf(c) * Pow(radix, |t|)
  {
    assert DigitsOf(t + [c]) == DigitsOf(t) + [DigitOf(c)];
    ValSnoc(DigitsOf(t), DigitOf(c), radix);
  }

  lemma DigitInjective(c: char, d: char)
    requires IsDigit(c, 16) && IsDigit(d, 16) && DigitOf(c) == DigitOf(d)
    ensures c == d
  {}

  /** The length of a numeral bounds its value from above. */
  lemma {:induction false} NumeralBelow(s: string, radix: nat)
    requires radix >= 1 && forall i :: 0 <= i < |s| ==> IsDigit(s[i], radix)
    ensures ParseDigits(s, radix) < Pow(radix, |s|)
  {
    hide DigitOf;
    if s != "" {
      NumeralBelow(s[..|s| - 1], radix);
      DigitBelow(ParseDigits(s[..|s| - 1], radix), DigitOf(s[|s| - 1]), radix, Pow(radix, |s| - 1));
    }
  }

  lemma DigitBelow(x: nat, d: nat, radix: nat, p: nat)
    requires x < p && d < radix
    ensures x * radix + d < radix * p
  {
    MulStrict(x, p, radix);
  }

  /** And, without leading zeros, from below. */
  lemma {:induction false} NumeralAbove(s: string, radix: nat)
    requires s != "" && DigitOf(s[0]) >= 1
    ensures ParseDigits(s, radix) >= Pow(radix, |s| - 1)
  {
    hide DigitOf;
    if |s| == 1 {
      assert ParseDigits(s[..0], radix) == 0;
    } else {
      NumeralAbove(s[..|s| - 1], radix);
      MulMonotone(Pow(radix, |s| - 2), ParseDigits(s[..|s| - 1], radix), radix);
    }
  }

  lemma PowMonotone(b: nat, m: nat, n: nat)
    requires b >= 1 && m <= n
    ensures Pow(b, m) <= Pow(b, n)
  {
    hide Pow;
    PowAdd(b, m, n - m);
    PowPositive(b, n - m);
    MulMonotone(1, Pow(b, n - m), Pow(b, m));
  }

  lemma FirstDigit(s: string, radix: nat)
    requires radix <= 16 && IsNumeral(s, radix)
    ensures |s| > 1 ==> DigitOf(s[0]) >= 1
  {}

  /** The longer of two numerals has the greater value. */
  lemma SameLength(s: string, t: string, radix: nat)
    requires 2 <= radix <= 16 && IsNumeral(s, radix) && IsNumeral(t, radix)
    requires ParseDigits(s, radix) == ParseDigits(t, radix)
    ensures |t| <= |s|
  {
    hide Pow, ParseDigits, DigitOf;
    if |s| < |t| {
      FirstDigit(t, radix);
      NumeralBelow(s, radix);
      NumeralAbove(t, radix);
      PowMonotone(radix, |s|, |t| - 1);
    }
  }

  /** The value determines the digits of a string of known length. */
  lemma {:induction false} DigitsUnique(s: string, t: string, radix: nat)
    requires 2 <= radix <= 16 && |s| == |t| && ParseDigits(s, radix) == ParseDigits(t, radix)
    requires forall i :: 0 <= i < |s| ==> IsDigit(s[i], radix) && IsDigit(t[i], radix)
    ensures s == t
  {
    if s != "" {
      var n := |s| - 1;
      assert IsDigit(s[n], radix) && IsDigit(t[n], radix);
      DivModUnique(ParseDigits(s, radix), radix, ParseDigits(s[..n], radix), DigitOf(s[n]));
      DivModUnique(ParseDigits(t, radix), radix, ParseDigits(t[..n], radix), DigitOf(t[n]));
      DigitInjective(s[n], t[n]);
      hide ParseDigits, DigitOf;
      DigitsUnique(s[..n], t[..n], radix);
      assert s == s[..n] + [s[n]] && t == t[..n] + [t[n]];
    }
  }

  /** A number has one numeral only. */
  lemma NumeralUnique(s: string, t: string, radix: nat)
    requires 2 <= radix <= 16 && IsNumeral(s, radix) && IsNumeral(t, radix)
    requires ParseDigits(s, radix) == ParseDigits(t, radix)
    ensures s == t
  {
    hide ParseDigits, DigitOf;
    SameLength(s, t, radix);
    SameLength(t, s, radix);
    DigitsUnique(s, t, radix);
  }
}
