/** Printing wide integers in radix 2, 10 or 16 (src/utils/APInt.cpp, to_string). */
module ApIntPrint {
  import opened Arith
  import opened Words
  import opened ApInt
  import opened ApIntShift
  import opened ApIntDiv
  import opened Numerals

  const BILLION: int := 1000000000

  // ----- radix 10 -----

  /** The upper limbs divided by 10^9 in place. */
  ghost predicate ChunkInvariant(now: seq<nat>, was: seq<nat>, rem: nat) {
    rem < BILLION && Val(now, B32) * BILLION + rem == Val(was, B32)
  }

  lemma ChunkStep(now: seq<nat>, was: seq<nat>, rem: nat, u: u32, q: u32, rem': nat)
    requires ChunkInvariant(now, was, rem) && rem' < BILLION && q * BILLION + rem' == rem * B32 + u
    ensures ChunkInvariant([q] + now, [u] + was, rem')
  {
    hide Val;
    ValCons(q, now, B32);
    ValCons(u, was, B32);
  }

  lemma ChunkWord(rem: nat, u: u32)
    requires rem < BILLION
    ensures BitOr(Shl(rem, 32), u) == rem * B32 + u < BILLION * B32
  {
    Pow2Literals();
    OrDisjoint(rem, u, 32);
    ShlIsMul(rem, 32);
  }

  method DivideByBillion(l: array<u32>, n: nat) returns (rem: u64)
    requires n <= l.Length
    modifies l
    ensures ChunkInvariant(l[..n], old(l[..n]), rem)
    ensures l[n..] == old(l[n..])
  {
    hide Val, BitOr, Shl;
    ghost var was := l[..];
    rem := 0;
    ValCons(0, [], B32);
    var i := n;
    assert l[n..n] == [] && was[n..n] == [];
    while i > 0
      invariant 0 <= i <= n && rem < BILLION
      invariant ChunkInvariant(l[i..n], was[i..n], rem)
      invariant l[..i] == was[..i] && l[n..] == was[n..]
    {
      hide ChunkInvariant;
      i := i - 1;
      assert l[i] == l[..i + 1][i] == was[i];
      ChunkWord(rem, l[i]);
      var cur: u64 := BitOr(Shl(rem, 32), l[i]);
      ghost var up, r := l[i + 1..n], rem;
      l[i] := cur / BILLION;
      rem := cur % BILLION;
      ChunkStep(up, was[i + 1..n], r, was[i], l[i], rem);
      assert l[i..n] == [l[i]] + up && was[i..n] == [was[i]] + was[i + 1..n];
    }
    assert l[0..n] == l[..n] && was[0..n] == was[..n];
  }

  /** The digits out so far, and what is still to come: at most p digits in rem, then q. */
  ghost predicate Printed(s: string, rem: nat, p: nat, q: nat, total: nat) {
    Val(DigitsOf(s), 10) + Pow(10, |s|) * (rem + p * q) == total
  }

  lemma PrintedStep(s: string, rem: nat, p: nat, q: nat, total: nat, c: char)
    requires Printed(s, rem, 10 * p, q, total) && DigitOf(c) == rem % 10
    ensures Printed(s + [c], rem / 10, p, q, total)
  {
    hide Val, DigitsOf, DigitOf;
    DigitsSnoc(s, c, 10);
    PowNext(10, |s|);
    PrintedAlgebra(Pow(10, |s|), rem, rem / 10, rem % 10, p, q);
  }

  lemma PrintedAlgebra(w: int, rem: int, d: int, m: int, p: int, q: int)
    requires rem == 10 * d + m
    ensures w * (rem + 10 * p * q) == m * w + (10 * w) * (d + p * q)
  {
    MulAssoc(10, p, q);
    MulDistribute(m, 10 * (d + p * q), w);
    MulAssoc(w, 10, d + p * q);
  }

  lemma PrintedDone(s: string, p: nat, q: nat, total: nat)
    requires Printed(s, 0, p, q, total) && (q == 0 || p == 1)
    ensures Printed(s, 0, 1, q, total)
  {}

  /** Nine digits of an inner chunk, or the significant ones of the last. */
  method PrintChunk(t: string, chunk: nat, n: nat, ghost q: nat, ghost total: nat) returns (s: string)
    requires chunk < BILLION && (n == 0 ==> chunk > 0 && q == 0)
    requires Printed(t, chunk, BILLION, q, total) && forall i :: 0 <= i < |t| ==> IsDigit(t[i], 10)
    ensures Printed(s, 0, 1, q, total) && forall i :: 0 <= i < |s| ==> IsDigit(s[i], 10)
    ensures n == 0 ==> s != "" && s[|s| - 1] != '0'
  {
    s := t;
    hide Printed;
    var rem: nat := chunk;
    var k := 0;
    assert Pow(10, 9) == BILLION by { TenToNine(); }
    while k < 9 && (n > 0 || rem > 0)
      invariant k <= 9 && rem < Pow(10, 9 - k)
      invariant Printed(s, rem, Pow(10, 9 - k), q, total)
      invariant forall i :: 0 <= i < |s| ==> IsDigit(s[i], 10)
      invariant n == 0 && rem == 0 ==> s != "" && s[|s| - 1] != '0'
    {
      hide DigitOf;
      PowNext(10, 9 - k - 1);
      var c := ('0' as int + rem % 10) as char;
      DigitCharOf(rem % 10, c);
      PrintedStep(s, rem, Pow(10, 9 - k - 1), q, total, c);
      s := s + [c];
      rem := rem / 10;
      k := k + 1;
    }
    assert Pow(10, 0) == 1;
    PrintedDone(s, Pow(10, 9 - k), q, total);
  }

  lemma DigitCharOf(d: nat, c: char)
    requires d < 10 && c as int == '0' as int + d
    ensures DigitOf(c) == d && IsDigit(c, 10) && (c == '0' <==> d == 0)
  {}

  lemma TenToNine()
    ensures Pow(10, 9) == BILLION
  {
    PowAdd(10, 4, 4);
    PowAdd(10, 1, 8);
    assert Pow(10, 4) == 10000 && Pow(10, 1) == 10;
  }

  method TrimFrom(l: array<u32>, k: nat) returns (n: nat)
    requires k <= l.Length
    ensures n <= k && (n > 0 ==> l[n - 1] != 0) && Val(l[..n], B32) == Val(l[..k], B32)
  {
    n := k;
    while n > 0 && l[n - 1] == 0
      invariant n <= k && forall i :: n <= i < k ==> l[i] == 0
    {
      n := n - 1;
    }
    ValTrim(l[..k], n, B32);
    assert l[..k][..n] == l[..n];
  }

  lemma FirstChunk(total: nat)
    ensures Val(DigitsOf(""), 10) + Pow(10, 0) * total == total
  {}

  lemma NextChunk(s: string, v: nat, q: nat, rem: nat, total: nat)
    requires Val(DigitsOf(s), 10) + Pow(10, |s|) * v == total && q * BILLION + rem == v
    ensures Printed(s, rem, BILLION, q, total)
  {
    hide Val, DigitsOf, Pow;
    assert rem + BILLION * q == v;
  }

  lemma ChunkDone(s: string, q: nat, total: nat)
    requires Printed(s, 0, 1, q, total)
    ensures Val(DigitsOf(s), 10) + Pow(10, |s|) * q == total
    ensures q == 0 ==> Val(DigitsOf(s), 10) == total
  {
    hide Val, DigitsOf, Pow;
  }

  predicate AllDigits(s: string, radix: nat) {
    forall i :: 0 <= i < |s| ==> IsDigit(s[i], radix)
  }

  /** The digits of a magnitude, least significant first, none for zero. */
  method DecimalDigits(mag: APInt) returns (s: string)
    requires Wf(mag)
    ensures AllDigits(s, 10) && Val(DigitsOf(s), 10) == V(mag)
    ensures s == "" <==> V(mag) == 0
    ensures s != "" ==> s[|s| - 1] != '0'
  {
    hide Val, Pow, DigitsOf, Printed, IsDigit;
    DataValue(mag);
    ghost var total := V(mag);
    var l := ToLimbs(Data(mag));
    var n := Trim(l[..]);
    assert l[..][..n] == l[..n];
    s := "";
    FirstChunk(total);
    while n > 0
      invariant n <= l.Length && (n > 0 ==> l[n - 1] != 0)
      invariant AllDigits(s, 10)
      invariant n == 0 ==> Val(l[..n], B32) == 0
      invariant Val(DigitsOf(s), 10) + Pow(10, |s|) * Val(l[..n], B32) == total
      invariant n == 0 && s == "" ==> total == 0
      invariant n == 0 && s != "" ==> s[|s| - 1] != '0'
      invariant s != "" ==> total > 0
      decreases Val(l[..n], B32)
    {
      ghost var v := Val(l[..n], B32);
      LimbsPositive(l[..n], s, total);
      var rem := DivideByBillion(l, n);
      var k := TrimFrom(l, n);
      if k > 0 { TopPositive(l[..k]); } else { assert l[..k] == []; ValCons(0, [], B32); }
      NextChunk(s, v, Val(l[..k], B32), rem, total);
      s := PrintChunk(s, rem, k, Val(l[..k], B32), total);
      ChunkDone(s, Val(l[..k], B32), total);
      n := k;
    }
    NoDigits(s, total);
  }

  lemma LimbsPositive(l: seq<u32>, s: string, total: nat)
    requires l != [] && l[|l| - 1] != 0
    requires Val(DigitsOf(s), 10) + Pow(10, |s|) * Val(l, B32) == total
    ensures Val(l, B32) > 0 && total > 0
  {
    hide Val, Pow, DigitsOf;
    TopPositive(l);
    PowPositive(10, |s|);
    MulPositive(Pow(10, |s|), Val(l, B32));
  }

  lemma NoDigits(s: string, total: nat)
    requires Val(DigitsOf(s), 10) + Pow(10, |s|) * 0 == total
    ensures Val(DigitsOf(s), 10) == total && (s == "" ==> total == 0)
  {
    hide Pow, Val, DigitsOf;
    NothingLeft(Val(DigitsOf(s), 10), Pow(10, |s|), total);
    if s == "" { NoDigitsNoValue(); }
  }

  lemma NothingLeft(x: int, p: int, total: int)
    requires x + p * 0 == total
    ensures x == total
  {}

  lemma NoDigitsNoValue()
    ensures Val(DigitsOf(""), 10) == 0
  {}

  // ----- radix 2 and 16 -----

  lemma {:induction false} LowStep(x: nat, k: nat)
    ensures Low(x, k + 1) == Low(x, k) + (if Bit(x, k) then Pow2(k) else 0)
  {
    if k > 0 { LowStep(x / 2, k - 1); }
  }

  lemma DoubleProduct(d: int, p: int)
    ensures d * (2 * p) == 2 * (d * p)
  {}

  lemma {:induction false} LowAppend(x: nat, i: nat, k: nat)
    ensures Low(x, i + k) == Low(x, i) + Low(Shr(x, i), k) * Pow2(i)
  {
    if i > 0 {
      LowAppend(x / 2, i - 1, k);
      var d := Low(Shr(x, i), k);
      assert d * Pow2(i) == 2 * (d * Pow2(i - 1)) by { DoubleProduct(d, Pow2(i - 1)); }
      assert Low(x, i + k) == x % 2 + 2 * Low(x / 2, i - 1 + k);
    }
  }

  lemma {:induction false} BitOfShift(x: nat, i: nat, k: nat)
    ensures Bit(Shr(x, i), k) == Bit(x, i + k)
  {
    if i > 0 { BitOfShift(x / 2, i - 1, k); }
  }

  /** The bits i to i + shift - 1 as one digit; bits past the width read as zero. */
  method DigitAt(mag: APInt, i: nat, shift: nat) returns (digit: nat)
    requires Wf(mag) && i < mag.bits && shift <= 4
    ensures digit == Low(Shr(V(mag), i), shift) < Pow2(shift)
  {
    hide V, Low, Shr, Pow2, Bit, BitOr, Shl;
    ghost var x := Shr(V(mag), i);
    digit := 0;
    LowOfSmall(0, 0) by { assert Pow2(0) == 1 by { Pow2Zero(); } }
    LowZero(x);
    var k := 0;
    while k < shift && i + k < mag.bits
      invariant k <= shift && digit == Low(x, k)
    {
      var b := BitAt(mag, i + k);
      BitOfShift(V(mag), i, k);
      LowStep(x, k);
      ShrLow(x, k);
      OrDisjoint(1, digit, k);
      OrDisjoint(0, digit, k);
      ShlIsMul(1, k);
      ShlIsMul(0, k);
      digit := BitOr(digit, Shl(if b then 1 else 0, k));
      k := k + 1;
    }
    if k < shift { PastTheWidth(V(mag), i, k, shift, mag.bits); }
    ShrLow(x, shift);
  }

  lemma Pow2Zero()
    ensures Pow2(0) == 1
  {}

  lemma LowZero(x: nat)
    ensures Low(x, 0) == 0
  {}

  lemma PastTheWidth(v: nat, i: nat, k: nat, shift: nat, bits: nat)
    requires v < Pow2(bits) && i + k >= bits && k <= shift
    ensures Low(Shr(v, i), shift) == Low(Shr(v, i), k)
  {
    hide Low, Shr, Pow2;
    Pow2Monotone(bits, i + k);
    ShrBound(v, i, k);
    LowOfSmall(Shr(v, i), k);
    Pow2Monotone(k, shift);
    LowOfSmall(Shr(v, i), shift);
  }

  lemma PowerDigits(shift: nat, n: nat)
    ensures Pow(Pow2(shift), n) == Pow2(shift * n)
  {
    PowOfPow2(shift, n);
  }

  /** All digits of a magnitude, then without the zeros on top. */
  method PowerOfTwoDigits(mag: APInt, shift: nat) returns (s: string)
    requires Wf(mag) && (shift == 1 || shift == 4)
    ensures AllDigits(s, Pow2(shift)) && Val(DigitsOf(s), Pow2(shift)) == V(mag)
    ensures s != "" && (s[|s| - 1] == '0' ==> |s| == 1)
  {
    hide V, Low, Shr, Pow2, Val, DigitsOf, Pow;
    ghost var v := V(mag);
    var i := 0;
    s := "";
    NoDigitsYet(v, shift);
    while i < mag.bits
      invariant i == shift * |s| && AllDigits(s, Pow2(shift))
      invariant Val(DigitsOf(s), Pow2(shift)) == Low(v, i)
      decreases mag.bits + 4 - i
    {
      var digit := DigitAt(mag, i, shift);
      SmallDigit(digit, shift);
      DigitsSnoc(s, DigitChar(digit), Pow2(shift));
      PowerDigits(shift, |s|);
      LowAppend(v, i, shift);
      s := s + [DigitChar(digit)];
      i := i + shift;
    }
    Pow2Monotone(mag.bits, i);
    LowOfSmall(v, i);
    while |s| > 1 && s[|s| - 1] == '0'
      invariant s != "" && AllDigits(s, Pow2(shift))
      invariant Val(DigitsOf(s), Pow2(shift)) == v
    {
      var t := s[..|s| - 1];
      assert s == t + [s[|s| - 1]];
      DigitsSnoc(t, '0', Pow2(shift));
      s := t;
    }
  }

  lemma NoDigitsYet(v: nat, shift: nat)
    ensures Val(DigitsOf(""), Pow2(shift)) == Low(v, 0)
  {}

  lemma SmallDigit(d: nat, shift: nat)
    requires d < Pow2(shift) && (shift == 1 || shift == 4)
    ensures d < 16 && IsDigit(DigitChar(d), Pow2(shift))
  {
    assert Pow2(1) == 2 && Pow2(4) == 16;
  }

  // ----- the whole numeral -----

  lemma NumeralOf(t: string, radix: nat)
    requires AllDigits(t, radix) && t != "" && (t[|t| - 1] == '0' ==> |t| == 1)
    ensures IsNumeral(Reversed(t), radix) && ParseDigits(Reversed(t), radix) == Val(DigitsOf(t), radix)
  {
    ReversedValue(t, radix);
    forall i | 0 <= i < |t| ensures IsDigit(Reversed(t)[i], radix) {}
  }

  lemma MinusOnTop(t: string)
    ensures Reversed(t + ['-']) == ['-'] + Reversed(t)
  {
    var r := Reversed(t + ['-']);
    forall i | 0 <= i < |r| ensures r[i] == (['-'] + Reversed(t))[i] {}
  }

  lemma SignedNumeral(t: string, radix: nat)
    requires IsNumeral(t, radix)
    ensures Parse(t, radix) == ParseDigits(t, radix) && Parse(['-'] + t, radix) == 0 - ParseDigits(t, radix)
  {
    assert (['-'] + t)[1..] == t;
  }

  /** Printing is exact: reading the numeral back gives the value, signed or
      unsigned, at every width and in every radix. */
  method ToString(a: APInt, isSigned: bool, radix: nat) returns (s: string)
    requires Wf(a) && (radix == 2 || radix == 10 || radix == 16)
    ensures Parse(s, radix) == if isSigned then S(a) else V(a)
    ensures IsNumeral(if isSigned && S(a) < 0 then s[1..] else s, radix)
    ensures isSigned && S(a) < 0 ==> s[0] == '-'
  {
    hide Val, DigitsOf, ParseDigits, Pow2, Parse, IsNumeral, V, S;
    var neg := IsNeg(a);
    neg := isSigned && neg;
    SignedNegative(a);
    var mag := a;
    if neg { mag := Absolute(a, true); }
    if radix == 10 {
      s := DecimalDigits(mag);
    } else {
      PowersOfTwo();
      s := PowerOfTwoDigits(mag, if radix == 16 then 4 else 1);
    }
    if s == "" {
      s := "0";
      ZeroDigit(radix);
    }
    NumeralOf(s, radix);
    MinusOnTop(s);
    SignedNumeral(Reversed(s), radix);
    assert (['-'] + Reversed(s))[1..] == Reversed(s);
    if neg {
      s := s + ['-'];
    }
    s := Reversed(s);
  }

  lemma PowersOfTwo()
    ensures Pow2(1) == 2 && Pow2(4) == 16
  {}

  lemma ZeroDigit(radix: nat)
    requires radix >= 2
    ensures AllDigits("0", radix) && Val(DigitsOf("0"), radix) == 0
  {
    DigitsSnoc("", '0', radix);
    assert "" + ['0'] == "0";
    assert Val(DigitsOf(""), radix) == 0;
  }
}
