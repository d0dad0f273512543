/** Arithmetic with an overflow flag (src/utils/APInt.cpp): the flag is true
    exactly when the unbounded result does not fit. */
module ApIntOverflow {
  import opened Arith
  import opened Words
  import opened Magic
  import opened Wrapping
  import opened ApInt
  import opened ApIntShift

  /** What a flag must say about the unbounded result x of an operation. */
  predicate UnsignedOutcome(r: APInt, ov: bool, x: int, bits: nat) {
    Wf(r) && r.bits == bits && V(r) == Cut(x, bits) && (ov <==> !FitsUnsigned(x, bits))
  }

  predicate SignedOutcome(r: APInt, ov: bool, x: int, bits: nat) {
    Wf(r) && r.bits == bits && V(r) == Cut(x, bits) && (ov <==> !FitsSigned(x, bits))
  }

  method UaddOv(a: APInt, b: APInt) returns (r: APInt, ov: bool)
    requires Wf(a) && Wf(b) && a.bits == b.bits
    ensures UnsignedOutcome(r, ov, V(a) + V(b), a.bits)
  {
    hide V, Cut, Pow2;
    r := Add(a, b);
    ov := Ult(r, a);
    var x, p := V(a) + V(b), Pow2(a.bits);
    CutUnique(x, a.bits, if x < p then 0 else 1, if x < p then x else x - p);
  }

  method UsubOv(a: APInt, b: APInt) returns (r: APInt, ov: bool)
    requires Wf(a) && Wf(b) && a.bits == b.bits
    ensures UnsignedOutcome(r, ov, V(a) - V(b), a.bits)
  {
    ov := Ult(a, b);
    r := Sub(a, b);
  }

  method SaddOv(a: APInt, b: APInt) returns (r: APInt, ov: bool)
    requires Wf(a) && Wf(b) && a.bits == b.bits
    ensures SignedOutcome(r, ov, S(a) + S(b), a.bits)
  {
    hide V, Cut, Pow2, S;
    r := Add(a, b);
    var na := IsNeg(a);
    var nb := IsNeg(b);
    var nr := IsNeg(r);
    ov := na == nb && nr != na;
    Operands(a, b);
    SignOfSum(S(a), S(b), S(r), a.bits) by { Stored(r, S(a) + S(b)); Stored(a, S(a)); Stored(b, S(b)); }
  }

  method SsubOv(a: APInt, b: APInt) returns (r: APInt, ov: bool)
    requires Wf(a) && Wf(b) && a.bits == b.bits
    ensures SignedOutcome(r, ov, S(a) - S(b), a.bits)
  {
    hide V, Cut, Pow2, S;
    r := Sub(a, b);
    var na := IsNeg(a);
    var nb := IsNeg(b);
    var nr := IsNeg(r);
    ov := na != nb && nr != na;
    Operands(a, b);
    SignOfDifference(S(a), S(b), S(r), a.bits) by { Stored(r, S(a) - S(b)); Stored(a, S(a)); Stored(b, S(b)); }
  }

  lemma Operands(a: APInt, b: APInt)
    requires Wf(a) && Wf(b) && a.bits == b.bits
    ensures Cut(S(a) + S(b), a.bits) == Cut(V(a) + V(b), a.bits)
    ensures Cut(S(a) - S(b), a.bits) == Cut(V(a) - V(b), a.bits)
    ensures Cut(S(a) * S(b), a.bits) == Cut(V(a) * V(b), a.bits)
  {
    SignedOperands(V(a), V(b), a.bits);
  }

  /** The signed value of a store differs from what was stored by a multiple of 2^bits. */
  lemma Stored(r: APInt, x: int)
    requires Wf(r) && (V(r) == Cut(x, r.bits) || x == S(r))
    ensures FitsSigned(S(r), r.bits)
    ensures exists k: int :: x == S(r) + k * Pow2(r.bits)
  {
    hide V, Cut, Pow2, SignedOf;
    CutOfSigned(V(r), r.bits);
    if x == S(r) {
      assert x == S(r) + 0 * Pow2(r.bits);
    } else {
      var q := CutSplit(x, r.bits);
      var k := if S(r) == V(r) then q else q + 1;
      MulDistribute(q, 1, Pow2(r.bits));
      assert x == S(r) + k * Pow2(r.bits);
    }
  }

  lemma SmallMultiple(k: int, p: int, d: int)
    requires p > 0 && d == k * p && -p < d < p
    ensures d == 0
  {
    if k > 0 { MulMonotone(1, k, p); } else if k < 0 { MulMonotone(k, -1, p); }
  }

  lemma SignOfSum(x: int, y: int, r: int, bits: nat)
    requires bits >= 1 && FitsSigned(x, bits) && FitsSigned(y, bits) && FitsSigned(r, bits)
    requires exists k: int :: x + y == r + k * Pow2(bits)
    ensures FitsSigned(x + y, bits) <==> !((x < 0) == (y < 0) && (r < 0) != (x < 0))
  {
    var k: int :| x + y == r + k * Pow2(bits);
    assert Pow2(bits) == 2 * Pow2(bits - 1);
    if FitsSigned(x + y, bits) { SmallMultiple(k, Pow2(bits), x + y - r); }
    if (x < 0) != (y < 0) { SmallMultiple(k, Pow2(bits), x + y - r); }
    if (x < 0) == (y < 0) == (r < 0) { SmallMultiple(k, Pow2(bits), x + y - r); }
  }

  lemma SignOfDifference(x: int, y: int, r: int, bits: nat)
    requires bits >= 1 && FitsSigned(x, bits) && FitsSigned(y, bits) && FitsSigned(r, bits)
    requires exists k: int :: x - y == r + k * Pow2(bits)
    ensures FitsSigned(x - y, bits) <==> !((x < 0) != (y < 0) && (r < 0) != (x < 0))
  {
    var k: int :| x - y == r + k * Pow2(bits);
    assert Pow2(bits) == 2 * Pow2(bits - 1);
    if FitsSigned(x - y, bits) || (x < 0) == (y < 0) || (r < 0) == (x < 0) { SmallMultiple(k, Pow2(bits), x - y - r); }
  }

  // ----- products -----

  lemma WidthExceeds(x: nat, bits: nat)
    ensures BitWidth(x) > bits <==> x >= Pow2(bits)
    ensures Shr(x, bits) != 0 <==> x >= Pow2(bits)
  {
    if BitWidth(x) > bits { Pow2Monotone(bits, BitWidth(x) - 1); } else { Pow2Monotone(BitWidth(x), bits); }
    if x < Pow2(bits) {
      LowOfSmall(x, bits);
    } else {
      ShrLow(x, bits);
      ShlIsMul(Shr(x, bits), bits);
    }
  }

  /** std::countl_zero of a 64 bit word. */
  function Clz64(x: u64): (c: nat)
    ensures c <= 64 && c + BitWidth(x) == 64
  {
    Pow2Literals();
    WidthExceeds(x, 64);
    64 - BitWidth(x)
  }

  method Clz(a: APInt) returns (c: nat)
    requires Wf(a)
    ensures c + BitWidth(V(a)) == a.bits
  {
    DataValue(a);
    var d := Data(a);
    var n := |d|;
    var i := n;
    c := 0;
    while i > 0
      invariant 0 <= i <= n && c == 64 * (n - i)
      invariant forall h :: i <= h < n ==> d[h] == 0
    {
      i := i - 1;
      if d[i] != 0 {
        c := c + Clz64(d[i]);
        WidthOfWords(d, i, V(a), a.bits);
        return c - (n * 64 - a.bits);
      }
      c := c + 64;
    }
    ValZeros(d, B64);
    c := a.bits;
  }

  lemma BitWidthUnique(x: nat, l: nat)
    requires x < Pow2(l) && l > 0 && Pow2(l - 1) <= x
    ensures BitWidth(x) == l
  {
    var m := BitWidth(x);
    if m < l { Pow2Monotone(m, l - 1); } else if l < m { Pow2Monotone(l, m - 1); }
  }

  /** The width of a number is that of its top nonzero word and the words below. */
  lemma WidthOfWords(d: seq<u64>, i: nat, v: nat, bits: nat)
    requires i < |d| && d[i] != 0 && (forall h :: i < h < |d| ==> d[h] == 0) && Val(d, B64) == v < Pow2(bits)
    ensures BitWidth(v) == 64 * i + BitWidth(d[i]) <= bits
  {
    hide Val, Pow, Pow2, BitWidth;
    ValTrim(d, i + 1, B64);
    ValPrefix(d, i, B64);
    ValBound(d[..i], B64);
    WordLoops.WordPow(i);
    var w, p := BitWidth(d[i]), Pow(B64, i);
    Pow2Add(w - 1, 64 * i);
    Pow2Add(w, 64 * i);
    MulMonotone(Pow2(w - 1), d[i], p);
    MulStrict(d[i], Pow2(w), p);
    BitWidthUnique(v, w + 64 * i);
    if bits < w + 64 * i { Pow2Monotone(bits, w + 64 * i - 1); }
  }

  method ActiveBits(a: APInt) returns (n: nat)
    requires Wf(a)
    ensures n == BitWidth(V(a))
  {
    var c := Clz(a);
    n := a.bits - c;
  }

  lemma ProductBelow(x: int, y: int, p: int)
    requires 0 <= x < p && 0 <= y < p
    ensures 0 <= x * y < p * p
  {
    MulNonNegative(x, y);
    MulMonotone(x, p, y);
    MulStrict(y, p, p);
  }

  lemma ProductBound(x: nat, y: nat, bits: nat)
    requires x < Pow2(bits) && y < Pow2(bits)
    ensures 0 <= x * y < Pow2(2 * bits)
  {
    hide Pow2;
    Pow2Add(bits, bits);
    ProductBelow(x, y, Pow2(bits));
  }

  /** The wide product is formed at twice the width, which the source counts in 32 bits. */
  method UmulOv(a: APInt, b: APInt) returns (r: APInt, ov: bool)
    requires Wf(a) && Wf(b) && a.bits == b.bits && (a.Wide? ==> Width(2 * a.bits))
    ensures UnsignedOutcome(r, ov, V(a) * V(b), a.bits)
  {
    hide V, Cut, Pow2, BitWidth, Shr;
    ProductBound(V(a), V(b), a.bits);
    WidthExceeds(V(a) * V(b), a.bits);
    if a.Small? {
      assert V(a) == a.val && V(b) == b.val by { InlineValue(a); InlineValue(b); }
      Pow2Literals();
      ProductBound(a.val, b.val, 64);
      var p: u128 := a.val * b.val;
      ov := Shr(p, a.bits) != 0;
      r := FromU64(a.bits, Cut(p, 64));
      CutNarrow(p, 64, a.bits);
    } else {
      var x := Zext(a, 2 * a.bits);
      var y := Zext(b, 2 * a.bits);
      var p := Mul(x, y);
      CutSmall(V(a) * V(b), 2 * a.bits);
      var n := ActiveBits(p);
      ov := n > a.bits;
      r := Trunc(p, a.bits);
    }
  }

  lemma InlineValue(a: APInt)
    ensures a.Small? ==> V(a) == a.val
  {}

  lemma ProductWithin(x: int, y: int, h: int)
    requires -h <= x <= h && -h <= y <= h
    ensures -(h * h) <= x * y <= h * h
  {
    var ax, ay := if x < 0 then -x else x, if y < 0 then -y else y;
    MulMonotone(ax, h, ay);
    MulMonotone(ay, h, h);
    MulNonNegative(ax, ay);
    assert x * y == ax * ay || x * y == -(ax * ay);
  }

  lemma SignedProductBound(x: int, y: int, bits: nat)
    requires bits >= 1 && FitsSigned(x, bits) && FitsSigned(y, bits)
    ensures FitsSigned(x * y, 2 * bits)
  {
    Pow2Add(bits - 1, bits - 1);
    assert Pow2(2 * bits - 1) == 2 * Pow2(2 * bits - 2);
    hide Pow2;
    ProductWithin(x, y, Pow2(bits - 1));
  }

  method SmulOv(a: APInt, b: APInt) returns (r: APInt, ov: bool)
    requires Wf(a) && Wf(b) && a.bits == b.bits && (a.Wide? ==> Width(2 * a.bits))
    ensures SignedOutcome(r, ov, S(a) * S(b), a.bits)
  {
    if a.Small? {
      r, ov := SmulSmall(a, b);
    } else {
      r, ov := SmulWide(a, b);
    }
  }

  /** On the inline word the product is formed in 128 bits and compared with the range. */
  method SmulSmall(a: APInt, b: APInt) returns (r: APInt, ov: bool)
    requires Wf(a) && Wf(b) && a.bits == b.bits && a.Small?
    ensures SignedOutcome(r, ov, S(a) * S(b), a.bits)
  {
    hide V, Cut, Pow2, Asr, SignedOf, Shl;
    Operands(a, b);
    WordProduct(Sext64(a), Sext64(b));
    FitsWordShift(a.bits);
    var p: i128 := Sext64(a) * Sext64(b);
    var hi: i128 := Shl(1, a.bits - 1) - 1;
    var lo: i128 := -hi - 1;
    ov := p > hi || p < lo;
    FitsCutWord(p);
    r := FromU64(a.bits, Cut(p, 64));
    CutNarrow(p, 64, a.bits);
  }

  lemma FitsCutWord(p: int)
    ensures Cut(p, 64) < B64
  {
    Pow2Literals();
  }

  lemma WordProduct(x: i64, y: i64)
    ensures -0x4000_0000_0000_0000_0000_0000_0000_0000 <= x * y <= 0x4000_0000_0000_0000_0000_0000_0000_0000
  {
    ProductWithin(x, y, 0x8000_0000_0000_0000);
  }

  /** On wide values the product is formed at twice the width, cut, and extended again. */
  method SmulWide(a: APInt, b: APInt) returns (r: APInt, ov: bool)
    requires Wf(a) && Wf(b) && a.bits == b.bits && Width(2 * a.bits)
    ensures SignedOutcome(r, ov, S(a) * S(b), a.bits)
  {
    hide V, S, Cut, Pow2;
    ghost var x := S(a) * S(b);
    Stored(a, S(a));
    Stored(b, S(b));
    var w := 2 * a.bits;
    var xa := Sext(a, w);
    var xb := Sext(b, w);
    var p := Mul(xa, xb);
    Operands(xa, xb);
    SignedProductBound(S(a), S(b), a.bits);
    r := Trunc(p, a.bits);
    CutNarrow(x, w, a.bits);
    var t := Sext(r, w);
    var same := Equal(t, p);
    ov := !same;
    SignedAgain(r);
    ProductFits(x, V(r), S(r), a.bits);
  }

  lemma FitsWordShift(bits: nat)
    requires 1 <= bits <= 64
    ensures Shl(1, bits - 1) == Pow2(bits - 1) <= 0x8000_0000_0000_0000
  {
    Pow2Literals();
    ShlIsMul(1, bits - 1);
    Pow2Monotone(bits - 1, 63);
  }

  /** Truncating and extending again gives the product back exactly when it fits. */
  lemma ProductFits(x: int, v: nat, s: int, bits: nat)
    requires bits >= 1 && v == Cut(x, bits) && s == SignedOf(v, bits) && FitsSigned(x, 2 * bits)
    ensures Cut(s, 2 * bits) == Cut(x, 2 * bits) <==> FitsSigned(x, bits)
  {
    hide Cut, Pow2, SignedOf;
    CutOfSigned(v, bits);
    Pow2Monotone(bits - 1, 2 * bits - 1);
    if FitsSigned(x, bits) { SignedOfCut(x, bits); }
    if Cut(s, 2 * bits) == Cut(x, 2 * bits) {
      SignedOfCut(s, 2 * bits);
      SignedOfCut(x, 2 * bits);
    }
  }
}
