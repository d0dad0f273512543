/** Integers modulo a power of two, and their two's complement reading. */
module Wrapping {
  import opened Arith

  /** What is left of x in a store of the given number of bits. */
  function Cut(x: int, bits: nat): (r: nat)
    ensures r < Pow2(bits)
  {
    x % Pow2(bits)
  }

  /** The two's complement reading of a store. */
  function SignedOf(v: nat, bits: nat): int
    requires bits >= 1
  {
    if v < Pow2(bits - 1) then v else v - Pow2(bits)
  }

  predicate FitsUnsigned(x: int, bits: nat) {
    0 <= x < Pow2(bits)
  }

  lemma CutUnique(x: int, bits: nat, q: int, r: int)
    requires 0 <= r < Pow2(bits) && x == q * Pow2(bits) + r
    ensures Cut(x, bits) == r
  {
    DivModUnique(x, Pow2(bits), q, r);
  }

  lemma CutSplit(x: int, bits: nat) returns (q: int)
    ensures x == q * Pow2(bits) + Cut(x, bits)
  {
    q := x / Pow2(bits);
    DivMod(x, Pow2(bits));
  }

  lemma CutSmall(x: int, bits: nat)
    requires 0 <= x < Pow2(bits)
    ensures Cut(x, bits) == x
  {
    CutUnique(x, bits, 0, x);
  }

  lemma CutCongruent(x: int, y: int, k: int, bits: nat)
    requires x == y + k * Pow2(bits)
    ensures Cut(x, bits) == Cut(y, bits)
  {
    hide Cut;
    var q := CutSplit(y, bits);
    MulDistribute(q, k, Pow2(bits));
    CutUnique(x, bits, q + k, Cut(y, bits));
  }

  /** Cutting twice is cutting once. */
  lemma CutNarrow(x: int, wide: nat, bits: nat)
    requires bits <= wide
    ensures Cut(Cut(x, wide), bits) == Cut(x, bits)
  {
    hide Cut;
    var q := CutSplit(x, wide);
    Pow2Add(wide - bits, bits);
    MulAssoc(q, Pow2(wide - bits), Pow2(bits));
    CutCongruent(x, Cut(x, wide), q * Pow2(wide - bits), bits);
  }

  lemma CutIsLow(x: nat, bits: nat)
    ensures Cut(x, bits) == Low(x, bits)
  {
    ShrIsDiv(x, bits);
  }

  /** Sums, differences and products of congruent numbers are congruent. */
  lemma CutOperands(x: int, y: int, bits: nat)
    ensures Cut(Cut(x, bits) + Cut(y, bits), bits) == Cut(x + y, bits)
    ensures Cut(Cut(x, bits) - Cut(y, bits), bits) == Cut(x - y, bits)
    ensures Cut(Cut(x, bits) * Cut(y, bits), bits) == Cut(x * y, bits)
  {
    hide Cut;
    var p, cx, cy := Pow2(bits), Cut(x, bits), Cut(y, bits);
    var i := CutSplit(x, bits);
    var j := CutSplit(y, bits);
    MulDistribute(i, j, p);
    CutCongruent(x + y, cx + cy, i + j, bits);
    CutCongruent(x - y, cx - cy, i - j, bits);
    ProductAlgebra(i, cx, j, cy, p);
    CutCongruent(x * y, cx * cy, i * (j * p + cy) + cx * j, bits);
  }

  lemma ProductAlgebra(i: int, a: int, j: int, b: int, p: int)
    ensures (i * p + a) * (j * p + b) == a * b + (i * (j * p + b) + a * j) * p
  {
    var y := j * p + b;
    MulDistribute(i * p, a, y);
    MulDistribute(i * y, a * j, p);
    MulSwap(i, p, y);
    MulDistribute(j * p, b, a);
    MulAssoc(a, j, p);
  }

  /** Reading and storing are inverse to each other on the numbers that fit. */
  lemma SignedOfCut(x: int, bits: nat)
    requires bits >= 1 && FitsSigned(x, bits)
    ensures SignedOf(Cut(x, bits), bits) == x
  {
    assert Pow2(bits) == 2 * Pow2(bits - 1);
    CutUnique(x, bits, if x < 0 then -1 else 0, if x < 0 then x + Pow2(bits) else x);
  }

  lemma CutOfSigned(v: nat, bits: nat)
    requires bits >= 1 && v < Pow2(bits)
    ensures FitsSigned(SignedOf(v, bits), bits) && Cut(SignedOf(v, bits), bits) == v
    ensures SignedOf(v, bits) == v || SignedOf(v, bits) == v - Pow2(bits)
  {
    assert Pow2(bits) == 2 * Pow2(bits - 1);
    CutUnique(SignedOf(v, bits), bits, if v < Pow2(bits - 1) then 0 else -1, v);
  }

  /** Signed and unsigned operands give the same store. */
  lemma SignedOperands(v: nat, w: nat, bits: nat)
    requires bits >= 1 && v < Pow2(bits) && w < Pow2(bits)
    ensures Cut(SignedOf(v, bits) + SignedOf(w, bits), bits) == Cut(v + w, bits)
    ensures Cut(SignedOf(v, bits) - SignedOf(w, bits), bits) == Cut(v - w, bits)
    ensures Cut(SignedOf(v, bits) * SignedOf(w, bits), bits) == Cut(v * w, bits)
  {
    hide Cut, SignedOf, FitsSigned;
    CutOfSigned(v, bits);
    CutOfSigned(w, bits);
    CutOperands(SignedOf(v, bits), SignedOf(w, bits), bits);
  }
}
