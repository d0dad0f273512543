/** Long division of 32 bit limbs (src/utils/APInt.cpp, divmnu): Knuth's
    Algorithm D, TAOCP volume 2, section 4.3.1. */
module KnuthD {
  import opened Arith
  import opened Words
  import opened LimbShift

  const HALF: int := 0x8000_0000

  /** std::countl_zero of a nonzero 32 bit word. */
  function Clz32(x: nat): (s: nat)
    requires 0 < x < B32
    ensures s <= 31 && HALF <= Shl(x, s) < B32
    decreases B32 - x
  {
    if x >= HALF then 0 else
      var t := Clz32(2 * x);
      ShlShl(x, 1, t);
      assert Shl(x, 1) == 2 * x;
      if t == 31 then (ShlIsMul(2 * x, 31); assert Pow2(31) == HALF by { Pow2Literals(); } 0) else 1 + t
  }

  // ----- the quotient digit -----

  /** The largest digit q with q * (two leading digits of the divisor) at most
      the three leading digits of the dividend. */
  ghost predicate IsEstimate(qhat: nat, u2: nat, u1: nat, u0: nat, v1: nat, v0: nat) {
    && qhat < B32
    && qhat * (v1 * B32 + v0) <= (u2 * B32 + u1) * B32 + u0
    && (qhat + 1 == B32 || (qhat + 1) * (v1 * B32 + v0) > (u2 * B32 + u1) * B32 + u0)
  }

  /** The corrected estimate is the true digit or one too big. */
  lemma EstimateBounds(qhat: nat, w: seq<nat>, v: seq<nat>)
    requires |v| >= 2 && |w| == |v| + 1 && Digits(w, B32) && Digits(v, B32)
    requires IsEstimate(qhat, w[|v|], w[|v| - 1], w[|v| - 2], v[|v| - 1], v[|v| - 2])
    requires v[|v| - 1] > 0 && Val(w, B32) < B32 * Val(v, B32)
    ensures (qhat - 1) * Val(v, B32) <= Val(w, B32) < (qhat + 1) * Val(v, B32)
  {
    var n := |v|;
    var lowV := TopTwo(v);
    var lowW := TopThree(w);
    PowPositive(B32, n - 2);
    EstimateAlgebra(qhat, v[n - 1], v[n - 2], (w[n] * B32 + w[n - 1]) * B32 + w[n - 2],
                    Pow(B32, n - 2), lowV, lowW, Val(v, B32), Val(w, B32));
  }

  lemma EstimateAlgebra(qhat: int, v1: int, v0: int, t3: int, p: int, lowV: int, lowW: int, V: int, W: int)
    requires 0 <= lowV < p && 0 <= lowW < p && v1 > 0 && v0 >= 0
    requires V == (v1 * B32 + v0) * p + lowV && W == t3 * p + lowW && W < B32 * V
    requires 0 <= qhat < B32 && qhat * (v1 * B32 + v0) <= t3
    requires qhat + 1 == B32 || (qhat + 1) * (v1 * B32 + v0) > t3
    ensures (qhat - 1) * V <= W < (qhat + 1) * V
  {
    var d2 := v1 * B32 + v0;
    MulDistribute(qhat, 1, V);
    if qhat + 1 < B32 {
      MulMonotone(t3 + 1, (qhat + 1) * d2, p);
      MulDistribute(t3, 1, p);
      MulAssoc(qhat + 1, d2, p);
      MulMonotone(d2 * p, V, qhat + 1);
    }
    MulMonotone(qhat * d2, t3, p);
    MulAssoc(qhat, d2, p);
    MulDistribute(d2 * p, lowV, qhat);
    MulMonotone(qhat, B32, lowV);
    MulMonotone(B32, d2, p);
  }

  lemma TopTwo(v: seq<nat>) returns (low: nat)
    requires |v| >= 2 && Digits(v, B32)
    ensures low < Pow(B32, |v| - 2)
    ensures Val(v, B32) == (v[|v| - 1] * B32 + v[|v| - 2]) * Pow(B32, |v| - 2) + low
  {
    var k := |v| - 2;
    ValBound(v[..k], B32);
    ValPrefix(v, k, B32);
    ValPrefix(v, k + 1, B32);
    assert v[..k + 2] == v;
    low := Val(v[..k], B32);
    MulDistribute(v[k + 1] * B32, v[k], Pow(B32, k));
    MulAssoc(v[k + 1], B32, Pow(B32, k));
  }

  lemma TopThree(w: seq<nat>) returns (low: nat)
    requires |w| >= 3 && Digits(w, B32)
    ensures low < Pow(B32, |w| - 3)
    ensures Val(w, B32) == ((w[|w| - 1] * B32 + w[|w| - 2]) * B32 + w[|w| - 3]) * Pow(B32, |w| - 3) + low
  {
    var k := |w| - 3;
    low := TopTwo(w[..k + 2]);
    ValPrefix(w, k + 2, B32);
    assert w[..k + 3] == w;
    ThirdDigit(w[k + 2], w[k + 1] * B32 + w[k], Pow(B32, k));
  }

  lemma ThirdDigit(c: nat, h: nat, p: nat)
    ensures (c * B32 * B32 + h) * p == h * p + c * (B32 * (B32 * p))
  {
    MulDistribute(c * B32 * B32, h, p);
    MulAssoc(c, B32, B32 * p);
    MulAssoc(c * B32, B32, p);
  }

  /** The qhat loop. Every subset-type assignment is a proof that the source's
      64 bit arithmetic does not wrap. */
  method EstimateDigit(u2: u32, u1: u32, u0: u32, v1: u32, v0: u32) returns (digit: u64)
    requires v1 >= HALF && u2 <= v1
    ensures IsEstimate(digit, u2, u1, u0, v1, v0)
  {
    var num: u64 := u2 * B32 + u1;
    hide Quo;
    EstimateStart(num, v1, v0, u0);
    var qhat: u64 := Quo(num, v1);
    var rhat: u64 := num - qhat * v1;
    while qhat >= B32 || TooBig(qhat, v0, rhat, u0)
      invariant rhat < B32 && qhat * v1 + rhat == num
      invariant qhat + 1 >= B32 || (qhat + 1) * (v1 * B32 + v0) > num * B32 + u0
      decreases qhat
    {
      ProductSplit(qhat, v1, v0, rhat, u0, num);
      MulDistribute(qhat, 1, v1);
      if qhat < B32 { assert qhat > 0; }
      qhat := qhat - 1;
      rhat := rhat + v1;
      if rhat >= B32 {
        EstimateStop(qhat, rhat, num, v1, v0, u0);
        return qhat;
      }
    }
    ProductSplit(qhat, v1, v0, rhat, u0, num);
    return qhat;
  }

  /** qhat * v[n-2] > ((rhat << 32) | u[j+n-2]), evaluated only for qhat < B. */
  predicate TooBig(qhat: nat, v0: u32, rhat: nat, u0: u32)
    requires rhat < B32 && qhat < B32
    ensures TooBig(qhat, v0, rhat, u0) <==> qhat * v0 > rhat * B32 + u0
  {
    hide BitOr, Shl;
    ProductFits(qhat, v0);
    ShortWord(rhat, u0);
    var lhs: u64 := qhat * v0;
    var rhs: u64 := BitOr(Shl(rhat, 32), u0);
    lhs > rhs
  }

  lemma ProductFits(x: nat, y: nat)
    requires x < B32 && y < B32
    ensures 0 <= x * y < B64
  {
    MulNonNegative(x, y);
    MulMonotone(x, B32 - 1, y);
  }

  lemma EstimateStart(num: nat, v1: nat, v0: nat, u0: nat)
    requires HALF <= v1 < B32 && num < v1 * B32 + B32 && u0 < B32
    ensures Quo(num, v1) <= B32 + 1 && 0 <= num - Quo(num, v1) * v1 < B32
    ensures (Quo(num, v1) + 1) * (v1 * B32 + v0) > num * B32 + u0
  {
    hide Quo, Rem;
    QuoRem(num, v1);
    QuoBelow(num, v1, B32 + 2);
    var q := Quo(num, v1) + 1;
    MulDistribute(Quo(num, v1), 1, v1);
    ProductSplit(q, v1, v0, num - q * v1, u0, num);
    MulNonNegative(q, v0);
  }

  /** Once rhat reaches B the estimate passes the test. */
  lemma EstimateStop(qhat: nat, rhat: nat, num: nat, v1: nat, v0: nat, u0: nat)
    requires HALF <= v1 < B32 && num < v1 * B32 + B32 && v0 < B32
    requires qhat * v1 + rhat == num && rhat >= B32
    ensures qhat < B32 && qhat * (v1 * B32 + v0) <= num * B32 + u0
  {
    if qhat >= B32 { MulMonotone(B32, qhat, v1); assert false; }
    ProductSplit(qhat, v1, v0, rhat, u0, num);
    MulMonotone(qhat, B32 - 1, v0);
  }

  lemma ProductSplit(qhat: int, v1: nat, v0: nat, rhat: int, u0: nat, num: int)
    requires qhat * v1 + rhat == num
    ensures qhat * (v1 * B32 + v0) - (num * B32 + u0) == qhat * v0 - (rhat * B32 + u0)
  {
    MulDistribute(v1 * B32, v0, qhat);
    MulAssoc(qhat, v1, B32);
    MulDistribute(qhat * v1, rhat, B32);
  }

  // ----- multiply and subtract, add back -----

  lemma ProductTop(x: nat, y: nat)
    requires x < B32 && y < B32
    ensures 0 <= x * y <= (B32 - 1) * (B32 - 1)
  {
    MulNonNegative(x, y);
    MulMonotone(x, B32 - 1, y);
    MulMonotone(y, B32 - 1, B32 - 1);
  }

  /** One limb of u - borrow - p, as the source computes it with a signed 64 bit
      difference and an arithmetic shift. */
  lemma LimbDifference(p: int, u: int, borrow: int)
    requires 0 <= p <= (B32 - 1) * (B32 - 1) && 0 <= u < B32 && 0 <= borrow < B32
    ensures var t := u - borrow - p % B32;
            && -B64 < 2 * t < B64
            && 0 <= p / B32 - t / B32 < B32
            && t % B32 - (p / B32 - t / B32) * B32 == u - borrow - p
  {
    var t := u - borrow - p % B32;
    assert t == t / B32 * B32 + t % B32 && p == p / B32 * B32 + p % B32;
    assert p / B32 <= B32 - 2;
    assert -2 <= t / B32 <= 0;
  }

  function Upto(v: seq<nat>, i: nat): seq<nat> {
    if i <= |v| then v[..i] else v
  }

  /** x is what the lower limbs of w - qhat * v have become, up to the borrow. */
  ghost predicate Partial(x: seq<nat>, w: seq<nat>, v: seq<nat>, qhat: int, borrow: int) {
    |x| <= |w| && Val(x, B32) - borrow * Pow(B32, |x|) == Val(w[..|x|], B32) - qhat * Val(Upto(v, |x|), B32)
  }

  lemma PartialStart(w: seq<nat>, v: seq<nat>, qhat: int)
    ensures Partial([], w, v, qhat, 0)
  {
    hide Val, Pow;
    assert Upto(v, 0) == [] && w[..0] == [];
    ValCons(0, [], B32);
    assert 0 * Pow(B32, 0) == 0 && qhat * 0 == 0;
  }

  /** Appending the new limb d' to the difference x. */
  lemma PartialStep(x: seq<nat>, w: seq<nat>, v: seq<nat>, qhat: int, borrow: int, borrow': int, d: nat)
    requires Partial(x, w, v, qhat, borrow) && |x| < |w| && |x| <= |v|
    requires d - borrow' * B32 == w[|x|] - borrow - (if |x| < |v| then qhat * v[|x|] else 0)
    ensures Partial(x + [d], w, v, qhat, borrow')
  {
    hide Val, Pow;
    var i := |x|;
    ValSnoc(x, d, B32);
    ValPrefix(w, i, B32);
    PowNext(B32, i);
    var e := if i < |v| then v[i] else 0;
    if i < |v| { ValPrefix(v, i, B32); } else { assert v[..i] == v; }
    CarryAlgebra(Val(x, B32), borrow, Pow(B32, i), Val(w[..i], B32), qhat, Val(v[..i], B32), e, d, borrow', w[i]);
  }

  lemma CarryAlgebra(x: int, borrow: int, p: int, w: int, qhat: int, v: int, d: int, d': int, borrow': int, u: int)
    requires x - borrow * p == w - qhat * v
    requires d' - borrow' * B32 == u - borrow - qhat * d
    ensures (x + d' * p) - borrow' * (B32 * p) == (w + u * p) - qhat * (v + d * p)
  {
    MulDistribute(d', borrow' * B32, p);
    MulDistribute(u - borrow, qhat * d, p);
    MulDistribute(u, borrow, p);
    MulAssoc(borrow', B32, p);
    MulAssoc(qhat, d, p);
    MulDistribute(v, d * p, qhat);
  }

  /** The source's signed 64 bit difference of one limb. */
  method SubLimb(u: u32, v: u32, qhat: u32, borrow: i64) returns (d: u32, borrow': i64)
    requires 0 <= borrow < B32
    ensures 0 <= borrow' < B32 && d - borrow' * B32 == u as int - borrow - qhat * v
  {
    ProductTop(qhat, v);
    var p: u64 := qhat * v;
    LimbDifference(p, u, borrow);
    var t: i64 := u - borrow - p % B32;
    d := t % B32;
    borrow' := p / B32 - t / B32;
  }

  method MulSubLoop(un: array<u32>, vn: array<u32>, j: nat, n: nat, qhat: u32) returns (borrow: i64)
    requires un != vn && vn.Length == n && j + n < un.Length
    modifies un
    ensures un[..j] == old(un[..j]) && un[j + n..] == old(un[j + n..])
    ensures 0 <= borrow < B32
    ensures Partial(un[j..j + n], old(un[j..j + n + 1]), vn[..], qhat, borrow)
  {
    hide Partial;
    ghost var w, v := un[j..j + n + 1], vn[..];
    PartialStart(w, v, qhat);
    assert un[j..j] == [];
    borrow := 0;
    for i := 0 to n
      invariant 0 <= borrow < B32
      invariant un[..j] == old(un[..j])
      invariant un[j + i..j + n + 1] == w[i..] && un[j + n..] == old(un[j + n..])
      invariant Partial(un[j..j + i], w, v, qhat, borrow)
    {
      ghost var x, b0 := un[j..j + i], borrow;
      assert un[i + j] == un[j + i..j + n + 1][0] == w[i];
      var d;
      d, borrow := SubLimb(un[i + j], vn[i], qhat, borrow);
      PartialStep(x, w, v, qhat, b0, borrow, d);
      un[i + j] := d;
      assert un[j..j + i + 1] == x + [d];
    }
  }

  /** The whole window has been treated. */
  lemma PartialEnd(x: seq<nat>, w: seq<nat>, v: seq<nat>, qhat: int, borrow: int)
    requires Partial(x, w, v, qhat, borrow) && |x| == |w| == |v| + 1
    ensures Val(x, B32) - borrow * Pow(B32, |x|) == Val(w, B32) - qhat * Val(v, B32)
  {
    assert w[..|x|] == w;
  }

  /** Subtracts qhat * v from the n + 1 limbs of un that start at j. The result
      is negative, and then wrapped, exactly when neg is returned. */
  method MulSub(un: array<u32>, vn: array<u32>, j: nat, n: nat, qhat: u32) returns (neg: bool)
    requires un != vn && vn.Length == n && j + n < un.Length
    modifies un
    ensures un[..j] == old(un[..j]) && un[j + n + 1..] == old(un[j + n + 1..])
    ensures Val(un[j..j + n + 1], B32) + qhat * Val(vn[..], B32)
         == old(Val(un[j..j + n + 1], B32)) + (if neg then Pow(B32, n + 1) else 0)
  {
    hide Val, Pow, Partial;
    ghost var w := un[j..j + n + 1];
    var borrow := MulSubLoop(un, vn, j, n, qhat);
    ghost var x := un[j..j + n];
    assert un[j + n] == un[j + n..][0] == w[n];
    var t: i64 := un[j + n] - borrow;
    neg := t < 0;
    PartialStep(x, w, vn[..], qhat, borrow, if neg then 1 else 0, t % B32);
    un[j + n] := t % B32;
    assert un[j..j + n + 1] == x + [t % B32];
    PartialEnd(un[j..j + n + 1], w, vn[..], qhat, if neg then 1 else 0);
  }

  method AddBackLoop(un: array<u32>, vn: array<u32>, j: nat, n: nat) returns (carry: u64)
    requires un != vn && vn.Length == n && j + n < un.Length
    modifies un
    ensures un[..j] == old(un[..j]) && un[j + n..] == old(un[j + n..])
    ensures 0 <= carry <= 1
    ensures Partial(un[j..j + n], old(un[j..j + n + 1]), vn[..], -1, 0 - carry as int)
  {
    hide Partial;
    ghost var w, v := un[j..j + n + 1], vn[..];
    PartialStart(w, v, -1);
    assert un[j..j] == [];
    carry := 0;
    for i := 0 to n
      invariant 0 <= carry <= 1
      invariant un[..j] == old(un[..j])
      invariant un[j + i..j + n + 1] == w[i..] && un[j + n..] == old(un[j + n..])
      invariant Partial(un[j..j + i], w, v, -1, 0 - carry as int)
    {
      ghost var x, c0: int := un[j..j + i], carry;
      assert un[i + j] == un[j + i..j + n + 1][0] == w[i];
      var t2: u64 := un[i + j] + vn[i] + carry;
      PartialStep(x, w, v, -1, 0 - c0, 0 - t2 / B32, t2 % B32);
      un[i + j] := t2 % B32;
      carry := t2 / B32;
      assert un[j..j + i + 1] == x + [t2 % B32];
    }
  }

  /** Adds v back to the same window; the carry out of the top limb is dropped. */
  method AddBack(un: array<u32>, vn: array<u32>, j: nat, n: nat) returns (ghost dropped: int)
    requires un != vn && vn.Length == n && j + n < un.Length
    modifies un
    ensures un[..j] == old(un[..j]) && un[j + n + 1..] == old(un[j + n + 1..])
    ensures Val(un[j..j + n + 1], B32) + dropped * Pow(B32, n + 1)
         == old(Val(un[j..j + n + 1], B32)) + Val(vn[..], B32)
  {
    hide Val, Pow, Partial;
    ghost var w := un[j..j + n + 1];
    var carry := AddBackLoop(un, vn, j, n);
    ghost var x := un[j..j + n];
    assert un[j + n] == un[j + n..][0] == w[n];
    var top := (un[j + n] + carry) % B32;
    dropped := (un[j + n] + carry) / B32;
    PartialStep(x, w, vn[..], -1, 0 - carry, 0 - dropped, top);
    un[j + n] := top;
    assert un[j..j + n + 1] == x + [top];
    PartialEnd(un[j..j + n + 1], w, vn[..], -1, 0 - dropped);
    NegateProduct(dropped, Pow(B32, n + 1), Val(vn[..], B32));
  }

  lemma NegateProduct(d: int, p: int, v: int)
    ensures (0 - d) * p == 0 - d * p && -1 * v == 0 - v
  {}

  // ----- normalisation -----

  lemma LowIsMod(x: nat)
    ensures Low(x, 32) == x % B32
  {
    ShrIsDiv(x, 32);
    Pow2Literals();
  }

  /** One limb of a left shift; the shifted word fits in 64 bits. */
  lemma UpLimb(hi: u32, lo: u32, s: nat)
    requires s <= 32
    ensures Shl(hi, s) < B64
    ensures BitOr(Shl(hi, s), Shr(lo, 32 - s)) % B32 == JoinUp(hi, lo, s, 32) < B32
    ensures BitOr(Shr(lo, 32 - s), Shl(hi, s)) % B32 == JoinUp(hi, lo, s, 32)
  {
    hide Shl, Shr, Low, BitOr, Pow2, JoinUp;
    Pow2Literals();
    ShlBound(hi, s, 32);
    Pow2Monotone(s + 32, 64);
    JoinUpIsOr(hi, lo, s, 32);
    LowIsMod(BitOr(Shl(hi, s), Shr(lo, 32 - s)));
  }

  lemma LowestLimb(x: u32, s: nat)
    requires s <= 31
    ensures Shl(x, s) < B64
    ensures Shl(x, s) % B32 == JoinUp(x, 0, s, 32)
  {
    UpLimb(x, 0, s);
    LowOfSmall(0, 32 - s);
    LowIsMod(Shl(x, s));
  }

  lemma TopLimbOut(x: u32, s: nat)
    requires s <= 31
    ensures Shr(x, 32 - s) < Pow2(s) <= HALF
  {
    hide Shr, Pow2;
    Pow2Literals();
    ShrBound(x, 32 - s, s);
    Pow2Monotone(s, 31);
  }

  /** The limb whose top bits move into limb i of a left shift. */
  function Below(x: seq<u32>, i: nat): u32
    requires i <= |x|
  {
    if i == 0 then 0 else x[i - 1]
  }

  /** y[0..k) := x << s for s < 32, from the top limb down. */
  method ShiftLimbs(y: array<u32>, x: seq<u32>, k: nat, s: nat)
    requires 1 <= k <= |x| && k <= y.Length && s <= 31
    modifies y
    ensures forall i {:trigger y[i]} :: 0 <= i < k ==> y[i] == JoinUp(x[i], Below(x, i), s, 32)
    ensures y[k..] == old(y[k..])
  {
    var i := k - 1;
    while i > 0
      invariant 0 <= i < k
      invariant forall h {:trigger y[h]} :: i < h < k ==> y[h] == JoinUp(x[h], Below(x, h), s, 32)
      invariant y[k..] == old(y[k..])
    {
      UpLimb(x[i], x[i - 1], s);
      var hi: u64 := Shl(x[i], s);
      y[i] := BitOr(hi, Shr(x[i - 1], 32 - s)) % B32;
      i := i - 1;
    }
    LowestLimb(x[0], s);
    var lo: u64 := Shl(x[0], s);
    y[0] := lo % B32;
  }

  /** What ShiftLimbs computes, with the bits that leave the top limb. */
  lemma ShiftedValue(x: seq<u32>, y: seq<u32>, k: nat, s: nat)
    requires 1 <= k <= |x| && k <= |y| && s <= 31
    requires forall i {:trigger y[i]} :: 0 <= i < k ==> y[i] == JoinUp(x[i], Below(x, i), s, 32)
    ensures Val(y[..k], B32) + Shr(x[k - 1], 32 - s) * Pow(B32, k) == Shl(Val(x[..k], B32), s)
  {
    var b := B32;
    assert Pow2(32) == b by { Pow2Literals(); }
    ShiftUpVal(x, y, s, 32, k);
  }

  lemma NormalTop(x: u32, lo: u32, s: nat)
    requires s <= 31 && HALF <= Shl(x, s) < B32
    ensures JoinUp(x, lo, s, 32) >= HALF && Shr(x, 32 - s) == 0
  {
    Pow2Literals();
    LowOfSmall(Shl(x, s), 32);
    LowOfShl(x, s, 32);
  }

  /** r := un >> s, limb n of un supplying the top bits. */
  method Denormalise(r: array<u32>, un: array<u32>, n: nat, s: nat)
    requires r != un && r.Length == n && n < un.Length && s <= 31
    modifies r
    ensures forall i {:trigger r[i]} :: 0 <= i < n ==> r[i] == JoinDown(un[i], un[i + 1], s, 32)
  {
    for i := 0 to n
      invariant forall h {:trigger r[h]} :: 0 <= h < i ==> r[h] == JoinDown(un[h], un[h + 1], s, 32)
    {
      UpLimb(un[i + 1], un[i], 32 - s);
      var hi: u64 := Shl(un[i + 1], 32 - s);
      r[i] := BitOr(Shr(un[i], s), hi) % B32;
    }
  }

  // ----- the main loop -----

  /** The part of the dividend that a quotient accounts for at its position. */
  function Weighted(q: int, v: int, p: int): int {
    q * v * p
  }

  /** What holds before quotient limb j is computed (and, with j == -1, at the
      end): the quotient limbs above j account for everything but un, whose part
      above limb j is already smaller than the divisor. */
  ghost predicate DivInvariant(un: seq<u32>, qs: seq<u32>, j: int, n: nat, V: nat, U: nat)
  {
    && -1 <= j && n >= 2 && |un| == j + 1 + n + |qs|
    && Val(un, B32) + Weighted(Val(qs, B32), V, Pow(B32, j + 1)) == U
    && (forall k :: j + 1 + n <= k < |un| ==> un[k] == 0)
    && Val(un[j + 1..j + 1 + n], B32) < V
  }

  lemma WindowBelow(un: seq<u32>, qs: seq<u32>, j: int, n: nat, V: nat, U: nat)
    requires DivInvariant(un, qs, j, n, V, U) && j >= 0
    ensures Val(un[j..j + n + 1], B32) < B32 * V
  {
    assert un[j..j + n + 1] == [un[j]] + un[j + 1..j + 1 + n];
  }

  lemma TopIsZero(w: seq<u32>, n: nat)
    requires |w| == n + 1 && Val(w, B32) < Pow(B32, n)
    ensures w[n] == 0 && Val(w[..n], B32) == Val(w, B32)
  {
    ValTop(w, B32);
    if w[n] > 0 { MulMonotone(1, w[n], Pow(B32, n)); assert false; }
    ValTrim(w, n, B32);
  }

  lemma DigitStep(un: seq<u32>, un': seq<u32>, qs: seq<u32>, j: int, n: nat, V: nat, U: nat, d: u32)
    requires DivInvariant(un, qs, j, n, V, U) && 0 <= j && |un'| == |un|
    requires un'[..j] == un[..j] && un'[j + n + 1..] == un[j + n + 1..]
    requires Val(un'[j..j + n + 1], B32) + d * V == Val(un[j..j + n + 1], B32)
    requires Val(un'[j..j + n + 1], B32) < V < Pow(B32, n)
    ensures DivInvariant(un', [d] + qs, j - 1, n, V, U)
  {
    var w := un'[j..j + n + 1];
    TopIsZero(w, n);
    assert w[..n] == un'[j..j + n];
    forall k | j + n <= k < |un'|
      ensures un'[k] == 0
    {
      if k > j + n { assert un'[k] == un'[j + n + 1..][k - j - n - 1] == un[k]; }
    }
    DigitValue(un, un', qs, j, n + 1, V, d);
  }

  /** Products by name, for the proofs where their algebra is not the point. */
  function Times(x: int, p: int): int {
    x * p
  }

  lemma WindowTimes(s: seq<nat>, t: seq<nat>, j: nat, l: nat)
    requires |s| == |t| && j + l <= |s| && s[..j] == t[..j] && s[j + l..] == t[j + l..]
    ensures Val(t, B32) + Times(Val(s[j..j + l], B32), Pow(B32, j)) == Val(s, B32) + Times(Val(t[j..j + l], B32), Pow(B32, j))
  {
    hide Val, Pow;
    ValWindow(s, t, j, l, B32);
  }

  lemma DigitValue(un: seq<u32>, un': seq<u32>, qs: seq<u32>, j: nat, l: nat, V: nat, d: u32)
    requires j + l <= |un| == |un'|
    requires un'[..j] == un[..j] && un'[j + l..] == un[j + l..]
    requires Val(un'[j..j + l], B32) + Times(d, V) == Val(un[j..j + l], B32)
    ensures Val(un', B32) + Weighted(Val([d] + qs, B32), V, Pow(B32, j)) == Val(un, B32) + Weighted(Val(qs, B32), V, Pow(B32, j + 1))
  {
    hide Val, Pow, Weighted, Times;
    WindowTimes(un, un', j, l);
    ValCons(d, qs, B32);
    PowNext(B32, j);
    StepAlgebra(Val(un, B32), Val(un', B32), Val(un[j..j + l], B32), Val(un'[j..j + l], B32), d, Val(qs, B32), V, Pow(B32, j));
  }

  lemma StepAlgebra(x: int, x': int, w: int, w': int, d: int, q: int, v: int, p: int)
    requires x' + Times(w, p) == x + Times(w', p) && w' + Times(d, v) == w
    ensures x' + Weighted(d + B32 * q, v, p) == x + Weighted(q, v, B32 * p)
  {
    MulDistribute(w', d * v, p);
    MulDistribute(d, B32 * q, v);
    MulDistribute(d * v, B32 * q * v, p);
    MulAssoc(B32, q, v);
    MulAssoc(q * v, B32, p);
  }

  /** The signed difference is negative exactly when the estimate was one too
      big, and one add-back repairs it. */
  lemma DigitCases(W: nat, V: nat, P: nat, qhat: nat, x: nat, neg: bool)
    requires (qhat - 1) * V <= W < (qhat + 1) * V && V < P && x < B32 * P && 0 < V
    requires x + qhat * V == W + (if neg then B32 * P else 0)
    ensures !neg ==> x < V
    ensures neg ==> qhat > 0 && B32 * P <= x + V < B32 * P + V
  {
    MulDistribute(qhat, 1, V);
    if neg && qhat == 0 { assert false; }
  }

  method Divmnu(q: array<u32>, r: array<u32>, u: seq<u32>, v: seq<u32>, m: nat, n: nat)
    requires 1 <= n <= m && m <= |u| && n <= |v| && v[n - 1] != 0
    requires q != r && q.Length == m - n + 1 && r.Length == n
    modifies q, r
    ensures Val(q[..], B32) * Val(v[..n], B32) + Val(r[..], B32) == Val(u[..m], B32)
    ensures Val(r[..], B32) < Val(v[..n], B32)
  {
    hide Val, Pow, Shl, Shr, Clz32;
    if n == 1 {
      ShortDivide(q, r, u, v[0], m);
      assert v[..1] == [v[0]];
      OneLimb(v[0]);
      return;
    }
    var s := Clz32(v[n - 1]);
    var vn := new u32[n];
    var un := new u32[m + 1];
    ShiftLimbs(vn, v, n, s);
    TopLimbOut(u[m - 1], s);
    un[m] := Shr(u[m - 1], 32 - s);
    ghost var top := un[m];
    ShiftLimbs(un, u, m, s);
    assert un[m] == un[m..][0] == top;
    ghost var V, U := Val(vn[..], B32), Shl(Val(u[..m], B32), s);
    Normalised(u, v, m, n, s, un[..], vn[..]);
    DivLoop(q, un, vn, m, n, U);
    Denormalise(r, un, n, s);
    Finish(u[..m], v[..n], n, s, un[..], vn[..], q[..], r[..]);
  }

  lemma OneLimb(x: nat)
    ensures Val([x], B32) == x
  {
    ValCons(x, [], B32);
    assert [x] + [] == [x];
  }

  lemma ShortWord(k: nat, u: u32)
    requires k < B32
    ensures BitOr(Shl(k, 32), u) == k * B32 + u < B64
  {
    Pow2Literals();
    OrDisjoint(k, u, 32);
    ShlIsMul(k, 32);
  }

  lemma ShortDigit(k: nat, u: u32, d: u32)
    requires k < d
    ensures var cur := k * B32 + u;
      Quo(cur, d) < B32 && Quo(cur, d) * d + Rem(cur, d) == cur && Rem(cur, d) < d
  {
    hide Quo, Rem;
    var cur := k * B32 + u;
    QuoRem(cur, d);
    QuoBelow(cur, d, B32);
  }

  /** The upper limbs divided so far. */
  ghost predicate ShortInvariant(qs: seq<nat>, us: seq<nat>, d: nat, k: nat) {
    k < d && Val(qs, B32) * d + k == Val(us, B32)
  }

  lemma ShortStart(d: nat)
    requires d > 0
    ensures ShortInvariant([], [], d, 0)
  {
    assert 0 * d == 0;
  }

  lemma ShortEnd(qs: seq<nat>, us: seq<nat>, d: nat, k: nat)
    requires ShortInvariant(qs, us, d, k)
    ensures Val(qs, B32) * d + Val([k], B32) == Val(us, B32) && Val([k], B32) < d
  {
    hide Val;
    ValCons(k, [], B32);
    assert [k] + [] == [k];
  }

  lemma ShortStep(qs: seq<u32>, us: seq<u32>, d: nat, k: nat, k': nat, q: u32, u: u32)
    requires ShortInvariant(qs, us, d, k)
    requires k' < d && q * d + k' == k * B32 + u
    ensures ShortInvariant([q] + qs, [u] + us, d, k')
  {
    hide Val;
    ValCons(q, qs, B32);
    ValCons(u, us, B32);
    ShortAlgebra(Val(qs, B32), d, k, k', q, u, Val(us, B32));
  }

  lemma ShortAlgebra(x: int, d: int, k: int, k': int, q: int, u: int, y: int)
    requires x * d + k == y && q * d + k' == k * B32 + u
    ensures (q + B32 * x) * d + k' == u + B32 * y
  {
    MulDistribute(q, B32 * x, d);
    MulAssoc(B32, x, d);
  }

  /** The single-limb divisor. */
  method ShortDivide(q: array<u32>, r: array<u32>, u: seq<u32>, d: u32, m: nat)
    requires d != 0 && 1 <= m <= |u| && q != r && q.Length == m && r.Length == 1
    modifies q, r
    ensures Val(q[..], B32) * d + Val(r[..], B32) == Val(u[..m], B32)
    ensures Val(r[..], B32) < d
  {
    hide Val, ShortInvariant;
    var k := ShortLoop(q, u, d, m);
    r[0] := k;
    ShortEnd(q[..], u[..m], d, k);
    assert r[..] == [k];
  }

  /** One quotient limb after the other, from the top. */
  method ShortLoop(q: array<u32>, u: seq<u32>, d: u32, m: nat) returns (k: u64)
    requires d != 0 && 1 <= m <= |u| && q.Length == m
    modifies q
    ensures k < d && ShortInvariant(q[..], u[..m], d, k)
  {
    hide BitOr, Shl, Quo, Rem, ShortInvariant;
    ShortStart(d);
    k := 0;
    var j := m - 1;
    assert q[j + 1..] == [] && u[j + 1..m] == [];
    while j >= 0
      invariant -1 <= j < m && k < d
      invariant ShortInvariant(q[j + 1..], u[j + 1..m], d, k)
    {
      ShortWord(k, u[j]);
      ShortDigit(k, u[j], d);
      ghost var qs := q[j + 1..];
      var cur: u64 := BitOr(Shl(k, 32), u[j]);
      ShortStep(qs, u[j + 1..m], d, k, Rem(cur, d), Quo(cur, d), u[j]);
      q[j] := Quo(cur, d);
      k := Rem(cur, d);
      assert q[j..] == [q[j]] + qs && u[j..m] == [u[j]] + u[j + 1..m];
      j := j - 1;
    }
    assert q[0..] == q[..] && u[0..m] == u[..m];
  }

  method DivLoop(q: array<u32>, un: array<u32>, vn: array<u32>, m: nat, n: nat, ghost U: nat)
    requires 2 <= n <= m && q != un && q != vn && un != vn
    requires q.Length == m - n + 1 && un.Length == m + 1 && vn.Length == n
    requires vn[n - 1] >= HALF
    requires DivInvariant(un[..], [], m - n, n, Val(vn[..], B32), U)
    modifies q, un
    ensures DivInvariant(un[..], q[..], -1, n, Val(vn[..], B32), U)
  {
    var j := m - n;
    while j >= 0
      invariant -1 <= j <= m - n
      invariant DivInvariant(un[..], q[j + 1..], j, n, Val(vn[..], B32), U)
    {
      ghost var qs := q[j + 1..];
      var d := DivDigit(un, vn, j, n, qs, U);
      q[j] := d;
      assert q[j..] == [d] + qs;
      j := j - 1;
    }
  }

  method DivDigit(un: array<u32>, vn: array<u32>, j: nat, n: nat, ghost qs: seq<u32>, ghost U: nat) returns (d: u32)
    requires n >= 2 && un != vn && vn.Length == n && j + n < un.Length && vn[n - 1] >= HALF
    requires DivInvariant(un[..], qs, j, n, Val(vn[..], B32), U)
    modifies un
    ensures DivInvariant(un[..], [d] + qs, j - 1, n, Val(vn[..], B32), U)
  {
    ghost var before, v := un[..], vn[..];
    ghost var w := un[j..j + n + 1];
    WindowBelow(before, qs, j, n, Val(v, B32), U);
    assert before[j..j + n + 1] == w;
    TopLimb(w, v);
    d := Subtract(un, vn, j, n);
    DivisorRange(v);
    assert un[..][j..j + n + 1] == un[j..j + n + 1];
    DigitStep(before, un[..], qs, j, n, Val(v, B32), U, d);
  }

  lemma DivisorRange(v: seq<u32>)
    requires |v| >= 1 && v[|v| - 1] > 0
    ensures 0 < Val(v, B32) < Pow(B32, |v|)
  {
    ValBound(v, B32);
    ValTop(v, B32);
    PowPositive(B32, |v| - 1);
    MulPositive(v[|v| - 1], Pow(B32, |v| - 1));
  }

  /** Estimate, multiply and subtract, and the rare add-back: the window is
      reduced by d * v to a remainder below v. */
  method Subtract(un: array<u32>, vn: array<u32>, j: nat, n: nat) returns (d: u32)
    requires n >= 2 && un != vn && vn.Length == n && j + n < un.Length && vn[n - 1] >= HALF
    requires un[j + n] <= vn[n - 1]
    requires Val(un[j..j + n + 1], B32) < B32 * Val(vn[..], B32)
    modifies un
    ensures un[..j] == old(un[..j]) && un[j + n + 1..] == old(un[j + n + 1..])
    ensures Val(un[j..j + n + 1], B32) + d * Val(vn[..], B32) == old(Val(un[j..j + n + 1], B32))
    ensures Val(un[j..j + n + 1], B32) < Val(vn[..], B32)
  {
    hide Val, Pow;
    PowNext(B32, n);
    ghost var w, v := un[j..j + n + 1], vn[..];
    ghost var V, W := Val(v, B32), Val(w, B32);
    DivisorRange(v);
    var qhat := EstimateDigit(un[j + n], un[j + n - 1], un[j + n - 2], vn[n - 1], vn[n - 2]);
    EstimateBounds(qhat, w, v);
    var neg := MulSub(un, vn, j, n, qhat);
    d := qhat;
    ghost var x := Val(un[j..j + n + 1], B32);
    ValBound(un[j..j + n + 1], B32);
    DigitCases(W, V, Pow(B32, n), qhat, x, neg);
    if neg {
      d := d - 1;
      ghost var dropped := AddBack(un, vn, j, n);
      ValBound(un[j..j + n + 1], B32);
      DroppedIsOne(Val(un[j..j + n + 1], B32), dropped, B32 * Pow(B32, n), x + V, V);
      MulDistribute(qhat, 1, V);
    }
  }

  lemma DroppedIsOne(y: int, c: int, p: int, z: int, v: int)
    requires 0 <= y < p && y + c * p == z && p <= z < p + v && v < p
    ensures y == z - p
  {
    DivModUnique(z, p, c, y);
    DivModUnique(z, p, 1, z - p);
  }

  /** The window is below B * V, so its top limb is at most the divisor's. */
  lemma TopLimb(w: seq<nat>, v: seq<nat>)
    requires |v| >= 2 && |w| == |v| + 1 && Digits(w, B32) && Digits(v, B32)
    requires Val(w, B32) < B32 * Val(v, B32)
    ensures w[|v|] <= v[|v| - 1]
  {
    hide Val, Pow;
    var n := |v|;
    ValTop(w, B32);
    ValPrefix(v, n - 1, B32);
    assert v[..n - 1 + 1] == v;
    ValBound(v[..n - 1], B32);
    PowNext(B32, n - 1);
    TopCompare(w[n], v[n - 1], Pow(B32, n - 1), Val(w, B32), Val(v, B32));
  }

  lemma TopCompare(x: int, y: int, p: int, W: int, V: int)
    requires p > 0 && W >= x * (B32 * p) && W < B32 * V && V < y * p + p
    ensures x <= y
  {
    MulAssoc(x, B32, p);
    MulAssoc(B32, x, p);
    if x > y { MulStrict(y, x, p); assert false; }
  }

  lemma Normalised(u: seq<u32>, v: seq<u32>, m: nat, n: nat, s: nat, un: seq<u32>, vn: seq<u32>)
    requires 2 <= n <= m && m <= |u| && n <= |v| && |un| == m + 1 && |vn| == n && s <= 31
    requires HALF <= Shl(v[n - 1], s) < B32
    requires un[m] == Shr(u[m - 1], 32 - s)
    requires forall i {:trigger un[i]} :: 0 <= i < m ==> un[i] == JoinUp(u[i], Below(u, i), s, 32)
    requires forall i {:trigger vn[i]} :: 0 <= i < n ==> vn[i] == JoinUp(v[i], Below(v, i), s, 32)
    ensures vn[n - 1] >= HALF && Val(vn, B32) == Shl(Val(v[..n], B32), s)
    ensures DivInvariant(un, [], m - n, n, Val(vn, B32), Shl(Val(u[..m], B32), s))
  {
    hide Val, Shl, Shr, JoinUp, DivInvariant;
    NormalDivisor(v, vn, n, s);
    NormalDividend(u, un, m, s);
    TopLimbOut(u[m - 1], s);
    InitialInvariant(un, vn, n);
  }

  lemma InitialInvariant(un: seq<u32>, vn: seq<u32>, n: nat)
    requires 2 <= n == |vn| && n < |un| && un[|un| - 1] < vn[n - 1]
    ensures DivInvariant(un, [], |un| - 1 - n, n, Val(vn, B32), Val(un, B32))
  {
    var top := un[|un| - n..];
    assert top[n - 1] == un[|un| - 1];
    TopLess(top, vn);
    assert un[|un| - n..|un|] == top;
    assert Val([], B32) * Val(vn, B32) == 0;
  }

  lemma NormalDivisor(v: seq<u32>, vn: seq<u32>, n: nat, s: nat)
    requires 1 <= n <= |v| && |vn| == n && s <= 31 && HALF <= Shl(v[n - 1], s) < B32
    requires forall i {:trigger vn[i]} :: 0 <= i < n ==> vn[i] == JoinUp(v[i], Below(v, i), s, 32)
    ensures vn[n - 1] >= HALF && Val(vn, B32) == Shl(Val(v[..n], B32), s)
  {
    hide Val, Shl;
    ShiftedValue(v, vn, n, s);
    NormalTop(v[n - 1], Below(v, n - 1), s);
    assert vn[..n] == vn;
  }

  lemma NormalDividend(u: seq<u32>, un: seq<u32>, m: nat, s: nat)
    requires 1 <= m <= |u| && |un| == m + 1 && s <= 31
    requires un[m] == Shr(u[m - 1], 32 - s)
    requires forall i {:trigger un[i]} :: 0 <= i < m ==> un[i] == JoinUp(u[i], Below(u, i), s, 32)
    ensures Val(un, B32) == Shl(Val(u[..m], B32), s)
  {
    ShiftedValue(u, un, m, s);
    ValPrefix(un, m, B32);
    assert un[..m + 1] == un;
  }

  lemma TopLess(x: seq<u32>, y: seq<u32>)
    requires |x| == |y| > 0 && x[|x| - 1] < y[|x| - 1]
    ensures Val(x, B32) < Val(y, B32)
  {
    var k := |x| - 1;
    ValPrefix(x, k, B32);
    assert x[..k + 1] == x;
    ValBound(x[..k], B32);
    ValTop(y, B32);
    MulStrict(x[k], y[k], Pow(B32, k));
  }

  lemma FinalInvariant(un: seq<u32>, q: seq<u32>, n: nat, V: nat, U: nat)
    requires DivInvariant(un, q, -1, n, V, U) && n < |un|
    ensures Val(un[..n], B32) + V * Val(q, B32) == U
    ensures Val(un[..n], B32) < V && un[n] == 0
  {
    hide Val, Pow;
    PowNext(B32, 0);
    assert un[0..n] == un[..n];
    ValTrim(un, n, B32);
  }

  lemma Finish(u: seq<u32>, v: seq<u32>, n: nat, s: nat, un: seq<u32>, vn: seq<u32>, q: seq<u32>, r: seq<u32>)
    requires s <= 31 && |r| == n < |un|
    requires Val(vn, B32) == Shl(Val(v, B32), s)
    requires DivInvariant(un, q, -1, n, Val(vn, B32), Shl(Val(u, B32), s))
    requires forall i {:trigger r[i]} :: 0 <= i < n ==> r[i] == JoinDown(un[i], un[i + 1], s, 32)
    ensures Val(q, B32) * Val(v, B32) + Val(r, B32) == Val(u, B32)
    ensures Val(r, B32) < Val(v, B32)
  {
    hide Val, Pow, Shl, Low, Pow2, DivInvariant, JoinDown;
    FinalInvariant(un, q, n, Val(vn, B32), Shl(Val(u, B32), s));
    RemainderShifted(un, r, n, s);
    FinishShifted(Val(u, B32), Val(v, B32), Val(un[..n], B32), Val(vn, B32), Val(q, B32), Val(r, B32), un[0], s);
  }

  lemma FinishShifted(u: nat, v: nat, un: nat, vn: nat, q: nat, r: nat, x: nat, s: nat)
    requires vn == Shl(v, s) && un + vn * q == Shl(u, s) && un < vn
    requires un == Shl(r, s) + Low(x, s)
    ensures q * v + r == u && r < v
  {
    ShrLow(x, s);
    ShlIsMul(v, s);
    ShlIsMul(u, s);
    ShlIsMul(r, s);
    Unscale(q, v, r, u, Low(x, s), Pow2(s), un, vn);
  }

  lemma Unscale(q: int, v: int, r: int, u: int, low: int, p: int, un: int, vn: int)
    requires 0 <= low < p && vn == v * p && un == r * p + low
    requires un + vn * q == u * p && un < vn
    ensures q * v + r == u && r < v
  {
    if r >= v { MulMonotone(v, r, p); assert false; }
    assert vn * q == (q * v) * p by { MulAssoc(q, v, p); }
    MulDistribute(q * v, r, p);
    DivModUnique((q * v + r) * p + low, p, q * v + r, low);
    DivModUnique(u * p, p, u, 0);
  }

  lemma ShiftedDownValue(un: seq<u32>, r: seq<u32>, n: nat, s: nat)
    requires s <= 31 && |r| == n < |un|
    requires forall i {:trigger r[i]} :: 0 <= i < n ==> r[i] == JoinDown(un[i], un[i + 1], s, 32)
    ensures Shl(Val(r[..n], B32), s) + Low(un[0], s) == Val(un[..n], B32) + Low(un[n], s) * Pow(B32, n)
  {
    var b := B32;
    assert Pow2(32) == b by { Pow2Literals(); }
    ShiftDownVal(un, r, s, 32, n);
  }

  lemma RemainderShifted(un: seq<u32>, r: seq<u32>, n: nat, s: nat)
    requires s <= 31 && |r| == n < |un| && un[n] == 0
    requires forall i {:trigger r[i]} :: 0 <= i < n ==> r[i] == JoinDown(un[i], un[i + 1], s, 32)
    ensures Val(un[..n], B32) == Shl(Val(r, B32), s) + Low(un[0], s)
  {
    hide Val, Pow, Shl, Low, Pow2, DivInvariant, JoinDown;
    ShiftedDownValue(un, r, n, s);
    LowOfSmall(0, s);
    assert Low(un[n], s) == 0 && r[..n] == r;
  }
}
