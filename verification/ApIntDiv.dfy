/** Division of wide integers (src/utils/APInt.hpp, src/utils/APInt.cpp): native up
    to 128 bits, above that on 32 bit limbs with Algorithm D. */
module ApIntDiv {
  import opened Arith
  import opened Words
  import opened Wrapping
  import opened ApInt
  import KnuthD

  // ----- limbs -----

  /** Each word holds two limbs. */
  predicate IsLimbs(w: seq<nat>, l: seq<nat>) {
    |l| == 2 * |w| && forall i :: 0 <= i < |w| ==> l[2 * i] + B32 * l[2 * i + 1] == w[i]
  }

  lemma {:induction false} LimbsValue(w: seq<nat>, l: seq<nat>)
    requires IsLimbs(w, l)
    ensures Val(l, B32) == Val(w, B64)
  {
    if w != [] {
      assert forall i :: 0 <= i < |w| - 1 ==> l[2..][2 * i] == l[2 * (i + 1)] && l[2..][2 * i + 1] == l[2 * (i + 1) + 1] && w[1..][i] == w[i + 1];
      LimbsValue(w[1..], l[2..]);
      assert l[1..][1..] == l[2..];
      assert l[2 * 0] + B32 * l[2 * 0 + 1] == w[0];
    }
  }

  method ToLimbs(w: seq<u64>) returns (l: array<u32>)
    ensures fresh(l) && IsLimbs(w, l[..]) && Val(l[..], B32) == Val(w, B64)
  {
    hide Val;
    l := new u32[2 * |w|](_ => 0);
    for i := 0 to |w|
      invariant forall h :: 0 <= h < i ==> l[2 * h] + B32 * l[2 * h + 1] == w[h]
    {
      WordHalves(w[i]);
      l[2 * i] := Low(w[i], 32);
      l[2 * i + 1] := Low(Shr(w[i], 32), 32);
    }
    LimbsValue(w, l[..]);
  }

  lemma WordHalves(x: u64)
    ensures Low(x, 32) < B32 && Low(Shr(x, 32), 32) < B32
    ensures Low(x, 32) + B32 * Low(Shr(x, 32), 32) == x
  {
    hide Low, Shr, Shl, Pow2;
    Pow2Literals();
    ShrLow(x, 32);
    ShlIsMul(Shr(x, 32), 32);
    ShrBound(x, 32, 32);
    LowOfSmall(Shr(x, 32), 32);
  }

  /** The number of limbs below the leading zeros. */
  method Trim(l: seq<u32>) returns (n: nat)
    ensures n <= |l| && (n > 0 ==> l[n - 1] != 0)
    ensures Val(l[..n], B32) == Val(l, B32) && (n == 0 <==> Val(l, B32) == 0)
  {
    n := |l|;
    while n > 0 && l[n - 1] == 0
      invariant n <= |l| && forall i :: n <= i < |l| ==> l[i] == 0
    {
      n := n - 1;
    }
    ValTrim(l, n, B32);
    if n > 0 { TopPositive(l[..n]); }
  }

  lemma TopPositive(l: seq<u32>)
    requires l != []
    ensures l[|l| - 1] != 0 ==> Val(l, B32) >= Pow(B32, |l| - 1) > 0
  {
    ValTop(l, B32);
    PowPositive(B32, |l| - 1);
    if l[|l| - 1] != 0 { MulMonotone(1, l[|l| - 1], Pow(B32, |l| - 1)); }
  }

  function LimbAt(l: seq<u32>, count: nat, i: nat): nat {
    if i < count && i < |l| then l[i] else 0
  }

  lemma PackedWord(x: u32, y: u32)
    ensures BitOr(0, Shl(x, 0)) == x
    ensures BitOr(x, Shl(y, 32)) == x + B32 * y
    ensures 0 <= x + B32 * y < B64
  {
    Pow2Literals();
    OrDisjoint(y, x, 32);
    ShlIsMul(y, 32);
  }

  /** Limbs or-ed into zeroed words. */
  method Pack(d: array<u64>, l: seq<u32>)
    requires |l| <= 2 * d.Length && forall h :: 0 <= h < d.Length ==> d[h] == 0
    modifies d
    ensures Val(d[..], B64) == Val(l, B32)
  {
    hide Val, BitOr, Shl;
    for i := 0 to |l|
      invariant forall h :: 0 <= h < d.Length ==> d[h] == LimbAt(l, i, 2 * h) + B32 * LimbAt(l, i, 2 * h + 1)
    {
      var h := i / 2;
      PackedWord(if i % 2 == 0 then l[i] else l[i - 1], if i % 2 == 0 then 0 else l[i]);
      assert d[h] == LimbAt(l, i, 2 * h) + B32 * LimbAt(l, i, 2 * h + 1);
      d[h] := BitOr(d[h], Shl(l[i], 32 * (i % 2)));
    }
    PackedValue(d[..], l);
  }

  lemma PackedValue(w: seq<u64>, l: seq<u32>)
    requires |l| <= 2 * |w|
    requires forall h :: 0 <= h < |w| ==> w[h] == LimbAt(l, |l|, 2 * h) + B32 * LimbAt(l, |l|, 2 * h + 1)
    ensures Val(w, B64) == Val(l, B32)
  {
    hide Val;
    var padded := l + seq(2 * |w| - |l|, i => 0 as u32);
    assert IsLimbs(w, padded);
    LimbsValue(w, padded);
    ValTrim(padded, |l|, B32);
    assert padded[..|l|] == l;
  }

  // ----- unsigned division -----

  lemma FewerLimbs(u: seq<u32>, v: seq<u32>)
    requires |u| < |v| && v[|v| - 1] != 0
    ensures Val(u, B32) < Val(v, B32)
  {
    hide Val, Pow;
    ValBound(u, B32);
    TopPositive(v);
    PowAdd(B32, |u|, |v| - 1 - |u|);
    PowPositive(B32, |v| - 1 - |u|);
    PowPositive(B32, |u|);
    MulMonotone(1, Pow(B32, |v| - 1 - |u|), Pow(B32, |u|));
  }

  /** Quotient and remainder of values above 64 bits. */
  method UdivremWide(a: APInt, b: APInt) returns (q: APInt, r: APInt)
    requires Wf(a) && Wf(b) && a.bits == b.bits && a.Wide? && V(b) != 0
    ensures Wf(q) && Wf(r) && q.bits == r.bits == a.bits
    ensures V(q) * V(b) + V(r) == V(a) && V(r) < V(b)
  {
    hide Val, Cut, Pow2;
    if a.bits <= 128 {
      var x, y := Get128(a), Get128(b);
      QuoRem(x, y);
      QuotientFits(Quo(x, y), y, Rem(x, y), x);
      CutSmall(Quo(x, y), a.bits);
      CutSmall(Rem(x, y), a.bits);
      q := FromU128(a.bits, Quo(x, y));
      r := FromU128(a.bits, Rem(x, y));
    } else {
      q, r := LongDivision(a, b);
    }
  }

  method LongDivision(a: APInt, b: APInt) returns (q: APInt, r: APInt)
    requires Wf(a) && Wf(b) && a.bits == b.bits && a.Wide? && V(b) != 0
    ensures Wf(q) && Wf(r) && q.bits == r.bits == a.bits
    ensures V(q) * V(b) + V(r) == V(a) && V(r) < V(b)
  {
    hide Val, Cut, Pow2;
    var ul := ToLimbs(a.words);
    var vl := ToLimbs(b.words);
    var m := Trim(ul[..]);
    var n := Trim(vl[..]);
    if m < n {
      FewerLimbs(ul[..m], vl[..n]);
      assert ul[..][..m] == ul[..m] && vl[..][..n] == vl[..n];
      q := Zero(a.bits);
      r := a;
    } else {
      var ql := new u32[m - n + 1](_ => 0);
      var rl := new u32[n](_ => 0);
      ghost var u, v := ul[..], vl[..];
      KnuthD.Divmnu(ql, rl, ul[..], vl[..], m, n);
      var qd := new u64[WordsFor(a.bits)](_ => 0);
      Pack(qd, ql[..]);
      var rd := new u64[WordsFor(a.bits)](_ => 0);
      Pack(rd, rl[..]);
      QuotientFits(Val(qd[..], B64), V(b), Val(rd[..], B64), V(a));
      q := Wide(a.bits, qd[..]);
      r := Wide(a.bits, rd[..]);
    }
  }

  /** Division by zero is for the caller to exclude. */
  method Udiv(a: APInt, b: APInt) returns (r: APInt)
    requires Wf(a) && Wf(b) && a.bits == b.bits && V(b) != 0
    ensures Wf(r) && r.bits == a.bits && V(r) == Quo(V(a), V(b))
  {
    hide Val, Cut, Pow2, Quo, Rem;
    QuoRem(V(a), V(b));
    QuotientFits(Quo(V(a), V(b)), V(b), Rem(V(a), V(b)), V(a));
    if a.Small? {
      r := FromU64(a.bits, Quo(a.val, b.val));
      CutSmall(Quo(a.val, b.val), a.bits);
    } else {
      var rem: APInt;
      r, rem := UdivremWide(a, b);
      QuoUnique(V(a), V(b), V(r), V(rem));
    }
  }

  method Urem(a: APInt, b: APInt) returns (r: APInt)
    requires Wf(a) && Wf(b) && a.bits == b.bits && V(b) != 0
    ensures Wf(r) && r.bits == a.bits && V(r) == Rem(V(a), V(b))
  {
    hide Val, Cut, Pow2, Quo, Rem;
    QuoRem(V(a), V(b));
    QuotientFits(Quo(V(a), V(b)), V(b), Rem(V(a), V(b)), V(a));
    if a.Small? {
      r := FromU64(a.bits, Rem(a.val, b.val));
      CutSmall(Rem(a.val, b.val), a.bits);
    } else {
      var quo: APInt;
      quo, r := UdivremWide(a, b);
      QuoUnique(V(a), V(b), V(quo), V(r));
    }
  }

  // ----- signed division -----

  lemma Nonzero(b: APInt)
    requires Wf(b) && V(b) != 0
    ensures S(b) != 0
  {
    CutOfSigned(V(b), b.bits);
  }

  /** What the store of a truncated quotient reads as. */
  lemma SdivReading(x: int, y: int, v: nat, bits: nat)
    requires bits >= 1 && FitsSigned(x, bits) && y != 0 && v == Cut(TruncDiv(x, y), bits)
    ensures SignedOf(v, bits) == if y == -1 && x == 0 - Pow2(bits - 1) then x else TruncDiv(x, y)
  {
    hide Cut, TruncDiv, TruncRem, SignedOf;
    TruncFits(x, y, bits);
    if y == -1 && x == 0 - Pow2(bits - 1) {
      CutCongruent(0 - x, x, 1, bits);
      SignedOfCut(x, bits);
    } else {
      SignedOfCut(TruncDiv(x, y), bits);
    }
  }

  /** Rounds towards zero; the one quotient that does not fit, the minimum by
      minus one, wraps back to the minimum. */
  method Sdiv(a: APInt, b: APInt) returns (r: APInt)
    requires Wf(a) && Wf(b) && a.bits == b.bits && V(b) != 0
    ensures Wf(r) && r.bits == a.bits && V(r) == Cut(TruncDiv(S(a), S(b)), a.bits)
    ensures S(r) == if S(b) == -1 && S(a) == 0 - Pow2(a.bits - 1) then S(a) else TruncDiv(S(a), S(b))
  {
    hide V, S, Cut, Pow2, TruncDiv, TruncRem, SignedOf;
    Nonzero(b);
    CutOfSigned(V(a), a.bits);
    SignedAgain(a);
    TruncFits(S(a), S(b), a.bits);
    Pow2Literals();
    if a.Small? {
      var x, y := Sext64(a), Sext64(b);
      r := FromU64(a.bits, if y == -1 then Cut(0 - x, 64) else Cut(TruncDiv(x, y), 64));
      CutNarrow(TruncDiv(S(a), S(b)), 64, a.bits);
    } else if a.bits <= 128 {
      var x, y := ToI128(a), ToI128(b);
      r := FromU128(a.bits, if y == -1 then Cut(0 - x, 128) else Cut(TruncDiv(x, y), 128));
      CutNarrow(TruncDiv(S(a), S(b)), 128, a.bits);
    } else {
      r := SdivLong(a, b);
    }
    SignedAgain(r);
    SdivReading(S(a), S(b), V(r), a.bits);
  }

  /** -a as an unsigned number is the magnitude of a negative a, also of the minimum. */
  method Absolute(a: APInt, neg: bool) returns (r: APInt)
    requires Wf(a) && neg == (S(a) < 0)
    ensures Wf(r) && r.bits == a.bits && V(r) == Abs(S(a))
  {
    if neg {
      r := Neg(a);
      CutUnique(0 - V(a), a.bits, -1, Pow2(a.bits) - V(a));
    } else {
      r := a;
    }
  }

  method SdivLong(a: APInt, b: APInt) returns (r: APInt)
    requires Wf(a) && Wf(b) && a.bits == b.bits && a.bits > 128 && S(b) != 0
    ensures Wf(r) && r.bits == a.bits && V(r) == Cut(TruncDiv(S(a), S(b)), a.bits)
  {
    hide V, S, Cut, Pow2, TruncDiv, TruncRem, Quo, Rem;
    var na := IsNeg(a);
    var nb := IsNeg(b);
    var neg := na != nb;
    var x := Absolute(a, na);
    var y := Absolute(b, nb);
    var q, rem := UdivremWide(x, y);
    QuoUnique(V(x), V(y), V(q), V(rem));
    TruncFacts(S(a), S(b));
    if neg {
      r := Neg(q);
    } else {
      r := q;
      CutSmall(V(q), a.bits);
    }
  }

  /** The remainder takes the sign of the dividend. */
  method Srem(a: APInt, b: APInt) returns (r: APInt)
    requires Wf(a) && Wf(b) && a.bits == b.bits && V(b) != 0
    ensures Wf(r) && r.bits == a.bits && V(r) == Cut(TruncRem(S(a), S(b)), a.bits)
    ensures S(r) == TruncRem(S(a), S(b))
  {
    hide V, S, Cut, Pow2, TruncDiv, TruncRem, SignedOf;
    Nonzero(b);
    CutOfSigned(V(a), a.bits);
    SignedAgain(a);
    TruncFits(S(a), S(b), a.bits);
    Pow2Literals();
    if a.Small? {
      var x, y := Sext64(a), Sext64(b);
      r := FromU64(a.bits, if y == -1 then 0 else Cut(TruncRem(x, y), 64));
      CutSmall(0, 64);
      CutNarrow(TruncRem(S(a), S(b)), 64, a.bits);
    } else if a.bits <= 128 {
      var x, y := ToI128(a), ToI128(b);
      r := FromU128(a.bits, if y == -1 then 0 else Cut(TruncRem(x, y), 128));
      CutSmall(0, 128);
      CutNarrow(TruncRem(S(a), S(b)), 128, a.bits);
    } else {
      r := SremLong(a, b);
    }
    SignedAgain(r);
    SignedOfCut(TruncRem(S(a), S(b)), a.bits);
  }

  method SremLong(a: APInt, b: APInt) returns (r: APInt)
    requires Wf(a) && Wf(b) && a.bits == b.bits && a.bits > 128 && S(b) != 0
    ensures Wf(r) && r.bits == a.bits && V(r) == Cut(TruncRem(S(a), S(b)), a.bits)
  {
    hide V, S, Cut, Pow2, TruncDiv, TruncRem, Quo, Rem;
    var na := IsNeg(a);
    var nb := IsNeg(b);
    var x := Absolute(a, na);
    var y := Absolute(b, nb);
    var q, rem := UdivremWide(x, y);
    QuoUnique(V(x), V(y), V(q), V(rem));
    TruncFacts(S(a), S(b));
    if na {
      r := Neg(rem);
    } else {
      r := rem;
      CutSmall(V(rem), a.bits);
    }
  }
}
