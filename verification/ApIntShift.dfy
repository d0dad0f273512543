/** Width changes, shifts and comparisons of wide integers
    (src/utils/APInt.hpp, src/utils/APInt.cpp). */
module ApIntShift {
  import opened Arith
  import opened Words
  import opened Wrapping
  import opened WordLoops
  import opened ApInt

  // ----- width changes -----

  /** The words of a, then zeros. */
  method Widened(a: APInt, bits: nat) returns (d: array<u64>)
    requires Wf(a) && Width(bits) && bits >= a.bits
    ensures fresh(d) && d.Length == WordsFor(bits) && Val(d[..], B64) == V(a)
    ensures d[..WordsFor(a.bits)] == Data(a)
    ensures forall h :: WordsFor(a.bits) <= h < d.Length ==> d[h] == 0
  {
    hide Val;
    DataValue(a);
    var w := Data(a);
    d := new u64[WordsFor(bits)](_ => 0);
    for i := 0 to |w|
      invariant d[..i] == w[..i]
      invariant forall h :: i <= h < d.Length ==> d[h] == 0
    {
      d[i] := w[i];
    }
    assert d[..][..|w|] == w;
    ValTrim(d[..], |w|, B64);
  }

  method Zext(a: APInt, bits: nat) returns (r: APInt)
    requires Wf(a) && Width(bits) && bits >= a.bits
    ensures Wf(r) && r.bits == bits && V(r) == V(a)
  {
    hide Val, Cut, Pow2;
    Pow2Monotone(a.bits, bits);
    CutSmall(V(a), bits);
    if bits <= 64 {
      r := FromU64(bits, a.val);
    } else {
      var d := Widened(a, bits);
      r := Wide(bits, d[..]);
    }
  }

  /** All words from first on set to ones. */
  method FillOnes(d: array<u64>, first: nat)
    requires first <= d.Length
    modifies d
    ensures d[..first] == old(d[..first]) && forall h :: first <= h < d.Length ==> d[h] == B64 - 1
  {
    for i := first to d.Length
      invariant d[..first] == old(d[..first])
      invariant forall h :: first <= h < i ==> d[h] == B64 - 1
    {
      d[i] := B64 - 1;
    }
  }

  /** The word that holds the sign bit, with ones above it. */
  lemma SignWord(x: u64, rem: nat)
    requires 0 < rem < 64 && x < Pow2(rem)
    ensures var y := BitOr(x, Low(Shl(B64 - 1, rem), 64)); y == x + B64 - Pow2(rem) && 0 <= y < B64
  {
    hide Shl, Low, BitOr, Pow2;
    Pow2Literals();
    LowOfShl(B64 - 1, rem, 64);
    LowOfOnes(64 - rem, 64);
    OrDisjoint(Pow2(64 - rem) - 1, x, rem);
    ShlIsMul(Pow2(64 - rem) - 1, rem);
    Pow2Add(64 - rem, rem);
    MulDistribute(Pow2(64 - rem), 1, Pow2(rem));
  }

  method Sext(a: APInt, bits: nat) returns (r: APInt)
    requires Wf(a) && Width(bits) && bits >= a.bits
    ensures Wf(r) && r.bits == bits && V(r) == Cut(S(a), bits) && S(r) == S(a)
  {
    hide Val, Cut, Pow2, SignedOf;
    SignExtend(V(a), a.bits, bits);
    SignedOfCut(S(a), bits);
    Pow2Literals();
    if bits <= 64 {
      r := FromU64(bits, Cut(Sext64(a), 64));
      CutNarrow(S(a), 64, bits);
    } else {
      var d := Widened(a, bits);
      var neg := IsNeg(a);
      CutOfSigned(V(a), a.bits);
      CutSmall(V(a), a.bits);
      if neg {
        var rem, first := a.bits % 64, a.bits / 64;
        ghost var was := d[..];
        if rem != 0 {
          SignWordBound(was, V(a), a.bits);
          SignWord(d[first], rem);
          d[first] := BitOr(d[first], Low(Shl(B64 - 1, rem), 64));
        }
        ghost var mid := d[..];
        var next := if rem != 0 then first + 1 else first;
        FillOnes(d, next);
        assert d[..first] == mid[..next][..first] == was[..first];
        if rem != 0 { assert d[first] == d[..next][first] == mid[first]; }
        SignFilled(was, d[..], a.bits, V(a));
        WordCongruent(S(a), Val(d[..], B64), -1, d.Length, bits) by { SignedNegative(a); }
        r := Freeze(bits, d);
      } else {
        SignedNegative(a);
        Pow2Monotone(a.bits, bits);
        CutSmall(V(a), bits);
        r := Wide(bits, d[..]);
      }
    }
  }

  lemma SignedNegative(a: APInt)
    requires Wf(a)
    ensures S(a) < 0 ==> S(a) == V(a) - Pow2(a.bits)
    ensures S(a) >= 0 ==> S(a) == V(a)
  {}

  /** The sign word has nothing above the sign. */
  lemma SignWordBound(w: seq<u64>, v: nat, bits: nat)
    requires bits / 64 < |w| && Val(w, B64) == v < Pow2(bits) && bits % 64 != 0
    ensures w[bits / 64] < Pow2(bits % 64)
  {
    hide Val, Pow, Pow2;
    var k := bits / 64;
    ValSplit(w, k + 1, B64);
    ValPrefix(w, k, B64);
    WordPow(k);
    Pow2Add(bits % 64, 64 * k);
    assert bits % 64 + 64 * k == bits;
    MulNonNegative(Pow(B64, k + 1), Val(w[k + 1..], B64));
    Cancel(w[k], Pow2(bits % 64), Pow(B64, k));
  }

  lemma SignFilled(was: seq<u64>, now: seq<u64>, bits: nat, v: nat)
    requires |now| == |was| && Val(was, B64) == v < Pow2(bits) && WordsFor(bits) <= |was|
    requires now[..bits / 64] == was[..bits / 64]
    requires bits % 64 != 0 ==> now[bits / 64] == was[bits / 64] + B64 - Pow2(bits % 64)
    requires forall h :: WordsFor(bits) <= h < |now| ==> now[h] == B64 - 1 && was[h] == 0
    ensures Val(now, B64) == v + Pow(B64, |now|) - Pow2(bits)
  {
    hide Val, Pow, Pow2;
    var n, m := |now|, WordsFor(bits);
    ValSplit(was, m, B64);
    ValSplit(now, m, B64);
    ValZeros(was[m..], B64);
    OnesValue(now[m..], B64);
    PowAdd(B64, m, n - m);
    SignPrefix(was, now, bits);
    hide WordsFor;
    FilledAlgebra(Pow(B64, m), Pow(B64, n - m), Val(now[m..], B64), Val(was[m..], B64), Val(was[..m], B64), Val(now[..m], B64),
                  Val(was, B64), Val(now, B64), Pow2(bits), Pow(B64, n));
  }

  lemma FilledAlgebra(p: int, q: int, ones: int, zeros: int, w: int, n: int, was: int, now: int, top: int, all: int)
    requires ones == q - 1 && zeros == 0 && n == w + p - top && was == w + p * zeros && now == n + p * ones && all == p * q
    ensures now == was + all - top
  {
    OnesAbove(p, q, ones);
  }

  lemma OnesAbove(p: int, q: int, ones: int)
    requires ones == q - 1
    ensures p * ones == p * q - p
  {}

  lemma SignPrefix(was: seq<u64>, now: seq<u64>, bits: nat)
    requires |now| == |was| && WordsFor(bits) <= |was| && now[..bits / 64] == was[..bits / 64]
    requires bits % 64 != 0 ==> now[bits / 64] == was[bits / 64] + B64 - Pow2(bits % 64)
    ensures var m := WordsFor(bits);
      Val(now[..m], B64) == Val(was[..m], B64) + Pow(B64, m) - Pow2(bits)
  {
    hide Val, Pow, Pow2;
    var k, m := bits / 64, WordsFor(bits);
    WordPow(k);
    if bits % 64 == 0 {
      assert k == m && 64 * k == bits;
    } else {
      assert m == k + 1 && bits == bits % 64 + 64 * k;
      ValPrefix(was, k, B64);
      ValPrefix(now, k, B64);
      Pow2Add(bits % 64, 64 * k);
      PowNext(B64, k);
      SignAlgebra(was[k], now[k], Pow2(bits % 64), Pow(B64, k));
    }
  }

  lemma SignAlgebra(x: int, y: int, t: int, p: int)
    requires y == x + B64 - t
    ensures y * p == x * p + B64 * p - t * p
  {
    MulDistribute(x, B64 - t, p);
    MulDistribute(B64, t, p);
  }

  method Trunc(a: APInt, bits: nat) returns (r: APInt)
    requires Wf(a) && 1 <= bits <= a.bits
    ensures Wf(r) && r.bits == bits && V(r) == Cut(V(a), bits)
  {
    hide Val, Cut, Pow2, Pow;
    DataValue(a);
    var w := Data(a);
    var n := WordsFor(bits);
    ValSplit(w, n, B64);
    WordPow(n);
    WordCongruent(V(a), Val(w[..n], B64), Val(w[n..], B64), n, bits);
    if bits <= 64 {
      ValCons(w[0], [], B64);
      assert w[..1] == [w[0]] + [];
      r := FromU64(bits, w[0]);
    } else {
      var d := new u64[n](_ => 0);
      for i := 0 to n
        invariant d[..i] == w[..i]
      {
        d[i] := w[i];
      }
      assert d[..] == w[..n];
      r := Freeze(bits, d);
    }
  }

  // ----- shifts -----

  lemma ShlOut(v: nat, amt: nat, bits: nat)
    requires amt >= bits
    ensures Cut(Shl(v, amt), bits) == 0
  {
    hide Shl, Cut, Pow2;
    ShlIsMul(v, amt);
    Pow2Add(amt - bits, bits);
    MulAssoc(v, Pow2(amt - bits), Pow2(bits));
    CutUnique(Shl(v, amt), bits, v * Pow2(amt - bits), 0);
  }

  /** Zero when the amount reaches the width. */
  method ShiftLeft(a: APInt, amt: nat) returns (r: APInt)
    requires Wf(a)
    ensures Wf(r) && r.bits == a.bits && V(r) == Cut(Shl(V(a), amt), a.bits)
    ensures amt >= a.bits ==> V(r) == 0
  {
    hide Val, Cut, Pow2, Shl;
    Pow2Literals();
    if amt >= a.bits { ShlOut(V(a), amt, a.bits); }
    if a.Small? {
      r := FromU64(a.bits, if amt >= 64 then 0 else Cut(Shl(a.val, amt), 64));
      CutNarrow(Shl(a.val, amt), 64, a.bits);
      CutSmall(0, a.bits);
    } else if amt >= a.bits {
      r := Zero(a.bits);
    } else if a.bits <= 128 {
      r := FromU128(a.bits, Cut(Shl(Get128(a), amt), 128));
      CutNarrow(Shl(Get128(a), amt), 128, a.bits);
    } else {
      var d := new u64[WordsFor(a.bits)](_ => 0);
      ShlN(d, a.words, amt);
      CutNarrow(Shl(V(a), amt), 64 * d.Length, a.bits);
      r := Freeze(a.bits, d);
    }
  }

  lemma ShrOut(v: nat, amt: nat, bits: nat)
    requires v < Pow2(bits)
    ensures Shr(v, amt) <= v
    ensures amt >= bits ==> Shr(v, amt) == 0
  {
    ShrLow(v, amt);
    ShlIsMul(Shr(v, amt), amt);
    MulMonotone(1, Pow2(amt), Shr(v, amt));
    if amt >= bits {
      Pow2Monotone(bits, amt);
      LowOfSmall(v, amt);
    }
  }

  method LogicalShiftRight(a: APInt, amt: nat) returns (r: APInt)
    requires Wf(a)
    ensures Wf(r) && r.bits == a.bits && V(r) == Shr(V(a), amt)
    ensures amt >= a.bits ==> V(r) == 0
  {
    hide Val, Cut, Pow2, Shr;
    Pow2Literals();
    ShrOut(V(a), amt, a.bits);
    CutSmall(Shr(V(a), amt), a.bits);
    if a.Small? {
      r := FromU64(a.bits, if amt >= 64 then 0 else Shr(a.val, amt));
    } else if amt >= a.bits {
      r := Zero(a.bits);
    } else if a.bits <= 128 {
      r := FromU128(a.bits, Shr(Get128(a), amt));
    } else {
      var d := new u64[WordsFor(a.bits)](_ => 0);
      ShrN(d, a.words, amt, 0);
      r := Wide(a.bits, d[..]);
    }
  }

  /** An arithmetic shift stays in range, and is stable once only the sign is left. */
  lemma AsrFacts(x: int, amt: nat, bits: nat)
    requires bits >= 1 && FitsSigned(x, bits)
    ensures FitsSigned(Asr(x, amt), bits)
    ensures amt >= bits - 1 ==> Asr(x, amt) == Asr(x, bits - 1) == if x < 0 then -1 else 0
  {
    hide Shr;
    if x >= 0 {
      ShrOut(x, amt, bits - 1);
      ShrOut(x, bits - 1, bits - 1);
    } else {
      ShrOut(-1 - x, amt, bits - 1);
      ShrOut(-1 - x, bits - 1, bits - 1);
    }
  }

  /** The sign fills from above; any amount past the width gives the sign alone. */
  method ArithmeticShiftRight(a: APInt, amt: nat) returns (r: APInt)
    requires Wf(a)
    ensures Wf(r) && r.bits == a.bits && S(r) == Asr(S(a), amt)
  {
    hide Val, Cut, Pow2, Asr, SignedOf;
    Pow2Literals();
    CutOfSigned(V(a), a.bits);
    AsrFacts(S(a), amt, a.bits);
    SignedOfCut(Asr(S(a), amt), a.bits);
    if a.Small? {
      var s := if amt >= 64 then 63 else amt;
      AsrFacts(S(a), s, a.bits);
      r := FromU64(a.bits, Cut(Asr(Sext64(a), s), 64));
      CutNarrow(Asr(S(a), s), 64, a.bits);
    } else {
      var s := if amt < a.bits - 1 then amt else a.bits - 1;
      AsrFacts(S(a), s, a.bits);
      assert Asr(S(a), s) == Asr(S(a), amt);
      if a.bits <= 128 {
        Pow2Monotone(a.bits - 1, 127);
        r := FromI128(a.bits, Asr(ToI128(a), s));
      } else {
        r := WideAsr(a, s);
      }
    }
  }

  /** The word loop sees the sign in the top word only after extending to whole words. */
  method WideAsr(a: APInt, s: nat) returns (r: APInt)
    requires Wf(a) && a.bits > 128 && s < a.bits && 64 * WordsFor(a.bits) + 63 < B32
    ensures Wf(r) && r.bits == a.bits && V(r) == Cut(Asr(S(a), s), a.bits)
  {
    hide Val, Cut, Pow2, Asr, SignedOf;
    var n := WordsFor(a.bits);
    var neg := IsNeg(a);
    var ext: APInt;
    if neg { ext := Sext(a, 64 * n); } else { ext := Zext(a, 64 * n); SignedNegative(a); }
    SignedNegative(ext);
    var d := new u64[n](_ => 0);
    WordPow(n);
    ShrN(d, ext.words, s, if neg then B64 - 1 else 0);
    ghost var k: int := if neg then -1 else 0;
    WordCongruent(Asr(S(a), s), Val(d[..], B64), k, n, a.bits);
    r := Freeze(a.bits, d);
  }

  // ----- comparisons -----

  function Order(x: int, y: int): int {
    if x < y then -1 else if x > y then 1 else 0
  }

  method Ucmp(a: APInt, b: APInt) returns (c: int)
    requires Wf(a) && Wf(b) && a.bits == b.bits
    ensures c == Order(V(a), V(b))
  {
    if a.Small? {
      c := (if a.val > b.val then 1 else 0) - (if a.val < b.val then 1 else 0);
    } else if a.bits <= 128 {
      c := (if Get128(a) > Get128(b) then 1 else 0) - (if Get128(a) < Get128(b) then 1 else 0);
    } else {
      c := UcmpN(a.words, b.words);
    }
  }

  method Scmp(a: APInt, b: APInt) returns (c: int)
    requires Wf(a) && Wf(b) && a.bits == b.bits
    ensures c == Order(S(a), S(b))
  {
    if a.Small? {
      c := (if Sext64(a) > Sext64(b) then 1 else 0) - (if Sext64(a) < Sext64(b) then 1 else 0);
    } else {
      var na := IsNeg(a);
      var nb := IsNeg(b);
      if na != nb {
        c := if na then -1 else 1;
      } else {
        c := Ucmp(a, b);
        hide Val, Pow2;
        SignedNegative(a);
        SignedNegative(b);
      }
    }
  }

  /** operator==, which for wide values is the word comparison at any width. */
  method Equal(a: APInt, b: APInt) returns (r: bool)
    requires Wf(a) && Wf(b) && a.bits == b.bits
    ensures r <==> V(a) == V(b)
    ensures r <==> a == b
  {
    if a.Small? {
      r := a.val == b.val;
    } else {
      var c := UcmpN(a.words, b.words);
      r := c == 0;
    }
    if V(a) == V(b) { Canonical(a, b); }
  }

  method Ult(a: APInt, b: APInt) returns (r: bool)
    requires Wf(a) && Wf(b) && a.bits == b.bits
    ensures r <==> V(a) < V(b)
  {
    if a.Small? {
      r := a.val < b.val;
    } else {
      var c := Ucmp(a, b);
      r := c < 0;
    }
  }

  method Slt(a: APInt, b: APInt) returns (r: bool)
    requires Wf(a) && Wf(b) && a.bits == b.bits
    ensures r <==> S(a) < S(b)
  {
    if a.Small? {
      r := Sext64(a) < Sext64(b);
    } else {
      var c := Scmp(a, b);
      r := c < 0;
    }
  }
}
