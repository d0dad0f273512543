/** The loops over 64 bit words behind wide integers (src/utils/APInt.cpp).
    A result buffer is an array; operands, which the loops only read, are sequences. */
module WordLoops {
  import opened Arith
  import opened Words
  import opened LimbShift
  import opened Wrapping

  /** n words hold 64 n bits. */
  lemma WordPow(n: nat)
    ensures Pow(B64, n) == Pow2(64 * n)
  {
    Pow2Literals();
    PowOfPow2(64, n);
  }

  /** Changing digit k. */
  lemma ValUpdate(s: seq<nat>, k: nat, x: nat, b: nat)
    requires k < |s|
    ensures Val(s[k := x], b) + s[k] * Pow(b, k) == Val(s, b) + x * Pow(b, k)
  {
    hide Val, Pow;
    var t := s[k := x];
    ValWindow(s, t, k, 1, b);
    assert s[k..k + 1] == [s[k]] && t[k..k + 1] == [x];
    ValCons(s[k], [], b);
    ValCons(x, [], b);
    assert [s[k]] + [] == [s[k]] && [x] + [] == [x];
  }

  // ----- addition and subtraction -----

  lemma CarryAlgebra(vr: int, c: int, va: int, p: int, x: int, c': int, a: int, b: int)
    requires vr + c * p == va && x + c' * b == a + c
    ensures vr + x * p + c' * (b * p) == va + a * p
  {
    MulAssoc(c', b, p);
    MulDistribute(x, c' * b, p);
    MulDistribute(a, c, p);
  }

  /** One more word of a sum. */
  lemma SumStep(r: seq<nat>, a: seq<nat>, b: seq<nat>, i: nat, c: nat, c': nat)
    requires i < |r| && i < |a| && i < |b|
    requires Val(r[..i], B64) + c * Pow(B64, i) == Val(a[..i], B64) + Val(b[..i], B64)
    requires r[i] + c' * B64 == a[i] + b[i] + c
    ensures Val(r[..i + 1], B64) + c' * Pow(B64, i + 1) == Val(a[..i + 1], B64) + Val(b[..i + 1], B64)
  {
    hide Val, Pow;
    ValPrefix(r, i, B64);
    ValPrefix(a, i, B64);
    ValPrefix(b, i, B64);
    PowNext(B64, i);
    MulDistribute(a[i], b[i], Pow(B64, i));
    CarryAlgebra(Val(r[..i], B64), c, Val(a[..i], B64) + Val(b[..i], B64), Pow(B64, i), r[i], c', a[i] + b[i], B64);
  }

  method AddN(r: array<u64>, a: seq<u64>, b: seq<u64>) returns (carry: u64)
    requires |a| == |b| == r.Length
    modifies r
    ensures carry <= 1
    ensures Val(r[..], B64) + carry * Pow(B64, |a|) == Val(a, B64) + Val(b, B64)
  {
    carry := 0;
    PowNext(B64, 0);
    for i := 0 to |a|
      invariant carry <= 1
      invariant Val(r[..i], B64) + carry * Pow(B64, i) == Val(a[..i], B64) + Val(b[..i], B64)
    {
      hide Val, Pow;
      ghost var was, c := r[..], carry;
      var t: u128 := a[i] + b[i] + carry;
      r[i] := t % B64;
      carry := t / B64;
      assert r[..][..i] == was[..i] && was[..i] == r[..i];
      SumStep(r[..], a, b, i, c, carry);
      assert r[..][..i + 1] == r[..i + 1];
    }
    assert r[..|a|] == r[..] && a[..|a|] == a && b[..|a|] == b;
  }

  /** One 128 bit difference: its low word, and the borrow read from bit 64. */
  method SubWord(x: u64, y: u64, borrow: u64) returns (w: u64, borrow': u64)
    requires borrow <= 1
    ensures borrow' <= 1 && w - borrow' * B64 == x as int - y - borrow
  {
    var d: int := x as int - y - borrow;
    var t: u128 := if d < 0 then d + B64 * B64 else d;
    w := t % B64;
    borrow' := t / B64 % 2;
  }

  method SubN(r: array<u64>, a: seq<u64>, b: seq<u64>) returns (borrow: u64)
    requires |a| == |b| == r.Length
    modifies r
    ensures borrow <= 1
    ensures Val(r[..], B64) + Val(b, B64) == Val(a, B64) + borrow * Pow(B64, |a|)
  {
    borrow := 0;
    PowNext(B64, 0);
    for i := 0 to |a|
      invariant borrow <= 1
      invariant Val(a[..i], B64) + borrow * Pow(B64, i) == Val(r[..i], B64) + Val(b[..i], B64)
    {
      hide Val, Pow;
      ghost var was, c := r[..], borrow;
      r[i], borrow := SubWord(a[i], b[i], borrow);
      assert r[..][..i] == was[..i] && was[..i] == r[..i];
      SumStep(a, r[..], b, i, c, borrow);
      assert r[..][..i + 1] == r[..i + 1];
    }
    assert r[..|a|] == r[..] && a[..|a|] == a && b[..|a|] == b;
  }

  // ----- multiplication -----

  lemma RowAlgebra(vr: int, vr': int, v0: int, x: int, vb: int, pi: int, pj: int, p: int,
                   c: int, rij: int, b: int, lo: int, hi: int, base: int)
    requires vr + c * p == v0 + x * vb * pi && p == pj * pi
    requires vr' + rij * p == vr + lo * p && hi * base + lo == x * b + rij + c
    ensures vr' + hi * (base * p) == v0 + x * (vb + b * pj) * pi
  {
    MulAssoc(hi, base, p);
    MulDistribute(hi * base, lo, p);
    MulDistribute(x * b, rij, p);
    MulDistribute(x * b + rij, c, p);
    MulDistribute(vb, b * pj, x);
    MulDistribute(x * vb, x * (b * pj), pi);
    MulAssoc(x, b, pj);
    MulAssoc(x * b, pj, pi);
  }

  lemma RowEnd(vr: int, c: int, pn: int, v0: int, x: int, lo: int, hi: int, pi: int, pm: int, vb: int)
    requires vr + c * pn == v0 + x * lo * pi && vb == lo + pm * hi && pn == pm * pi
    ensures vr + (c + x * hi) * pn == v0 + x * vb * pi
  {
    MulDistribute(c, x * hi, pn);
    MulDistribute(lo, pm * hi, x);
    MulDistribute(x * lo, x * (pm * hi), pi);
    assert x * (pm * hi) == (x * hi) * pm by { MulAssoc(x, hi, pm); }
    MulAssoc(x * hi, pm, pi);
  }

  lemma ProductFits(x: u64, y: u64, r: u64, c: u64)
    ensures 0 <= x * y + r + c < B64 * B64
  {
    MulNonNegative(x, y);
    MulMonotone(x, B64 - 1, y);
    MulMonotone(y, B64 - 1, B64 - 1);
  }

  /** One row of the schoolbook product; k counts what fell off the top. */
  method MulRow(r: array<u64>, x: u64, b: seq<u64>, i: nat) returns (ghost k: nat)
    requires i < |b| == r.Length
    modifies r
    ensures Val(r[..], B64) + k * Pow(B64, |b|) == Val(old(r[..]), B64) + x * Val(b, B64) * Pow(B64, i)
  {
    var n := |b|;
    ghost var v0 := Val(r[..], B64);
    var carry: u64 := 0;
    var j := 0;
    assert b[..0] == [] && Val(b[..0], B64) == 0 && x * 0 * Pow(B64, i) == 0;
    ghost var p, pi := Pow(B64, i), Pow(B64, i);
    hide Val, Pow;
    while i + j < n
      invariant i + j <= n
      invariant p == Pow(B64, i + j) && pi == Pow(B64, i)
      invariant Val(r[..], B64) + carry * p == v0 + x * Val(b[..j], B64) * pi
    {
      ghost var was, c := r[..], carry;
      ProductFits(x, b[j], r[i + j], carry);
      var t: u128 := x * b[j] + r[i + j] + carry;
      r[i + j] := t % B64;
      carry := t / B64;
      assert r[..] == was[i + j := t % B64];
      ValUpdate(was, i + j, t % B64, B64);
      ValPrefix(b, j, B64);
      PowAdd(B64, j, i);
      RowAlgebra(Val(was, B64), Val(r[..], B64), v0, x, Val(b[..j], B64), pi, Pow(B64, j), p,
                 c, was[i + j], b[j], t % B64, t / B64, B64);
      PowNext(B64, i + j);
      p := B64 * p;
      j := j + 1;
    }
    ValSplit(b, n - i, B64);
    PowAdd(B64, n - i, i);
    MulNonNegative(x, Val(b[n - i..], B64));
    k := carry + x * Val(b[n - i..], B64);
    RowEnd(Val(r[..], B64), carry, Pow(B64, n), v0, x, Val(b[..n - i], B64), Val(b[n - i..], B64), pi, Pow(B64, n - i), Val(b, B64));
  }

  lemma MulStep(vr: int, vr': int, k: int, k': int, pn: int, va: int, x: int, pi: int, vb: int)
    requires vr + k * pn == va * vb && vr' + k' * pn == vr + x * vb * pi
    ensures vr' + (k + k') * pn == (va + x * pi) * vb
  {
    MulDistribute(k, k', pn);
    MulDistribute(va, x * pi, vb);
    MulSwap(x, vb, pi);
  }

  /** The low |a| words of the product. */
  method MulN(r: array<u64>, a: seq<u64>, b: seq<u64>)
    requires |a| == |b| == r.Length
    modifies r
    ensures Val(r[..], B64) == Cut(Val(a, B64) * Val(b, B64), 64 * |a|)
  {
    for i := 0 to r.Length
      invariant forall h :: 0 <= h < i ==> r[h] == 0
    {
      r[i] := 0;
    }
    ValZeros(r[..], B64);
    ghost var k: nat := 0;
    for i := 0 to |a|
      invariant Val(r[..], B64) + k * Pow(B64, |a|) == Val(a[..i], B64) * Val(b, B64)
    {
      hide Val, Pow;
      ghost var vr := Val(r[..], B64);
      ghost var more := MulRow(r, a[i], b, i);
      ValPrefix(a, i, B64);
      MulStep(vr, Val(r[..], B64), k, more, Pow(B64, |a|), Val(a[..i], B64), a[i], Pow(B64, i), Val(b, B64));
      k := k + more;
    }
    assert a[..|a|] == a;
    ValBound(r[..], B64);
    WordPow(|a|);
    CutUnique(Val(a, B64) * Val(b, B64), 64 * |a|, k, Val(r[..], B64));
  }

  // ----- comparison -----

  /** The highest differing digit decides. */
  lemma TopDigitDecides(a: seq<nat>, b: seq<nat>, i: nat, base: nat)
    requires i < |a| == |b| && base > 0 && Digits(a, base) && Digits(b, base)
    requires a[i] < b[i] && a[i + 1..] == b[i + 1..]
    ensures Val(a, base) < Val(b, base)
  {
    hide Val, Pow;
    ValSplit(a, i + 1, base);
    ValSplit(b, i + 1, base);
    ValPrefix(a, i, base);
    ValPrefix(b, i, base);
    ValBound(a[..i], base);
    MulStrict(a[i], b[i], Pow(base, i));
  }

  method UcmpN(a: seq<u64>, b: seq<u64>) returns (c: int)
    requires |a| == |b|
    ensures c == (if Val(a, B64) < Val(b, B64) then -1 else if Val(a, B64) > Val(b, B64) then 1 else 0)
    ensures c == 0 <==> a == b
  {
    var i := |a|;
    while i > 0
      invariant 0 <= i <= |a| && a[i..] == b[i..]
    {
      i := i - 1;
      if a[i] != b[i] {
        if a[i] < b[i] { TopDigitDecides(a, b, i, B64); } else { TopDigitDecides(b, a, i, B64); }
        return if a[i] < b[i] then -1 else 1;
      }
      assert a[i..] == [a[i]] + a[i + 1..];
    }
    c := 0;
  }

  // ----- shifts -----

  lemma ShlWord(hi: u64, lo: u64, s: nat)
    requires s < 64
    ensures BitOr(Low(Shl(hi, s), 64), if s != 0 then Shr(lo, 64 - s) else 0) == JoinUp(hi, lo, s, 64) < B64
    ensures Low(Shl(hi, s), 64) == JoinUp(hi, 0, s, 64) < B64
  {
    Pow2Literals();
    hide Shl, Low, BitOr, JoinUp, Pow2;
    JoinUpIsOr(hi, lo, s, 64);
    JoinUpIsOr(hi, 0, s, 64);
    LowOfSmall(0, 64 - s);
    if s == 0 { LowOfSmall(lo, 64); }
    assert BitOr(Low(Shl(hi, s), 64), 0) == Low(Shl(hi, s), 64) by { OrZero(Low(Shl(hi, s), 64)); }
    assert JoinUp(hi, 0, s, 64) == Low(Shl(hi, s), 64) by { OrZero(Low(Shl(hi, s), 64)); }
  }

  lemma OrZero(x: nat)
    ensures BitOr(x, 0) == x
  {}

  /** amt bits up inside the buffer; what leaves at the top is lost. */
  method ShlN(r: array<u64>, a: seq<u64>, amt: nat)
    requires |a| == r.Length && amt < 64 * |a|
    modifies r
    ensures Val(r[..], B64) == Cut(Shl(Val(a, B64), amt), 64 * |a|)
  {
    var ws, bs := amt / 64, amt % 64;
    var i := r.Length;
    while i > 0
      invariant 0 <= i <= r.Length
      invariant forall h {:trigger r[h]} :: i <= h < r.Length ==>
        r[h] == if h >= ws then JoinUp(a[h - ws], if h == ws then 0 else a[h - ws - 1], bs, 64) else 0
    {
      hide Shl, Shr, Low, BitOr, JoinUp;
      i := i - 1;
      var v: nat := 0;
      if i >= ws {
        ShlWord(a[i - ws], if i > ws then a[i - ws - 1] else 0, bs);
        v := Low(Shl(a[i - ws], bs), 64);
        if bs != 0 && i > ws {
          v := BitOr(v, Shr(a[i - ws - 1], 64 - bs));
        } else if i > ws {
          OrZero(v);
        }
      }
      r[i] := v;
    }
    ShlValue(a, r[..], ws, bs);
  }

  lemma ShlValue(a: seq<u64>, r: seq<u64>, ws: nat, bs: nat)
    requires |r| == |a| && ws < |a| && bs < 64
    requires forall h {:trigger r[h]} :: 0 <= h < |r| ==>
               r[h] == if h >= ws then JoinUp(a[h - ws], if h == ws then 0 else a[h - ws - 1], bs, 64) else 0
    ensures Val(r, B64) == Cut(Shl(Val(a, B64), 64 * ws + bs), 64 * |a|)
  {
    hide Val, Pow, Shl, Shr, JoinUp, Cut, Pow2;
    Pow2Literals();
    var n, m := |a|, |a| - ws;
    var y := r[ws..];
    ShiftUpVal(a, y, bs, 64, m);
    assert y[..m] == y;
    var c := Shr(a[m - 1], 64 - bs);
    ValSplit(r, ws, B64);
    ValZeros(r[..ws], B64);
    ValSplit(a, m, B64);
    PowAdd(B64, m, ws);
    WordPow(n);
    WordPow(ws);
    ValBound(r, B64);
    var lo, hi := Val(a[..m], B64), Val(a[m..], B64);
    ShlIsMul(lo, bs);
    ShlIsMul(Val(a, B64), 64 * ws + bs);
    Pow2Add(64 * ws, bs);
    ShlAlgebra(Val(y, B64), c, Pow(B64, m), lo, hi, Pow2(bs), Pow(B64, ws), Val(a, B64));
    CutUnique(Shl(Val(a, B64), 64 * ws + bs), 64 * n, c + hi * Pow2(bs), Val(r, B64));
  }

  lemma ShlAlgebra(y: int, c: int, pm: int, lo: int, hi: int, t: int, pw: int, a: int)
    requires y + c * pm == lo * t && a == lo + pm * hi
    ensures a * (pw * t) == (c + hi * t) * (pm * pw) + pw * y
  {
    MulDistribute(lo, pm * hi, pw * t);
    assert lo * (pw * t) == (lo * t) * pw by { MulAssoc(lo, t, pw); }
    MulDistribute(y, c * pm, pw);
    MulAssoc(c, pm, pw);
    MulDistribute(c, hi * t, pm * pw);
    assert (pm * hi) * (pw * t) == (hi * t) * (pm * pw) by {
      MulAssoc(pm * hi, pw, t);
      MulAssoc(hi * t, pm, pw);
      MulSwap(pm, hi, pw);
      MulSwap(pm * pw, hi, t);
      MulAssoc(hi, t, pm * pw);
      MulAssoc(pm * pw, hi, t);
    }
  }

  lemma ShrWord(lo: u64, hi: u64, s: nat)
    requires s < 64
    ensures (if s == 0 then lo else BitOr(Shr(lo, s), Low(Shl(hi, 64 - s), 64))) == JoinDown(lo, hi, s, 64) < B64
  {
    Pow2Literals();
    hide Shl, BitOr, Pow2;
    if s == 0 {
      LowOfShl(hi, 64, 64);
      ShlIsMul(0, 64);
    } else {
      LowOfShl(hi, 64 - s, 64);
      ShrBound(lo, s, 64 - s);
      OrDisjoint(Low(hi, s), Shr(lo, s), 64 - s);
      ShrLow(hi, s);
      ShlBound(Low(hi, s), 64 - s, s);
    }
  }

  /** The words of a followed by the fill. */
  function Extended(a: seq<u64>, fill: u64, h: nat): nat {
    if h < |a| then a[h] else fill
  }

  /** Word h of the shifted number. */
  function ShrDigit(a: seq<u64>, fill: u64, ws: nat, bs: nat, h: nat): nat
    requires bs < 64
  {
    JoinDown(Extended(a, fill, h + ws), Extended(a, fill, h + ws + 1), bs, 64)
  }

  lemma ShrDigitWord(a: seq<u64>, fill: u64, ws: nat, bs: nat, h: nat)
    requires bs < 64
    ensures var lo := if h + ws < |a| then a[h + ws] else fill;
      var hi := if h + ws + 1 < |a| then a[h + ws + 1] else fill;
      (if bs == 0 then lo else BitOr(Shr(lo, bs), Low(Shl(hi, 64 - bs), 64))) == ShrDigit(a, fill, ws, bs, h) < B64
  {
    hide Shl, Shr, Low, BitOr, JoinDown;
    ShrWord(Extended(a, fill, h + ws), Extended(a, fill, h + ws + 1), bs);
  }

  /** Down by amt bits, with ones (fill ~0) or zeros coming in from above. */
  method ShrN(r: array<u64>, a: seq<u64>, amt: nat, fill: u64)
    requires |a| == r.Length && amt < 64 * |a| && (fill == 0 || fill == B64 - 1)
    modifies r
    ensures var sign: int := if fill == 0 then 0 else Pow(B64, |a|);
      Val(r[..], B64) - sign == Asr(Val(a, B64) - sign, amt)
  {
    hide Shl, Shr, Low, BitOr, ShrDigit, Asr, Val, Pow;
    var ws, bs := amt / 64, amt % 64;
    for i := 0 to r.Length
      invariant forall h :: 0 <= h < i ==> r[h] == ShrDigit(a, fill, ws, bs, h)
    {
      var lo := if i + ws < r.Length then a[i + ws] else fill;
      var hi := if i + ws + 1 < r.Length then a[i + ws + 1] else fill;
      ShrDigitWord(a, fill, ws, bs, i);
      r[i] := if bs == 0 then lo else BitOr(Shr(lo, bs), Low(Shl(hi, 64 - bs), 64));
    }
    ShrValue(a, r[..], ws, bs, fill);
  }

  /** A run of all-ones words. */
  lemma {:induction false} OnesValue(s: seq<nat>, base: nat)
    requires base > 0 && forall h :: 0 <= h < |s| ==> s[h] == base - 1
    ensures Val(s, base) == Pow(base, |s|) - 1
  {
    if s != [] {
      OnesValue(s[1..], base);
      var p: int := Pow(base, |s| - 1);
      MulDistribute(p, 1, base);
    }
  }

  lemma ShrValue(a: seq<u64>, r: seq<u64>, ws: nat, bs: nat, fill: u64)
    requires |r| == |a| && ws < |a| && bs < 64 && (fill == 0 || fill == B64 - 1)
    requires forall h :: 0 <= h < |r| ==> r[h] == ShrDigit(a, fill, ws, bs, h)
    ensures var sign: int := if fill == 0 then 0 else Pow(B64, |a|);
      Val(r, B64) - sign == Asr(Val(a, B64) - sign, 64 * ws + bs)
  {
    hide Val, Pow, ShrDigit, Asr, Pow2, Low;
    var l := ShrSum(a, r, ws, bs, fill);
    ValSplit(a, ws, B64);
    ValBound(a[..ws], B64);
    PowAdd(B64, |a| - ws, ws);
    WordPow(ws);
    Pow2Add(64 * ws, bs);
    var f, pn: int := if fill == 0 then 0 else Pow(B64, |a| - ws), if fill == 0 then 0 else Pow(B64, |a|);
    ShrAlgebra(Val(r, B64), l, Val(a[ws..], B64), f, Pow2(bs), Pow(B64, ws), Val(a[..ws], B64), Val(a, B64), pn);
    RemainderFits(l, Pow2(bs), Val(a[..ws], B64), Pow(B64, ws));
    AsrUnique(Val(a, B64) - pn, 64 * ws + bs, Val(r, B64) - pn, l * Pow(B64, ws) + Val(a[..ws], B64));
  }

  /** n words of the filled a, from word ws on. */
  function Window(a: seq<u64>, fill: u64, ws: nat, n: nat): (x: seq<nat>)
    ensures |x| == n && forall h :: 0 <= h < n ==> x[h] == Extended(a, fill, h + ws)
  {
    if n == 0 then [] else Window(a, fill, ws, n - 1) + [Extended(a, fill, n - 1 + ws)]
  }

  /** The result shifted back, and the l bits below it, give the upper words of a. */
  lemma ShrSum(a: seq<u64>, r: seq<u64>, ws: nat, bs: nat, fill: u64) returns (l: nat)
    requires |r| == |a| && ws < |a| && bs < 64 && (fill == 0 || fill == B64 - 1)
    requires forall h :: 0 <= h < |r| ==> r[h] == ShrDigit(a, fill, ws, bs, h)
    ensures l < Pow2(bs)
    ensures var f: int, pn: int := if fill == 0 then 0 else Pow(B64, |a| - ws), if fill == 0 then 0 else Pow(B64, |a|);
      Val(r, B64) * Pow2(bs) + l == Val(a[ws..], B64) - f + Pow2(bs) * pn
  {
    hide Val, Pow, Shl, JoinDown, Pow2, Low, Window;
    Pow2Literals();
    var n := |a|;
    var x := Window(a, fill, ws, |a| + 1);
    ShiftDownVal(x, r, bs, 64, n);
    assert r[..n] == r;
    var tail: seq<nat> := seq(ws, h => fill);
    assert x[..n] == a[ws..] + tail;
    ValConcat(a[ws..], tail, B64);
    ShrLow(x[0], bs);
    ShlIsMul(Val(r, B64), bs);
    l := Low(x[0], bs);
    FillValue(tail, fill, n - ws, bs);
  }

  lemma FillValue(tail: seq<nat>, fill: u64, m: nat, bs: nat)
    requires (fill == 0 || fill == B64 - 1) && (forall h :: 0 <= h < |tail| ==> tail[h] == fill) && bs <= 64
    ensures var f: int, pn: int := if fill == 0 then 0 else Pow(B64, m), if fill == 0 then 0 else Pow(B64, m + |tail|);
      Pow(B64, m) * Val(tail, B64) + Low(fill, bs) * Pow(B64, m + |tail|) == Pow2(bs) * pn - f
  {
    hide Val, Pow, Pow2, Low;
    Pow2Literals();
    PowAdd(B64, m, |tail|);
    if fill == 0 {
      ValZeros(tail, B64);
      LowOfSmall(0, bs);
    } else {
      OnesValue(tail, B64);
      LowOfOnes(bs, 64);
      MulDistribute(Pow(B64, |tail|), 1, Pow(B64, m));
      MulDistribute(Pow2(bs), 1, Pow(B64, m + |tail|));
    }
  }

  lemma {:induction false} LowOfOnes(s: nat, w: nat)
    requires s <= w
    ensures Low(Pow2(w) - 1, s) == Pow2(s) - 1
  {
    if s > 0 {
      var p := Pow2(w - 1);
      assert Pow2(w) == 2 * p && Pow2(s) == 2 * Pow2(s - 1);
      assert (2 * p - 1) % 2 == 1 && (2 * p - 1) / 2 == p - 1;
      LowOfOnes(s - 1, w - 1);
    }
  }

  /** f and pn are zero, or the weights of the sign in the upper words and above all words. */
  lemma ShrAlgebra(r: int, l: int, hi: int, f: int, t: int, pw: int, lo: int, a: int, pn: int)
    requires r * t + l == hi - f + t * pn && a == lo + pw * hi && pn == f * pw
    ensures a - pn == (r - pn) * (pw * t) + (l * pw + lo)
  {
    MulDistribute(r, pn, t);
    MulDistribute((r - pn) * t, l, pw);
    assert (r - pn) * t + l == hi - f;
    MulDistribute(hi, f, pw);
    assert (r - pn) * (pw * t) == ((r - pn) * t) * pw by { MulAssoc(r - pn, t, pw); }
  }

  lemma RemainderFits(l: nat, t: nat, lo: nat, pw: nat)
    requires l < t && lo < pw
    ensures 0 <= l * pw + lo < pw * t
  {
    MulStrict(l, t, pw);
    MulNonNegative(l, pw);
  }
}
