/** Shifting a digit string by fewer bits than a digit holds: every result digit
    joins the low part of one digit with the high part of its neighbour. */
module LimbShift {
  import opened Arith
  import opened Words

  /** The low part of hi moved up by s, joined with the top s bits of lo. */
  function JoinUp(hi: nat, lo: nat, s: nat, w: nat): nat
    requires s <= w
  {
    Low(Shl(hi, s), w) + Shr(lo, w - s)
  }

  /** The top part of lo moved down by s, joined with the low s bits of hi. */
  function JoinDown(lo: nat, hi: nat, s: nat, w: nat): nat
    requires s <= w
  {
    Low(Shl(hi, w - s), w) + Shr(lo, s)
  }

  /** The two halves have no common bit, so the source's or is their sum, before
      or after the cut to w bits. */
  lemma JoinUpIsOr(hi: nat, lo: nat, s: nat, w: nat)
    requires s <= w && lo < Pow2(w)
    ensures JoinUp(hi, lo, s, w) == BitOr(Low(Shl(hi, s), w), Shr(lo, w - s))
    ensures JoinUp(hi, lo, s, w) == Low(BitOr(Shl(hi, s), Shr(lo, w - s)), w)
    ensures BitOr(Shr(lo, w - s), Shl(hi, s)) == BitOr(Shl(hi, s), Shr(lo, w - s))
    ensures JoinUp(hi, lo, s, w) < Pow2(w)
  {
    hide Shl, Shr, Low, BitOr, Pow2;
    var t := Shr(lo, w - s);
    ShrBound(lo, w - s, s);
    LowOfShl(hi, s, w);
    OrDisjoint(Low(hi, w - s), t, s);
    OrDisjoint(hi, t, s);
    ShrLow(hi, w - s);
    ShlBound(Low(hi, w - s), s, w - s);
    ShrLow(Shl(hi, s), w);
    ShlPlusLow(Shr(hi, w - s), JoinUp(hi, lo, s, w), w);
  }

  /** The first k digits of x shifted left by s, and the bits that fall out. */
  lemma {:induction false} ShiftUpVal(x: seq<nat>, y: seq<nat>, s: nat, w: nat, k: nat)
    requires s <= w && k <= |x| && k <= |y|
    requires forall i {:trigger y[i]} :: 0 <= i < k ==> y[i] == JoinUp(x[i], if i == 0 then 0 else x[i - 1], s, w)
    ensures Val(y[..k], Pow2(w)) + (if k == 0 then 0 else Shr(x[k - 1], w - s)) * Pow(Pow2(w), k)
         == Shl(Val(x[..k], Pow2(w)), s)
  {
    hide Shl, Shr, Low, Val, Pow, Pow2, JoinUp, JoinDown;
    var b := Pow2(w);
    if k == 0 {
      ShlIsMul(0, s);
      ValCons(0, [], b);
      PowNext(b, 0);
      assert x[..0] == [] && y[..0] == [];
    } else {
      var c := if k == 1 then 0 else Shr(x[k - 2], w - s);
      ShiftUpVal(x, y, s, w, k - 1);
      JoinUpDigit(x[k - 1], if k == 1 then 0 else x[k - 2], s, w);
      LowOfSmall(0, w - s);
      assert x[..k][..k - 1] == x[..k - 1] && y[..k][..k - 1] == y[..k - 1];
      ShiftUpStep(x[..k], y[..k], s, b, c, Shr(x[k - 1], w - s));
    }
  }

  /** One more digit, with carry c from below and h on top. */
  lemma ShiftUpStep(x: seq<nat>, y: seq<nat>, s: nat, b: nat, c: nat, h: nat)
    requires |x| == |y| > 0 && var k := |x| - 1;
      Val(y[..k], b) + c * Pow(b, k) == Shl(Val(x[..k], b), s) && y[k] + h * b == Shl(x[k], s) + c
    ensures Val(y, b) + h * Pow(b, |x|) == Shl(Val(x, b), s)
  {
    hide Shl, Val, Pow;
    var k := |x| - 1;
    PowNext(b, k);
    assert x == x[..k] + [x[k]] && y == y[..k] + [y[k]];
    ValSnoc(x[..k], x[k], b);
    ValSnoc(y[..k], y[k], b);
    ShlAdd(Val(x[..k], b), x[k] * Pow(b, k), s);
    ShlMul(x[k], Pow(b, k), s);
    UpAlgebra(Val(y[..k], b), c, Pow(b, k), Shl(Val(x[..k], b), s), y[k], h, b, Shl(x[k], s));
  }

  lemma JoinUpDigit(hi: nat, lo: nat, s: nat, w: nat)
    requires s <= w
    ensures JoinUp(hi, lo, s, w) + Shr(hi, w - s) * Pow2(w) == Shl(hi, s) + Shr(lo, w - s)
  {
    hide Shl, Shr, Low, Pow2;
    LowOfShl(hi, s, w);
    ShrLow(Shl(hi, s), w);
    ShlIsMul(Shr(hi, w - s), w);
  }

  lemma JoinDownDigit(lo: nat, hi: nat, s: nat, w: nat)
    requires s <= w
    ensures Shl(JoinDown(lo, hi, s, w), s) + Low(lo, s) == lo + Low(hi, s) * Pow2(w)
  {
    hide Shl, Shr, Low, Pow2;
    var t := w - s;
    LowOfShl(hi, t, w);
    assert w - t == s && t + s == w;
    JoinDownShifted(lo, Low(hi, s), s, t);
  }

  lemma JoinDownShifted(lo: nat, h: nat, s: nat, t: nat)
    ensures Shl(Shl(h, t) + Shr(lo, s), s) + Low(lo, s) == lo + h * Pow2(t + s)
  {
    hide Shl, Shr, Low, Pow2;
    ShlAdd(Shl(h, t), Shr(lo, s), s);
    ShlShl(h, t, s);
    ShlIsMul(h, t + s);
    ShrLow(lo, s);
  }

  lemma UpAlgebra(v: int, c: int, p: int, vx: int, y: int, h: int, b: int, x: int)
    requires v + c * p == vx && y + h * b == x + c
    ensures v + y * p + h * (b * p) == vx + x * p
  {
    MulAssoc(h, b, p);
    MulDistribute(y, h * b, p);
    MulDistribute(x, c, p);
  }

  /** The first k digits of x shifted right by s, digit k supplying the top. */
  lemma {:induction false} ShiftDownVal(x: seq<nat>, y: seq<nat>, s: nat, w: nat, k: nat)
    requires s <= w && k < |x| && k <= |y|
    requires forall i {:trigger y[i]} :: 0 <= i < k ==> y[i] == JoinDown(x[i], x[i + 1], s, w)
    ensures Shl(Val(y[..k], Pow2(w)), s) + Low(x[0], s)
         == Val(x[..k], Pow2(w)) + Low(x[k], s) * Pow(Pow2(w), k)
  {
    hide Shl, Shr, Low, Val, Pow, Pow2, JoinUp, JoinDown;
    var b := Pow2(w);
    if k == 0 {
      ShlIsMul(0, s);
      ValCons(0, [], b);
      PowNext(b, 0);
      assert x[..0] == [] && y[..0] == [];
    } else {
      var p := Pow(b, k - 1);
      PowNext(b, k - 1);
      ShiftDownVal(x, y, s, w, k - 1);
      ValPrefix(x, k - 1, b);
      ValPrefix(y, k - 1, b);
      var lo, hi := x[k - 1], x[k];
      JoinDownDigit(lo, hi, s, w);
      ShlAdd(Val(y[..k - 1], b), y[k - 1] * p, s);
      ShlMul(y[k - 1], p, s);
      DownAlgebra(Shl(Val(y[..k - 1], b), s), Low(x[0], s), Val(x[..k - 1], b), Low(lo, s), p,
                  Shl(y[k - 1], s), lo, Low(hi, s), b);
    }
  }

  lemma DownAlgebra(vy: int, l0: int, vx: int, ll: int, p: int, y: int, lo: int, h: int, b: int)
    requires vy + l0 == vx + ll * p && y + ll == lo + h * b
    ensures vy + y * p + l0 == vx + lo * p + h * (b * p)
  {
    MulAssoc(h, b, p);
    MulDistribute(y, ll, p);
    MulDistribute(lo, h * b, p);
  }
}
