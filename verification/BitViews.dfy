/** Numbers seen as sets of bits, one word at a time or all at once. */
module BitViews {
  import opened Arith
  import opened Words
  import opened WordLoops

  lemma {:induction false} BitIsShr(x: nat, i: nat)
    ensures Bit(x, i) <==> Shr(x, i) % 2 == 1
  {
    if i > 0 { BitIsShr(x / 2, i - 1); }
  }

  /** The source's bit test. */
  lemma BitOfShr(x: nat, i: nat)
    ensures Bit(x, i) <==> BitAnd(Shr(x, i), 1) != 0
  {
    BitIsShr(x, i);
    MaskIsLow(Shr(x, i), 1);
    assert Low(Shr(x, i), 1) == Shr(x, i) % 2;
  }

  lemma {:induction false} BitBeyond(x: nat, k: nat, i: nat)
    requires x < Pow2(k) && i >= k
    ensures !Bit(x, i)
  {
    if k == 0 { BitOfZero(i); } else { BitBeyond(x / 2, k - 1, i - 1); }
  }

  /** A number with no bit at or above k is below 2^k. */
  lemma {:induction false} BitsBound(x: nat, k: nat)
    requires forall i :: i >= k ==> !Bit(x, i)
    ensures x < Pow2(k)
  {
    if k > 0 {
      forall i | i >= k - 1 ensures !Bit(x / 2, i) {
        assert !Bit(x, i + 1);
      }
      BitsBound(x / 2, k - 1);
    } else if x > 0 {
      NonzeroHasBit(x);
      assert false;
    }
  }

  lemma {:induction false} NonzeroHasBit(x: nat)
    requires x > 0
    ensures exists i: nat :: Bit(x, i)
  {
    if x % 2 == 1 {
      assert Bit(x, 0);
    } else {
      NonzeroHasBit(x / 2);
      var i: nat :| Bit(x / 2, i);
      assert Bit(x, i + 1);
    }
  }

  /** A number is determined by its bits. */
  lemma {:induction false} BitsInjective(x: nat, y: nat)
    requires forall i: nat :: Bit(x, i) == Bit(y, i)
    ensures x == y
  {
    if x != 0 || y != 0 {
      assert Bit(x, 0) == Bit(y, 0);
      forall i: nat ensures Bit(x / 2, i) == Bit(y / 2, i) {
        assert Bit(x, i + 1) == Bit(y, i + 1);
      }
      BitsInjective(x / 2, y / 2);
    }
  }

  /** The top bit is the sign. */
  lemma TopBit(x: nat, bits: nat)
    requires bits >= 1 && x < Pow2(bits)
    ensures Bit(x, bits - 1) <==> x >= Pow2(bits - 1)
  {
    var k := bits - 1;
    BitIsShr(x, k);
    ShrIsDiv(x, k);
    if x >= Pow2(k) {
      DivModUnique(x, Pow2(k), 1, x - Pow2(k));
    } else {
      ModSmall(x, Pow2(k));
    }
  }

  lemma {:induction false} BitOfJoined(lo: nat, hi: nat, k: nat, j: nat)
    requires j < k
    ensures Bit(lo + Shl(hi, k), j) == Bit(lo, j)
  {
    assert Shl(hi, k) == 2 * Shl(hi, k - 1);
    if j > 0 {
      assert (lo + Shl(hi, k)) / 2 == lo / 2 + Shl(hi, k - 1);
      BitOfJoined(lo / 2, hi, k - 1, j - 1);
    }
  }

  lemma BitAbove(v: nat, lo: nat, up: nat, e: nat, j: nat)
    requires lo < Pow2(e) && v == Shl(up, e) + lo
    ensures Bit(v, e + j) == Bit(up, j)
  {
    hide Bit, Pow2, Shl, Shr;
    ShlPlusLow(up, lo, e);
    BitIsShr(v, e + j);
    ShrShr(v, e, j);
    BitIsShr(up, j);
  }

  lemma WordBitAt(w: seq<u64>, k: nat, j: nat)
    requires k < |w| && j < 64
    ensures Bit(Val(w, B64), 64 * k + j) == Bit(w[k], j)
  {
    hide Val, Pow, Bit, Pow2, Shl, Shr;
    ValSplit(w, k, B64);
    assert w[k..] == [w[k]] + w[k + 1..];
    ValCons(w[k], w[k + 1..], B64);
    WordPow(k);
    ValBound(w[..k], B64);
    ShlIsMul(Val(w[k..], B64), 64 * k);
    BitAbove(Val(w, B64), Val(w[..k], B64), Val(w[k..], B64), 64 * k, j);
    Pow2Literals();
    ShlIsMul(Val(w[k + 1..], B64), 64);
    BitOfJoined(w[k], Val(w[k + 1..], B64), 64, j);
  }

  /** Bit i of a number is bit i % 64 of word i / 64. */
  lemma WordBit(w: seq<u64>, i: nat)
    requires i < 64 * |w|
    ensures Bit(Val(w, B64), i) == Bit(w[i / 64], i % 64)
  {
    WordBitAt(w, i / 64, i % 64);
  }
}
