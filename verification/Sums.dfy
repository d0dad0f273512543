/** Sums of a measure over a sequence and sizes of sets, for counting. */
module Sums {

  function Sum<T>(ts: seq<T>, f: T -> int): int {
    if ts == [] then 0 else f(ts[0]) + Sum(ts[1..], f)
  }

  lemma {:induction false} SumUpdate<T>(ts: seq<T>, i: nat, t: T, f: T -> int)
    requires i < |ts|
    ensures Sum(ts[i := t], f) == Sum(ts, f) - f(ts[i]) + f(t)
  {
    if i == 0 {
      assert ts[i := t][1..] == ts[1..];
    } else {
      assert ts[i := t][1..] == ts[1..][i - 1 := t];
      SumUpdate(ts[1..], i - 1, t, f);
    }
  }

  lemma {:induction false} SumSame<T>(ts: seq<T>, us: seq<T>, f: T -> int)
    requires |ts| == |us| && forall k :: 0 <= k < |ts| ==> f(ts[k]) == f(us[k])
    ensures Sum(ts, f) == Sum(us, f)
  {
    if ts != [] {
      assert f(ts[0]) == f(us[0]);
      forall k | 0 <= k < |ts[1..]| ensures f(ts[1..][k]) == f(us[1..][k]) {
        assert f(ts[k + 1]) == f(us[k + 1]);
      }
      SumSame(ts[1..], us[1..], f);
    }
  }

  /** A positive sum has a positive term, a zero sum of non-negative terms none. */
  lemma {:induction false} SumWitness<T>(ts: seq<T>, f: T -> int)
    requires Sum(ts, f) > 0
    ensures exists k :: 0 <= k < |ts| && f(ts[k]) > 0
  {
    if f(ts[0]) <= 0 {
      SumWitness(ts[1..], f);
      var k :| 0 <= k < |ts[1..]| && f(ts[1..][k]) > 0;
      assert f(ts[k + 1]) > 0;
    }
  }

  lemma {:induction false} SumAtLeast<T>(ts: seq<T>, f: T -> int, k: nat)
    requires k < |ts| && forall j :: 0 <= j < |ts| ==> f(ts[j]) >= 0
    ensures Sum(ts, f) >= f(ts[k])
  {
    SumNonNegative(ts[1..], f);
    if k > 0 {
      assert forall j :: 0 <= j < |ts[1..]| ==> f(ts[1..][j]) == f(ts[j + 1]);
      SumAtLeast(ts[1..], f, k - 1);
    }
  }

  lemma {:induction false} SumNonNegative<T>(ts: seq<T>, f: T -> int)
    requires forall j :: 0 <= j < |ts| ==> f(ts[j]) >= 0
    ensures Sum(ts, f) >= 0
  {
    if ts != [] {
      assert forall j :: 0 <= j < |ts[1..]| ==> f(ts[1..][j]) == f(ts[j + 1]);
      SumNonNegative(ts[1..], f);
    }
  }

  lemma {:induction false} SumNegate<T(!new)>(ts: seq<T>, f: T -> int, h: T -> int)
    requires forall t :: h(t) == 0 - f(t)
    ensures Sum(ts, h) == 0 - Sum(ts, f)
  {
    if ts != [] { SumNegate(ts[1..], f, h); }
  }

  lemma {:induction false} SumZero<T>(ts: seq<T>, f: T -> int)
    requires forall k :: 0 <= k < |ts| ==> f(ts[k]) == 0
    ensures Sum(ts, f) == 0
  {
    if ts != [] {
      forall k | 0 <= k < |ts[1..]| ensures f(ts[1..][k]) == 0 { assert f(ts[k + 1]) == 0; }
      SumZero(ts[1..], f);
    }
  }

  function Count(ids: seq<nat>, id: nat): nat {
    if ids == [] then 0 else Count(ids[..|ids| - 1], id) + if ids[|ids| - 1] == id then 1 else 0
  }

  lemma CountSnoc(ids: seq<nat>, x: nat, id: nat)
    ensures Count(ids + [x], id) == Count(ids, id) + if x == id then 1 else 0
  {
    assert (ids + [x])[..|ids + [x]| - 1] == ids;
  }

  lemma {:induction false} SumSnoc<T>(ts: seq<T>, t: T, f: T -> int)
    ensures Sum(ts + [t], f) == Sum(ts, f) + f(t)
  {
    if ts == [] {
      assert ts + [t] == [t];
    } else {
      assert (ts + [t])[1..] == ts[1..] + [t];
      SumSnoc(ts[1..], t, f);
    }
  }

  lemma {:induction false} SumConcat<T>(ts: seq<T>, us: seq<T>, f: T -> int)
    ensures Sum(ts + us, f) == Sum(ts, f) + Sum(us, f)
  {
    if ts == [] {
      assert ts + us == us;
    } else {
      assert (ts + us)[1..] == ts[1..] + us;
      SumConcat(ts[1..], us, f);
    }
  }

  lemma SubsetSize<T>(a: set<T>, b: set<T>)
    requires a <= b
    ensures |a| <= |b|
  {
    if a != b {
      var x :| x in b && x !in a;
      SubsetSize(a, b - {x});
    }
  }
}
