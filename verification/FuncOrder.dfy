/** The order in which functions are lowered: clusters of callers and callees by
    call density (src/mir/func_order.cpp). */
module FuncOrder {
  import opened Arith
  import opened Options

  const MAX_LOOP_WEIGHT_DEPTH := 4
  const MAX_CLUSTER_SIZE := 2048

  /** A direct call: the function called and the loop depth of the block it is in. */
  datatype Call = Call(target: nat, depth: nat)

  datatype Fn = Fn(isDecl: bool, instrs: nat, cold: bool, noReturn: bool, calls: seq<Call>)

  datatype Info = Info(func: nat, size: nat, heat: nat, cold: bool, callers: map<nat, nat>)

  datatype Cluster = Cluster(funcs: seq<nat>, size: nat, heat: nat)

  predicate Denser(a: Cluster, b: Cluster) {
    a.heat * b.size > b.heat * a.size
  }

  // ----- the density order -----

  /** With positive sizes, cross multiplication compares the quotients. */
  lemma DenserChain(a: Cluster, b: Cluster, c: Cluster)
    requires a.size > 0 && b.size > 0 && c.size > 0 && !Denser(b, a) && !Denser(c, b)
    ensures !Denser(c, a)
    ensures Denser(a, b) || Denser(b, c) ==> Denser(a, c)
  {
    CrossMultiply(a.heat, a.size, b.heat, b.size, c.heat, c.size);
  }

  lemma CrossMultiply(h1: nat, s1: nat, h2: nat, s2: nat, h3: nat, s3: nat)
    requires s1 > 0 && s2 > 0 && s3 > 0 && h1 * s2 >= h2 * s1 && h2 * s3 >= h3 * s2
    ensures h1 * s3 >= h3 * s1
    ensures h1 * s2 > h2 * s1 || h2 * s3 > h3 * s2 ==> h1 * s3 > h3 * s1
  {
    MulMonotone(h2 * s1, h1 * s2, s3);
    MulMonotone(h3 * s2, h2 * s3, s1);
    MulSwap(h1, s2, s3);
    MulSwap(h2, s1, s3);
    MulSwap(h3, s2, s1);
    Cancel(h3 * s1, h1 * s3, s2);
    if h1 * s2 > h2 * s1 { MulStrict(h2 * s1, h1 * s2, s3); }
    if h2 * s3 > h3 * s2 { MulStrict(h3 * s2, h2 * s3, s1); }
  }

  /** Denser first, and the earlier one among equally dense ones. */
  predicate Before(cs: seq<Cluster>, a: nat, b: nat)
    requires a < |cs| && b < |cs|
  {
    Denser(cs[a], cs[b]) || (!Denser(cs[b], cs[a]) && a < b)
  }

  predicate Sized(cs: seq<Cluster>, s: seq<nat>) {
    forall i :: 0 <= i < |s| ==> s[i] < |cs| && cs[s[i]].size > 0
  }

  predicate Increasing(s: seq<nat>) {
    forall i, j :: 0 <= i < j < |s| ==> s[i] < s[j]
  }

  predicate Sorted(cs: seq<Cluster>, s: seq<nat>) {
    && Sized(cs, s)
    && forall i, j :: 0 <= i < j < |s| ==> Before(cs, s[i], s[j])
  }

  lemma BeforeTransitive(cs: seq<Cluster>, a: nat, b: nat, c: nat)
    requires a < |cs| && b < |cs| && c < |cs| && cs[a].size > 0 && cs[b].size > 0 && cs[c].size > 0
    requires Before(cs, a, b) && Before(cs, b, c)
    ensures Before(cs, a, c)
  {
    DenserAsymmetric(cs[a], cs[b]);
    DenserAsymmetric(cs[b], cs[c]);
    DenserChain(cs[a], cs[b], cs[c]);
  }

  lemma DenserAsymmetric(a: Cluster, b: Cluster)
    ensures !(Denser(a, b) && Denser(b, a))
  {}

  /** Where an id goes in a sorted list of smaller ids: behind everything not less dense. */
  method InsertSorted(cs: seq<Cluster>, s: seq<nat>, x: nat) returns (r: seq<nat>)
    requires Sorted(cs, s) && x < |cs| && cs[x].size > 0 && forall i :: 0 <= i < |s| ==> s[i] < x
    ensures Sorted(cs, r) && multiset(r) == multiset(s) + multiset{x}
  {
    hide Denser, Sorted;
    SortedSizes(cs, s);
    var i := |s|;
    while i > 0 && Denser(cs[x], cs[s[i - 1]])
      invariant 0 <= i <= |s| && forall j :: i <= j < |s| ==> Before(cs, x, s[j])
    {
      i := i - 1;
    }
    r := s[..i] + [x] + s[i..];
    assert s == s[..i] + s[i..];
    SortedInsert(cs, s, x, i);
  }

  lemma SortedSizes(cs: seq<Cluster>, s: seq<nat>)
    requires Sorted(cs, s)
    ensures forall i :: 0 <= i < |s| ==> s[i] < |cs|
  {}

  /** Everything below i comes before x, if only the last of it does. */
  lemma SortedInsert(cs: seq<Cluster>, s: seq<nat>, x: nat, i: nat)
    requires Sorted(cs, s) && x < |cs| && cs[x].size > 0 && i <= |s|
    requires i > 0 ==> Before(cs, s[i - 1], x)
    requires forall j :: i <= j < |s| ==> Before(cs, x, s[j])
    ensures Sorted(cs, s[..i] + [x] + s[i..])
  {
    hide Denser;
    forall j | 0 <= j < i ensures Before(cs, s[j], x) {
      if j < i - 1 { BeforeTransitive(cs, s[j], s[i - 1], x); }
    }
    hide Before;
    var r := s[..i] + [x] + s[i..];
    assert forall j :: 0 <= j < |r| ==> r[j] == if j < i then s[j] else if j == i then x else s[j - 1];
  }

  /** The stable sort of ids that come in increasing order. */
  method StableSort(cs: seq<Cluster>, ids: seq<nat>) returns (r: seq<nat>)
    requires Sized(cs, ids) && Increasing(ids)
    ensures Sorted(cs, r) && multiset(r) == multiset(ids)
  {
    r := [];
    for k := 0 to |ids|
      invariant Sorted(cs, r) && multiset(r) == multiset(ids[..k])
    {
      forall i | 0 <= i < |r| ensures r[i] < ids[k] {
        assert r[i] in multiset(r);
        assert r[i] in ids[..k];
      }
      r := InsertSorted(cs, r, ids[k]);
      assert ids[..k + 1] == ids[..k] + [ids[k]];
    }
    assert ids[..|ids|] == ids;
  }

  /** Both lists start with the one that comes before all others. */
  lemma SameHead(cs: seq<Cluster>, s: seq<nat>, t: seq<nat>)
    requires Sorted(cs, s) && Sorted(cs, t) && s != [] && s[0] in t && t != [] && t[0] in s
    ensures s[0] == t[0]
  {
    hide Denser;
    var i :| 0 <= i < |t| && t[i] == s[0];
    var j :| 0 <= j < |s| && s[j] == t[0];
    if i > 0 && j > 0 {
      assert Before(cs, t[0], t[i]) && Before(cs, s[0], s[j]);
      DenserAsymmetric(cs[s[0]], cs[t[0]]);
    }
  }

  lemma TailSorted(cs: seq<Cluster>, s: seq<nat>)
    requires Sorted(cs, s) && s != []
    ensures Sorted(cs, s[1..])
  {
    hide Before;
  }

  lemma SharedHeads<T>(s: seq<T>, t: seq<T>)
    requires multiset(s) == multiset(t) && s != []
    ensures |s| == |t| && s[0] in t && t[0] in s
    ensures s[0] == t[0] ==> multiset(s[1..]) == multiset(t[1..])
  {
    assert |s| == |multiset(s)| == |multiset(t)| == |t|;
    assert s[0] in multiset(t) && t[0] in multiset(s);
    TailMultiset(s);
    TailMultiset(t);
  }

  lemma TailMultiset<T>(s: seq<T>)
    requires s != []
    ensures multiset(s[1..]) == multiset(s) - multiset{s[0]}
  {
    assert s == [s[0]] + s[1..];
  }

  /** The sorted list is unique, so the order is deterministic. */
  lemma {:induction false} SortedUnique(cs: seq<Cluster>, s: seq<nat>, t: seq<nat>)
    requires Sorted(cs, s) && Sorted(cs, t) && multiset(s) == multiset(t)
    ensures s == t
  {
    hide Before, Sorted, Sized;
    if s == [] {
      assert |t| == |multiset(t)| == |multiset(s)|;
    } else {
      SharedHeads(s, t);
      SameHead(cs, s, t);
      TailSorted(cs, s);
      TailSorted(cs, t);
      SortedUnique(cs, s[1..], t[1..]);
      assert s == [s[0]] + s[1..] && t == [t[0]] + t[1..];
    }
  }

  // ----- call weights -----

  function MinDepth(depth: nat): nat {
    if depth < MAX_LOOP_WEIGHT_DEPTH then depth else MAX_LOOP_WEIGHT_DEPTH
  }

  method LoopWeight(depth: nat) returns (w: nat)
    ensures w == Pow(10, MinDepth(depth)) && 1 <= w <= 10000
  {
    w := 1;
    for i := 0 to MinDepth(depth)
      invariant w == Pow(10, i)
    {
      w := w * 10;
    }
    assert Pow(10, 4) == 10000 && Pow(10, 3) == 1000 && Pow(10, 2) == 100 && Pow(10, 1) == 10;
  }

  /** The weight of the calls to one function. */
  function Weight(calls: seq<Call>, func: nat): nat {
    if calls == [] then 0 else
    var c := calls[|calls| - 1];
    Weight(calls[..|calls| - 1], func) + if c.target == func then Pow(10, MinDepth(c.depth)) else 0
  }

  /** The weight of the calls from definition c to definition t; self calls do not count. */
  function WeightFrom(infos: seq<Info>, fns: seq<Fn>, c: nat, t: nat): nat
    requires c < |infos| && t < |infos| && infos[c].func < |fns|
  {
    if c == t then 0 else Weight(fns[infos[c].func].calls, infos[t].func)
  }

  function HeatUpTo(infos: seq<Info>, fns: seq<Fn>, t: nat, k: nat): nat
    requires t < |infos| && k <= |infos| && forall c :: 0 <= c < |infos| ==> infos[c].func < |fns|
  {
    if k == 0 then 0 else HeatUpTo(infos, fns, t, k - 1) + WeightFrom(infos, fns, k - 1, t)
  }

  /** Definition ids and functions determine each other. */
  predicate IdsOk(infos: seq<Info>, fns: seq<Fn>, ids: map<nat, nat>) {
    && (forall c :: 0 <= c < |infos| ==> infos[c].func < |fns| && infos[c].func in ids && ids[infos[c].func] == c)
    && (forall f :: f in ids ==> ids[f] < |infos| && infos[ids[f]].func == f)
  }

  /** Heat and callers are the weighted calls made by the first k definitions. */
  predicate CollectedAt(infos: seq<Info>, fns: seq<Fn>, t: nat, k: nat)
    requires t < |infos| && k <= |infos| && forall c :: 0 <= c < |infos| ==> infos[c].func < |fns|
  {
    && infos[t].heat == HeatUpTo(infos, fns, t, k)
    && (forall c :: c in infos[t].callers ==> c < k && infos[t].callers[c] == WeightFrom(infos, fns, c, t) > 0)
    && (forall c :: 0 <= c < k && WeightFrom(infos, fns, c, t) > 0 ==> c in infos[t].callers)
  }

  predicate Collected(infos: seq<Info>, fns: seq<Fn>, k: nat)
    requires k <= |infos| && forall c :: 0 <= c < |infos| ==> infos[c].func < |fns|
  {
    forall t :: 0 <= t < |infos| ==> CollectedAt(infos, fns, t, k)
  }

  /** What the first j calls of one caller add to a callee. */
  predicate Added(was: Info, now: Info, caller: nat, w: nat) {
    && now.func == was.func && now.size == was.size && now.cold == was.cold
    && now.heat == was.heat + w
    && now.callers == if w == 0 then was.callers else was.callers[caller := w]
  }

  /** One call counted. */
  function CountCall(i: Info, caller: nat, weight: nat): Info {
    i.(heat := i.heat + weight, callers := i.callers[caller := (if caller in i.callers then i.callers[caller] else 0) + weight])
  }

  lemma CountedCall(was: Info, now: Info, caller: nat, w: nat, weight: nat)
    requires caller !in was.callers && Added(was, now, caller, w) && weight > 0
    ensures Added(was, CountCall(now, caller, weight), caller, w + weight)
  {}

  lemma WeightStep(calls: seq<Call>, j: nat)
    requires j < |calls|
    ensures forall func: nat ::
      Weight(calls[..j + 1], func) == Weight(calls[..j], func) + if calls[j].target == func then Pow(10, MinDepth(calls[j].depth)) else 0
  {
    assert calls[..j + 1][..j] == calls[..j];
  }

  method CollectCalls(infos: seq<Info>, fns: seq<Fn>, ids: map<nat, nat>, caller: nat) returns (r: seq<Info>)
    requires IdsOk(infos, fns, ids) && caller < |infos|
    requires forall t :: 0 <= t < |infos| ==> caller !in infos[t].callers
    ensures |r| == |infos|
    ensures forall t :: 0 <= t < |infos| ==> Added(infos[t], r[t], caller, WeightFrom(infos, fns, caller, t))
  {
    hide CountCall, Weight, Pow, MinDepth, Added;
    r := infos;
    var calls := fns[infos[caller].func].calls;
    NothingAdded(infos, caller);
    assert calls[..0] == [];
    for j := 0 to |calls|
      invariant AllAdded(infos, r, calls[..j], caller)
    {
      var weight := LoopWeight(calls[j].depth);
      ghost var was := r;
      if calls[j].target in ids && ids[calls[j].target] != caller {
        var t := ids[calls[j].target];
        r := r[t := CountCall(r[t], caller, weight)];
      }
      AddedStep(infos, was, r, calls, j, fns, ids, caller, weight);
    }
    assert calls[..|calls|] == calls;
  }

  /** Every callee has what these calls of one caller add. */
  predicate AllAdded(infos: seq<Info>, r: seq<Info>, calls: seq<Call>, caller: nat) {
    |r| == |infos| && forall t :: 0 <= t < |infos| ==>
      Added(infos[t], r[t], caller, if t == caller then 0 else Weight(calls, infos[t].func))
  }

  lemma NothingAdded(infos: seq<Info>, caller: nat)
    ensures AllAdded(infos, infos, [], caller)
  {}

  lemma AddedStep(infos: seq<Info>, was: seq<Info>, now: seq<Info>, calls: seq<Call>, j: nat, fns: seq<Fn>, ids: map<nat, nat>, caller: nat, weight: nat)
    requires IdsOk(infos, fns, ids) && j < |calls| && AllAdded(infos, was, calls[..j], caller)
    requires forall t :: 0 <= t < |infos| ==> caller !in infos[t].callers
    requires weight == Pow(10, MinDepth(calls[j].depth)) && weight >= 1
    requires var f := calls[j].target;
      now == if f in ids && ids[f] != caller then was[ids[f] := CountCall(was[ids[f]], caller, weight)] else was
    ensures AllAdded(infos, now, calls[..j + 1], caller)
  {
    hide CountCall, Weight, Pow, MinDepth, Added;
    WeightStep(calls, j);
    forall t | 0 <= t < |infos|
      ensures Added(infos[t], now[t], caller, if t == caller then 0 else Weight(calls[..j + 1], infos[t].func))
    {
      if t != caller && infos[t].func == calls[j].target {
        CountedCall(infos[t], was[t], caller, Weight(calls[..j], infos[t].func), weight);
      }
    }
  }

  /** HeatUpTo looks at the functions of the infos only. */
  lemma {:induction false} HeatSame(a: seq<Info>, b: seq<Info>, fns: seq<Fn>, t: nat, k: nat)
    requires |a| == |b| && t < |a| && k <= |a|
    requires forall c :: 0 <= c < |a| ==> a[c].func == b[c].func < |fns|
    ensures HeatUpTo(a, fns, t, k) == HeatUpTo(b, fns, t, k)
  {
    if k > 0 { HeatSame(a, b, fns, t, k - 1); }
  }

  lemma CollectedStep(a: seq<Info>, b: seq<Info>, fns: seq<Fn>, k: nat, t: nat)
    requires k < |a| == |b| && t < |a| && forall c :: 0 <= c < |a| ==> a[c].func == b[c].func < |fns|
    requires CollectedAt(a, fns, t, k) && Added(a[t], b[t], k, WeightFrom(a, fns, k, t))
    ensures CollectedAt(b, fns, t, k + 1)
  {
    HeatSame(a, b, fns, t, k);
    assert forall c :: 0 <= c < |a| ==> WeightFrom(a, fns, c, t) == WeightFrom(b, fns, c, t);
    hide WeightFrom;
  }

  // ----- the heaviest caller -----

  /** Among the callers that are not cold the heaviest, and the earliest of those. */
  predicate IsBest(infos: seq<Info>, callers: map<nat, nat>, best: nat) {
    && best in callers && best < |infos| && !infos[best].cold
    && forall c :: c in callers && c < |infos| && !infos[c].cold ==>
         callers[c] < callers[best] || (callers[c] == callers[best] && best <= c)
  }

  lemma BestUnique(infos: seq<Info>, callers: map<nat, nat>, a: nat, b: nat)
    requires IsBest(infos, callers, a) && IsBest(infos, callers, b)
    ensures a == b
  {}

  ghost function BestCaller(infos: seq<Info>, callers: map<nat, nat>): (r: Option<nat>)
    ensures r.Some? ==> IsBest(infos, callers, r.value)
    ensures r.None? ==> forall best :: !IsBest(infos, callers, best)
  {
    if best: nat :| IsBest(infos, callers, best) then Some(best) else None
  }

  /** Looks at the callers in any order; the result does not depend on it. */
  method HeaviestCaller(infos: seq<Info>, id: nat, callers: map<nat, nat>) returns (best: nat, weight: nat)
    requires forall c :: c in callers ==> c < |infos| && callers[c] > 0
    ensures weight == 0 <==> forall c :: c in callers ==> infos[c].cold
    ensures weight > 0 ==> IsBest(infos, callers, best) && callers[best] == weight
    ensures BestCaller(infos, callers) == if weight == 0 then None else Some(best)
  {
    best, weight := id, 0;
    var rest := callers.Keys;
    while rest != {}
      invariant rest <= callers.Keys
      invariant weight == 0 ==> forall c :: c in callers && c !in rest ==> infos[c].cold
      invariant weight > 0 ==> best in callers && !infos[best].cold && callers[best] == weight
      invariant weight > 0 ==> forall c :: c in callers && c !in rest && !infos[c].cold ==>
                                             callers[c] < weight || (callers[c] == weight && best <= c)
      decreases |rest|
    {
      var caller :| caller in rest;
      rest := rest - {caller};
      if infos[caller].cold {
        continue;
      }
      if callers[caller] > weight || (callers[caller] == weight && caller < best) {
        best, weight := caller, callers[caller];
      }
    }
  }

  // ----- clusters -----

  function SizeSum(infos: seq<Info>, fs: seq<nat>): nat {
    if fs == [] then 0 else
    SizeSum(infos, fs[..|fs| - 1]) + if fs[|fs| - 1] < |infos| then infos[fs[|fs| - 1]].size else 0
  }

  function HeatSum(infos: seq<Info>, fs: seq<nat>): nat {
    if fs == [] then 0 else
    HeatSum(infos, fs[..|fs| - 1]) + if fs[|fs| - 1] < |infos| then infos[fs[|fs| - 1]].heat else 0
  }

  lemma {:induction false} SumsConcat(infos: seq<Info>, a: seq<nat>, b: seq<nat>)
    ensures SizeSum(infos, a + b) == SizeSum(infos, a) + SizeSum(infos, b)
    ensures HeatSum(infos, a + b) == HeatSum(infos, a) + HeatSum(infos, b)
  {
    if b == [] {
      assert a + b == a;
    } else {
      assert (a + b)[..|a + b| - 1] == a + b[..|b| - 1];
      SumsConcat(infos, a, b[..|b| - 1]);
    }
  }

  /** One cluster: its members, without repetition, belong to it; size and heat are
      the sums over the members; it is empty or starts with the function it is
      named after; merged clusters are within the cap; cold functions and clusters
      without heat stand alone. */
  predicate ClusterOk(infos: seq<Info>, of: seq<nat>, c: nat, k: Cluster)
    requires c < |infos| == |of|
  {
    && (forall i :: 0 <= i < |k.funcs| ==> k.funcs[i] < |of| && of[k.funcs[i]] == c)
    && (forall i, j :: 0 <= i < j < |k.funcs| ==> k.funcs[i] != k.funcs[j])
    && k.size == SizeSum(infos, k.funcs) && k.heat == HeatSum(infos, k.funcs)
    && (k.funcs != [] ==> k.funcs[0] == c && k.size > 0)
    && (|k.funcs| > 1 ==> k.size <= MAX_CLUSTER_SIZE && k.heat > 0)
    && (|k.funcs| > 1 ==> forall i :: 0 <= i < |k.funcs| ==> !infos[k.funcs[i]].cold)
  }

  predicate Covers(of: seq<nat>, cs: seq<Cluster>) {
    forall f :: 0 <= f < |of| ==> of[f] < |cs| && f in cs[of[f]].funcs
  }

  /** The clusters partition the definitions and cluster_of says how. */
  predicate Partition(infos: seq<Info>, of: seq<nat>, cs: seq<Cluster>) {
    && |of| == |cs| == |infos|
    && Covers(of, cs)
    && forall c :: 0 <= c < |cs| ==> ClusterOk(infos, of, c, cs[c])
  }

  predicate InfosOk(infos: seq<Info>) {
    forall f :: 0 <= f < |infos| ==>
      infos[f].size > 0 && forall c :: c in infos[f].callers ==> c < |infos| && infos[f].callers[c] > 0
  }

  /** Every definition alone. */
  function Alone(infos: seq<Info>): seq<Cluster> {
    seq(|infos|, f requires 0 <= f < |infos| => Cluster([f], infos[f].size, infos[f].heat))
  }

  function Own(n: nat): seq<nat> {
    seq(n, f requires 0 <= f => f)
  }

  method Singletons(infos: seq<Info>) returns (of: seq<nat>, cs: seq<Cluster>)
    requires InfosOk(infos)
    ensures Partition(infos, of, cs) && of == Own(|infos|) && cs == Alone(infos)
  {
    of, cs := [], [];
    for id := 0 to |infos|
      invariant |of| == |cs| == id
      invariant forall f :: 0 <= f < id ==> of[f] == f && cs[f] == Cluster([f], infos[f].size, infos[f].heat)
    {
      cs := cs + [Cluster([id], infos[id].size, infos[id].heat)];
      of := of + [id];
    }
    forall c | 0 <= c < |cs| ensures ClusterOk(infos, of, c, cs[c]) {
      assert [c][..0] == [];
      assert SizeSum(infos, [c]) == SizeSum(infos, []) + infos[c].size;
      assert HeatSum(infos, [c]) == HeatSum(infos, []) + infos[c].heat;
    }
  }

  /** of with the functions fs moved to cluster t. */
  function Reassigned(of: seq<nat>, fs: seq<nat>, t: nat): seq<nat> {
    seq(|of|, f requires 0 <= f < |of| => if f in fs then t else of[f])
  }

  function Joined(a: Cluster, b: Cluster): Cluster {
    Cluster(a.funcs + b.funcs, a.size + b.size, a.heat + b.heat)
  }

  /** The move of every function of one cluster into another. */
  method Reassign(of: seq<nat>, funcs: seq<nat>, target: nat) returns (r: seq<nat>)
    requires forall i :: 0 <= i < |funcs| ==> funcs[i] < |of|
    ensures r == Reassigned(of, funcs, target)
  {
    r := of;
    for k := 0 to |funcs|
      invariant r == Reassigned(of, funcs[..k], target)
    {
      r := r[funcs[k] := target];
    }
    assert funcs[..|funcs|] == funcs;
  }

  /** Appends cluster m to cluster t. */
  method Merge(infos: seq<Info>, of: seq<nat>, cs: seq<Cluster>, t: nat, m: nat) returns (of': seq<nat>, cs': seq<Cluster>)
    requires Partition(infos, of, cs) && t < |cs| && m < |cs| && t != m
    requires cs[t].funcs != [] && cs[m].funcs != [] && cs[t].size + cs[m].size <= MAX_CLUSTER_SIZE && cs[m].heat > 0
    requires forall f :: f in cs[t].funcs || f in cs[m].funcs ==> f < |infos| && !infos[f].cold
    ensures Partition(infos, of', cs')
    ensures of' == Reassigned(of, cs[m].funcs, t) && cs' == cs[t := Joined(cs[t], cs[m])][m := Cluster([], 0, 0)]
  {
    assert ClusterOk(infos, of, t, cs[t]) && ClusterOk(infos, of, m, cs[m]);
    of' := Reassign(of, cs[m].funcs, t);
    hide ClusterOk, Reassigned;
    var joined := Joined(cs[t], cs[m]);
    JoinedOk(infos, of, of', t, m, cs[t], cs[m], joined);
    MergedOk(infos, of, of', cs, t, m, joined);
    cs' := cs[t := joined][m := Cluster([], 0, 0)];
  }

  lemma JoinedOk(infos: seq<Info>, of: seq<nat>, of': seq<nat>, t: nat, m: nat, a: Cluster, b: Cluster, joined: Cluster)
    requires |infos| == |of| && t < |of| && m < |of| && t != m && ClusterOk(infos, of, t, a) && ClusterOk(infos, of, m, b)
    requires of' == Reassigned(of, b.funcs, t) && a.funcs != [] && b.funcs != []
    requires joined == Joined(a, b) && joined.size <= MAX_CLUSTER_SIZE && b.heat > 0
    requires forall f :: f in a.funcs || f in b.funcs ==> f < |infos| && !infos[f].cold
    ensures ClusterOk(infos, of', t, joined)
  {
    SumsConcat(infos, a.funcs, b.funcs);
    hide SizeSum, HeatSum;
    var fs := joined.funcs;
    forall i | 0 <= i < |fs| ensures fs[i] < |of'| && of'[fs[i]] == t && !infos[fs[i]].cold {
      if i < |a.funcs| { assert fs[i] == a.funcs[i]; } else { assert fs[i] == b.funcs[i - |a.funcs|]; }
    }
    forall i, j | 0 <= i < j < |fs| ensures fs[i] != fs[j] {
      if i < |a.funcs| <= j { assert of[a.funcs[i]] == t && of[b.funcs[j - |a.funcs|]] == m; }
    }
  }

  lemma OtherOk(infos: seq<Info>, of: seq<nat>, of': seq<nat>, t: nat, m: nat, c: nat, b: Cluster, k: Cluster)
    requires |infos| == |of| && c < |of| && m < |of| && c != t && c != m && ClusterOk(infos, of, m, b) && ClusterOk(infos, of, c, k)
    requires of' == Reassigned(of, b.funcs, t)
    ensures ClusterOk(infos, of', c, k)
  {
    hide SizeSum, HeatSum;
    forall i | 0 <= i < |k.funcs| ensures of'[k.funcs[i]] == c {
      assert of[k.funcs[i]] == c;
    }
  }

  lemma MergedOk(infos: seq<Info>, of: seq<nat>, of': seq<nat>, cs: seq<Cluster>, t: nat, m: nat, joined: Cluster)
    requires Partition(infos, of, cs) && t < |cs| && m < |cs| && t != m && cs[m].funcs != []
    requires of' == Reassigned(of, cs[m].funcs, t) && ClusterOk(infos, of', t, joined) && joined.funcs == cs[t].funcs + cs[m].funcs
    ensures Partition(infos, of', cs[t := joined][m := Cluster([], 0, 0)])
  {
    hide ClusterOk, Reassigned, Covers;
    var cs' := cs[t := joined][m := Cluster([], 0, 0)];
    MergedCover(infos, of, of', cs, t, m, joined);
    EmptyOk(infos, of', m);
    forall c | 0 <= c < |cs'| ensures ClusterOk(infos, of', c, cs'[c]) {
      assert ClusterOk(infos, of, c, cs[c]);
      if c != t && c != m { OtherOk(infos, of, of', t, m, c, cs[m], cs[c]); }
    }
  }

  lemma EmptyOk(infos: seq<Info>, of: seq<nat>, c: nat)
    requires c < |infos| == |of|
    ensures ClusterOk(infos, of, c, Cluster([], 0, 0))
  {
    EmptySums(infos);
  }

  /** Every function is in the cluster it is now said to be in. */
  lemma MergedCover(infos: seq<Info>, of: seq<nat>, of': seq<nat>, cs: seq<Cluster>, t: nat, m: nat, joined: Cluster)
    requires Partition(infos, of, cs) && t < |cs| && m < |cs| && t != m
    requires of' == Reassigned(of, cs[m].funcs, t) && joined.funcs == cs[t].funcs + cs[m].funcs
    ensures |of'| == |of| && Covers(of', cs[t := joined][m := Cluster([], 0, 0)])
  {
    hide ClusterOk;
    var cs' := cs[t := joined][m := Cluster([], 0, 0)];
    forall f | 0 <= f < |of'| ensures of'[f] < |cs'| && f in cs'[of'[f]].funcs {
      assert f in cs[of[f]].funcs;
    }
  }

  lemma EmptySums(infos: seq<Info>)
    ensures SizeSum(infos, []) == 0 && HeatSum(infos, []) == 0
  {}

  // ----- merging -----

  lemma {:induction false} HeatSumAtLeast(infos: seq<Info>, fs: seq<nat>, f: nat)
    requires f in fs && f < |infos|
    ensures HeatSum(infos, fs) >= infos[f].heat
  {
    if fs[|fs| - 1] != f {
      assert f in fs[..|fs| - 1];
      HeatSumAtLeast(infos, fs[..|fs| - 1], f);
    }
  }

  /** No cluster mixes cold functions with others. */
  lemma NoColdBeside(infos: seq<Info>, of: seq<nat>, cs: seq<Cluster>, f: nat)
    requires Partition(infos, of, cs) && f < |infos| && !infos[f].cold
    ensures of[f] < |cs| && cs[of[f]].funcs != [] && of[f] in cs[of[f]].funcs
    ensures forall g :: g in cs[of[f]].funcs ==> g < |infos| && !infos[g].cold
  {
    hide SizeSum, HeatSum;
    assert f in cs[of[f]].funcs && ClusterOk(infos, of, of[f], cs[of[f]]);
  }

  /** One merge: the cluster of id goes behind the cluster of its best caller, if it fits. */
  ghost function MergeOne(infos: seq<Info>, of: seq<nat>, cs: seq<Cluster>, id: nat): (r: (seq<nat>, seq<Cluster>))
    requires id < |infos| == |of| == |cs| && forall f :: 0 <= f < |of| ==> of[f] < |cs|
    ensures |infos| == |r.0| == |r.1| && forall f :: 0 <= f < |r.0| ==> r.0[f] < |r.1|
  {
    match BestCaller(infos, infos[id].callers)
    case None => (of, cs)
    case Some(best) =>
      var t, m := of[best], of[id];
      if t == m || cs[t].size + cs[m].size > MAX_CLUSTER_SIZE then (of, cs) else
      (Reassigned(of, cs[m].funcs, t), cs[t := Joined(cs[t], cs[m])][m := Cluster([], 0, 0)])
  }

  /** The merges for ids in turn, every definition alone at first. */
  ghost function MergeAll(infos: seq<Info>, ids: seq<nat>): (r: (seq<nat>, seq<Cluster>))
    requires forall i :: 0 <= i < |ids| ==> ids[i] < |infos|
    ensures |infos| == |r.0| == |r.1| && forall f :: 0 <= f < |r.0| ==> r.0[f] < |r.1|
  {
    if ids == [] then (Own(|infos|), Alone(infos)) else
    var (of, cs) := MergeAll(infos, ids[..|ids| - 1]);
    MergeOne(infos, of, cs, ids[|ids| - 1])
  }

  /** Appends the cluster of every hot function to the cluster of its heaviest caller. */
  method MergeClusters(infos: seq<Info>, byDensity: seq<nat>, of0: seq<nat>, cs0: seq<Cluster>) returns (of: seq<nat>, cs: seq<Cluster>)
    requires InfosOk(infos) && Partition(infos, of0, cs0) && of0 == Own(|infos|) && cs0 == Alone(infos)
    requires forall i :: 0 <= i < |byDensity| ==> byDensity[i] < |infos| && !infos[byDensity[i]].cold && infos[byDensity[i]].heat > 0
    ensures Partition(infos, of, cs)
    ensures (of, cs) == MergeAll(infos, byDensity)
  {
    of, cs := of0, cs0;
    for i := 0 to |byDensity|
      invariant Partition(infos, of, cs)
      invariant (of, cs) == MergeAll(infos, byDensity[..i])
    {
      hide Partition, ClusterOk, HeatSum, SizeSum, BestCaller, Reassigned;
      assert byDensity[..i + 1][..i] == byDensity[..i];
      var id := byDensity[i];
      var best, weight := HeaviestCaller(infos, id, infos[id].callers);
      if weight == 0 {
        continue;
      }
      NoColdBeside(infos, of, cs, best);
      NoColdBeside(infos, of, cs, id);
      MemberHeat(infos, of, cs, id);
      PartitionSizes(infos, of, cs);
      var t, m := of[best], of[id];
      if t == m || cs[t].size + cs[m].size > MAX_CLUSTER_SIZE {
        continue;
      }
      of, cs := Merge(infos, of, cs, t, m);
    }
    assert byDensity[..|byDensity|] == byDensity;
  }

  lemma PartitionSizes(infos: seq<Info>, of: seq<nat>, cs: seq<Cluster>)
    requires Partition(infos, of, cs)
    ensures |of| == |cs| == |infos|
  {}

  lemma MemberHeat(infos: seq<Info>, of: seq<nat>, cs: seq<Cluster>, f: nat)
    requires Partition(infos, of, cs) && f < |infos|
    ensures of[f] < |cs| && cs[of[f]].heat >= infos[f].heat
  {
    hide SizeSum, HeatSum;
    assert f in cs[of[f]].funcs && ClusterOk(infos, of, of[f], cs[of[f]]);
    HeatSumAtLeast(infos, cs[of[f]].funcs, f);
  }

  // ----- sections -----

  datatype Kind = HotKind | WarmKind | ColdKind | EmptyKind

  function KindOf(infos: seq<Info>, cs: seq<Cluster>, id: nat): Kind
    requires id < |infos| == |cs|
  {
    if infos[id].cold then ColdKind
    else if cs[id].funcs == [] then EmptyKind
    else if cs[id].heat > 0 then HotKind
    else WarmKind
  }

  /** The ids of one kind among the first n, in input order. */
  function Section(infos: seq<Info>, cs: seq<Cluster>, kind: Kind, n: nat): seq<nat>
    requires n <= |infos| == |cs|
  {
    if n == 0 then [] else
    Section(infos, cs, kind, n - 1) + if KindOf(infos, cs, n - 1) == kind then [n - 1] else []
  }

  lemma {:induction false} SectionHas(infos: seq<Info>, cs: seq<Cluster>, kind: Kind, n: nat)
    requires n <= |infos| == |cs|
    ensures var s := Section(infos, cs, kind, n);
      && Increasing(s)
      && (forall i :: 0 <= i < |s| ==> s[i] < n && KindOf(infos, cs, s[i]) == kind)
      && (forall f :: 0 <= f < n && KindOf(infos, cs, f) == kind ==> f in s)
  {
    hide KindOf;
    if n > 0 { SectionHas(infos, cs, kind, n - 1); }
  }

  lemma SectionNext(infos: seq<Info>, cs: seq<Cluster>, kind: Kind, n: nat)
    requires n < |infos| == |cs|
    ensures Section(infos, cs, kind, n + 1) == Section(infos, cs, kind, n) + if KindOf(infos, cs, n) == kind then [n] else []
  {
    hide KindOf;
  }

  method Sections(infos: seq<Info>, cs: seq<Cluster>) returns (hot: seq<nat>, warm: seq<nat>, cold: seq<nat>)
    requires |infos| == |cs|
    ensures hot == Section(infos, cs, HotKind, |infos|)
    ensures warm == Section(infos, cs, WarmKind, |infos|)
    ensures cold == Section(infos, cs, ColdKind, |infos|)
  {
    hot, warm, cold := [], [], [];
    for id := 0 to |infos|
      invariant hot == Section(infos, cs, HotKind, id)
      invariant warm == Section(infos, cs, WarmKind, id)
      invariant cold == Section(infos, cs, ColdKind, id)
    {
      hide Section;
      SectionNext(infos, cs, HotKind, id);
      SectionNext(infos, cs, WarmKind, id);
      SectionNext(infos, cs, ColdKind, id);
      if infos[id].cold {
        cold := cold + [id];
      } else if cs[id].funcs == [] {
        continue;
      } else if cs[id].heat > 0 {
        hot := hot + [id];
      } else {
        warm := warm + [id];
      }
    }
  }

  /** The members of the clusters, cluster after cluster. */
  function Flat(cs: seq<Cluster>, hs: seq<nat>): seq<nat>
    requires forall i :: 0 <= i < |hs| ==> hs[i] < |cs|
  {
    if hs == [] then [] else Flat(cs, hs[..|hs| - 1]) + cs[hs[|hs| - 1]].funcs
  }

  predicate Distinct(s: seq<nat>) {
    forall i, j :: 0 <= i < j < |s| ==> s[i] != s[j]
  }

  /** Flat has the members of the named clusters, each once. */
  lemma {:induction false} FlatMembers(infos: seq<Info>, of: seq<nat>, cs: seq<Cluster>, hs: seq<nat>)
    requires Partition(infos, of, cs) && Distinct(hs) && forall i :: 0 <= i < |hs| ==> hs[i] < |cs|
    ensures Distinct(Flat(cs, hs))
    ensures forall f: nat :: f in Flat(cs, hs) <==> f < |of| && of[f] in hs
  {
    hide SizeSum, HeatSum;
    if hs != [] {
      var n := |hs| - 1;
      FlatMembers(infos, of, cs, hs[..n]);
      assert ClusterOk(infos, of, hs[n], cs[hs[n]]);
      assert hs == hs[..n] + [hs[n]];
      FlatStep(of, cs, Flat(cs, hs[..n]), hs[..n], hs[n]);
    }
  }

  lemma FlatStep(of: seq<nat>, cs: seq<Cluster>, a: seq<nat>, hs: seq<nat>, c: nat)
    requires c < |cs| && c !in hs && Distinct(a) && Distinct(cs[c].funcs) && Covers(of, cs)
    requires forall f: nat :: f in a <==> f < |of| && of[f] in hs
    requires forall f :: f in cs[c].funcs ==> f < |of| && of[f] == c
    ensures Distinct(a + cs[c].funcs)
    ensures forall f: nat :: f in a + cs[c].funcs <==> f < |of| && of[f] in hs + [c]
  {
    var b := cs[c].funcs;
    forall i, j | 0 <= i < j < |a + b| ensures (a + b)[i] != (a + b)[j] {
      if i < |a| <= j { assert a[i] in a && b[j - |a|] in b; }
    }
  }

  /** Where every definition ends up. */
  lemma Placed(infos: seq<Info>, of: seq<nat>, cs: seq<Cluster>, f: nat)
    requires Partition(infos, of, cs) && f < |infos|
    ensures of[f] < |cs|
    ensures infos[f].cold ==> of[f] == f && KindOf(infos, cs, f) == ColdKind
    ensures !infos[f].cold ==> KindOf(infos, cs, of[f]) == HotKind || (of[f] == f && KindOf(infos, cs, f) == WarmKind)
    ensures !infos[f].cold && KindOf(infos, cs, f) == WarmKind ==> of[f] == f
  {
    hide SizeSum, HeatSum;
    assert f in cs[of[f]].funcs && ClusterOk(infos, of, of[f], cs[of[f]]);
    assert ClusterOk(infos, of, f, cs[f]);
    assert cs[f].funcs != [] ==> cs[f].funcs[0] == f;
    if !infos[f].cold { NoColdBeside(infos, of, cs, f); }
  }

  /** A definition is in a hot cluster, or it is warm, or it is cold. */
  lemma PlacedOnce(infos: seq<Info>, of: seq<nat>, cs: seq<Cluster>, hs: seq<nat>, f: nat)
    requires Partition(infos, of, cs) && HotList(infos, cs, hs) && f < |infos|
    ensures of[f] in hs <==> KindOf(infos, cs, f) != WarmKind && KindOf(infos, cs, f) != ColdKind
  {
    Placed(infos, of, cs, f);
    hide Partition;
  }

  predicate HotList(infos: seq<Info>, cs: seq<Cluster>, hs: seq<nat>)
    requires |infos| == |cs|
  {
    && Distinct(hs)
    && (forall i :: 0 <= i < |hs| ==> hs[i] < |cs| && KindOf(infos, cs, hs[i]) == HotKind)
    && (forall c: nat :: c < |cs| && KindOf(infos, cs, c) == HotKind ==> c in hs)
  }

  /** The three sections together hold every definition once. */
  lemma SectionsPermute(infos: seq<Info>, of: seq<nat>, cs: seq<Cluster>, hs: seq<nat>)
    requires Partition(infos, of, cs) && HotList(infos, cs, hs)
    ensures var n := |infos|;
      var order := Flat(cs, hs) + Section(infos, cs, WarmKind, n) + Section(infos, cs, ColdKind, n);
      Distinct(order) && forall f: nat :: f in order <==> f < n
  {
    var n := |infos|;
    var hot, warm, cold := Flat(cs, hs), Section(infos, cs, WarmKind, n), Section(infos, cs, ColdKind, n);
    assert Distinct(hot) by { FlatMembers(infos, of, cs, hs); }
    assert Increasing(warm) by { SectionHas(infos, cs, WarmKind, n); }
    assert Increasing(cold) by { SectionHas(infos, cs, ColdKind, n); }
    hide Partition, HotList, Flat, Section, KindOf, Increasing, Distinct;
    forall f: nat
      ensures f in hot <==> f < n && f !in warm && f !in cold
      ensures f in warm ==> f < n && f !in cold
      ensures f in cold ==> f < n
    {
      InOneSection(infos, of, cs, hs, f);
    }
    OneOfThree(hot, warm, cold, n);
  }

  lemma OneOfThree(hot: seq<nat>, warm: seq<nat>, cold: seq<nat>, n: nat)
    requires Distinct(hot) && Increasing(warm) && Increasing(cold)
    requires forall f: nat :: f in hot <==> f < n && f !in warm && f !in cold
    requires forall f: nat :: f in warm ==> f < n && f !in cold
    requires forall f: nat :: f in cold ==> f < n
    ensures Distinct(hot + warm + cold) && forall f: nat :: f in hot + warm + cold <==> f < n
  {
    hide Increasing, Distinct;
    DistinctConcat(hot, warm);
    DistinctConcat(hot + warm, cold);
  }

  /** Hot, warm and cold exclude each other and leave nothing out. */
  lemma InOneSection(infos: seq<Info>, of: seq<nat>, cs: seq<Cluster>, hs: seq<nat>, f: nat)
    requires Partition(infos, of, cs) && HotList(infos, cs, hs)
    ensures var hot, warm, cold := Flat(cs, hs), Section(infos, cs, WarmKind, |infos|), Section(infos, cs, ColdKind, |infos|);
      && (f in hot <==> f < |infos| && f !in warm && f !in cold)
      && (f in warm ==> f < |infos| && f !in cold)
      && (f in cold ==> f < |infos|)
  {
    FlatMembers(infos, of, cs, hs);
    SectionMembers(infos, cs, WarmKind);
    SectionMembers(infos, cs, ColdKind);
    if f < |infos| { PlacedOnce(infos, of, cs, hs, f); }
    hide Partition, HotList, Flat, Section, KindOf, Increasing, Distinct;
  }

  lemma SectionMembers(infos: seq<Info>, cs: seq<Cluster>, kind: Kind)
    requires |infos| == |cs|
    ensures Increasing(Section(infos, cs, kind, |infos|))
    ensures forall f: nat :: f in Section(infos, cs, kind, |infos|) <==> f < |infos| && KindOf(infos, cs, f) == kind
  {
    hide KindOf;
    SectionHas(infos, cs, kind, |infos|);
  }

  lemma DistinctConcat(a: seq<nat>, b: seq<nat>)
    requires Distinct(a) && (Distinct(b) || Increasing(b)) && forall x :: x in a ==> x !in b
    ensures Distinct(a + b)
  {
    forall i, j | 0 <= i < j < |a + b| ensures (a + b)[i] != (a + b)[j] {
      if i < |a| <= j { assert a[i] in a && b[j - |a|] in b; }
    }
  }

  // ----- the whole order -----

  /** The definitions of a module in input order, before calls are counted. */
  ghost predicate Fresh(fns: seq<Fn>, infos: seq<Info>, ids: map<nat, nat>, decls: seq<nat>, n: nat)
    requires n <= |fns|
  {
    && IdsOk(infos, fns, ids)
    && (forall c :: 0 <= c < |infos| ==> infos[c].heat == 0 && infos[c].callers == map[] && infos[c].size > 0)
    && (forall c :: 0 <= c < |infos| ==> infos[c].func < n && !fns[infos[c].func].isDecl)
    && (forall p: nat :: p < n && !fns[p].isDecl ==> p in ids)
    && (forall p: nat :: p in decls <==> p < n && fns[p].isDecl)
    && Increasing(decls)
  }

  /** Size and coldness come from the function; definitions stand in input order. */
  predicate FromFns(fns: seq<Fn>, infos: seq<Info>) {
    && (forall c :: 0 <= c < |infos| ==>
          && infos[c].func < |fns|
          && infos[c].size == (if fns[infos[c].func].instrs > 1 then fns[infos[c].func].instrs else 1)
          && infos[c].cold == (fns[infos[c].func].cold || fns[infos[c].func].noReturn))
    && (forall c, d :: 0 <= c < d < |infos| ==> infos[c].func < infos[d].func)
  }

  method BuildInfos(fns: seq<Fn>) returns (infos: seq<Info>, ids: map<nat, nat>, decls: seq<nat>)
    ensures Fresh(fns, infos, ids, decls, |fns|) && FromFns(fns, infos)
  {
    infos, ids, decls := [], map[], [];
    for p := 0 to |fns|
      invariant Fresh(fns, infos, ids, decls, p) && FromFns(fns, infos)
    {
      hide Fresh, FromFns;
      if fns[p].isDecl {
        NewDecl(fns, infos, ids, decls, p);
        decls := decls + [p];
        continue;
      }
      var info := Info(p, if fns[p].instrs > 1 then fns[p].instrs else 1, 0, fns[p].cold || fns[p].noReturn, map[]);
      NewDef(fns, infos, ids, decls, p, info);
      ids := ids[p := |infos|];
      infos := infos + [info];
    }
  }

  lemma NewDecl(fns: seq<Fn>, infos: seq<Info>, ids: map<nat, nat>, decls: seq<nat>, p: nat)
    requires p < |fns| && fns[p].isDecl && Fresh(fns, infos, ids, decls, p)
    ensures Fresh(fns, infos, ids, decls + [p], p + 1)
  {
    hide IdsOk;
    assert forall i :: 0 <= i < |decls| ==> decls[i] in decls;
  }

  lemma NewDef(fns: seq<Fn>, infos: seq<Info>, ids: map<nat, nat>, decls: seq<nat>, p: nat, info: Info)
    requires p < |fns| && !fns[p].isDecl && Fresh(fns, infos, ids, decls, p) && FromFns(fns, infos)
    requires info == Info(p, if fns[p].instrs > 1 then fns[p].instrs else 1, 0, fns[p].cold || fns[p].noReturn, map[])
    ensures Fresh(fns, infos + [info], ids[p := |infos|], decls, p + 1) && FromFns(fns, infos + [info])
  {
    assert p !in ids;
    NewId(fns, infos, ids, p, info);
    NewFrom(fns, infos, p, info);
    hide IdsOk, FromFns, Increasing;
  }

  lemma NewFrom(fns: seq<Fn>, infos: seq<Info>, p: nat, info: Info)
    requires p < |fns| && FromFns(fns, infos) && forall c :: 0 <= c < |infos| ==> infos[c].func < p
    requires info == Info(p, if fns[p].instrs > 1 then fns[p].instrs else 1, 0, fns[p].cold || fns[p].noReturn, map[])
    ensures FromFns(fns, infos + [info])
  {}

  lemma NewId(fns: seq<Fn>, infos: seq<Info>, ids: map<nat, nat>, p: nat, info: Info)
    requires IdsOk(infos, fns, ids) && p < |fns| && p !in ids && info.func == p
    ensures IdsOk(infos + [info], fns, ids[p := |infos|])
  {}

  /** Same definitions, other counts. */
  predicate SameDefs(a: seq<Info>, b: seq<Info>) {
    |a| == |b| && forall c :: 0 <= c < |a| ==> a[c].func == b[c].func && a[c].size == b[c].size && a[c].cold == b[c].cold
  }

  lemma AllCollected(a: seq<Info>, b: seq<Info>, fns: seq<Fn>, k: nat)
    requires k < |a| == |b| && (forall c :: 0 <= c < |a| ==> a[c].func == b[c].func < |fns|) && Collected(a, fns, k)
    requires forall t :: 0 <= t < |a| ==> Added(a[t], b[t], k, WeightFrom(a, fns, k, t))
    ensures Collected(b, fns, k + 1)
  {
    hide CollectedAt, Added, WeightFrom;
    forall t {:trigger CollectedAt(b, fns, t, k + 1)} | 0 <= t < |b| ensures CollectedAt(b, fns, t, k + 1) {
      assert CollectedAt(a, fns, t, k);
      CollectedStep(a, b, fns, k, t);
    }
  }

  method CollectAll(infos0: seq<Info>, fns: seq<Fn>, ids: map<nat, nat>) returns (infos: seq<Info>)
    requires IdsOk(infos0, fns, ids)
    requires forall c :: 0 <= c < |infos0| ==> infos0[c].heat == 0 && infos0[c].callers == map[]
    ensures SameDefs(infos0, infos) && IdsOk(infos, fns, ids) && Collected(infos, fns, |infos|)
  {
    infos := infos0;
    for k := 0 to |infos0|
      invariant SameDefs(infos0, infos) && IdsOk(infos, fns, ids) && Collected(infos, fns, k)
    {
      ghost var was := infos;
      forall t | 0 <= t < |infos| ensures k !in infos[t].callers {
        assert CollectedAt(infos, fns, t, k);
      }
      infos := CollectCalls(infos, fns, ids, k);
      AllCollected(was, infos, fns, k);
    }
  }

  /** The functions behind ids. */
  function Funcs(infos: seq<Info>, ids: seq<nat>): (r: seq<nat>)
    requires forall i :: 0 <= i < |ids| ==> ids[i] < |infos|
    ensures |r| == |ids| && forall i :: 0 <= i < |ids| ==> r[i] == infos[ids[i]].func
  {
    if ids == [] then [] else Funcs(infos, ids[..|ids| - 1]) + [infos[ids[|ids| - 1]].func]
  }

  /** Every function of the module, each once. */
  ghost predicate Permutes(order: seq<nat>, n: nat) {
    Distinct(order) && forall p: nat :: p in order <==> p < n
  }

  lemma FuncsPermute(fns: seq<Fn>, infos: seq<Info>, ids: map<nat, nat>, decls: seq<nat>, order: seq<nat>)
    requires Fresh(fns, infos, ids, decls, |fns|) && Permutes(order, |infos|)
    requires forall i :: 0 <= i < |order| ==> order[i] < |infos|
    ensures Permutes(Funcs(infos, order) + decls, |fns|)
  {
    assert forall i :: 0 <= i < |order| ==> order[i] in order;
    var fs := Funcs(infos, order);
    forall i, j | 0 <= i < j < |fs| ensures fs[i] != fs[j] {
      assert ids[infos[order[i]].func] == order[i] && ids[infos[order[j]].func] == order[j];
    }
    forall p: nat ensures p in fs <==> p < |fns| && !fns[p].isDecl {
      if p < |fns| && !fns[p].isDecl {
        assert ids[p] in order;
        var i :| 0 <= i < |order| && order[i] == ids[p];
        assert fs[i] == p;
      }
    }
    DistinctConcat(fs, decls);
  }

  /** Infos differ from fresh ones in the counts only. */
  lemma StillFresh(fns: seq<Fn>, a: seq<Info>, b: seq<Info>, ids: map<nat, nat>, decls: seq<nat>, order: seq<nat>)
    requires Fresh(fns, a, ids, decls, |fns|) && SameDefs(a, b) && Permutes(order, |b|)
    ensures forall i :: 0 <= i < |order| ==> order[i] < |b|
    ensures Permutes(Funcs(b, order) + decls, |fns|)
  {
    assert forall i :: 0 <= i < |order| ==> order[i] in order;
    assert Funcs(a, order) == Funcs(b, order);
    FuncsPermute(fns, a, ids, decls, order);
  }

  /** The promised shape: hot clusters by decreasing density, then the functions without
      calls, then cold code, both in input order, then the declarations. */
  ghost predicate Shaped(infos: seq<Info>, of: seq<nat>, cs: seq<Cluster>, hs: seq<nat>, decls: seq<nat>, order: seq<nat>) {
    && Partition(infos, of, cs) && Sorted(cs, hs) && HotList(infos, cs, hs)
    && var ids := Flat(cs, hs) + Section(infos, cs, WarmKind, |infos|) + Section(infos, cs, ColdKind, |infos|);
      && (forall i :: 0 <= i < |ids| ==> ids[i] < |infos|)
      && order == Funcs(infos, ids) + decls
  }

  lemma HotAreSized(infos: seq<Info>, of: seq<nat>, cs: seq<Cluster>, hot: seq<nat>)
    requires Partition(infos, of, cs) && hot == Section(infos, cs, HotKind, |infos|)
    ensures Sized(cs, hot) && Increasing(hot)
  {
    SectionHas(infos, cs, HotKind, |infos|);
    hide SizeSum, HeatSum, Section;
    assert forall c :: 0 <= c < |cs| ==> ClusterOk(infos, of, c, cs[c]);
  }

  lemma SortedIsHotList(infos: seq<Info>, cs: seq<Cluster>, hot: seq<nat>, hs: seq<nat>)
    requires |infos| == |cs| && hot == Section(infos, cs, HotKind, |infos|) && Sorted(cs, hs) && multiset(hs) == multiset(hot)
    ensures HotList(infos, cs, hs)
  {
    SectionMembers(infos, cs, HotKind);
    hide KindOf, Section;
    forall i, j | 0 <= i < j < |hs| ensures hs[i] != hs[j] {
      assert Before(cs, hs[i], hs[j]);
    }
    forall i | 0 <= i < |hs| ensures hs[i] < |cs| && KindOf(infos, cs, hs[i]) == HotKind {
      assert hs[i] in multiset(hs);
      assert hs[i] in hot;
    }
    forall c: nat | c < |cs| && KindOf(infos, cs, c) == HotKind ensures c in hs {
      assert c in hot;
      assert c in multiset(hot);
    }
  }

  lemma CollectedOk(infos: seq<Info>, fns: seq<Fn>)
    requires (forall c :: 0 <= c < |infos| ==> infos[c].func < |fns|) && Collected(infos, fns, |infos|)
    requires forall c :: 0 <= c < |infos| ==> infos[c].size > 0
    ensures InfosOk(infos)
  {
    hide WeightFrom, HeatUpTo;
    forall f | 0 <= f < |infos|
      ensures forall c :: c in infos[f].callers ==> c < |infos| && infos[f].callers[c] > 0
    {
      assert CollectedAt(infos, fns, f, |infos|);
    }
  }

  /** The functions among the first n that others call, in input order. */
  function Called(infos: seq<Info>, n: nat): (r: seq<nat>)
    requires n <= |infos|
    ensures Increasing(r) && forall i :: 0 <= i < |r| ==> r[i] < n && !infos[r[i]].cold && infos[r[i]].heat > 0
  {
    if n == 0 then [] else
    Called(infos, n - 1) + if !infos[n - 1].cold && infos[n - 1].heat > 0 then [n - 1] else []
  }

  method CalledFunctions(infos: seq<Info>) returns (r: seq<nat>)
    ensures r == Called(infos, |infos|)
  {
    r := [];
    for id := 0 to |infos|
      invariant r == Called(infos, id)
    {
      if !infos[id].cold && infos[id].heat > 0 {
        r := r + [id];
      }
    }
  }

  /** The definitions in input order with their calls counted, and the declarations. */
  ghost predicate Counted(fns: seq<Fn>, infos: seq<Info>, decls: seq<nat>) {
    && FromFns(fns, infos) && Collected(infos, fns, |infos|) && Increasing(decls)
    && (forall p: nat :: p in decls <==> p < |fns| && fns[p].isDecl)
    && (forall p: nat :: p in FuncsIn(infos) <==> p < |fns| && !fns[p].isDecl)
  }

  function FuncsIn(infos: seq<Info>): seq<nat> {
    seq(|infos|, c requires 0 <= c < |infos| => infos[c].func)
  }

  /** How the order comes about: count the calls, walk the called functions by falling
      density merging each cluster behind that of its heaviest caller, then place hot
      clusters by falling density, other definitions, cold ones and declarations. */
  ghost predicate Ordering(fns: seq<Fn>, infos: seq<Info>, decls: seq<nat>, byDensity: seq<nat>, hs: seq<nat>, order: seq<nat>) {
    && Counted(fns, infos, decls)
    && Sorted(Alone(infos), byDensity) && multiset(byDensity) == multiset(Called(infos, |infos|))
    && var (of, cs) := MergeAll(infos, byDensity);
    && multiset(hs) == multiset(Section(infos, cs, HotKind, |infos|))
    && Sorted(cs, hs) && Shaped(infos, of, cs, hs, decls, order)
  }

  ghost predicate LoweringOrder(fns: seq<Fn>, order: seq<nat>) {
    exists infos: seq<Info>, decls: seq<nat>, byDensity: seq<nat>, hs: seq<nat> :: Ordering(fns, infos, decls, byDensity, hs, order)
  }

  /** A permutation of the module in the promised shape, or the input order when
      reordering is off. */
  method GetLoweringOrder(fns: seq<Fn>, noReorder: bool) returns (order: seq<nat>)
    ensures Permutes(order, |fns|)
    ensures noReorder ==> order == seq(|fns|, i => i)
    ensures !noReorder ==> LoweringOrder(fns, order)
  {
    if noReorder {
      order := seq(|fns|, i => i);
      forall p: nat ensures p in order <==> p < |fns| {
        if p < |fns| { assert order[p] == p; }
      }
      return;
    }
    var infos0, ids, ds := BuildInfos(fns);
    var defs := CollectAll(infos0, fns, ids);
    AllCounted(fns, infos0, defs, ids, ds);
    var of, cs := Singletons(defs);
    var called := CalledFunctions(defs);
    var sorted := StableSort(cs, called);
    InSorted(called, sorted);
    of, cs := MergeClusters(defs, sorted, of, cs);
    var hot, warm, cold := Sections(defs, cs);
    HotAreSized(defs, of, cs, hot);
    var hotSorted := StableSort(cs, hot);
    SortedIsHotList(defs, cs, hot, hotSorted);
    SectionsPermute(defs, of, cs, hotSorted);
    var ordered := Ordered(cs, hotSorted);
    ordered := ordered + warm + cold;
    StillFresh(fns, infos0, defs, ids, ds, ordered);
    var fs := FuncsOf(defs, ordered);
    order := fs + ds;
    assert Ordering(fns, defs, ds, sorted, hotSorted, order);
  }

  lemma AllCounted(fns: seq<Fn>, a: seq<Info>, b: seq<Info>, ids: map<nat, nat>, decls: seq<nat>)
    requires Fresh(fns, a, ids, decls, |fns|) && FromFns(fns, a) && SameDefs(a, b) && Collected(b, fns, |b|)
    ensures InfosOk(b) && Counted(fns, b, decls)
  {
    hide CollectedAt, Collected;
    CollectedOk(b, fns);
    forall p: nat ensures p in FuncsIn(b) <==> p < |fns| && !fns[p].isDecl {
      if p < |fns| && !fns[p].isDecl {
        assert FuncsIn(b)[ids[p]] == p;
      }
    }
  }

  // ----- the order is determined by the module -----

  lemma HasHead(s: seq<nat>)
    ensures s == [] || s[0] in s
  {}

  lemma {:induction false} IncreasingUnique(s: seq<nat>, t: seq<nat>)
    requires Increasing(s) && Increasing(t) && forall x: nat :: x in s <==> x in t
    ensures s == t
  {
    HasHead(t);
    if s != [] {
      var n, m := |s| - 1, |t| - 1;
      assert s[n] in t && t[m] in s;
      assert s[n] == t[m];
      forall x: nat ensures x in s[..n] <==> x in t[..m] {
        if x in s[..n] { assert x in t && x != t[m]; }
        if x in t[..m] { assert x in s && x != s[n]; }
      }
      IncreasingUnique(s[..n], t[..m]);
      assert s == s[..n] + [s[n]] && t == t[..m] + [t[m]];
    }
  }

  lemma CountedUnique(fns: seq<Fn>, a: seq<Info>, b: seq<Info>, ds: seq<nat>, es: seq<nat>)
    requires Counted(fns, a, ds) && Counted(fns, b, es)
    ensures a == b && ds == es
  {
    hide CollectedAt;
    IncreasingUnique(ds, es);
    IncreasingUnique(FuncsIn(a), FuncsIn(b));
    assert |a| == |FuncsIn(a)| == |FuncsIn(b)| == |b|;
    forall c | 0 <= c < |a| ensures a[c].func == b[c].func < |fns| {
      assert FuncsIn(a)[c] == FuncsIn(b)[c];
    }
    forall t | 0 <= t < |a| ensures a[t] == b[t] {
      assert CollectedAt(a, fns, t, |a|) && CollectedAt(b, fns, t, |a|);
      CallersUnique(fns, a, b, t);
    }
  }

  lemma CallersUnique(fns: seq<Fn>, a: seq<Info>, b: seq<Info>, t: nat)
    requires t < |a| == |b| && forall c :: 0 <= c < |a| ==> a[c].func == b[c].func < |fns|
    requires CollectedAt(a, fns, t, |a|) && CollectedAt(b, fns, t, |a|)
    ensures a[t].heat == b[t].heat && a[t].callers == b[t].callers
  {
    HeatSame(a, b, fns, t, |a|);
    assert forall c :: 0 <= c < |a| ==> WeightFrom(a, fns, c, t) == WeightFrom(b, fns, c, t);
    hide WeightFrom, HeatUpTo;
    assert a[t].callers.Keys == b[t].callers.Keys;
  }

  /** Ties are broken by the input order everywhere: a module has one lowering order. */
  lemma OrderUnique(fns: seq<Fn>, order: seq<nat>, order': seq<nat>)
    requires LoweringOrder(fns, order) && LoweringOrder(fns, order')
    ensures order == order'
  {
    var a: seq<Info>, ds: seq<nat>, s: seq<nat>, hs: seq<nat> :| Ordering(fns, a, ds, s, hs, order);
    var b: seq<Info>, es: seq<nat>, t: seq<nat>, gs: seq<nat> :| Ordering(fns, b, es, t, gs, order');
    hide Counted, Before, Section, MergeAll, Partition, HotList, Called;
    CountedUnique(fns, a, b, ds, es);
    SortedUnique(Alone(a), s, t);
    SortedUnique(MergeAll(a, s).1, hs, gs);
  }

  lemma InSorted(a: seq<nat>, b: seq<nat>)
    requires multiset(a) == multiset(b)
    ensures forall i :: 0 <= i < |b| ==> b[i] in a
  {
    forall i | 0 <= i < |b| ensures b[i] in a {
      assert b[i] in multiset(b);
    }
  }

  method Ordered(cs: seq<Cluster>, hs: seq<nat>) returns (r: seq<nat>)
    requires forall i :: 0 <= i < |hs| ==> hs[i] < |cs|
    ensures r == Flat(cs, hs)
  {
    r := [];
    for i := 0 to |hs|
      invariant r == Flat(cs, hs[..i])
    {
      assert hs[..i + 1][..i] == hs[..i];
      r := r + cs[hs[i]].funcs;
    }
    assert hs[..|hs|] == hs;
  }

  method FuncsOf(infos: seq<Info>, ids: seq<nat>) returns (r: seq<nat>)
    requires forall i :: 0 <= i < |ids| ==> ids[i] < |infos|
    ensures r == Funcs(infos, ids)
  {
    r := [];
    for i := 0 to |ids|
      invariant |r| == i && forall k :: 0 <= k < i ==> r[k] == infos[ids[k]].func
    {
      r := r + [infos[ids[i]].func];
    }
  }
}
