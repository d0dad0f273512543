/** Skipping function passes that are known to change nothing
    (src/optim/pass_skipping.hpp, src/optim/function_pass.hpp). */
module PassSkipping {
  import opened Options
  import opened Sums

  /** The text of a function, all a pass may look at or change. */
  type Ir = string

  /** What a pass returns: the new text, and whether it claims to preserve everything. */
  datatype Outcome = Outcome(ir: Ir, preservesAll: bool)

  /** A pass configuration. run sees the whole module and the function it works on. */
  datatype Pass = Pass(firFunction: bool, canSkip: bool, interprocedural: bool, run: (seq<Ir>, nat) -> Outcome)

  /** A function with its clean bits, allocated on first use. */
  datatype Func = Func(ir: Ir, isDecl: bool, clean: Option<seq<bool>>)

  function Irs(fs: seq<Func>): (m: seq<Ir>)
    ensures |m| == |fs|
  {
    seq(|fs|, i requires 0 <= i < |fs| => fs[i].ir)
  }

  /** all() is only returned by a pass that really changed nothing. */
  ghost predicate Honest(p: Pass) {
    forall m: seq<Ir>, i: nat :: i < |m| && p.run(m, i).preservesAll ==> p.run(m, i).ir == m[i]
  }

  /** The outcome depends on the function alone, unless the pass is marked as
      reading other functions. */
  ghost predicate Local(p: Pass) {
    !p.interprocedural ==>
      forall m: seq<Ir>, m': seq<Ir>, i: nat, j: nat :: i < |m| && j < |m'| && m[i] == m'[j] ==> p.run(m, i) == p.run(m', j)
  }

  ghost predicate WellBehaved(passes: seq<Pass>) {
    forall c :: 0 <= c < |passes| ==> Honest(passes[c]) && Local(passes[c])
  }

  /** The skip id of every configuration, and the ids of interprocedural passes. */
  datatype Ids = Ids(of: seq<Option<nat>>, count: nat, interprocedural: seq<nat>)

  ghost predicate IsInterprocedural(ids: Ids, passes: seq<Pass>, x: nat) {
    exists c :: 0 <= c < |passes| && c < |ids.of| && ids.of[c] == Some(x) && passes[c].interprocedural
  }

  /** Ids name configurations one to one. */
  ghost predicate IdsOk(ids: Ids, passes: seq<Pass>) {
    && |ids.of| == |passes|
    && (forall c :: 0 <= c < |passes| && ids.of[c].Some? ==> ids.of[c].value < ids.count)
    && (forall c, d :: 0 <= c < |passes| && 0 <= d < |passes| && ids.of[c].Some? && ids.of[c] == ids.of[d] ==> c == d)
    && (forall c :: 0 <= c < |passes| && ids.of[c].Some? && passes[c].interprocedural ==> ids.of[c].value in ids.interprocedural)
    && (forall x :: x in ids.interprocedural ==> x < ids.count && IsInterprocedural(ids, passes, x))
  }

  /** The source indexes unchecked; IdsIndexBits shows that the index is always in range. */
  function IsClean(f: Func, id: Option<nat>): bool {
    id.Some? && f.clean.Some? && id.value < |f.clean.value| && f.clean.value[id.value]
  }

  function MarkClean(f: Func, id: Option<nat>, count: nat): Func {
    if id.None? then f else
    var bits := if f.clean.Some? then f.clean.value else seq(count, _ => false);
    if id.value < |bits| then f.(clean := Some(bits[id.value := true])) else f
  }

  function MarkDirty(f: Func): Func {
    if f.clean.Some? then f.(clean := Some(seq(|f.clean.value|, _ => false))) else f
  }

  function ClearIds(bits: seq<bool>, xs: seq<nat>): (r: seq<bool>)
    ensures |r| == |bits|
  {
    seq(|bits|, k requires 0 <= k < |bits| => bits[k] && k !in xs)
  }

  /** Drops the bits of the passes that read other functions. */
  function MarkDirtyInterprocedural(fs: seq<Func>, ids: Ids): (r: seq<Func>)
    ensures |r| == |fs|
  {
    seq(|fs|, i requires 0 <= i < |fs| =>
      if fs[i].clean.Some? then fs[i].(clean := Some(ClearIds(fs[i].clean.value, ids.interprocedural))) else fs[i])
  }

  /** What apply_pass does to function i: skip it, or run the pass and update its bits. */
  function ApplyPass(fs: seq<Func>, i: nat, c: nat, passes: seq<Pass>, ids: Ids, skipping: bool): (r: (seq<Func>, bool))
    requires i < |fs| && c < |passes| && |ids.of| == |passes|
    ensures |r.0| == |fs|
  {
    if IsClean(fs[i], ids.of[c]) && skipping then (fs, false) else
    var o := passes[c].run(Irs(fs), i);
    var f := fs[i].(ir := o.ir);
    (fs[i := if o.preservesAll then MarkClean(f, ids.of[c], ids.count) else MarkDirty(f)], !o.preservesAll)
  }

  // ----- the tracker, as the source updates it -----

  class CleanTracker {
    var enabled: bool
    var ids: Ids

    constructor ()
    {
      enabled := false;
      ids := Ids([], 0, []);
    }

    /** worklist is the pipeline; a configuration may occur in it several times. */
    method Init(worklist: seq<nat>, passes: seq<Pass>, enable: bool)
      requires forall k :: 0 <= k < |worklist| ==> worklist[k] < |passes|
      modifies this
      ensures enabled == enable && IdsOk(ids, passes)
      ensures forall c :: 0 <= c < |passes| ==>
                (ids.of[c].Some? <==> c in worklist && passes[c].firFunction && passes[c].canSkip)
    {
      enabled := enable;
      var of: seq<Option<nat>> := seq(|passes|, _ => None);
      var count := 0;
      var inter: seq<nat> := [];
      for k := 0 to |worklist|
        invariant enabled == enable
        invariant IdsOk(Ids(of, count, inter), passes)
        invariant forall c :: 0 <= c < |passes| ==> (of[c].Some? <==> c in worklist[..k] && passes[c].firFunction && passes[c].canSkip)
      {
        var c := worklist[k];
        assert worklist[..k + 1] == worklist[..k] + [c];
        if passes[c].firFunction && passes[c].canSkip && of[c].None? {
          ghost var was := Ids(of, count, inter);
          of := of[c := Some(count)];
          if passes[c].interprocedural {
            inter := inter + [count];
          }
          count := count + 1;
          NewId(was, Ids(of, count, inter), c, passes);
        }
      }
      assert worklist[..|worklist|] == worklist;
      ids := Ids(of, count, inter);
    }
  }

  lemma NewId(was: Ids, now: Ids, c: nat, passes: seq<Pass>)
    requires IdsOk(was, passes) && c < |passes| && was.of[c].None?
    requires now.of == was.of[c := Some(was.count)] && now.count == was.count + 1
    requires now.interprocedural == if passes[c].interprocedural then was.interprocedural + [was.count] else was.interprocedural
    ensures IdsOk(now, passes)
  {
    forall x | x in now.interprocedural ensures x < now.count && IsInterprocedural(now, passes, x) {
      if x in was.interprocedural {
        assert IsInterprocedural(was, passes, x);
        var d :| 0 <= d < |passes| && was.of[d] == Some(x) && passes[d].interprocedural;
        assert now.of[d] == Some(x);
      } else {
        assert now.of[c] == Some(x);
      }
    }
  }

  // ----- one group: a job per function, in any interleaving -----

  datatype Group = Group(funcs: seq<Func>, pc: seq<nat>, anyChanged: bool)

  function Start(fs: seq<Func>): Group {
    Group(fs, seq(|fs|, _ => 0), false)
  }

  /** The job of function i runs its next pass; declarations have no job. */
  function Step(g: Group, i: nat, list: seq<nat>, passes: seq<Pass>, ids: Ids, skipping: bool): Group
    requires |g.pc| == |g.funcs| && |ids.of| == |passes| && forall k :: 0 <= k < |list| ==> list[k] < |passes|
  {
    if i < |g.funcs| && !g.funcs[i].isDecl && g.pc[i] < |list| then
      var (fs, ch) := ApplyPass(g.funcs, i, list[g.pc[i]], passes, ids, skipping);
      Group(fs, g.pc[i := g.pc[i] + 1], g.anyChanged || ch)
    else g
  }

  function RunGroup(g: Group, list: seq<nat>, passes: seq<Pass>, ids: Ids, skipping: bool, schedule: seq<nat>): (r: Group)
    requires |g.pc| == |g.funcs| && |ids.of| == |passes| && forall k :: 0 <= k < |list| ==> list[k] < |passes|
    ensures |r.pc| == |r.funcs| == |g.funcs|
  {
    if schedule == [] then g else
    Step(RunGroup(g, list, passes, ids, skipping, schedule[..|schedule| - 1]), schedule[|schedule| - 1], list, passes, ids, skipping)
  }

  /** The end of apply: all jobs are done, and a change drops what depends on other functions. */
  function EndGroup(g: Group, ids: Ids): seq<Func> {
    if g.anyChanged then MarkDirtyInterprocedural(g.funcs, ids) else g.funcs
  }

  predicate Finished(g: Group, list: seq<nat>) {
    |g.pc| == |g.funcs| && forall i :: 0 <= i < |g.funcs| && !g.funcs[i].isDecl ==> g.pc[i] == |list|
  }

  // ----- what a clean bit means -----

  /** Running configuration c on function i now would return its text unchanged. */
  ghost predicate NoOp(m: seq<Ir>, i: nat, p: Pass) {
    i < |m| && p.run(m, i).ir == m[i]
  }

  /** Every bit of an intraprocedural pass tells the truth. */
  ghost predicate LocalBitsTrue(fs: seq<Func>, passes: seq<Pass>, ids: Ids) {
    forall i, c :: 0 <= i < |fs| && 0 <= c < |passes| && |ids.of| == |passes| && !passes[c].interprocedural && IsClean(fs[i], ids.of[c])
      ==> NoOp(Irs(fs), i, passes[c])
  }

  /** And so does every bit at all. */
  ghost predicate AllBitsTrue(fs: seq<Func>, passes: seq<Pass>, ids: Ids) {
    forall i, c :: 0 <= i < |fs| && 0 <= c < |passes| && |ids.of| == |passes| && IsClean(fs[i], ids.of[c])
      ==> NoOp(Irs(fs), i, passes[c])
  }

  ghost predicate BitsSized(fs: seq<Func>, ids: Ids) {
    forall i :: 0 <= i < |fs| && fs[i].clean.Some? ==> |fs[i].clean.value| == ids.count
  }

  /** Every skip id is an index into the bits of every function that has bits. */
  lemma IdsIndexBits(fs: seq<Func>, passes: seq<Pass>, ids: Ids, i: nat)
    requires IdsOk(ids, passes) && BitsSized(fs, ids) && i < |fs| && fs[i].clean.Some?
    ensures forall c :: 0 <= c < |passes| && ids.of[c].Some? ==> ids.of[c].value < |fs[i].clean.value|
    ensures forall x :: x in ids.interprocedural ==> x < |fs[i].clean.value|
  {}

  lemma ApplyPassSized(fs: seq<Func>, i: nat, c: nat, passes: seq<Pass>, ids: Ids, skipping: bool)
    requires i < |fs| && c < |passes| && |ids.of| == |passes| && BitsSized(fs, ids)
    ensures BitsSized(ApplyPass(fs, i, c, passes, ids, skipping).0, ids)
  {}

  lemma DropSized(fs: seq<Func>, ids: Ids)
    requires BitsSized(fs, ids)
    ensures BitsSized(MarkDirtyInterprocedural(fs, ids), ids)
  {}

  /** In every interleaving of a group, and at its end, all bits have one size. */
  lemma {:induction false} GroupSized(fs: seq<Func>, list: seq<nat>, passes: seq<Pass>, ids: Ids, skipping: bool, schedule: seq<nat>)
    requires |ids.of| == |passes| && (forall k :: 0 <= k < |list| ==> list[k] < |passes|) && BitsSized(fs, ids)
    ensures var g := RunGroup(Start(fs), list, passes, ids, skipping, schedule); BitsSized(g.funcs, ids) && BitsSized(EndGroup(g, ids), ids)
  {
    var g := RunGroup(Start(fs), list, passes, ids, skipping, schedule);
    if schedule != [] {
      var before := schedule[..|schedule| - 1];
      GroupSized(fs, list, passes, ids, skipping, before);
      var h := RunGroup(Start(fs), list, passes, ids, skipping, before);
      var i := schedule[|schedule| - 1];
      hide BitsSized, ApplyPass, Start, MarkDirtyInterprocedural;
      if i < |h.funcs| && !h.funcs[i].isDecl && h.pc[i] < |list| {
        ApplyPassSized(h.funcs, i, list[h.pc[i]], passes, ids, skipping);
      }
      DropSized(g.funcs, ids);
    } else {
      DropSized(fs, ids);
    }
  }

  lemma MarkCleanBits(f: Func, id: Option<nat>, count: nat, other: Option<nat>)
    ensures IsClean(MarkClean(f, id, count), other) ==> IsClean(f, other) || (id.Some? && other == id)
    ensures MarkClean(f, id, count).ir == f.ir && MarkClean(f, id, count).isDecl == f.isDecl
  {}

  lemma MarkDirtyBits(f: Func, other: Option<nat>)
    ensures !IsClean(MarkDirty(f), other) && MarkDirty(f).ir == f.ir && MarkDirty(f).isDecl == f.isDecl
  {}

  /** One pass touches one function, and its bits only follow its text. */
  lemma ApplyPassShape(fs: seq<Func>, i: nat, c: nat, passes: seq<Pass>, ids: Ids, skipping: bool)
    requires i < |fs| && c < |passes| && IdsOk(ids, passes) && Honest(passes[c])
    ensures var (gs, ch) := ApplyPass(fs, i, c, passes, ids, skipping);
      && (forall j :: 0 <= j < |fs| && j != i ==> gs[j] == fs[j])
      && gs[i].isDecl == fs[i].isDecl
      && gs[i].ir == (if IsClean(fs[i], ids.of[c]) && skipping then fs[i].ir else passes[c].run(Irs(fs), i).ir)
      && (!ch ==> gs[i].ir == fs[i].ir)
      && (ch ==> forall d :: 0 <= d < |passes| ==> !IsClean(gs[i], ids.of[d]))
      && (!ch ==> forall d :: 0 <= d < |passes| && IsClean(gs[i], ids.of[d]) ==>
            IsClean(fs[i], ids.of[d]) || (d == c && NoOp(Irs(fs), i, passes[c])))
  {
    hide MarkClean, MarkDirty;
    var o := passes[c].run(Irs(fs), i);
    var f := fs[i].(ir := o.ir);
    forall d | 0 <= d < |passes|
      ensures IsClean(MarkClean(f, ids.of[c], ids.count), ids.of[d]) ==> IsClean(fs[i], ids.of[d]) || d == c
      ensures !IsClean(MarkDirty(f), ids.of[d])
    {
      MarkCleanBits(f, ids.of[c], ids.count, ids.of[d]);
      MarkDirtyBits(f, ids.of[d]);
    }
    MarkCleanBits(f, ids.of[c], ids.count, None);
    MarkDirtyBits(f, None);
  }

  /** For an intraprocedural pass only the function's own text matters. */
  lemma NoOpLocal(m: seq<Ir>, m': seq<Ir>, i: nat, p: Pass)
    requires Local(p) && !p.interprocedural && i < |m| && i < |m'| && m[i] == m'[i]
    ensures NoOp(m, i, p) == NoOp(m', i, p)
  {}

  lemma LocalBitsStep(fs: seq<Func>, i: nat, c: nat, passes: seq<Pass>, ids: Ids, skipping: bool)
    requires i < |fs| && c < |passes| && IdsOk(ids, passes) && WellBehaved(passes) && LocalBitsTrue(fs, passes, ids)
    ensures LocalBitsTrue(ApplyPass(fs, i, c, passes, ids, skipping).0, passes, ids)
  {
    ApplyPassShape(fs, i, c, passes, ids, skipping);
    hide ApplyPass, NoOp, Honest, Local, IsClean, IdsOk;
    var (gs, ch) := ApplyPass(fs, i, c, passes, ids, skipping);
    forall j, d | 0 <= j < |gs| && 0 <= d < |passes| && !passes[d].interprocedural && IsClean(gs[j], ids.of[d])
      ensures NoOp(Irs(gs), j, passes[d])
    {
      assert Irs(gs)[j] == Irs(fs)[j];
      NoOpLocal(Irs(fs), Irs(gs), j, passes[d]);
    }
  }

  lemma AllBitsStep(fs: seq<Func>, i: nat, c: nat, passes: seq<Pass>, ids: Ids, skipping: bool)
    requires i < |fs| && c < |passes| && IdsOk(ids, passes) && WellBehaved(passes) && AllBitsTrue(fs, passes, ids)
    requires !ApplyPass(fs, i, c, passes, ids, skipping).1
    ensures var gs := ApplyPass(fs, i, c, passes, ids, skipping).0;
      Irs(gs) == Irs(fs) && AllBitsTrue(gs, passes, ids)
  {
    ApplyPassShape(fs, i, c, passes, ids, skipping);
    hide ApplyPass, NoOp, Honest, Local, IsClean, IdsOk;
    var gs := ApplyPass(fs, i, c, passes, ids, skipping).0;
    assert Irs(gs) == Irs(fs);
  }

  /** The text an intraprocedural pass makes of a text. */
  function Applied(p: Pass, ir: Ir): Ir {
    p.run([ir], 0).ir
  }

  function Fold(list: seq<nat>, passes: seq<Pass>, ir: Ir): Ir
    requires forall k :: 0 <= k < |list| ==> list[k] < |passes|
  {
    if list == [] then ir else Applied(passes[list[|list| - 1]], Fold(list[..|list| - 1], passes, ir))
  }

  /** Skipped or not, an intraprocedural pass leaves what it would make of the text. */
  lemma SkipIsNoOp(fs: seq<Func>, i: nat, c: nat, passes: seq<Pass>, ids: Ids, skipping: bool)
    requires i < |fs| && c < |passes| && IdsOk(ids, passes) && WellBehaved(passes) && LocalBitsTrue(fs, passes, ids)
    requires !passes[c].interprocedural
    ensures ApplyPass(fs, i, c, passes, ids, skipping).0[i].ir == Applied(passes[c], fs[i].ir)
  {
    ApplyPassShape(fs, i, c, passes, ids, skipping);
    assert Local(passes[c]);
    var m, m' := Irs(fs), [fs[i].ir];
    assert m[i] == m'[0];
    assert passes[c].run(m, i) == passes[c].run(m', 0);
    if IsClean(fs[i], ids.of[c]) { assert NoOp(m, i, passes[c]); }
  }

  ghost predicate GroupState(g: Group, fs: seq<Func>, list: seq<nat>, passes: seq<Pass>, ids: Ids)
    requires forall k :: 0 <= k < |list| ==> list[k] < |passes|
  {
    && |g.funcs| == |g.pc| == |fs|
    && (forall i :: 0 <= i < |fs| ==> g.funcs[i].isDecl == fs[i].isDecl)
    && LocalBitsTrue(g.funcs, passes, ids)
    && (!g.anyChanged ==> Irs(g.funcs) == Irs(fs) && AllBitsTrue(g.funcs, passes, ids))
  }

  lemma {:induction false} GroupInvariant(fs: seq<Func>, list: seq<nat>, passes: seq<Pass>, ids: Ids, skipping: bool, schedule: seq<nat>)
    requires IdsOk(ids, passes) && WellBehaved(passes) && AllBitsTrue(fs, passes, ids)
    requires forall k :: 0 <= k < |list| ==> list[k] < |passes|
    ensures GroupState(RunGroup(Start(fs), list, passes, ids, skipping, schedule), fs, list, passes, ids)
  {
    if schedule != [] {
      GroupInvariant(fs, list, passes, ids, skipping, schedule[..|schedule| - 1]);
      var g := RunGroup(Start(fs), list, passes, ids, skipping, schedule[..|schedule| - 1]);
      var i := schedule[|schedule| - 1];
      hide LocalBitsTrue, AllBitsTrue, ApplyPass, RunGroup, Start, WellBehaved, IdsOk;
      if i < |g.funcs| && !g.funcs[i].isDecl && g.pc[i] < |list| {
        var c := list[g.pc[i]];
        assert Honest(passes[c]) by { assert WellBehaved(passes); HonestOf(passes, c); }
        ApplyPassShape(g.funcs, i, c, passes, ids, skipping);
        LocalBitsStep(g.funcs, i, c, passes, ids, skipping);
        if !g.anyChanged && !ApplyPass(g.funcs, i, c, passes, ids, skipping).1 {
          AllBitsStep(g.funcs, i, c, passes, ids, skipping);
        }
      }
    } else {
      assert LocalBitsTrue(fs, passes, ids);
    }
  }

  lemma HonestOf(passes: seq<Pass>, c: nat)
    requires WellBehaved(passes) && c < |passes|
    ensures Honest(passes[c]) && Local(passes[c])
  {}

  /** At every group boundary every clean bit, of either kind, tells the truth
      about the module as a whole, whatever was interleaved inside the group. */
  lemma BitsTrueAtBoundary(fs: seq<Func>, list: seq<nat>, passes: seq<Pass>, ids: Ids, skipping: bool, schedule: seq<nat>)
    requires IdsOk(ids, passes) && WellBehaved(passes) && AllBitsTrue(fs, passes, ids)
    requires forall k :: 0 <= k < |list| ==> list[k] < |passes|
    ensures AllBitsTrue(EndGroup(RunGroup(Start(fs), list, passes, ids, skipping, schedule), ids), passes, ids)
  {
    GroupInvariant(fs, list, passes, ids, skipping, schedule);
    var g := RunGroup(Start(fs), list, passes, ids, skipping, schedule);
    hide RunGroup, Start;
    if g.anyChanged {
      var gs := MarkDirtyInterprocedural(g.funcs, ids);
      assert Irs(gs) == Irs(g.funcs);
    }
  }

  /** How far job i has come, and what its function has become on the way. */
  ghost predicate Progress(g: Group, fs: seq<Func>, list: seq<nat>, passes: seq<Pass>, i: nat)
    requires forall k :: 0 <= k < |list| ==> list[k] < |passes|
  {
    && i < |fs| == |g.funcs| == |g.pc|
    && g.pc[i] <= |list|
    && g.funcs[i].ir == Fold(list[..g.pc[i]], passes, fs[i].ir)
    && g.funcs[i].isDecl == fs[i].isDecl
    && (fs[i].isDecl ==> g.pc[i] == 0)
  }

  lemma FoldNext(list: seq<nat>, passes: seq<Pass>, ir: Ir, k: nat)
    requires k < |list| && forall j :: 0 <= j < |list| ==> list[j] < |passes|
    ensures Fold(list[..k + 1], passes, ir) == Applied(passes[list[k]], Fold(list[..k], passes, ir))
  {
    assert list[..k + 1][..k] == list[..k];
  }

  lemma JobText(fs: seq<Func>, j: nat, c: nat, passes: seq<Pass>, ids: Ids, skipping: bool)
    requires IdsOk(ids, passes) && WellBehaved(passes) && LocalBitsTrue(fs, passes, ids)
    requires j < |fs| && c < |passes| && !passes[c].interprocedural
    ensures var gs := ApplyPass(fs, j, c, passes, ids, skipping).0;
      && (forall k :: 0 <= k < |fs| && k != j ==> gs[k] == fs[k])
      && gs[j].isDecl == fs[j].isDecl && gs[j].ir == Applied(passes[c], fs[j].ir)
  {
    HonestOf(passes, c);
    ApplyPassShape(fs, j, c, passes, ids, skipping);
    SkipIsNoOp(fs, j, c, passes, ids, skipping);
    hide LocalBitsTrue, ApplyPass, WellBehaved, IdsOk, Applied, IsClean, Irs, NoOp;
  }

  lemma ProgressStep(g: Group, j: nat, fs: seq<Func>, list: seq<nat>, passes: seq<Pass>, ids: Ids, skipping: bool, i: nat)
    requires forall k :: 0 <= k < |list| ==> list[k] < |passes| && !passes[list[k]].interprocedural
    requires IdsOk(ids, passes) && WellBehaved(passes) && LocalBitsTrue(g.funcs, passes, ids) && Progress(g, fs, list, passes, i)
    ensures Progress(Step(g, j, list, passes, ids, skipping), fs, list, passes, i)
  {
    assert |ids.of| == |passes|;
    hide LocalBitsTrue, ApplyPass, WellBehaved, IdsOk, Applied, Fold;
    if j < |g.funcs| && !g.funcs[j].isDecl && g.pc[j] < |list| {
      JobText(g.funcs, j, list[g.pc[j]], passes, ids, skipping);
      if j == i { FoldNext(list, passes, fs[i].ir, g.pc[i]); }
    }
  }

  /** In a group of intraprocedural passes every job computes the same texts,
      however the jobs interleave and whether or not passes are skipped. */
  lemma {:induction false} JobProgress(fs: seq<Func>, list: seq<nat>, passes: seq<Pass>, ids: Ids, skipping: bool, schedule: seq<nat>, i: nat)
    requires IdsOk(ids, passes) && WellBehaved(passes) && AllBitsTrue(fs, passes, ids) && i < |fs|
    requires forall k :: 0 <= k < |list| ==> list[k] < |passes| && !passes[list[k]].interprocedural
    ensures Progress(RunGroup(Start(fs), list, passes, ids, skipping, schedule), fs, list, passes, i)
  {
    if schedule == [] {
      assert list[..0] == [];
    } else {
      var before := schedule[..|schedule| - 1];
      JobProgress(fs, list, passes, ids, skipping, before, i);
      GroupInvariant(fs, list, passes, ids, skipping, before);
      hide Progress, LocalBitsTrue, AllBitsTrue, ApplyPass, Start, WellBehaved, IdsOk, Step;
      ProgressStep(RunGroup(Start(fs), list, passes, ids, skipping, before), schedule[|schedule| - 1], fs, list, passes, ids, skipping, i);
    }
  }

  lemma GroupResult(fs: seq<Func>, list: seq<nat>, passes: seq<Pass>, ids: Ids, skipping: bool, schedule: seq<nat>)
    requires IdsOk(ids, passes) && WellBehaved(passes) && AllBitsTrue(fs, passes, ids)
    requires forall k :: 0 <= k < |list| ==> list[k] < |passes| && !passes[list[k]].interprocedural
    requires Finished(RunGroup(Start(fs), list, passes, ids, skipping, schedule), list)
    ensures var gs := EndGroup(RunGroup(Start(fs), list, passes, ids, skipping, schedule), ids);
      |gs| == |fs| && forall i :: 0 <= i < |fs| ==>
        gs[i].isDecl == fs[i].isDecl && gs[i].ir == if fs[i].isDecl then fs[i].ir else Fold(list, passes, fs[i].ir)
  {
    var g := RunGroup(Start(fs), list, passes, ids, skipping, schedule);
    GroupInvariant(fs, list, passes, ids, skipping, schedule);
    hide RunGroup, Start, AllBitsTrue, LocalBitsTrue, IdsOk, WellBehaved;
    forall i | 0 <= i < |fs|
      ensures g.funcs[i].isDecl == fs[i].isDecl && g.funcs[i].ir == if fs[i].isDecl then fs[i].ir else Fold(list, passes, fs[i].ir)
    {
      JobProgress(fs, list, passes, ids, skipping, schedule, i);
      assert list[..|list|] == list && Fold(list[..0], passes, fs[i].ir) == fs[i].ir;
    }
  }

  /** A pipeline is a list of groups; a run of it picks a schedule for each. */
  function RunPipeline(fs: seq<Func>, groups: seq<seq<nat>>, passes: seq<Pass>, ids: Ids, skipping: bool, schedules: seq<seq<nat>>): seq<Func>
    requires |schedules| == |groups| && |ids.of| == |passes|
    requires forall n, k :: 0 <= n < |groups| && 0 <= k < |groups[n]| ==> groups[n][k] < |passes|
  {
    if groups == [] then fs else
    var n := |groups| - 1;
    EndGroup(RunGroup(Start(RunPipeline(fs, groups[..n], passes, ids, skipping, schedules[..n])), groups[n], passes, ids, skipping, schedules[n]), ids)
  }

  /** All jobs of all groups ran to their end. */
  ghost predicate PipelineFinished(fs: seq<Func>, groups: seq<seq<nat>>, passes: seq<Pass>, ids: Ids, skipping: bool, schedules: seq<seq<nat>>)
    requires |schedules| == |groups| && |ids.of| == |passes|
    requires forall n, k :: 0 <= n < |groups| && 0 <= k < |groups[n]| ==> groups[n][k] < |passes|
  {
    groups == [] ||
    var n := |groups| - 1;
    && PipelineFinished(fs, groups[..n], passes, ids, skipping, schedules[..n])
    && Finished(RunGroup(Start(RunPipeline(fs, groups[..n], passes, ids, skipping, schedules[..n])), groups[n], passes, ids, skipping, schedules[n]), groups[n])
  }

  lemma {:induction false} PipelineBits(fs: seq<Func>, groups: seq<seq<nat>>, passes: seq<Pass>, ids: Ids, skipping: bool, schedules: seq<seq<nat>>)
    requires |schedules| == |groups| && IdsOk(ids, passes) && WellBehaved(passes) && AllBitsTrue(fs, passes, ids)
    requires forall n, k :: 0 <= n < |groups| && 0 <= k < |groups[n]| ==> groups[n][k] < |passes|
    ensures AllBitsTrue(RunPipeline(fs, groups, passes, ids, skipping, schedules), passes, ids)
  {
    if groups != [] {
      var n := |groups| - 1;
      PipelineBits(fs, groups[..n], passes, ids, skipping, schedules[..n]);
      BitsTrueAtBoundary(RunPipeline(fs, groups[..n], passes, ids, skipping, schedules[..n]), groups[n], passes, ids, skipping, schedules[n]);
    }
  }

  /** Skipping changes nothing: with or without it, under any two interleavings, a
      pipeline of deterministic intraprocedural passes ends in the same functions. */
  lemma {:induction false} SkippingPreservesResults(fs: seq<Func>, groups: seq<seq<nat>>, passes: seq<Pass>, ids: Ids,
                                                    on: seq<seq<nat>>, off: seq<seq<nat>>)
    requires |on| == |off| == |groups| && IdsOk(ids, passes) && WellBehaved(passes) && AllBitsTrue(fs, passes, ids)
    requires forall n, k :: 0 <= n < |groups| && 0 <= k < |groups[n]| ==> groups[n][k] < |passes| && !passes[groups[n][k]].interprocedural
    requires PipelineFinished(fs, groups, passes, ids, true, on) && PipelineFinished(fs, groups, passes, ids, false, off)
    ensures var a, b := RunPipeline(fs, groups, passes, ids, true, on), RunPipeline(fs, groups, passes, ids, false, off);
      |a| == |b| == |fs| && forall i :: 0 <= i < |fs| ==> a[i].ir == b[i].ir && a[i].isDecl == b[i].isDecl
  {
    if groups != [] {
      var n := |groups| - 1;
      SkippingPreservesResults(fs, groups[..n], passes, ids, on[..n], off[..n]);
      PipelineBits(fs, groups[..n], passes, ids, true, on[..n]);
      PipelineBits(fs, groups[..n], passes, ids, false, off[..n]);
      var a := RunPipeline(fs, groups[..n], passes, ids, true, on[..n]);
      var b := RunPipeline(fs, groups[..n], passes, ids, false, off[..n]);
      GroupResult(a, groups[n], passes, ids, true, on[n]);
      GroupResult(b, groups[n], passes, ids, false, off[n]);
    }
  }

  // ----- the pass manager, as the source updates the functions -----

  /** The bits of a function after a pass that left it alone: those it had, and the pass's own. */
  lemma KeptBits(f: Func, ids: Ids, passes: seq<Pass>, c: nat, d: nat)
    requires IdsOk(ids, passes) && c < |passes| && d < |passes| && (f.clean.Some? ==> |f.clean.value| == ids.count)
    ensures IsClean(MarkClean(f, ids.of[c], ids.count), ids.of[d]) <==> IsClean(f, ids.of[d]) || (d == c && ids.of[c].Some?)
  {}

  lemma RunPassFacts(fs: seq<Func>, i: nat, c: nat, passes: seq<Pass>, ids: Ids, skipping: bool)
    requires i < |fs| && c < |passes| && IdsOk(ids, passes) && BitsSized(fs, ids)
    ensures var (gs, changed) := ApplyPass(fs, i, c, passes, ids, skipping);
      && BitsSized(gs, ids)
      && gs[i].isDecl == fs[i].isDecl
      && gs[i].ir == (if skipping && IsClean(fs[i], ids.of[c]) then fs[i].ir else passes[c].run(Irs(fs), i).ir)
      && (forall d :: 0 <= d < |passes| ==>
            (IsClean(gs[i], ids.of[d]) <==> !changed && (IsClean(fs[i], ids.of[d]) || (d == c && ids.of[c].Some?))))
      && (WellBehaved(passes) && LocalBitsTrue(fs, passes, ids) ==>
            && LocalBitsTrue(gs, passes, ids)
            && (!passes[c].interprocedural ==> gs[i].ir == Applied(passes[c], fs[i].ir)))
      && (WellBehaved(passes) && AllBitsTrue(fs, passes, ids) && !changed ==> Irs(gs) == Irs(fs) && AllBitsTrue(gs, passes, ids))
  {
    ApplyPassSized(fs, i, c, passes, ids, skipping);
    var f := fs[i].(ir := passes[c].run(Irs(fs), i).ir);
    assert fs[i].clean.Some? ==> |fs[i].clean.value| == ids.count;
    hide Honest, Local, NoOp, IdsOk, BitsSized, MarkClean, MarkDirty, Irs, LocalBitsTrue, AllBitsTrue, WellBehaved;
    MarkCleanBits(f, ids.of[c], ids.count, None);
    MarkDirtyBits(f, None);
    forall d | 0 <= d < |passes|
      ensures IsClean(MarkClean(f, ids.of[c], ids.count), ids.of[d]) <==> IsClean(fs[i], ids.of[d]) || (d == c && ids.of[c].Some?)
      ensures !IsClean(MarkDirty(f), ids.of[d])
    {
      KeptBits(f, ids, passes, c, d);
      MarkDirtyBits(f, ids.of[d]);
    }
    hide IsClean;
    if WellBehaved(passes) && LocalBitsTrue(fs, passes, ids) {
      LocalBitsStep(fs, i, c, passes, ids, skipping);
      if !passes[c].interprocedural { SkipIsNoOp(fs, i, c, passes, ids, skipping); }
    }
    if WellBehaved(passes) && AllBitsTrue(fs, passes, ids) && !ApplyPass(fs, i, c, passes, ids, skipping).1 {
      AllBitsStep(fs, i, c, passes, ids, skipping);
    }
  }

  class PassManager {
    var funcs: seq<Func>

    constructor (funcs: seq<Func>)
      ensures this.funcs == funcs
    {
      this.funcs := funcs;
    }

    /** Runs configuration c on function i, unless it is known to change nothing. */
    method RunPass(i: nat, c: nat, passes: seq<Pass>, tracker: CleanTracker) returns (changed: bool)
      requires i < |funcs| && c < |passes| && IdsOk(tracker.ids, passes) && BitsSized(funcs, tracker.ids)
      modifies this
      ensures |funcs| == |old(funcs)| && (forall j :: 0 <= j < |funcs| && j != i ==> funcs[j] == old(funcs)[j])
      ensures funcs[i].isDecl == old(funcs)[i].isDecl && BitsSized(funcs, tracker.ids)
      ensures var skip := tracker.enabled && IsClean(old(funcs)[i], tracker.ids.of[c]);
        var o := passes[c].run(Irs(old(funcs)), i);
        && (changed <==> !skip && !o.preservesAll)
        && funcs[i].ir == if skip then old(funcs)[i].ir else o.ir
      ensures forall d :: 0 <= d < |passes| ==>
                (IsClean(funcs[i], tracker.ids.of[d]) <==>
                 !changed && (IsClean(old(funcs)[i], tracker.ids.of[d]) || (d == c && tracker.ids.of[c].Some?)))
      ensures WellBehaved(passes) && LocalBitsTrue(old(funcs), passes, tracker.ids) ==>
                && LocalBitsTrue(funcs, passes, tracker.ids)
                && (!passes[c].interprocedural ==> funcs[i].ir == Applied(passes[c], old(funcs)[i].ir))
      ensures WellBehaved(passes) && AllBitsTrue(old(funcs), passes, tracker.ids) && !changed ==>
                Irs(funcs) == Irs(old(funcs)) && AllBitsTrue(funcs, passes, tracker.ids)
      ensures (funcs, changed) == ApplyPass(old(funcs), i, c, passes, tracker.ids, tracker.enabled)
    {
      var skipId := tracker.ids.of[c];
      hide Honest, Local, NoOp, IdsOk, IsClean, MarkClean, MarkDirty, BitsSized, LocalBitsTrue, AllBitsTrue, WellBehaved;
      RunPassFacts(funcs, i, c, passes, tracker.ids, tracker.enabled);
      if IsClean(funcs[i], skipId) {
        if tracker.enabled {
          return false;
        }
      }
      var r := passes[c].run(Irs(funcs), i);
      funcs := funcs[i := funcs[i].(ir := r.ir)];
      changed := !r.preservesAll;
      if changed {
        funcs := funcs[i := MarkDirty(funcs[i])];
      } else {
        funcs := funcs[i := MarkClean(funcs[i], skipId, tracker.ids.count)];
      }
      assert funcs == old(funcs)[i := funcs[i]];
    }

    /** The loop over all functions and all interprocedural ids. */
    method DropInterprocedural(tracker: CleanTracker)
      requires BitsSized(funcs, tracker.ids) && forall x :: x in tracker.ids.interprocedural ==> x < tracker.ids.count
      modifies this
      ensures funcs == MarkDirtyInterprocedural(old(funcs), tracker.ids)
    {
      var inter := tracker.ids.interprocedural;
      if inter == [] {
        forall i | 0 <= i < |funcs| && funcs[i].clean.Some? ensures ClearIds(funcs[i].clean.value, inter) == funcs[i].clean.value {}
        return;
      }
      for i := 0 to |funcs|
        invariant |funcs| == |old(funcs)|
        invariant funcs[..i] == MarkDirtyInterprocedural(old(funcs), tracker.ids)[..i]
        invariant funcs[i..] == old(funcs)[i..]
      {
        assert funcs[i] == funcs[i..][0] == old(funcs)[i];
        if funcs[i].clean.Some? {
          var bits := funcs[i].clean.value;
          assert |bits| == |old(funcs)[i].clean.value| == tracker.ids.count;
          for k := 0 to |inter|
            invariant |bits| == |funcs[i].clean.value|
            invariant bits == ClearIds(funcs[i].clean.value, inter[..k])
          {
            assert inter[..k + 1] == inter[..k] + [inter[k]];
            assert inter[k] in tracker.ids.interprocedural;
            bits := bits[inter[k] := false];
          }
          assert inter[..|inter|] == inter;
          funcs := funcs[i := funcs[i].(clean := Some(bits))];
        }
      }
    }

    /** The next pass of job i. */
    method JobStep(i: nat, pc: seq<nat>, anyChanged: bool, list: seq<nat>, passes: seq<Pass>, tracker: CleanTracker) returns (changed: bool)
      requires IdsOk(tracker.ids, passes) && BitsSized(funcs, tracker.ids)
      requires forall k :: 0 <= k < |list| ==> list[k] < |passes|
      requires i < |funcs| == |pc| && !funcs[i].isDecl && pc[i] < |list|
      modifies this
      ensures |funcs| == |old(funcs)| && BitsSized(funcs, tracker.ids)
      ensures Group(funcs, pc[i := pc[i] + 1], anyChanged || changed)
              == Step(Group(old(funcs), pc, anyChanged), i, list, passes, tracker.ids, tracker.enabled)
    {
      changed := RunPass(i, list[pc[i]], passes, tracker);
      hide IdsOk, BitsSized, WellBehaved, AllBitsTrue, LocalBitsTrue, ApplyPass, IsClean, Irs, Applied;
    }

    /** The workers interleave the jobs, one per definition, as they like. The
        schedule is the order in which the jobs took their steps. */
    method RunJobs(list: seq<nat>, passes: seq<Pass>, tracker: CleanTracker) returns (anyChanged: bool, ghost schedule: seq<nat>)
      requires IdsOk(tracker.ids, passes) && BitsSized(funcs, tracker.ids)
      requires forall k :: 0 <= k < |list| ==> list[k] < |passes|
      modifies this
      ensures var g := RunGroup(Start(old(funcs)), list, passes, tracker.ids, tracker.enabled, schedule);
        Finished(g, list) && funcs == g.funcs && anyChanged == g.anyChanged
      ensures BitsSized(funcs, tracker.ids)
    {
      assert |tracker.ids.of| == |passes|;
      hide IdsOk, BitsSized, Start, Step, Sum, Left, RunGroup;
      schedule := [];
      var pc: seq<nat> := seq(|funcs|, _ => 0);
      anyChanged := false;
      NoStep(funcs, list, passes, tracker.ids, tracker.enabled);
      while exists i :: 0 <= i < |funcs| && !funcs[i].isDecl && pc[i] < |list|
        invariant |pc| == |funcs| == |old(funcs)|
        invariant BitsSized(funcs, tracker.ids)
        invariant forall i :: 0 <= i < |pc| ==> pc[i] <= |list|
        invariant Group(funcs, pc, anyChanged) == RunGroup(Start(old(funcs)), list, passes, tracker.ids, tracker.enabled, schedule)
        decreases Sum(pc, Left(|list|))
      {
        var i :| 0 <= i < |funcs| && !funcs[i].isDecl && pc[i] < |list|;
        OneMore(Start(old(funcs)), list, passes, tracker.ids, tracker.enabled, schedule, i);
        StepsLeft(pc, i, |list|);
        var changed := JobStep(i, pc, anyChanged, list, passes, tracker);
        pc := pc[i := pc[i] + 1];
        anyChanged := anyChanged || changed;
        schedule := schedule + [i];
      }
    }

    /** Runs the group, then drops what depended on other functions if any changed. */
    method Apply(list: seq<nat>, passes: seq<Pass>, tracker: CleanTracker) returns (ghost schedule: seq<nat>)
      requires IdsOk(tracker.ids, passes) && BitsSized(funcs, tracker.ids)
      requires forall k :: 0 <= k < |list| ==> list[k] < |passes|
      modifies this
      ensures var g := RunGroup(Start(old(funcs)), list, passes, tracker.ids, tracker.enabled, schedule);
        Finished(g, list) && funcs == EndGroup(g, tracker.ids)
      ensures |funcs| == |old(funcs)| && BitsSized(funcs, tracker.ids)
      ensures WellBehaved(passes) && AllBitsTrue(old(funcs), passes, tracker.ids) ==>
                && AllBitsTrue(funcs, passes, tracker.ids)
                && ((forall k :: 0 <= k < |list| ==> !passes[list[k]].interprocedural) ==>
                     forall i :: 0 <= i < |funcs| ==>
                       funcs[i].ir == if old(funcs)[i].isDecl then old(funcs)[i].ir else Fold(list, passes, old(funcs)[i].ir))
    {
      var anyChanged;
      anyChanged, schedule := RunJobs(list, passes, tracker);
      GroupEnd(old(funcs), list, passes, tracker.ids, tracker.enabled, schedule);
      hide RunGroup, Start, BitsSized, WellBehaved, AllBitsTrue, Fold, MarkDirtyInterprocedural;
      if anyChanged {
        DropInterprocedural(tracker);
      }
    }
  }

  function Left(n: nat): nat -> int { (k: nat) => n - k }

  lemma StepsLeft(pc: seq<nat>, i: nat, n: nat)
    requires i < |pc| && pc[i] < n && forall k :: 0 <= k < |pc| ==> pc[k] <= n
    ensures 0 <= Sum(pc[i := pc[i] + 1], Left(n)) < Sum(pc, Left(n))
  {
    SumUpdate(pc, i, pc[i] + 1, Left(n));
    SumNonNegative(pc[i := pc[i] + 1], Left(n));
  }

  lemma NoStep(fs: seq<Func>, list: seq<nat>, passes: seq<Pass>, ids: Ids, skipping: bool)
    requires |ids.of| == |passes| && forall k :: 0 <= k < |list| ==> list[k] < |passes|
    ensures RunGroup(Start(fs), list, passes, ids, skipping, []) == Group(fs, seq(|fs|, _ => 0), false)
  {}

  lemma OneMore(g: Group, list: seq<nat>, passes: seq<Pass>, ids: Ids, skipping: bool, schedule: seq<nat>, i: nat)
    requires |g.pc| == |g.funcs| && |ids.of| == |passes| && forall k :: 0 <= k < |list| ==> list[k] < |passes|
    ensures RunGroup(g, list, passes, ids, skipping, schedule + [i])
            == Step(RunGroup(g, list, passes, ids, skipping, schedule), i, list, passes, ids, skipping)
  {
    assert (schedule + [i])[..|schedule|] == schedule;
  }

  /** What a finished group means for its caller. */
  lemma GroupEnd(fs: seq<Func>, list: seq<nat>, passes: seq<Pass>, ids: Ids, skipping: bool, schedule: seq<nat>)
    requires IdsOk(ids, passes) && BitsSized(fs, ids) && forall k :: 0 <= k < |list| ==> list[k] < |passes|
    requires Finished(RunGroup(Start(fs), list, passes, ids, skipping, schedule), list)
    ensures var g := RunGroup(Start(fs), list, passes, ids, skipping, schedule);
      && BitsSized(EndGroup(g, ids), ids)
      && (WellBehaved(passes) && AllBitsTrue(fs, passes, ids) ==>
            && AllBitsTrue(EndGroup(g, ids), passes, ids)
            && ((forall k :: 0 <= k < |list| ==> !passes[list[k]].interprocedural) ==>
                 forall i :: 0 <= i < |fs| ==>
                   EndGroup(g, ids)[i].ir == if fs[i].isDecl then fs[i].ir else Fold(list, passes, fs[i].ir)))
  {
    assert |ids.of| == |passes|;
    hide IdsOk, BitsSized, WellBehaved, AllBitsTrue, RunGroup, Start, EndGroup, Fold, Finished;
    GroupSized(fs, list, passes, ids, skipping, schedule);
    if WellBehaved(passes) && AllBitsTrue(fs, passes, ids) {
      BitsTrueAtBoundary(fs, list, passes, ids, skipping, schedule);
      if forall k :: 0 <= k < |list| ==> !passes[list[k]].interprocedural {
        GroupResult(fs, list, passes, ids, skipping, schedule);
      }
    }
  }
}
