/** parallel_for (src/utils/job_system.hpp) as atomic steps of the caller and its
    helpers. A helper is a queued job: it may start at any time, also after the
    caller has returned. */
module ParallelFor {
  import opened Sums

  datatype Pc =
    // a helper whose job has not started
    | Idle
    // next.fetch_add; fn(i) about to be called; inside fn(i); done.fetch_add; done.notify_all
    | Claim | Call | Running | AddDone | Notify
    // the helper's work() returned
    | Left
    // the caller after its own work()
    | Load | Compare | Blocked | Returned

  /** index is the claimed index, seen the last value loaded from done. */
  datatype Part = Part(pc: Pc, index: nat, seen: nat)

  datatype Shared = Shared(next: nat, done: nat, started: seq<nat>, finished: seq<nat>)

  datatype State = State(parts: seq<Part>, g: Shared)

  datatype Effect = Effect(p: Part, g: Shared, notify: bool)

  function Init(helpers: nat): State {
    State([Part(Claim, 0, 0)] + seq(helpers, i => Part(Idle, 0, 0)), Shared(0, 0, [], []))
  }

  /** One step of participant i; the caller is number 0. fn may take any time. */
  function Local(i: nat, p: Part, g: Shared, n: nat): (e: Effect)
  {
    match p.pc
    case Idle => Effect(p.(pc := Claim), g, false)
    case Claim =>
      Effect(p.(index := g.next, pc := if g.next < n then Call else if i == 0 then Load else Left), g.(next := g.next + 1), false)
    case Call => Effect(p.(pc := Running), g.(started := g.started + [p.index]), false)
    case Running => Effect(p.(pc := AddDone), g.(finished := g.finished + [p.index]), false)
    case AddDone => Effect(p.(pc := if g.done + 1 == n then Notify else Claim), g.(done := g.done + 1), false)
    case Notify => Effect(p.(pc := Claim), g, true)
    case Load => Effect(p.(seen := g.done, pc := if g.done == n then Returned else Compare), g, false)
    case Compare => Effect(p.(pc := if g.done == p.seen then Blocked else Load), g, false)
    case _ => Effect(p, g, false)
  }

  function AfterNotify(notify: bool, p: Part): Part {
    if notify && p.pc == Blocked then p.(pc := Compare) else p
  }

  function NotifyAll(ps: seq<Part>, notify: bool): (qs: seq<Part>)
    ensures |qs| == |ps| && forall k :: 0 <= k < |ps| ==> qs[k] == AfterNotify(notify, ps[k])
  {
    seq(|ps|, k requires 0 <= k < |ps| => AfterNotify(notify, ps[k]))
  }

  function Act(s: State, i: nat, n: nat): State
    requires i < |s.parts|
  {
    var e := Local(i, s.parts[i], s.g, n);
    State(NotifyAll(s.parts, e.notify)[i := e.p], e.g)
  }

  function Run(s: State, n: nat, schedule: seq<nat>): State {
    if schedule == [] then s else
    var r := Run(s, n, schedule[..|schedule| - 1]);
    var i := schedule[|schedule| - 1];
    if i < |r.parts| then Act(r, i, n) else r
  }

  // ----- invariants -----

  function Holding(p: Part): int {
    if p.pc == Call || p.pc == Running || p.pc == AddDone then 1 else 0
  }

  function About(p: Part, id: nat): int { if p.pc == Call && p.index == id then 1 else 0 }

  function Inside(p: Part, id: nat): int { if p.pc == Running && p.index == id then 1 else 0 }

  function AboutTo(id: nat): Part -> int { (p: Part) => About(p, id) }

  function InsideOf(id: nat): Part -> int { (p: Part) => Inside(p, id) }

  function Min(a: nat, b: nat): nat { if a < b then a else b }

  predicate PartOk(i: nat, p: Part, g: Shared, n: nat) {
    && (p.pc in {Load, Compare, Blocked, Returned} ==> i == 0)
    && (p.pc in {Call, Running, AddDone} ==> p.index < n)
    && (p.pc in {Compare, Blocked} ==> p.seen != n)
    && (p.pc == Returned ==> g.done == n)
  }

  ghost predicate Inv(s: State, n: nat) {
    && (forall k :: 0 <= k < |s.parts| ==> PartOk(k, s.parts[k], s.g, n))
    && Min(s.g.next, n) == s.g.done + Sum(s.parts, Holding)
    && (forall id: nat :: Count(s.g.started, id) + Sum(s.parts, AboutTo(id)) == if id < Min(s.g.next, n) then 1 else 0)
    && (forall id: nat :: Count(s.g.finished, id) + Sum(s.parts, InsideOf(id)) == Count(s.g.started, id))
    && (|s.parts| > 0 && s.parts[0].pc == Blocked && s.g.done == n ==> exists j :: 0 <= j < |s.parts| && s.parts[j].pc == Notify)
  }

  lemma LocalCounts(i: nat, p: Part, g: Shared, n: nat, id: nat)
    requires PartOk(i, p, g, n)
    ensures var e := Local(i, p, g, n);
      && Min(e.g.next, n) - e.g.done - Holding(e.p) == Min(g.next, n) - g.done - Holding(p)
      && Count(e.g.started, id) + About(e.p, id) - (if id < Min(e.g.next, n) then 1 else 0)
         == Count(g.started, id) + About(p, id) - (if id < Min(g.next, n) then 1 else 0)
      && Count(e.g.finished, id) + Inside(e.p, id) - Count(e.g.started, id)
         == Count(g.finished, id) + Inside(p, id) - Count(g.started, id)
  {
    hide Count;
    CountSnoc(g.started, p.index, id);
    CountSnoc(g.finished, p.index, id);
  }

  lemma LocalProtocol(i: nat, p: Part, g: Shared, n: nat)
    requires PartOk(i, p, g, n)
    ensures var e := Local(i, p, g, n);
      && PartOk(i, e.p, e.g, n) && g.done <= e.g.done
      && (e.p.pc == Blocked && p.pc != Blocked ==> g.done != n && e.g == g)
      && (e.g.done == n && g.done != n ==> e.p.pc == Notify)
      && (p.pc == Notify ==> e.notify && i >= 0)
      && (p.pc != Notify ==> !e.notify)
  {}

  lemma SumAfter(s: State, i: nat, n: nat, f: Part -> int)
    requires i < |s.parts| && forall p, b :: f(AfterNotify(b, p)) == f(p)
    ensures var s' := Act(s, i, n);
      |s'.parts| == |s.parts| && Sum(s'.parts, f) == Sum(s.parts, f) - f(s.parts[i]) + f(s'.parts[i])
  {
    hide Local, AfterNotify;
    var e := Local(i, s.parts[i], s.g, n);
    var qs := NotifyAll(s.parts, e.notify);
    SumSame(qs, s.parts, f);
    SumUpdate(qs, i, e.p, f);
  }

  lemma Blind(id: nat)
    ensures forall p, b :: Holding(AfterNotify(b, p)) == Holding(p)
    ensures forall p, b :: AboutTo(id)(AfterNotify(b, p)) == AboutTo(id)(p)
    ensures forall p, b :: InsideOf(id)(AfterNotify(b, p)) == InsideOf(id)(p)
  {}

  lemma InvStep(s: State, i: nat, n: nat)
    requires Inv(s, n) && i < |s.parts|
    ensures Inv(Act(s, i, n), n)
  {
    var s' := Act(s, i, n);
    Blind(0);
    LocalCounts(i, s.parts[i], s.g, n, 0);
    SumAfter(s, i, n, Holding);
    DoneBounded(s, n);
    DoneBoundedByShares(s', n);
    StepShape(s, i, n);
    forall id: nat
      ensures Count(s'.g.started, id) + Sum(s'.parts, AboutTo(id)) == if id < Min(s'.g.next, n) then 1 else 0
      ensures Count(s'.g.finished, id) + Sum(s'.parts, InsideOf(id)) == Count(s'.g.started, id)
    {
      hide Count, Local, AfterNotify;
      Blind(id);
      LocalCounts(i, s.parts[i], s.g, n, id);
      SumAfter(s, i, n, AboutTo(id));
      SumAfter(s, i, n, InsideOf(id));
    }
  }

  lemma DoneBounded(s: State, n: nat)
    requires Inv(s, n)
    ensures s.g.done <= n
  {
    SumNonNegative(s.parts, Holding);
  }

  lemma DoneBoundedByShares(s: State, n: nat)
    requires Min(s.g.next, n) == s.g.done + Sum(s.parts, Holding)
    ensures s.g.done <= n
  {
    SumNonNegative(s.parts, Holding);
  }

  lemma StepShape(s: State, i: nat, n: nat)
    requires Inv(s, n) && i < |s.parts| && s.g.done <= n && Act(s, i, n).g.done <= n
    ensures var s' := Act(s, i, n);
      && (forall k :: 0 <= k < |s'.parts| ==> PartOk(k, s'.parts[k], s'.g, n))
      && (|s'.parts| > 0 && s'.parts[0].pc == Blocked && s'.g.done == n ==> exists j :: 0 <= j < |s'.parts| && s'.parts[j].pc == Notify)
  {
    hide Local, Count, Sum;
    var s' := Act(s, i, n);
    var p, e := s.parts[i], Local(i, s.parts[i], s.g, n);
    LocalProtocol(i, p, s.g, n);
    if s'.parts[0].pc == Blocked && s'.g.done == n {
      if e.p.pc == Notify {
        assert s'.parts[i].pc == Notify;
      } else {
        var j :| 0 <= j < |s.parts| && s.parts[j].pc == Notify;
        assert s'.parts[j].pc == Notify;
      }
    }
  }

  lemma {:induction false} Reachable(helpers: nat, n: nat, schedule: seq<nat>)
    ensures Inv(Run(Init(helpers), n, schedule), n)
    ensures |Run(Init(helpers), n, schedule).parts| == helpers + 1
  {
    if schedule == [] {
      var s := Init(helpers);
      SumZero(s.parts, Holding);
      forall id: nat ensures Sum(s.parts, AboutTo(id)) == 0 && Sum(s.parts, InsideOf(id)) == 0 {
        SumZero(s.parts, AboutTo(id));
        SumZero(s.parts, InsideOf(id));
      }
    } else {
      var k := |schedule| - 1;
      Reachable(helpers, n, schedule[..k]);
      var r := Run(Init(helpers), n, schedule[..k]);
      if schedule[k] < |r.parts| {
        hide Inv, Local;
        InvStep(r, schedule[k], n);
      }
    }
  }

  // ----- the theorems -----

  /** At no time has an index been started twice, or one outside 0..n. */
  lemma NeverTwice(helpers: nat, n: nat, schedule: seq<nat>, id: nat)
    ensures var s := Run(Init(helpers), n, schedule);
      Count(s.g.finished, id) <= Count(s.g.started, id) <= (if id < n then 1 else 0)
  {
    Reachable(helpers, n, schedule);
    var s := Run(Init(helpers), n, schedule);
    hide Run, Init;
    SumNonNegative(s.parts, AboutTo(id));
    SumNonNegative(s.parts, InsideOf(id));
  }

  /** Once the caller has returned, however the run goes on, every index has been
      called and has finished exactly once, and nobody is calling fn or will. */
  lemma ReturnedMeansAllCalled(helpers: nat, n: nat, schedule: seq<nat>)
    ensures var s := Run(Init(helpers), n, schedule);
      s.parts != [] && s.parts[0].pc == Returned ==>
        && (forall id: nat :: id < n ==> Count(s.g.started, id) == 1 && Count(s.g.finished, id) == 1)
        && (forall k :: 0 <= k < |s.parts| ==> s.parts[k].pc != Call && s.parts[k].pc != Running)
        && s.g.next >= n
  {
    Reachable(helpers, n, schedule);
    var s := Run(Init(helpers), n, schedule);
    hide Run, Init;
    if s.parts != [] && s.parts[0].pc == Returned { AllDone(s, n); }
  }

  lemma AllDone(s: State, n: nat)
    requires Inv(s, n) && s.parts != [] && s.parts[0].pc == Returned
    ensures (forall id: nat :: id < n ==> Count(s.g.started, id) == 1 && Count(s.g.finished, id) == 1)
    ensures (forall k :: 0 <= k < |s.parts| ==> s.parts[k].pc != Call && s.parts[k].pc != Running)
    ensures s.g.next >= n
  {
    assert PartOk(0, s.parts[0], s.g, n);
    SumNonNegative(s.parts, Holding);
    forall k | 0 <= k < |s.parts| ensures Holding(s.parts[k]) == 0 {
      SumAtLeast(s.parts, Holding, k);
    }
    forall k | 0 <= k < |s.parts| ensures s.parts[k].pc != Call && s.parts[k].pc != Running {
      assert Holding(s.parts[k]) == 0;
    }
    forall id: nat | id < n ensures Count(s.g.started, id) == 1 && Count(s.g.finished, id) == 1 {
      SumZero(s.parts, AboutTo(id));
      SumZero(s.parts, InsideOf(id));
      assert Count(s.g.finished, id) + Sum(s.parts, InsideOf(id)) == Count(s.g.started, id);
    }
  }

  /** The caller is never left blocked after the last call finished: the thread
      that finished it has its notify still to do. */
  lemma CallerNotLeftBlocked(helpers: nat, n: nat, schedule: seq<nat>)
    ensures var s := Run(Init(helpers), n, schedule);
      s.parts != [] && s.parts[0].pc == Blocked && s.g.done == n ==> exists j :: 0 <= j < |s.parts| && s.parts[j].pc == Notify
  {
    Reachable(helpers, n, schedule);
  }
}
