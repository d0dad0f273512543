/** The job scheduler (src/utils/job_system.hpp) as atomic steps of a main
    thread and any number of workers. Every interleaving is a run of Act. */
module Scheduler {
  import opened Sums
  import opened Options

  /** Where a thread is. The names follow the calls of the source. */
  datatype Pc =
    // in user code: the main program, or inside the topmost running job
    | Code
    // push
    | PushPending | PushLock | PushBack | PushQueued | PushEpoch | PushSleepers | PushNotify
    // try_get_job
    | TryQueued | TryLock | TryPop | TryCount
    // the end of run_job
    | JobSub | JobNotify
    // wait_till_done
    | WaitLoad | WaitCompare | WaitBlocked
    // the worker loop and sleep_until_work
    | LoopStop | Spin | SpinStop | SleepInc | SleepEpoch | SleepQueued | SleepStop
    | SleepCompare | SleepBlocked | SleepDec | Exited
    // deinit
    | StopStore | StopEpoch | StopNotify | StopJoin

  datatype Thread = Thread(
    pc: Pc,
    // ids of the jobs this thread is inside of, innermost last
    stack: seq<nat>,
    // id of the job being pushed, from pending.fetch_add until jobs.push_back
    pushing: Option<nat>,
    // last value loaded from work_epoch and from pending
    epoch: nat,
    seen: nat,
    // inside wait_till_done
    waiting: bool)

  /** The shared fields of the scheduler, and the history of the run. */
  datatype Shared = Shared(
    jobs: seq<nat>,
    queued: int,
    pending: int,
    epoch: nat,
    sleepers: int,
    stopping: bool,
    lock: Option<nat>,
    // history: ids given out so far, and finished jobs in order
    nextId: nat,
    done: seq<nat>,
    // the value deinit gave work_epoch
    stopEpoch: Option<nat>)

  datatype State = State(threads: seq<Thread>, g: Shared)

  /** What user code does next, and which sleeper a notify_one wakes. */
  datatype Choice = DoPush | DoFinish | DoTry | DoWait | DoDeinit | Stay | Wake(worker: nat) | WakeNone

  /** The notify calls of the source. */
  datatype Notify = Nobody | OneSleeper(worker: nat) | NoSleeper | AllSleepers | AllPending

  /** A step of one thread: its new state, the shared state, and whom it wakes. */
  datatype Effect = Effect(t: Thread, g: Shared, wake: Notify)

  function Init(workers: nat): State {
    State([Thread(Code, [], None, 0, 0, false)] + seq(workers, i => Thread(LoopStop, [], None, 0, 0, false)),
          Shared([], 0, 0, 0, 0, false, None, 0, [], None))
  }

  /** Where a thread goes on when its queue look-up found nothing. */
  function AfterTry(i: nat, t: Thread): Pc {
    if t.stack == [] && i > 0 then Spin
    else if t.stack == [] && t.waiting then WaitLoad
    else Code
  }

  function AfterJob(i: nat, t: Thread): Pc {
    if t.stack == [] && i > 0 then LoopStop
    else if t.stack == [] && t.waiting then TryQueued
    else Code
  }

  /** user code */
  function LocalCode(i: nat, t: Thread, g: Shared, c: Choice): Option<Effect> {
    match t.pc
    case Code =>
      if c == DoPush then Some(Effect(t.(pc := PushPending), g, Nobody))
      else if c == DoTry then Some(Effect(t.(pc := TryQueued), g, Nobody))
      else if c == DoFinish && t.stack != [] then Some(Effect(t.(pc := JobSub), g, Nobody))
      else if c == DoWait && i == 0 && t.stack == [] && !t.waiting then Some(Effect(t.(pc := TryQueued, waiting := true), g, Nobody))
      else if c == DoDeinit && i == 0 && t.stack == [] && !t.waiting then Some(Effect(t.(pc := StopStore), g, Nobody))
      else None
    case _ => None
  }

  /** the end of run_job, after func() */
  function LocalJob(i: nat, t: Thread, g: Shared, c: Choice): Option<Effect> {
    match t.pc
    case JobSub =>
      if t.stack == [] then None else
      var t' := t.(stack := t.stack[..|t.stack| - 1]);
      Some(Effect(t'.(pc := if g.pending == 1 then JobNotify else AfterJob(i, t')),
                  g.(pending := g.pending - 1, done := g.done + [t.stack[|t.stack| - 1]]), Nobody))
    case JobNotify => Some(Effect(t.(pc := AfterJob(i, t)), g, AllPending))
    case _ => None
  }

  /** push */
  function LocalPush(i: nat, t: Thread, g: Shared, c: Choice): Option<Effect> {
    match t.pc
    case PushPending =>
      Some(Effect(t.(pc := PushLock, pushing := Some(g.nextId)), g.(pending := g.pending + 1, nextId := g.nextId + 1), Nobody))
    case PushLock => if g.lock == None then Some(Effect(t.(pc := PushBack), g.(lock := Some(i)), Nobody)) else None
    case PushBack =>
      if t.pushing == None then None
      else Some(Effect(t.(pc := PushQueued, pushing := None), g.(jobs := g.jobs + [t.pushing.value]), Nobody))
    case PushQueued => Some(Effect(t.(pc := PushEpoch), g.(queued := g.queued + 1, lock := None), Nobody))
    case _ => None
  }

  /** push, after the queue is unlocked */
  function LocalAnnounce(i: nat, t: Thread, g: Shared, c: Choice): Option<Effect> {
    match t.pc
    case PushEpoch => Some(Effect(t.(pc := PushSleepers), g.(epoch := g.epoch + 1), Nobody))
    case PushSleepers => Some(Effect(t.(pc := if g.sleepers != 0 then PushNotify else Code), g, Nobody))
    case PushNotify =>
      if c.Wake? then Some(Effect(t.(pc := Code), g, OneSleeper(c.worker)))
      else Some(Effect(t.(pc := Code), g, NoSleeper))
    case _ => None
  }

  /** try_get_job */
  function LocalTry(i: nat, t: Thread, g: Shared, c: Choice): Option<Effect> {
    match t.pc
    case TryQueued => Some(Effect(t.(pc := if g.queued == 0 then AfterTry(i, t) else TryLock), g, Nobody))
    case TryLock => if g.lock == None then Some(Effect(t.(pc := TryPop), g.(lock := Some(i)), Nobody)) else None
    case TryPop =>
      if g.jobs == [] then Some(Effect(t.(pc := AfterTry(i, t)), g.(lock := None), Nobody))
      else Some(Effect(t.(pc := TryCount, stack := t.stack + [g.jobs[|g.jobs| - 1]]), g.(jobs := g.jobs[..|g.jobs| - 1]), Nobody))
    case TryCount => Some(Effect(t.(pc := Code), g.(queued := g.queued - 1, lock := None), Nobody))
    case _ => None
  }

  /** wait_till_done */
  function LocalWait(i: nat, t: Thread, g: Shared, c: Choice): Option<Effect> {
    match t.pc
    case WaitLoad =>
      if g.pending == 0 then Some(Effect(t.(pc := Code, waiting := false), g, Nobody))
      else if g.pending < 0 then None
      else Some(Effect(t.(pc := WaitCompare, seen := g.pending), g, Nobody))
    case WaitCompare => Some(Effect(t.(pc := if g.pending == t.seen then WaitBlocked else TryQueued), g, Nobody))
    case WaitBlocked => None
    case _ => None
  }

  /** the worker loop, and the spinning before a worker sleeps */
  function LocalLoop(i: nat, t: Thread, g: Shared, c: Choice): Option<Effect> {
    match t.pc
    case LoopStop => Some(Effect(t.(pc := if g.stopping then Exited else TryQueued), g, Nobody))
    case Spin => Some(Effect(t.(pc := if g.queued != 0 then LoopStop else SpinStop), g, Nobody))
    case SpinStop => Some(Effect(t.(pc := if g.stopping then LoopStop else if c == Stay then Spin else SleepInc), g, Nobody))
    case Exited => None
    case _ => None
  }

  /** sleep_until_work */
  function LocalSleep(i: nat, t: Thread, g: Shared, c: Choice): Option<Effect> {
    match t.pc
    case SleepInc => Some(Effect(t.(pc := SleepEpoch), g.(sleepers := g.sleepers + 1), Nobody))
    case SleepEpoch => Some(Effect(t.(pc := SleepQueued, epoch := g.epoch), g, Nobody))
    case SleepQueued => Some(Effect(t.(pc := if g.queued == 0 then SleepStop else SleepDec), g, Nobody))
    case SleepStop => Some(Effect(t.(pc := if g.stopping then SleepDec else SleepCompare), g, Nobody))
    case SleepCompare => Some(Effect(t.(pc := if g.epoch == t.epoch then SleepBlocked else SleepDec), g, Nobody))
    case SleepBlocked => None
    case SleepDec => Some(Effect(t.(pc := LoopStop), g.(sleepers := g.sleepers - 1), Nobody))
    case _ => None
  }

  /** deinit */
  function LocalStop(i: nat, t: Thread, g: Shared, c: Choice): Option<Effect> {
    match t.pc
    case StopStore => Some(Effect(t.(pc := StopEpoch), g.(stopping := true), Nobody))
    case StopEpoch => Some(Effect(t.(pc := StopNotify), g.(epoch := g.epoch + 1, stopEpoch := Some(g.epoch + 1)), Nobody))
    case StopNotify => Some(Effect(t.(pc := StopJoin), g, AllSleepers))
    case StopJoin => None
    case _ => None
  }

  /** The step thread i takes from pc on, or None where it cannot move. Loads and
      read-modify-writes are single steps, and so is each statement under the lock. */
  function Local(i: nat, t: Thread, g: Shared, c: Choice): Option<Effect> {
    match t.pc
    case Code => LocalCode(i, t, g, c)
    case JobSub | JobNotify => LocalJob(i, t, g, c)
    case PushPending | PushLock | PushBack | PushQueued => LocalPush(i, t, g, c)
    case PushEpoch | PushSleepers | PushNotify => LocalAnnounce(i, t, g, c)
    case TryQueued | TryLock | TryPop | TryCount => LocalTry(i, t, g, c)
    case WaitLoad | WaitCompare | WaitBlocked => LocalWait(i, t, g, c)
    case LoopStop | Spin | SpinStop | Exited => LocalLoop(i, t, g, c)
    case SleepInc | SleepEpoch | SleepQueued | SleepStop | SleepCompare | SleepBlocked | SleepDec => LocalSleep(i, t, g, c)
    case StopStore | StopEpoch | StopNotify | StopJoin => LocalStop(i, t, g, c)
  }

  predicate Sleeps(ts: seq<Thread>, k: nat) {
    k < |ts| && ts[k].pc == SleepBlocked
  }

  /** notify_one wakes some waiter, and nobody only when nobody waits. */
  predicate CanNotify(ts: seq<Thread>, w: Notify) {
    match w
    case OneSleeper(k) => Sleeps(ts, k)
    case NoSleeper => forall k :: 0 <= k < |ts| ==> !Sleeps(ts, k)
    case _ => true
  }

  predicate Wakes(w: Notify, k: nat, t: Thread) {
    match w
    case OneSleeper(j) => k == j && t.pc == SleepBlocked
    case AllSleepers => t.pc == SleepBlocked
    case AllPending => t.pc == WaitBlocked
    case _ => false
  }

  /** A woken thread compares the awaited value again. */
  function AfterNotify(w: Notify, k: nat, t: Thread): Thread {
    if !Wakes(w, k, t) then t
    else if t.pc == SleepBlocked then t.(pc := SleepCompare)
    else t.(pc := WaitCompare)
  }

  function NotifyAll(ts: seq<Thread>, w: Notify): (us: seq<Thread>)
    ensures |us| == |ts| && forall k :: 0 <= k < |ts| ==> us[k] == AfterNotify(w, k, ts[k])
  {
    seq(|ts|, k requires 0 <= k < |ts| => AfterNotify(w, k, ts[k]))
  }

  /** One atomic step of thread i. */
  function Act(s: State, i: nat, c: Choice): Option<State>
    requires i < |s.threads|
  {
    var e := Local(i, s.threads[i], s.g, c);
    if e.None? || !CanNotify(s.threads, e.value.wake) then None
    else Some(State(NotifyAll(s.threads, e.value.wake)[i := e.value.t], e.value.g))
  }

  /** The state after a schedule, a list of thread numbers and choices; steps
      that cannot be taken are skipped. */
  function Run(s: State, schedule: seq<(nat, Choice)>): State {
    if schedule == [] then s else
    var r := Run(s, schedule[..|schedule| - 1]);
    var (i, c) := schedule[|schedule| - 1];
    if i < |r.threads| && Act(r, i, c).Some? then Act(r, i, c).value else r
  }

  // ----- what a step does to the threads -----

  /** f does not tell a woken thread from a blocked one. */
  ghost predicate WakeBlind(f: Thread -> int) {
    forall t, w, k :: f(AfterNotify(w, k, t)) == f(t)
  }

  /** A sum over the threads changes by the acting thread's share only. */
  lemma SumAfter(s: State, i: nat, c: Choice, f: Thread -> int)
    requires i < |s.threads| && Act(s, i, c).Some? && WakeBlind(f)
    ensures var s' := Act(s, i, c).value;
      |s'.threads| == |s.threads| && Sum(s'.threads, f) == Sum(s.threads, f) - f(s.threads[i]) + f(s'.threads[i])
  {
    hide Local, AfterNotify, CanNotify;
    var e := Local(i, s.threads[i], s.g, c).value;
    var us := NotifyAll(s.threads, e.wake);
    SumSame(us, s.threads, f);
    SumUpdate(us, i, e.t, f);
    assert us[i] == AfterNotify(e.wake, i, s.threads[i]);
  }

  // ----- invariants -----

  predicate SleepSection(t: Thread) {
    (t.pc.SleepEpoch? || t.pc.SleepQueued? || t.pc.SleepStop? || t.pc.SleepCompare? || t.pc.SleepBlocked? || t.pc.SleepDec?)
  }

  predicate Critical(t: Thread) {
    (t.pc.PushBack? || t.pc.PushQueued? || t.pc.TryPop? || t.pc.TryCount?)
  }

  /** A push whose job is queued but whose notify is still to come. */
  predicate InFlight(t: Thread) {
    (t.pc.PushQueued? || t.pc.PushEpoch? || t.pc.PushSleepers? || t.pc.PushNotify?)
  }

  predicate BeforeEpoch(t: Thread) {
    (t.pc.PushQueued? || t.pc.PushEpoch?)
  }

  /** Past the check of queued, with a loaded epoch it will sleep on. */
  predicate Committed(t: Thread) {
    (t.pc.SleepStop? || t.pc.SleepCompare? || t.pc.SleepBlocked?)
  }

  function SleepWeight(t: Thread): int { if SleepSection(t) then 1 else 0 }

  function CountWeight(t: Thread): int {
    if t.pc == TryCount then 1 else if t.pc == PushQueued then -1 else 0
  }

  function PendingWeight(t: Thread): int {
    |t.stack| + if t.pushing.Some? then 1 else 0
  }

  function IdsHeld(t: Thread, id: nat): int {
    Count(t.stack, id) + if t.pushing == Some(id) then 1 else 0
  }

  function IdWeight(id: nat): Thread -> int {
    (t: Thread) => IdsHeld(t, id)
  }

  /** Which states a thread can be in by itself. */
  predicate ThreadOk(i: nat, t: Thread, g: Shared) {
    && ((t.pc.LoopStop? || t.pc.Spin? || t.pc.SpinStop? || t.pc.SleepInc? || t.pc.SleepEpoch? || t.pc.SleepQueued? || t.pc.SleepStop? || t.pc.SleepCompare? || t.pc.SleepBlocked? || t.pc.SleepDec? || t.pc.Exited?)
        ==> i > 0 && t.stack == [])
    && ((t.pc.WaitLoad? || t.pc.WaitCompare? || t.pc.WaitBlocked?) ==> i == 0 && t.stack == [] && t.waiting)
    && ((t.pc.StopStore? || t.pc.StopEpoch? || t.pc.StopNotify? || t.pc.StopJoin?) ==> i == 0 && t.stack == [] && !t.waiting)
    && (t.waiting ==> i == 0)
    && (i > 0 && (t.pc.Code? || t.pc.PushPending? || t.pc.PushLock? || t.pc.PushBack? || t.pc.PushQueued? || t.pc.PushEpoch? || t.pc.PushSleepers? || t.pc.PushNotify?) ==> t.stack != [])
    && ((t.pc.JobSub? || t.pc.TryCount?) ==> t.stack != [])
    && (t.pushing.Some? <==> (t.pc.PushLock? || t.pc.PushBack?))
    && t.epoch <= g.epoch
    && ((t.pc.WaitCompare? || t.pc.WaitBlocked?) ==> t.seen >= 1)
    && (t.pc == Exited ==> g.stopping)
    && ((t.pc.StopEpoch? || t.pc.StopNotify? || t.pc.StopJoin?) ==> g.stopping)
    && ((t.pc.StopNotify? || t.pc.StopJoin?) ==> g.stopEpoch.Some?)
    && (g.stopEpoch.Some? ==> g.stopping && g.stopEpoch.value <= g.epoch)
    && (g.stopEpoch.Some? && (t.pc.SleepCompare? || t.pc.SleepBlocked?) ==> t.epoch < g.stopEpoch.value)
  }

  ghost predicate Threads(s: State) {
    |s.threads| >= 1 && forall k :: 0 <= k < |s.threads| ==> ThreadOk(k, s.threads[k], s.g)
  }

  ghost predicate LockHeld(s: State) {
    forall k :: 0 <= k < |s.threads| ==>
      && (Critical(s.threads[k]) <==> s.g.lock == Some(k))
      && (s.threads[k].pc == PushQueued ==> s.g.jobs != [])
  }

  ghost predicate Counts(s: State) {
    && s.g.sleepers == Sum(s.threads, SleepWeight)
    && s.g.queued == |s.g.jobs| + Sum(s.threads, CountWeight)
    && s.g.pending == |s.g.jobs| + Sum(s.threads, PendingWeight)
  }

  /** Every job id is at exactly one place: being pushed, queued, running or done. */
  ghost predicate Conserved(s: State) {
    forall id: nat :: Count(s.g.jobs, id) + Count(s.g.done, id) + Sum(s.threads, IdWeight(id))
                 == if id < s.g.nextId then 1 else 0
  }

  /** Whoever is about to sleep on the current epoch saw every finished push. */
  ghost predicate FreshSleepers(s: State) {
    s.g.jobs != [] && (exists k :: 0 <= k < |s.threads| && Committed(s.threads[k]) && s.threads[k].epoch == s.g.epoch)
    ==> exists j :: 0 <= j < |s.threads| && BeforeEpoch(s.threads[j])
  }

  predicate Alert(k: nat, t: Thread) {
    InFlight(t) || (k > 0 && t.pc != SleepBlocked && t.pc != Exited)
  }

  ghost predicate SomeoneAlert(s: State) {
    s.g.jobs != [] && !s.g.stopping && |s.threads| > 1 ==>
      exists k :: 0 <= k < |s.threads| && Alert(k, s.threads[k])
  }

  ghost predicate StopReached(s: State) {
    |s.threads| > 0 && s.threads[0].pc == StopJoin ==>
      forall k :: 0 <= k < |s.threads| ==> s.threads[k].pc != SleepBlocked
  }

  ghost predicate CompletionNotified(s: State) {
    |s.threads| > 0 && s.threads[0].pc == WaitBlocked && s.g.pending == 0 ==>
      exists j :: 0 <= j < |s.threads| && s.threads[j].pc == JobNotify
  }

  ghost predicate Inv(s: State) {
    && Threads(s) && LockHeld(s) && Counts(s) && Conserved(s)
    && FreshSleepers(s) && SomeoneAlert(s) && StopReached(s) && CompletionNotified(s)
  }

  // ----- every step keeps them -----

  /** One step keeps its thread in shape, and the shared fields only grow. */
  ghost predicate GoodShape(i: nat, t: Thread, g: Shared, e: Effect) {
    && ThreadOk(i, e.t, e.g)
    && SharedGrows(g, e.g)
    && ((Critical(t) <==> g.lock == Some(i)) ==> (Critical(e.t) <==> e.g.lock == Some(i)))
    && (e.g.lock == g.lock || (g.lock == None && e.g.lock == Some(i)) || (Critical(t) && e.g.lock == None))
    && (e.t.pc == PushQueued ==> e.g.jobs != [])
    && (e.g.jobs == [] && g.jobs != [] ==> Critical(t))
  }

  /** Its share of every sum, and of every job id, moves exactly with the shared counters. */
  ghost predicate GoodSums(t: Thread, g: Shared, e: Effect) {
    && e.g.sleepers - SleepWeight(e.t) == g.sleepers - SleepWeight(t)
    && e.g.queued - |e.g.jobs| - CountWeight(e.t) == g.queued - |g.jobs| - CountWeight(t)
    && e.g.pending - |e.g.jobs| - PendingWeight(e.t) == g.pending - |g.jobs| - PendingWeight(t)
  }

  /** So does the number of places where a job id is. */
  ghost predicate GoodIds(t: Thread, g: Shared, e: Effect, id: nat) {
    IdBalance(e.t, e.g, id) == IdBalance(t, g, id)
  }

  function IdBalance(t: Thread, g: Shared, id: nat): int {
    Count(g.jobs, id) + Count(g.done, id) + IdsHeld(t, id) - if id < g.nextId then 1 else 0
  }

  /** What the sleeping, stopping and waiting protocols need to know of a step. */
  ghost predicate GoodProtocol(i: nat, t: Thread, g: Shared, e: Effect) {
    // a thread gets ready to sleep only after it read queued == 0
    && (Committed(e.t) && !Committed(t) ==> g.queued == 0 && e.g == g)
    && (Committed(e.t) && Committed(t) ==> e.t.epoch == t.epoch && e.g == g)
    && (e.g.jobs != [] && g.jobs == [] ==> BeforeEpoch(e.t))
    && (BeforeEpoch(t) ==> BeforeEpoch(e.t) || e.g.epoch == g.epoch + 1)
    // how a thread stops being alert
    && (!e.g.stopping && Alert(i, t) && !Alert(i, e.t) ==>
          (t.pc.SleepCompare? && g.epoch == t.epoch && e.g == g && e.wake == Nobody)
          || (t.pc.PushSleepers? && g.sleepers == 0 && e.g == g && e.wake == Nobody)
          || (t.pc.PushNotify? && (e.wake.OneSleeper? || e.wake.NoSleeper?)))
    && (t.pc.PushNotify? ==> e.wake.OneSleeper? || e.wake.NoSleeper?)
    && ((t.pc.PushSleepers? || t.pc.PushNotify?) && i > 0 ==> Alert(i, e.t))
    // how deinit ends, and how a thread blocks
    && (e.t.pc == StopJoin ==> i == 0 && t.pc == StopNotify && e.wake == AllSleepers)
    && (e.t.pc == SleepBlocked ==> i > 0 && t.pc == SleepCompare && t.epoch == g.epoch)
    && (e.t.pc == WaitBlocked ==> t.pc == WaitCompare && g.pending > 0 && e.g == g)
    && (e.g.pending == 0 && g.pending != 0 ==> e.t.pc == JobNotify || g.pending == -1)
    && (t.pc == JobNotify ==> e.wake == AllPending && e.t.pc != WaitBlocked)
  }

  ghost predicate SharedGrows(g: Shared, g': Shared) {
    && g.epoch <= g'.epoch && (g.stopping ==> g'.stopping)
    && (g'.stopEpoch == g.stopEpoch || (g'.stopping && g'.stopEpoch == Some(g'.epoch) && g.epoch < g'.epoch))
  }

  lemma CodeShape(i: nat, t: Thread, g: Shared, c: Choice)
    requires ThreadOk(i, t, g) && LocalCode(i, t, g, c).Some?
    ensures GoodShape(i, t, g, LocalCode(i, t, g, c).value)
  {}

  lemma CodeSums(i: nat, t: Thread, g: Shared, c: Choice)
    requires ThreadOk(i, t, g) && LocalCode(i, t, g, c).Some?
    ensures GoodSums(t, g, LocalCode(i, t, g, c).value)
  {}

  lemma CodeProtocol(i: nat, t: Thread, g: Shared, c: Choice)
    requires ThreadOk(i, t, g) && LocalCode(i, t, g, c).Some?
    ensures GoodProtocol(i, t, g, LocalCode(i, t, g, c).value)
  {}

  lemma CodeIds(i: nat, t: Thread, g: Shared, c: Choice, id: nat)
    requires ThreadOk(i, t, g) && LocalCode(i, t, g, c).Some?
    ensures GoodIds(t, g, LocalCode(i, t, g, c).value, id)
  {
    hide Count;
  }

  lemma JobShape(i: nat, t: Thread, g: Shared, c: Choice)
    requires ThreadOk(i, t, g) && LocalJob(i, t, g, c).Some?
    ensures GoodShape(i, t, g, LocalJob(i, t, g, c).value)
  {}

  lemma JobSums(i: nat, t: Thread, g: Shared, c: Choice)
    requires ThreadOk(i, t, g) && LocalJob(i, t, g, c).Some?
    ensures GoodSums(t, g, LocalJob(i, t, g, c).value)
  {}

  lemma JobProtocol(i: nat, t: Thread, g: Shared, c: Choice)
    requires ThreadOk(i, t, g) && LocalJob(i, t, g, c).Some?
    ensures GoodProtocol(i, t, g, LocalJob(i, t, g, c).value)
  {}

  lemma JobIds(i: nat, t: Thread, g: Shared, c: Choice, id: nat)
    requires ThreadOk(i, t, g) && LocalJob(i, t, g, c).Some?
    ensures GoodIds(t, g, LocalJob(i, t, g, c).value, id)
  {
    hide Count;
    if t.stack != [] {
      var k := |t.stack| - 1;
      assert t.stack == t.stack[..k] + [t.stack[k]];
      CountSnoc(t.stack[..k], t.stack[k], id);
      CountSnoc(g.done, t.stack[k], id);
    }
  }

  lemma PushShape(i: nat, t: Thread, g: Shared, c: Choice)
    requires ThreadOk(i, t, g) && LocalPush(i, t, g, c).Some?
    ensures GoodShape(i, t, g, LocalPush(i, t, g, c).value)
  {}

  lemma PushSums(i: nat, t: Thread, g: Shared, c: Choice)
    requires ThreadOk(i, t, g) && LocalPush(i, t, g, c).Some?
    ensures GoodSums(t, g, LocalPush(i, t, g, c).value)
  {}

  lemma PushProtocol(i: nat, t: Thread, g: Shared, c: Choice)
    requires ThreadOk(i, t, g) && LocalPush(i, t, g, c).Some?
    ensures GoodProtocol(i, t, g, LocalPush(i, t, g, c).value)
  {}

  lemma PushIds(i: nat, t: Thread, g: Shared, c: Choice, id: nat)
    requires ThreadOk(i, t, g) && LocalPush(i, t, g, c).Some?
    ensures GoodIds(t, g, LocalPush(i, t, g, c).value, id)
  {
    hide Count;
    if t.pushing.Some? { CountSnoc(g.jobs, t.pushing.value, id); }
  }

  lemma AnnounceShape(i: nat, t: Thread, g: Shared, c: Choice)
    requires ThreadOk(i, t, g) && LocalAnnounce(i, t, g, c).Some?
    ensures GoodShape(i, t, g, LocalAnnounce(i, t, g, c).value)
  {}

  lemma AnnounceSums(i: nat, t: Thread, g: Shared, c: Choice)
    requires ThreadOk(i, t, g) && LocalAnnounce(i, t, g, c).Some?
    ensures GoodSums(t, g, LocalAnnounce(i, t, g, c).value)
  {}

  lemma AnnounceProtocol(i: nat, t: Thread, g: Shared, c: Choice)
    requires ThreadOk(i, t, g) && LocalAnnounce(i, t, g, c).Some?
    ensures GoodProtocol(i, t, g, LocalAnnounce(i, t, g, c).value)
  {}

  lemma AnnounceIds(i: nat, t: Thread, g: Shared, c: Choice, id: nat)
    requires ThreadOk(i, t, g) && LocalAnnounce(i, t, g, c).Some?
    ensures GoodIds(t, g, LocalAnnounce(i, t, g, c).value, id)
  {
    hide Count;
  }

  lemma TryShape(i: nat, t: Thread, g: Shared, c: Choice)
    requires ThreadOk(i, t, g) && LocalTry(i, t, g, c).Some?
    ensures GoodShape(i, t, g, LocalTry(i, t, g, c).value)
  {}

  lemma TrySums(i: nat, t: Thread, g: Shared, c: Choice)
    requires ThreadOk(i, t, g) && LocalTry(i, t, g, c).Some?
    ensures GoodSums(t, g, LocalTry(i, t, g, c).value)
  {}

  lemma TryProtocol(i: nat, t: Thread, g: Shared, c: Choice)
    requires ThreadOk(i, t, g) && LocalTry(i, t, g, c).Some?
    ensures GoodProtocol(i, t, g, LocalTry(i, t, g, c).value)
  {}

  lemma TryIds(i: nat, t: Thread, g: Shared, c: Choice, id: nat)
    requires ThreadOk(i, t, g) && LocalTry(i, t, g, c).Some?
    ensures GoodIds(t, g, LocalTry(i, t, g, c).value, id)
  {
    hide Count;
    if g.jobs != [] {
      var k := |g.jobs| - 1;
      assert g.jobs == g.jobs[..k] + [g.jobs[k]];
      CountSnoc(g.jobs[..k], g.jobs[k], id);
      CountSnoc(t.stack, g.jobs[k], id);
    }
  }

  lemma WaitShape(i: nat, t: Thread, g: Shared, c: Choice)
    requires ThreadOk(i, t, g) && LocalWait(i, t, g, c).Some?
    ensures GoodShape(i, t, g, LocalWait(i, t, g, c).value)
  {}

  lemma WaitSums(i: nat, t: Thread, g: Shared, c: Choice)
    requires ThreadOk(i, t, g) && LocalWait(i, t, g, c).Some?
    ensures GoodSums(t, g, LocalWait(i, t, g, c).value)
  {}

  lemma WaitProtocol(i: nat, t: Thread, g: Shared, c: Choice)
    requires ThreadOk(i, t, g) && LocalWait(i, t, g, c).Some?
    ensures GoodProtocol(i, t, g, LocalWait(i, t, g, c).value)
  {}

  lemma WaitIds(i: nat, t: Thread, g: Shared, c: Choice, id: nat)
    requires ThreadOk(i, t, g) && LocalWait(i, t, g, c).Some?
    ensures GoodIds(t, g, LocalWait(i, t, g, c).value, id)
  {
    hide Count;
  }

  lemma LoopShape(i: nat, t: Thread, g: Shared, c: Choice)
    requires ThreadOk(i, t, g) && LocalLoop(i, t, g, c).Some?
    ensures GoodShape(i, t, g, LocalLoop(i, t, g, c).value)
  {}

  lemma LoopSums(i: nat, t: Thread, g: Shared, c: Choice)
    requires ThreadOk(i, t, g) && LocalLoop(i, t, g, c).Some?
    ensures GoodSums(t, g, LocalLoop(i, t, g, c).value)
  {}

  lemma LoopProtocol(i: nat, t: Thread, g: Shared, c: Choice)
    requires ThreadOk(i, t, g) && LocalLoop(i, t, g, c).Some?
    ensures GoodProtocol(i, t, g, LocalLoop(i, t, g, c).value)
  {}

  lemma LoopIds(i: nat, t: Thread, g: Shared, c: Choice, id: nat)
    requires ThreadOk(i, t, g) && LocalLoop(i, t, g, c).Some?
    ensures GoodIds(t, g, LocalLoop(i, t, g, c).value, id)
  {
    hide Count;
  }

  lemma SleepShape(i: nat, t: Thread, g: Shared, c: Choice)
    requires ThreadOk(i, t, g) && LocalSleep(i, t, g, c).Some?
    ensures GoodShape(i, t, g, LocalSleep(i, t, g, c).value)
  {}

  lemma SleepSums(i: nat, t: Thread, g: Shared, c: Choice)
    requires ThreadOk(i, t, g) && LocalSleep(i, t, g, c).Some?
    ensures GoodSums(t, g, LocalSleep(i, t, g, c).value)
  {}

  lemma SleepProtocol(i: nat, t: Thread, g: Shared, c: Choice)
    requires ThreadOk(i, t, g) && LocalSleep(i, t, g, c).Some?
    ensures GoodProtocol(i, t, g, LocalSleep(i, t, g, c).value)
  {}

  lemma SleepIds(i: nat, t: Thread, g: Shared, c: Choice, id: nat)
    requires ThreadOk(i, t, g) && LocalSleep(i, t, g, c).Some?
    ensures GoodIds(t, g, LocalSleep(i, t, g, c).value, id)
  {
    hide Count;
  }

  lemma StopShape(i: nat, t: Thread, g: Shared, c: Choice)
    requires ThreadOk(i, t, g) && LocalStop(i, t, g, c).Some?
    ensures GoodShape(i, t, g, LocalStop(i, t, g, c).value)
  {}

  lemma StopSums(i: nat, t: Thread, g: Shared, c: Choice)
    requires ThreadOk(i, t, g) && LocalStop(i, t, g, c).Some?
    ensures GoodSums(t, g, LocalStop(i, t, g, c).value)
  {}

  lemma StopProtocol(i: nat, t: Thread, g: Shared, c: Choice)
    requires ThreadOk(i, t, g) && LocalStop(i, t, g, c).Some?
    ensures GoodProtocol(i, t, g, LocalStop(i, t, g, c).value)
  {}

  lemma StopIds(i: nat, t: Thread, g: Shared, c: Choice, id: nat)
    requires ThreadOk(i, t, g) && LocalStop(i, t, g, c).Some?
    ensures GoodIds(t, g, LocalStop(i, t, g, c).value, id)
  {
    hide Count;
  }

  lemma GoodLocal(i: nat, t: Thread, g: Shared, c: Choice, id: nat)
    requires ThreadOk(i, t, g) && Local(i, t, g, c).Some?
    ensures GoodShape(i, t, g, Local(i, t, g, c).value)
    ensures GoodSums(t, g, Local(i, t, g, c).value)
    ensures GoodIds(t, g, Local(i, t, g, c).value, id)
    ensures GoodProtocol(i, t, g, Local(i, t, g, c).value)
  {
    hide ThreadOk, GoodShape, GoodSums, GoodIds, GoodProtocol, LocalAnnounce, LocalCode, LocalJob, LocalPush, LocalTry, LocalWait, LocalLoop, LocalSleep, LocalStop;
    match t.pc
    case Code => CodeShape(i, t, g, c); CodeSums(i, t, g, c); CodeIds(i, t, g, c, id); CodeProtocol(i, t, g, c);
    case JobSub | JobNotify => JobShape(i, t, g, c); JobSums(i, t, g, c); JobIds(i, t, g, c, id); JobProtocol(i, t, g, c);
    case PushEpoch | PushSleepers | PushNotify => AnnounceShape(i, t, g, c); AnnounceSums(i, t, g, c); AnnounceIds(i, t, g, c, id); AnnounceProtocol(i, t, g, c);
    case PushPending | PushLock | PushBack | PushQueued => PushShape(i, t, g, c); PushSums(i, t, g, c); PushIds(i, t, g, c, id); PushProtocol(i, t, g, c);
    case TryQueued | TryLock | TryPop | TryCount => TryShape(i, t, g, c); TrySums(i, t, g, c); TryIds(i, t, g, c, id); TryProtocol(i, t, g, c);
    case WaitLoad | WaitCompare | WaitBlocked => WaitShape(i, t, g, c); WaitSums(i, t, g, c); WaitIds(i, t, g, c, id); WaitProtocol(i, t, g, c);
    case LoopStop | Spin | SpinStop | Exited => LoopShape(i, t, g, c); LoopSums(i, t, g, c); LoopIds(i, t, g, c, id); LoopProtocol(i, t, g, c);
    case SleepInc | SleepEpoch | SleepQueued | SleepStop | SleepCompare | SleepBlocked | SleepDec => SleepShape(i, t, g, c); SleepSums(i, t, g, c); SleepIds(i, t, g, c, id); SleepProtocol(i, t, g, c);
    case StopStore | StopEpoch | StopNotify | StopJoin => StopShape(i, t, g, c); StopSums(i, t, g, c); StopIds(i, t, g, c, id); StopProtocol(i, t, g, c);
  }

  lemma ThreadOkOther(k: nat, u: Thread, g: Shared, g': Shared, w: Notify)
    requires ThreadOk(k, u, g) && SharedGrows(g, g')
    requires u.pc.StopNotify? || u.pc.StopJoin? ==> g'.stopEpoch.Some?
    ensures ThreadOk(k, AfterNotify(w, k, u), g')
  {}

  lemma ThreadsStep(s: State, i: nat, c: Choice)
    requires Threads(s) && i < |s.threads| && Act(s, i, c).Some?
    ensures Threads(Act(s, i, c).value)
  {
    hide ThreadOk, Local, AfterNotify, CanNotify;
    var e := Local(i, s.threads[i], s.g, c).value;
    var s' := Act(s, i, c).value;
    GoodLocal(i, s.threads[i], s.g, c, 0);
    forall k | 0 <= k < |s'.threads| ensures ThreadOk(k, s'.threads[k], s'.g) {
      if k != i {
        StopKnown(k, s.threads[k], s.g);
        ThreadOkOther(k, s.threads[k], s.g, e.g, e.wake);
      }
    }
  }

  lemma StopKnown(k: nat, u: Thread, g: Shared)
    requires ThreadOk(k, u, g)
    ensures u.pc.StopNotify? || u.pc.StopJoin? ==> g.stopEpoch.Some?
  {}

  lemma LockStep(s: State, i: nat, c: Choice)
    requires Threads(s) && LockHeld(s) && i < |s.threads| && Act(s, i, c).Some?
    ensures LockHeld(Act(s, i, c).value)
  {
    hide ThreadOk, Local, CanNotify;
    GoodLocal(i, s.threads[i], s.g, c, 0);
  }

  lemma CountsStep(s: State, i: nat, c: Choice)
    requires Threads(s) && Counts(s) && i < |s.threads| && Act(s, i, c).Some?
    ensures Counts(Act(s, i, c).value)
  {
    WeightsBlind(0);
    hide ThreadOk, Local, CanNotify, AfterNotify, SleepWeight, CountWeight, PendingWeight, WakeBlind;
    GoodLocal(i, s.threads[i], s.g, c, 0);
    SumAfter(s, i, c, SleepWeight);
    SumAfter(s, i, c, CountWeight);
    SumAfter(s, i, c, PendingWeight);
  }

  lemma WeightsBlind(id: nat)
    ensures WakeBlind(SleepWeight) && WakeBlind(CountWeight) && WakeBlind(PendingWeight) && WakeBlind(IdWeight(id))
  {}

  lemma ConservedStep(s: State, i: nat, c: Choice)
    requires Threads(s) && Conserved(s) && i < |s.threads| && Act(s, i, c).Some?
    ensures Conserved(Act(s, i, c).value)
  {
    hide ThreadOk, Local, CanNotify, AfterNotify, IdsHeld, WakeBlind, Count;
    var s' := Act(s, i, c).value;
    forall id: nat
      ensures Count(s'.g.jobs, id) + Count(s'.g.done, id) + Sum(s'.threads, IdWeight(id))
           == if id < s'.g.nextId then 1 else 0
    {
      WeightsBlind(id);
      GoodLocal(i, s.threads[i], s.g, c, id);
      SumAfter(s, i, c, IdWeight(id));
    }
  }

  // ----- nobody sleeps through a push -----

  lemma FreshStep(s: State, i: nat, c: Choice)
    requires Inv(s) && i < |s.threads| && Act(s, i, c).Some?
    ensures FreshSleepers(Act(s, i, c).value)
  {
    hide ThreadOk, Local, CanNotify, Counts, LockHeld, Conserved, SomeoneAlert, StopReached, CompletionNotified;
    var t, e := s.threads[i], Local(i, s.threads[i], s.g, c).value;
    var s' := Act(s, i, c).value;
    GoodLocal(i, t, s.g, c, 0);
    if s'.g.jobs != [] && exists k :: 0 <= k < |s'.threads| && Committed(s'.threads[k]) && s'.threads[k].epoch == s'.g.epoch {
      var k :| 0 <= k < |s'.threads| && Committed(s'.threads[k]) && s'.threads[k].epoch == s'.g.epoch;
      if BeforeEpoch(e.t) {
        assert BeforeEpoch(s'.threads[i]);
      } else if k == i && !Committed(t) {
        QueuedMissing(s);
        var j :| 0 <= j < |s.threads| && BeforeEpoch(s.threads[j]);
        assert BeforeEpoch(s'.threads[j]);
      } else {
        EpochBound(s, k);
        assert Committed(s.threads[k]) && s.threads[k].epoch == s'.threads[k].epoch;
        var j :| 0 <= j < |s.threads| && BeforeEpoch(s.threads[j]);
        assert BeforeEpoch(s'.threads[j]);
      }
    }
  }

  lemma EpochBound(s: State, k: nat)
    requires Threads(s) && k < |s.threads|
    ensures s.threads[k].epoch <= s.g.epoch
  {}

  /** queued == 0 with a job in the queue: its push has not counted it yet. */
  lemma QueuedMissing(s: State)
    requires Counts(s) && s.g.queued == 0
    ensures s.g.jobs != [] ==> exists j :: 0 <= j < |s.threads| && BeforeEpoch(s.threads[j])
  {
    if s.g.jobs != [] {
      var f := (t: Thread) => 0 - CountWeight(t);
      SumNegate(s.threads, CountWeight, f);
      SumWitness(s.threads, f);
      var j :| 0 <= j < |s.threads| && f(s.threads[j]) > 0;
      assert BeforeEpoch(s.threads[j]);
    }
  }

  lemma AlertStep(s: State, i: nat, c: Choice)
    requires Inv(s) && i < |s.threads| && Act(s, i, c).Some?
    ensures SomeoneAlert(Act(s, i, c).value)
  {
    hide ThreadOk, Local, Counts, LockHeld, Conserved, StopReached, CompletionNotified;
    var t, e := s.threads[i], Local(i, s.threads[i], s.g, c).value;
    var s' := Act(s, i, c).value;
    GoodLocal(i, t, s.g, c, 0);
    if s'.g.jobs != [] && !s'.g.stopping && |s'.threads| > 1 {
      if Alert(i, e.t) {
        assert Alert(i, s'.threads[i]);
      } else if s.g.jobs == [] {
        assert false;
      } else {
        var k :| 0 <= k < |s.threads| && Alert(k, s.threads[k]);
        if k != i {
          assert Alert(k, s'.threads[k]);
        } else if t.pc.SleepCompare? {
          assert Committed(s.threads[i]);
          var j :| 0 <= j < |s.threads| && BeforeEpoch(s.threads[j]);
          assert Alert(j, s'.threads[j]);
        } else if t.pc.PushSleepers? {
          WorkerOneAwake(s);
          assert Alert(1, s.threads[1]);
          assert Alert(1, s'.threads[1]);
        } else {
          NotifiedSomeone(s, i, c);
        }
      }
    }
  }

  lemma WorkerOneAwake(s: State)
    requires Threads(s) && Counts(s) && s.g.sleepers == 0 && |s.threads| > 1 && !s.g.stopping
    ensures Alert(1, s.threads[1])
  {
    SumAtLeast(s.threads, SleepWeight, 1);
    assert SleepWeight(s.threads[1]) == 0;
    assert ThreadOk(1, s.threads[1], s.g);
  }

  /** notify_one woke a sleeper, or there was none and worker one is awake. */
  lemma NotifiedSomeone(s: State, i: nat, c: Choice)
    requires Inv(s) && i < |s.threads| && Act(s, i, c).Some? && s.threads[i].pc.PushNotify?
    requires |s.threads| > 1 && !s.g.stopping
    ensures exists k :: 0 <= k < |s.threads| && Alert(k, Act(s, i, c).value.threads[k])
  {
    hide ThreadOk, Local, Counts, LockHeld, Conserved, StopReached, CompletionNotified;
    var t, e := s.threads[i], Local(i, s.threads[i], s.g, c).value;
    var s' := Act(s, i, c).value;
    GoodLocal(i, t, s.g, c, 0);
    if e.wake.OneSleeper? {
      var k := e.wake.worker;
      assert s.threads[k].pc == SleepBlocked && k != i;
      SleeperIsWorker(k, s.threads[k], s.g);
      assert Alert(k, s'.threads[k]);
    } else {
      assert !Sleeps(s.threads, 1);
      if i == 1 {
        assert Alert(1, s'.threads[1]);
      } else {
        NotExited(1, s.threads[1], s.g);
        assert Alert(1, s'.threads[1]);
      }
    }
  }

  lemma SleeperIsWorker(k: nat, t: Thread, g: Shared)
    requires ThreadOk(k, t, g) && t.pc == SleepBlocked
    ensures k > 0
  {}

  lemma NotExited(k: nat, t: Thread, g: Shared)
    requires ThreadOk(k, t, g) && !g.stopping
    ensures t.pc != Exited
  {}

  // ----- deinit and wait_till_done -----

  lemma StopStep(s: State, i: nat, c: Choice)
    requires Inv(s) && i < |s.threads| && Act(s, i, c).Some?
    ensures StopReached(Act(s, i, c).value)
  {
    hide Local, ThreadOk, Counts, LockHeld, Conserved, FreshSleepers, SomeoneAlert, CompletionNotified;
    var t, e := s.threads[i], Local(i, s.threads[i], s.g, c).value;
    var s' := Act(s, i, c).value;
    GoodLocal(i, t, s.g, c, 0);
    if s'.threads[0].pc == StopJoin {
      forall k | 0 <= k < |s'.threads| ensures s'.threads[k].pc != SleepBlocked {
        if k == i && s'.threads[i].pc == SleepBlocked {
          StopKnown(0, s.threads[0], s.g);
          NoFreshAfterStop(i, t, s.g);
        }
      }
    }
  }

  lemma NoFreshAfterStop(i: nat, t: Thread, g: Shared)
    requires ThreadOk(i, t, g) && g.stopEpoch.Some? && t.pc == SleepCompare
    ensures t.epoch < g.epoch
  {}

  lemma CompletionStep(s: State, i: nat, c: Choice)
    requires Inv(s) && i < |s.threads| && Act(s, i, c).Some?
    ensures CompletionNotified(Act(s, i, c).value)
  {
    hide Local, ThreadOk, Counts, LockHeld, Conserved, FreshSleepers, SomeoneAlert, StopReached;
    var t, e := s.threads[i], Local(i, s.threads[i], s.g, c).value;
    var s' := Act(s, i, c).value;
    GoodLocal(i, t, s.g, c, 0);
    PendingNonNegative(s);
    if s'.threads[0].pc == WaitBlocked && s'.g.pending == 0 {
      assert i != 0;
      if e.t.pc == JobNotify {
        assert s'.threads[i].pc == JobNotify;
      } else {
        var j :| 0 <= j < |s.threads| && s.threads[j].pc == JobNotify;
        assert s'.threads[j].pc == JobNotify;
      }
    }
  }

  lemma PendingNonNegative(s: State)
    requires Counts(s)
    ensures s.g.pending >= 0
  {
    SumNonNegative(s.threads, PendingWeight);
  }

  lemma InvStep(s: State, i: nat, c: Choice)
    requires Inv(s) && i < |s.threads| && Act(s, i, c).Some?
    ensures Inv(Act(s, i, c).value)
  {
    ThreadsStep(s, i, c);
    LockStep(s, i, c);
    CountsStep(s, i, c);
    ConservedStep(s, i, c);
    FreshStep(s, i, c);
    AlertStep(s, i, c);
    StopStep(s, i, c);
    CompletionStep(s, i, c);
  }

  lemma InvInit(workers: nat)
    ensures Inv(Init(workers))
  {
    var s := Init(workers);
    forall k | 0 <= k < |s.threads| ensures ThreadOk(k, s.threads[k], s.g) && !Critical(s.threads[k]) {}
    SumZero(s.threads, SleepWeight);
    SumZero(s.threads, CountWeight);
    SumZero(s.threads, PendingWeight);
    forall id: nat ensures Sum(s.threads, IdWeight(id)) == 0 {
      SumZero(s.threads, IdWeight(id));
    }
  }

  /** Every state of every run. */
  lemma {:induction false} Reachable(workers: nat, schedule: seq<(nat, Choice)>)
    ensures Inv(Run(Init(workers), schedule))
    ensures |Run(Init(workers), schedule).threads| == workers + 1
  {
    if schedule == [] {
      InvInit(workers);
    } else {
      var n := |schedule| - 1;
      Reachable(workers, schedule[..n]);
      var r := Run(Init(workers), schedule[..n]);
      var (i, c) := schedule[n];
      if i < |r.threads| && Act(r, i, c).Some? {
        hide Inv, Local;
        InvStep(r, i, c);
      }
    }
  }

  // ----- the theorems -----

  /** With at least one worker and no stop requested, a queued job whose push has
      completed never finds all workers asleep. */
  lemma NoLostWakeup(workers: nat, schedule: seq<(nat, Choice)>)
    requires workers >= 1
    ensures var s := Run(Init(workers), schedule);
      !(s.g.jobs != [] && !s.g.stopping
        && (forall k :: 0 <= k < |s.threads| ==> !InFlight(s.threads[k]))
        && (forall k :: 1 <= k < |s.threads| ==> s.threads[k].pc == SleepBlocked))
  {
    Reachable(workers, schedule);
  }

  /** Once deinit has notified and joins, no worker is blocked. */
  lemma NobodySleepsAfterStop(workers: nat, schedule: seq<(nat, Choice)>)
    ensures var s := Run(Init(workers), schedule);
      s.threads != [] && s.threads[0].pc == StopJoin ==>
        forall k :: 0 <= k < |s.threads| ==> s.threads[k].pc != SleepBlocked
  {
    Reachable(workers, schedule);
  }

  /** pending counts the jobs being pushed, queued and running, each exactly once,
      and queued never underflows. */
  lemma PendingIsExact(workers: nat, schedule: seq<(nat, Choice)>, id: nat)
    ensures var s := Run(Init(workers), schedule);
      && s.g.pending == |s.g.jobs| + Sum(s.threads, PendingWeight)
      && Count(s.g.jobs, id) + Count(s.g.done, id) + Sum(s.threads, IdWeight(id)) == (if id < s.g.nextId then 1 else 0)
      && s.g.queued >= 0
  {
    Reachable(workers, schedule);
    var s := Run(Init(workers), schedule);
    hide Run, Init;
    QueuedNonNegative(s);
  }

  lemma QueuedNonNegative(s: State)
    requires Inv(s)
    ensures s.g.queued >= 0
  {
    hide Conserved, FreshSleepers, SomeoneAlert, StopReached, CompletionNotified, ThreadOk;
    if exists j :: 0 <= j < |s.threads| && s.threads[j].pc == PushQueued {
      var j :| 0 <= j < |s.threads| && s.threads[j].pc == PushQueued;
      var idle := s.threads[j].(pc := Code);
      var ts := s.threads[j := idle];
      forall k | 0 <= k < |ts| ensures CountWeight(ts[k]) == 0 {
        if k != j { assert !Critical(s.threads[k]); }
      }
      SumZero(ts, CountWeight);
      SumUpdate(s.threads, j, idle, CountWeight);
    } else {
      forall k | 0 <= k < |s.threads| ensures CountWeight(s.threads[k]) >= 0 {
        assert s.threads[k].pc != PushQueued;
      }
      SumNonNegative(s.threads, CountWeight);
    }
  }

  /** When wait_till_done returns, every job pushed so far is done exactly once,
      nothing is queued, and no thread is inside a job. */
  lemma WaitReturnsWhenAllDone(workers: nat, schedule: seq<(nat, Choice)>, c: Choice)
    ensures var s := Run(Init(workers), schedule);
      s.threads != [] && s.threads[0].pc == WaitLoad && Act(s, 0, c).Some? && Act(s, 0, c).value.threads[0].pc == Code ==>
        && s.g.jobs == [] && (forall k :: 0 <= k < |s.threads| ==> s.threads[k].stack == [])
        && forall id: nat :: id < s.g.nextId ==> Count(s.g.done, id) == 1
  {
    Reachable(workers, schedule);
    var s := Run(Init(workers), schedule);
    hide Run, Init;
    if s.threads != [] && s.threads[0].pc == WaitLoad && s.g.pending == 0 { NothingPending(s); }
  }

  lemma NothingPending(s: State)
    requires Inv(s) && s.g.pending == 0
    ensures s.g.jobs == [] && (forall k :: 0 <= k < |s.threads| ==> s.threads[k].stack == [])
    ensures forall id: nat :: id < s.g.nextId ==> Count(s.g.done, id) == 1
  {
    hide FreshSleepers, SomeoneAlert, StopReached, CompletionNotified, ThreadOk, LockHeld;
    SumNonNegative(s.threads, PendingWeight);
    forall k | 0 <= k < |s.threads| ensures PendingWeight(s.threads[k]) == 0 {
      SumAtLeast(s.threads, PendingWeight, k);
    }
    forall k | 0 <= k < |s.threads| ensures s.threads[k].stack == [] && s.threads[k].pushing == None {
      assert PendingWeight(s.threads[k]) == 0;
    }
    forall id: nat | id < s.g.nextId ensures Count(s.g.done, id) == 1 {
      forall k | 0 <= k < |s.threads| ensures IdWeight(id)(s.threads[k]) == 0 {
        assert s.threads[k].stack == [];
      }
      SumZero(s.threads, IdWeight(id));
      assert Count(s.g.jobs, id) + Count(s.g.done, id) + Sum(s.threads, IdWeight(id)) == 1;
    }
  }

  /** The main thread is never left blocked on a pending that has reached zero:
      the notify of the last job is then still to come. */
  lemma NoLostCompletion(workers: nat, schedule: seq<(nat, Choice)>)
    ensures var s := Run(Init(workers), schedule);
      s.threads != [] && s.threads[0].pc == WaitBlocked && s.g.pending == 0 ==>
        exists j :: 0 <= j < |s.threads| && s.threads[j].pc == JobNotify
  {
    Reachable(workers, schedule);
  }
}
