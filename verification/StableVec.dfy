/** Slot reuse in a StableVec with tracked generations
    (src/utils/stable_vec.hpp, stable_vec_slot.hpp, stable_vec_ref.hpp): any
    number of threads in push_back, removals at any time, and a collector that
    visits one slot per step. */
module StableVec {
  import opened Sums
  import opened Options

  datatype SlotState = FreeList | Used | Free

  /** A slot word; collecting a slot writes zero over state and generation. */
  datatype Slot = Slot(state: SlotState, gen: nat)

  datatype Range = Range(start: nat, len: nat)

  /** The stages of push_back: nothing taken, a range taken, the rest of the range
      returned, and the generation loaded. */
  datatype Pusher = Idle | Took(range: Range) | Returned(slot: nat) | Loaded(slot: nat, gen: nat)

  datatype State = State(
    curr: nat,
    slots: seq<Slot>,
    free: seq<Range>,
    pushers: seq<Pusher>,
    // the collector: next slot to visit, where it stops, and what it collected
    scan: Option<nat>,
    scanEnd: nat,
    temp: seq<nat>,
    // history: refs that were removed, and the generation each slot last lost
    dead: set<(nat, nat)>,
    last: map<nat, nat>)

  datatype Choice = Push(thread: nat) | Remove(slot: nat) | Collect

  function FreshSlots(n: nat): seq<Slot> {
    seq(n, _ => Slot(FreeList, 0))
  }

  function Init(slab: nat, threads: nat): State {
    State(1, FreshSlots(slab), [Range(0, slab)], seq(threads, _ => Idle), None, 0, [], {}, map[])
  }

  /** One step of a thread inside push_back. */
  function PushStep(s: State, i: nat, slab: nat): State
    requires i < |s.pushers|
  {
    match s.pushers[i]
    case Idle =>
      if s.free != [] then
        s.(pushers := s.pushers[i := Took(s.free[|s.free| - 1])], free := s.free[..|s.free| - 1])
      else
        s.(pushers := s.pushers[i := Took(Range(|s.slots|, slab))], slots := s.slots + FreshSlots(slab))
    case Took(r) =>
      s.(pushers := s.pushers[i := Returned(r.start)],
         free := if r.len > 1 then s.free + [Range(r.start + 1, r.len - 1)] else s.free)
    case Returned(k) => s.(pushers := s.pushers[i := Loaded(k, s.curr)])
    case Loaded(k, g) =>
      if k < |s.slots| then s.(pushers := s.pushers[i := Idle], slots := s.slots[k := Slot(Used, g)]) else s
  }

  function Singles(ks: seq<nat>): seq<Range> {
    seq(|ks|, i requires 0 <= i < |ks| => Range(ks[i], 1))
  }

  /** One step of collect_garbage: bump the generation, visit a slot, or hand the
      collected slots to the free list. */
  function CollectStep(s: State): State {
    if s.scan == None then
      s.(curr := s.curr + 1, scan := Some(0), scanEnd := |s.slots|)
    else
      var p := s.scan.value;
      if p < s.scanEnd && p < |s.slots| then
        if s.slots[p].state == Free then
          s.(slots := s.slots[p := Slot(FreeList, 0)], temp := s.temp + [p], last := s.last[p := s.slots[p].gen], scan := Some(p + 1))
        else
          s.(scan := Some(p + 1))
      else
        s.(free := s.free + Singles(s.temp), temp := [], scan := None)
  }

  function RemoveStep(s: State, k: nat): State {
    if k < |s.slots| && s.slots[k].state == Used then
      s.(slots := s.slots[k := Slot(Free, s.slots[k].gen)], dead := s.dead + {(k, s.slots[k].gen)})
    else s
  }

  function Act(s: State, c: Choice, slab: nat): State {
    match c
    case Push(i) => if i < |s.pushers| then PushStep(s, i, slab) else s
    case Remove(k) => RemoveStep(s, k)
    case Collect => CollectStep(s)
  }

  function Run(s: State, schedule: seq<Choice>, slab: nat): State {
    if schedule == [] then s else Act(Run(s, schedule[..|schedule| - 1], slab), schedule[|schedule| - 1], slab)
  }

  /** SRef::is_valid: one comparison of the slot word. */
  predicate IsValid(s: State, k: nat, gen: nat) {
    k < |s.slots| && s.slots[k] == Slot(Used, gen)
  }

  // ----- who owns a slot -----

  function InRange(r: Range, k: nat): int { if r.start <= k < r.start + r.len then 1 else 0 }

  function RangeHas(k: nat): Range -> int { (r: Range) => InRange(r, k) }

  function Pushing(p: Pusher, k: nat): int {
    match p
    case Idle => 0
    case Took(r) => InRange(r, k)
    case Returned(j) => if j == k then 1 else 0
    case Loaded(j, _) => if j == k then 1 else 0
  }

  function PusherHas(k: nat): Pusher -> int { (p: Pusher) => Pushing(p, k) }

  function Same(j: nat, k: nat): int { if j == k then 1 else 0 }

  function TempHas(k: nat): nat -> int { (j: nat) => Same(j, k) }

  function Taken(s: State, k: nat): int {
    if k < |s.slots| && s.slots[k].state != FreeList then 1 else 0
  }

  /** Every slot has exactly one owner: a free range, a thread in push_back, the
      collector, or its own Used or Free state. */
  function Owners(s: State, k: nat): int {
    Sum(s.free, RangeHas(k)) + Sum(s.pushers, PusherHas(k)) + Sum(s.temp, TempHas(k)) + Taken(s, k)
  }

  ghost predicate Owned(s: State) {
    && (forall k: nat :: Owners(s, k) == if k < |s.slots| then 1 else 0)
    && (forall j :: 0 <= j < |s.free| ==> s.free[j].len > 0)
    && (forall i :: 0 <= i < |s.pushers| ==> s.pushers[i].Took? ==> s.pushers[i].range.len > 0)
  }

  lemma OwnedParts(s: State, k: nat)
    ensures 0 <= Taken(s, k) <= 1
    ensures Sum(s.free, RangeHas(k)) >= 0 && Sum(s.pushers, PusherHas(k)) >= 0 && Sum(s.temp, TempHas(k)) >= 0
  {
    SumNonNegative(s.free, RangeHas(k));
    SumNonNegative(s.pushers, PusherHas(k));
    SumNonNegative(s.temp, TempHas(k));
  }

  /** A slot a thread is about to publish is on the free list by its word, and in
      nobody else's hands. */
  lemma HeldSlot(s: State, i: nat, k: nat)
    requires Owned(s) && i < |s.pushers| && Pushing(s.pushers[i], k) == 1
    ensures k < |s.slots| && s.slots[k].state == FreeList
    ensures forall j :: 0 <= j < |s.pushers| && j != i ==> Pushing(s.pushers[j], k) == 0
  {
    OwnedParts(s, k);
    SumAtLeast(s.pushers, PusherHas(k), i);
    assert Owners(s, k) == if k < |s.slots| then 1 else 0;
    forall j | 0 <= j < |s.pushers| && j != i ensures Pushing(s.pushers[j], k) == 0 {
      var rest := s.pushers[i := Idle];
      SumUpdate(s.pushers, i, Idle, PusherHas(k));
      SumAtLeast(rest, PusherHas(k), j);
      assert PusherHas(k)(rest[j]) == Pushing(s.pushers[j], k);
    }
  }

  lemma PushOwned(s: State, i: nat, slab: nat)
    requires Owned(s) && i < |s.pushers| && slab > 0
    ensures Owned(PushStep(s, i, slab))
  {
    var s' := PushStep(s, i, slab);
    if s.pushers[i].Loaded? { HeldSlot(s, i, s.pushers[i].slot); }
    forall k: nat ensures Owners(s', k) == if k < |s'.slots| then 1 else 0 {
      assert Owners(s, k) == if k < |s.slots| then 1 else 0;
      SumUpdate(s.pushers, i, s'.pushers[i], PusherHas(k));
      assert s'.pushers == s.pushers[i := s'.pushers[i]];
      match s.pushers[i]
      case Idle =>
        if s.free != [] {
          var n := |s.free| - 1;
          assert s.free == s.free[..n] + [s.free[n]];
          SumSnoc(s.free[..n], s.free[n], RangeHas(k));
        }
      case Took(r) =>
        SumSnoc(s.free, Range(r.start + 1, r.len - 1), RangeHas(k));
      case Returned(j) =>
      case Loaded(j, g) =>
    }
  }

  lemma {:induction false} SinglesSum(ks: seq<nat>, k: nat)
    ensures Sum(Singles(ks), RangeHas(k)) == Sum(ks, TempHas(k))
  {
    if ks != [] {
      assert Singles(ks)[1..] == Singles(ks[1..]);
      SinglesSum(ks[1..], k);
    }
  }

  lemma CollectOwned(s: State)
    requires Owned(s)
    ensures Owned(CollectStep(s))
  {
    var s' := CollectStep(s);
    forall k: nat ensures Owners(s', k) == if k < |s'.slots| then 1 else 0 {
      assert Owners(s, k) == if k < |s.slots| then 1 else 0;
      if s.scan.Some? {
        SumSnoc(s.temp, s.scan.value, TempHas(k));
        SinglesSum(s.temp, k);
        SumConcat(s.free, Singles(s.temp), RangeHas(k));
      }
    }
  }

  lemma ActOwned(s: State, c: Choice, slab: nat)
    requires Owned(s) && slab > 0
    ensures Owned(Act(s, c, slab))
  {
    match c
    case Push(i) => if i < |s.pushers| { PushOwned(s, i, slab); }
    case Collect => CollectOwned(s);
    case Remove(k) =>
      var s' := RemoveStep(s, k);
      forall j: nat ensures Owners(s', j) == if j < |s'.slots| then 1 else 0 {
        assert Owners(s, j) == if j < |s.slots| then 1 else 0;
      }
  }

  // ----- generations -----

  /** Bounds on every generation a removed ref can carry. */
  ghost predicate Generations(s: State) {
    && (forall k, g :: (k, g) in s.dead ==> k < |s.slots| && g <= s.curr)
    && (forall k :: 0 <= k < |s.slots| ==> s.slots[k].gen <= s.curr && (s.slots[k].state == FreeList ==> s.slots[k].gen == 0))
    && (forall k, g :: (k, g) in s.dead && s.slots[k].state != FreeList ==> g <= s.slots[k].gen)
    && (forall k, g :: (k, g) in s.dead && s.slots[k].state == FreeList ==> k in s.last && g <= s.last[k])
    && (forall k :: 0 <= k < |s.slots| && s.slots[k].state == Free ==> (k, s.slots[k].gen) in s.dead)
    && (forall k :: k in s.last ==> k < |s.slots| && (k, s.last[k]) in s.dead)
    && (forall i :: 0 <= i < |s.pushers| && s.pushers[i].Loaded? ==>
          s.pushers[i].gen <= s.curr && (s.pushers[i].slot in s.last ==> s.last[s.pushers[i].slot] <= s.pushers[i].gen))
  }

  ghost predicate Inv(s: State) {
    Owned(s) && Generations(s)
  }

  lemma TakenSlot(s: State, i: nat, k: nat)
    requires Owned(s) && i < |s.pushers| && k < |s.slots| && s.slots[k].state != FreeList
    ensures Pushing(s.pushers[i], k) == 0
  {
    if Pushing(s.pushers[i], k) == 1 { HeldSlot(s, i, k); }
  }

  lemma PushGenerations(s: State, i: nat, slab: nat)
    requires Inv(s) && i < |s.pushers|
    ensures Generations(PushStep(s, i, slab))
  {
    var p := s.pushers[i];
    if p.Loaded? {
      HeldSlot(s, i, p.slot);
    } else if p.Returned? {
      HeldSlot(s, i, p.slot);
    } else if p.Idle? && s.free == [] {
      forall k: nat | k >= |s.slots| ensures k !in s.last {}
    }
    hide Owned;
  }

  lemma CollectGenerations(s: State)
    requires Inv(s)
    ensures Generations(CollectStep(s))
  {
    if s.scan.Some? && s.scan.value < s.scanEnd && s.scan.value < |s.slots| && s.slots[s.scan.value].state == Free {
      var p := s.scan.value;
      forall i | 0 <= i < |s.pushers| && s.pushers[i].Loaded? ensures s.pushers[i].slot != p {
        TakenSlot(s, i, p);
      }
    }
    hide Owned;
  }

  lemma ActKeeps(s: State, c: Choice, slab: nat)
    requires Inv(s) && slab > 0
    ensures Inv(Act(s, c, slab))
  {
    ActOwned(s, c, slab);
    match c
    case Push(i) => if i < |s.pushers| { PushGenerations(s, i, slab); }
    case Collect => CollectGenerations(s);
    case Remove(k) => hide Owned;
  }

  lemma InitOwned(slab: nat, threads: nat)
    requires slab > 0
    ensures Inv(Init(slab, threads))
  {
    var s := Init(slab, threads);
    forall k: nat ensures Owners(s, k) == if k < |s.slots| then 1 else 0 {
      SumZero(s.pushers, PusherHas(k));
      assert s.free == [] + [Range(0, slab)];
      SumSnoc([], Range(0, slab), RangeHas(k));
    }
  }

  lemma {:induction false} Reachable(slab: nat, threads: nat, schedule: seq<Choice>)
    requires slab > 0
    ensures Inv(Run(Init(slab, threads), schedule, slab))
  {
    if schedule == [] {
      InitOwned(slab, threads);
    } else {
      hide Inv, Act;
      Reachable(slab, threads, schedule[..|schedule| - 1]);
      ActKeeps(Run(Init(slab, threads), schedule[..|schedule| - 1], slab), schedule[|schedule| - 1], slab);
    }
  }

  // ----- the theorems -----

  /** Free ranges are disjoint, hold only FreeList slots, and no slot is in two
      hands: not in two ranges, two pushes, or a range and a live object. */
  lemma NoSlotTwice(slab: nat, threads: nat, schedule: seq<Choice>, k: nat)
    requires slab > 0
    ensures var s := Run(Init(slab, threads), schedule, slab);
      Sum(s.free, RangeHas(k)) + Sum(s.pushers, PusherHas(k)) + Sum(s.temp, TempHas(k)) + Taken(s, k)
      == if k < |s.slots| then 1 else 0
  {
    Reachable(slab, threads, schedule);
    var s := Run(Init(slab, threads), schedule, slab);
    assert Owners(s, k) == if k < |s.slots| then 1 else 0;
  }

  /** A publish makes a removed ref valid again exactly when the slot was last
      collected while it held the very generation now published. */
  lemma RevivedIff(slab: nat, threads: nat, schedule: seq<Choice>, i: nat)
    requires slab > 0
    ensures var s := Run(Init(slab, threads), schedule, slab);
      i < |s.pushers| && s.pushers[i].Loaded? ==>
        var k, g := s.pushers[i].slot, s.pushers[i].gen;
        var s' := Act(s, Push(i), slab);
        && IsValid(s', k, g) && !IsValid(s, k, g)
        && ((exists h :: (k, h) in s.dead && IsValid(s', k, h)) <==> k in s.last && s.last[k] == g)
        && (forall j, h :: j != k && (j, h) in s.dead ==> (IsValid(s', j, h) <==> IsValid(s, j, h)))
  {
    Reachable(slab, threads, schedule);
    var s := Run(Init(slab, threads), schedule, slab);
    hide Run, Init;
    if i < |s.pushers| && s.pushers[i].Loaded? {
      HeldSlot(s, i, s.pushers[i].slot);
    }
  }

  /** No other step makes a ref valid: validity begins with a publish. */
  lemma OnlyPublishValidates(s: State, c: Choice, slab: nat, k: nat, g: nat)
    requires !IsValid(s, k, g) && IsValid(Act(s, c, slab), k, g)
    ensures c.Push? && c.thread < |s.pushers| && s.pushers[c.thread] == Loaded(k, g)
  {}

  /** And it ends only with the removal of that ref. */
  lemma OnlyRemoveInvalidates(s: State, c: Choice, slab: nat, k: nat, g: nat)
    requires Inv(s) && IsValid(s, k, g) && !IsValid(Act(s, c, slab), k, g)
    ensures c == Remove(k) && (k, g) in Act(s, c, slab).dead
  {
    match c
    case Push(i) =>
      if i < |s.pushers| { TakenSlot(s, i, k); }
      hide Owned, Generations;
    case _ => hide Owned, Generations;
  }

  // ----- when a removed ref stays dead -----

  /** The guard of the collecting branch: the slot visited is not one that was
      published and removed since the generation was bumped. */
  predicate Guarded(s: State, c: Choice) {
    c == Collect && s.scan.Some? && s.scan.value < s.scanEnd && s.scan.value < |s.slots| ==>
      s.slots[s.scan.value] != Slot(Free, s.curr)
  }

  predicate GuardedRun(s: State, schedule: seq<Choice>, slab: nat) {
    schedule == [] ||
    (GuardedRun(s, schedule[..|schedule| - 1], slab)
     && Guarded(Run(s, schedule[..|schedule| - 1], slab), schedule[|schedule| - 1]))
  }

  /** What collected slots lost is older than what a push publishes, and no removed
      ref is valid. */
  ghost predicate Dead(s: State) {
    && (forall k :: k in s.last ==> s.last[k] < s.curr)
    && (forall i :: 0 <= i < |s.pushers| && s.pushers[i].Loaded? && s.pushers[i].slot in s.last ==>
          s.last[s.pushers[i].slot] < s.pushers[i].gen)
    && (forall k, g :: (k, g) in s.dead ==> !IsValid(s, k, g))
  }

  lemma DeadStep(s: State, c: Choice, slab: nat)
    requires Inv(s) && Dead(s) && Guarded(s, c)
    ensures Dead(Act(s, c, slab))
  {
    match c
    case Push(i) =>
      if i < |s.pushers| && s.pushers[i].Loaded? { HeldSlot(s, i, s.pushers[i].slot); }
      hide Owned;
    case Collect => CollectDead(s);
    case Remove(_) => hide Owned;
  }

  lemma CollectDead(s: State)
    requires Inv(s) && Dead(s) && Guarded(s, Collect)
    ensures Dead(CollectStep(s))
  {
    if s.scan.Some? && s.scan.value < |s.slots| && s.slots[s.scan.value].state == Free {
      forall i | 0 <= i < |s.pushers| && s.pushers[i].Loaded? ensures s.pushers[i].slot != s.scan.value {
        TakenSlot(s, i, s.scan.value);
      }
    }
    hide Owned;
  }

  /** As long as no visited slot was removed in the current generation, no removed
      ref is ever valid again, however pushes, removals and collections overlap. */
  lemma {:induction false} GuardIsSafe(slab: nat, threads: nat, schedule: seq<Choice>)
    requires slab > 0 && GuardedRun(Init(slab, threads), schedule, slab)
    ensures var s := Run(Init(slab, threads), schedule, slab);
      Dead(s) && forall k, g :: (k, g) in s.dead ==> !IsValid(s, k, g)
  {
    if schedule != [] {
      var before := schedule[..|schedule| - 1];
      GuardIsSafe(slab, threads, before);
      Reachable(slab, threads, before);
      hide Inv, Act, Init, Dead, Guarded;
      DeadStep(Run(Init(slab, threads), before, slab), schedule[|schedule| - 1], slab);
      DeadMeans(Run(Init(slab, threads), schedule, slab));
    }
  }

  lemma DeadMeans(s: State)
    requires Dead(s)
    ensures forall k, g :: (k, g) in s.dead ==> !IsValid(s, k, g)
  {}

  /** A caller's discipline that is enough: the collector runs only while no push_back does. */
  predicate Quiet(s: State, c: Choice) {
    match c
    case Push(_) => s.scan == None
    case Collect => forall i :: 0 <= i < |s.pushers| ==> s.pushers[i] == Idle
    case Remove(_) => true
  }

  predicate QuietRun(s: State, schedule: seq<Choice>, slab: nat) {
    schedule == [] ||
    (QuietRun(s, schedule[..|schedule| - 1], slab)
     && Quiet(Run(s, schedule[..|schedule| - 1], slab), schedule[|schedule| - 1]))
  }

  /** While a collection runs, nothing was published in its generation. */
  ghost predicate Settled(s: State) {
    s.scan.Some? ==> forall k :: 0 <= k < |s.slots| && s.slots[k].state != FreeList ==> s.slots[k].gen < s.curr
  }

  lemma SettledStep(s: State, c: Choice, slab: nat)
    requires Generations(s) && Settled(s) && Quiet(s, c)
    ensures Guarded(s, c) && Settled(Act(s, c, slab))
  {}

  /** A quiet run is guarded. */
  lemma {:induction false} QuietIsGuarded(slab: nat, threads: nat, schedule: seq<Choice>)
    requires slab > 0 && QuietRun(Init(slab, threads), schedule, slab)
    ensures GuardedRun(Init(slab, threads), schedule, slab) && Settled(Run(Init(slab, threads), schedule, slab))
  {
    if schedule != [] {
      var before := schedule[..|schedule| - 1];
      QuietIsGuarded(slab, threads, before);
      Reachable(slab, threads, before);
      hide Owned, Generations, Act, Init, Settled, Guarded, Quiet;
      SettledStep(Run(Init(slab, threads), before, slab), schedule[|schedule| - 1], slab);
    }
  }

  /** With collection kept apart from push_back, a removed ref is never valid again. */
  lemma QuietIsSafe(slab: nat, threads: nat, schedule: seq<Choice>)
    requires slab > 0 && QuietRun(Init(slab, threads), schedule, slab)
    ensures var s := Run(Init(slab, threads), schedule, slab);
      forall k, g :: (k, g) in s.dead ==> !IsValid(s, k, g)
  {
    QuietIsGuarded(slab, threads, schedule);
    GuardIsSafe(slab, threads, schedule);
  }

  // ----- and when it need not -----

  lemma {:induction false} RunConcat(s: State, a: seq<Choice>, b: seq<Choice>, slab: nat)
    ensures Run(s, a + b, slab) == Run(Run(s, a, slab), b, slab)
  {
    hide Act;
    if b == [] {
      assert a + b == a;
    } else {
      assert (a + b)[..|a + b| - 1] == a + b[..|b| - 1];
      RunConcat(s, a, b[..|b| - 1], slab);
    }
  }

  lemma RunOne(s: State, c: Choice, slab: nat)
    ensures Run(s, [c], slab) == Act(s, c, slab)
  {
    assert [c][..0] == [];
    assert Run(s, [], slab) == s;
  }

  /** What the continuation never touches: the generation, and the removed refs. */
  predicate SameEpoch(s: State, t: State) {
    t.curr == s.curr && t.dead == s.dead && |t.pushers| == |s.pushers|
  }

  /** Thread 0 finishes the push it is in. */
  lemma FinishPush(s: State, slab: nat) returns (t: State, more: seq<Choice>)
    requires Inv(s) && slab > 0 && |s.pushers| > 0
    ensures t == Run(s, more, slab) && Inv(t) && SameEpoch(s, t) && t.pushers[0] == Idle
    ensures t.scan == s.scan && t.scanEnd == s.scanEnd && t.temp == s.temp
    decreases match s.pushers[0] case Idle => 0 case Took(_) => 3 case Returned(_) => 2 case Loaded(_, _) => 1
  {
    if s.pushers[0] == Idle {
      t, more := s, [];
    } else {
      var u := Act(s, Push(0), slab);
      ActKeeps(s, Push(0), slab);
      if s.pushers[0].Loaded? { HeldSlot(s, 0, s.pushers[0].slot); }
      hide Inv;
      t, more := FinishPush(u, slab);
      RunOne(s, Push(0), slab);
      RunConcat(s, [Push(0)], more, slab);
      more := [Push(0)] + more;
    }
  }

  /** The collector finishes its scan and hands over what it holds, in order. */
  lemma FinishScan(s: State, slab: nat) returns (t: State, more: seq<Choice>, temp: seq<nat>)
    requires Inv(s) && slab > 0 && s.scan.Some?
    ensures t == Run(s, more, slab) && Inv(t) && SameEpoch(s, t) && t.pushers == s.pushers
    ensures s.temp <= temp && t.free == s.free + Singles(temp)
    decreases s.scanEnd - s.scan.value
  {
    var u := Act(s, Collect, slab);
    ActKeeps(s, Collect, slab);
    RunOne(s, Collect, slab);
    hide Inv;
    if s.scan.value < s.scanEnd && s.scan.value < |s.slots| {
      t, more, temp := FinishScan(u, slab);
      RunConcat(s, [Collect], more, slab);
      more := [Collect] + more;
    } else {
      t, more, temp := u, [Collect], s.temp;
    }
  }

  /** One push by thread 0 publishes the last slot of the free list. */
  lemma OnePush(s: State, slab: nat) returns (t: State)
    requires Inv(s) && slab > 0 && |s.pushers| > 0 && s.pushers[0] == Idle && s.free != [] && s.free[|s.free| - 1].len == 1
    ensures t == Run(s, [Push(0), Push(0), Push(0), Push(0)], slab) && Inv(t) && SameEpoch(s, t) && t.pushers[0] == Idle
    ensures t.free == s.free[..|s.free| - 1] && IsValid(t, s.free[|s.free| - 1].start, s.curr)
  {
    var k := s.free[|s.free| - 1].start;
    var s1 := Act(s, Push(0), slab);
    ActKeeps(s, Push(0), slab);
    var s2 := Act(s1, Push(0), slab);
    ActKeeps(s1, Push(0), slab);
    var s3 := Act(s2, Push(0), slab);
    ActKeeps(s2, Push(0), slab);
    assert s3.pushers[0] == Loaded(k, s.curr);
    HeldSlot(s3, 0, k);
    t := Act(s3, Push(0), slab);
    ActKeeps(s3, Push(0), slab);
    hide Inv, Run;
    Twice(s, slab);
    Twice(s2, slab);
    RunConcat(s, [Push(0), Push(0)], [Push(0), Push(0)], slab);
    assert [Push(0), Push(0)] + [Push(0), Push(0)] == [Push(0), Push(0), Push(0), Push(0)];
  }

  lemma Twice(s: State, slab: nat)
    ensures Run(s, [Push(0), Push(0)], slab) == Act(Act(s, Push(0), slab), Push(0), slab)
  {
    hide Act;
    RunOne(s, Push(0), slab);
    RunOne(Act(s, Push(0), slab), Push(0), slab);
    RunConcat(s, [Push(0)], [Push(0)], slab);
    assert [Push(0)] + [Push(0)] == [Push(0), Push(0)];
  }

  /** Pushes until the slot at position at of the free list has been published. */
  lemma PushUntil(s: State, at: nat, slab: nat) returns (t: State, more: seq<Choice>)
    requires Inv(s) && slab > 0 && |s.pushers| > 0 && s.pushers[0] == Idle && at < |s.free|
    requires forall j :: at <= j < |s.free| ==> s.free[j].len == 1
    ensures t == Run(s, more, slab) && SameEpoch(s, t) && IsValid(t, s.free[at].start, s.curr)
    decreases |s.free|
  {
    hide Inv, Run;
    var u := OnePush(s, slab);
    more := [Push(0), Push(0), Push(0), Push(0)];
    if at + 1 == |s.free| {
      t := u;
    } else {
      var rest;
      t, rest := PushUntil(u, at, slab);
      RunConcat(s, more, rest, slab);
      more := more + rest;
    }
  }

  /** The visited slot joins what the collector holds, its removed ref is of the current generation. */
  lemma CollectsLate(s: State)
    requires Inv(s) && !Guarded(s, Collect)
    ensures s.scan.Some? && (s.scan.value, s.curr) in s.dead
    ensures var t := CollectStep(s); t.scan.Some? && t.temp == s.temp + [s.scan.value] && SameEpoch(s, t)
  {
    hide Owned;
  }

  /** From any reachable state in which the collector visits a slot removed in the
      current generation, the removed ref can become valid again. */
  lemma UnguardedRevives(slab: nat, threads: nat, schedule: seq<Choice>) returns (more: seq<Choice>)
    requires slab > 0 && threads > 0 && !Guarded(Run(Init(slab, threads), schedule, slab), Collect)
    ensures var s := Run(Init(slab, threads), schedule, slab);
      var t := Run(s, [Collect] + more, slab);
      (s.scan.value, s.curr) in t.dead && IsValid(t, s.scan.value, s.curr)
  {
    hide Inv, Run, Init, Act, Guarded, Singles;
    var s := Run(Init(slab, threads), schedule, slab);
    Reachable(slab, threads, schedule);
    ThreadsStay(slab, threads, schedule);
    CollectsLate(s);
    more := Revive(s, slab);
  }

  lemma Revive(s: State, slab: nat) returns (more: seq<Choice>)
    requires Inv(s) && slab > 0 && |s.pushers| > 0 && !Guarded(s, Collect) && s.scan.Some?
    ensures var t := Run(s, [Collect] + more, slab); t.dead == s.dead && IsValid(t, s.scan.value, s.curr)
  {
    hide Inv, Run, Guarded, Singles, CollectStep, PushStep;
    var p := s.scan.value;
    CollectsLate(s);
    var s1 := Act(s, Collect, slab);
    ActKeeps(s, Collect, slab);
    hide Act;
    RunOne(s, Collect, slab);
    var s2, a := FinishPush(s1, slab);
    var s3, b, temp := FinishScan(s2, slab);
    var at := |s2.free| + |s.temp|;
    CollectedAt(s2.free, temp, s.temp, p, at);
    var t, c := PushUntil(s3, at, slab);
    RunConcat(s, [Collect], a, slab);
    RunConcat(s, [Collect] + a, b, slab);
    RunConcat(s, [Collect] + a + b, c, slab);
    more := a + b + c;
    assert [Collect] + a + b + c == [Collect] + more;
  }

  lemma CollectedAt(free: seq<Range>, temp: seq<nat>, before: seq<nat>, p: nat, at: nat)
    requires before + [p] <= temp && at == |free| + |before|
    ensures at < |free + Singles(temp)| && (free + Singles(temp))[at].start == p
    ensures forall j :: at <= j < |free + Singles(temp)| ==> (free + Singles(temp))[j].len == 1
  {
    assert temp[|before|] == (before + [p])[|before|];
  }

  lemma {:induction false} ThreadsStay(slab: nat, threads: nat, schedule: seq<Choice>)
    ensures |Run(Init(slab, threads), schedule, slab).pushers| == threads
  {
    if schedule != [] { ThreadsStay(slab, threads, schedule[..|schedule| - 1]); }
  }

  // ----- counting slots -----

  function RangeLen(): Range -> int { (r: Range) => r.len }

  function PushCount(p: Pusher): int {
    match p
    case Idle => 0
    case Took(r) => r.len
    case Returned(_) => 1
    case Loaded(_, _) => 1
  }

  function InPush(): Pusher -> int { (p: Pusher) => PushCount(p) }

  function InState(state: SlotState): Slot -> int { (t: Slot) => if t.state == state then 1 else 0 }

  /** Slots on the free list, in a push, held by the collector, and live or removed. */
  function Counted(s: State): int {
    Sum(s.free, RangeLen()) + Sum(s.pushers, InPush()) + |s.temp| + Sum(s.slots, InState(Used)) + Sum(s.slots, InState(Free))
  }

  lemma {:induction false} SinglesLen(ks: seq<nat>)
    ensures Sum(Singles(ks), RangeLen()) == |ks|
  {
    if ks != [] {
      assert Singles(ks)[1..] == Singles(ks[1..]);
      SinglesLen(ks[1..]);
    }
  }

  /** Rewriting one slot word. */
  lemma SlotUpdate(s: State, k: nat, t: Slot)
    requires k < |s.slots|
    ensures Sum(s.slots[k := t], InState(Used)) == Sum(s.slots, InState(Used)) - (if s.slots[k].state == Used then 1 else 0) + (if t.state == Used then 1 else 0)
    ensures Sum(s.slots[k := t], InState(Free)) == Sum(s.slots, InState(Free)) - (if s.slots[k].state == Free then 1 else 0) + (if t.state == Free then 1 else 0)
  {
    SumUpdate(s.slots, k, t, InState(Used));
    SumUpdate(s.slots, k, t, InState(Free));
  }

  lemma NewSlab(s: State, slab: nat)
    ensures Sum(s.slots + FreshSlots(slab), InState(Used)) == Sum(s.slots, InState(Used))
    ensures Sum(s.slots + FreshSlots(slab), InState(Free)) == Sum(s.slots, InState(Free))
  {
    SumZero(FreshSlots(slab), InState(Used));
    SumZero(FreshSlots(slab), InState(Free));
    SumConcat(s.slots, FreshSlots(slab), InState(Used));
    SumConcat(s.slots, FreshSlots(slab), InState(Free));
  }

  lemma PushCounted(s: State, i: nat, slab: nat)
    requires Inv(s) && i < |s.pushers| && Counted(s) == |s.slots|
    ensures var t := PushStep(s, i, slab); Counted(t) == |t.slots|
  {
    var t := PushStep(s, i, slab);
    SumUpdate(s.pushers, i, t.pushers[i], InPush());
    assert t.pushers == s.pushers[i := t.pushers[i]];
    match s.pushers[i]
    case Idle =>
      if s.free != [] {
        var n := |s.free| - 1;
        assert s.free == s.free[..n] + [s.free[n]];
        SumSnoc(s.free[..n], s.free[n], RangeLen());
      } else {
        NewSlab(s, slab);
      }
    case Took(r) => SumSnoc(s.free, Range(r.start + 1, if r.len > 1 then r.len - 1 else 0), RangeLen());
    case Returned(j) =>
    case Loaded(k, g) =>
      HeldSlot(s, i, k);
      SlotUpdate(s, k, Slot(Used, g));
  }

  lemma ActCounted(s: State, c: Choice, slab: nat)
    requires Inv(s) && Counted(s) == |s.slots|
    ensures var t := Act(s, c, slab); Counted(t) == |t.slots|
  {
    match c
    case Push(i) => if i < |s.pushers| { PushCounted(s, i, slab); }
    case Remove(k) => if k < |s.slots| { SlotUpdate(s, k, Slot(Free, s.slots[k].gen)); }
    case Collect =>
      SinglesLen(s.temp);
      SumConcat(s.free, Singles(s.temp), RangeLen());
      if s.scan.Some? && s.scan.value < |s.slots| { SlotUpdate(s, s.scan.value, Slot(FreeList, 0)); }
  }

  /** n_used: the slots not on the free list are those being pushed, those being
      collected, and those that are live or removed. */
  lemma {:induction false} SlotsAddUp(slab: nat, threads: nat, schedule: seq<Choice>)
    requires slab > 0
    ensures var s := Run(Init(slab, threads), schedule, slab);
      |s.slots| - Sum(s.free, RangeLen())
      == Sum(s.pushers, InPush()) + |s.temp| + Sum(s.slots, InState(Used)) + Sum(s.slots, InState(Free))
  {
    var s := Run(Init(slab, threads), schedule, slab);
    if schedule == [] {
      InitCounted(slab, threads);
    } else {
      var before := schedule[..|schedule| - 1];
      SlotsAddUp(slab, threads, before);
      Reachable(slab, threads, before);
      hide Inv, Act, Init;
      ActCounted(Run(Init(slab, threads), before, slab), schedule[|schedule| - 1], slab);
    }
  }

  lemma InitCounted(slab: nat, threads: nat)
    ensures var s := Init(slab, threads); Counted(s) == |s.slots|
  {
    var s := Init(slab, threads);
    SumZero(s.pushers, InPush());
    SumZero(s.slots, InState(Used));
    SumZero(s.slots, InState(Free));
    assert s.free == [] + [Range(0, slab)];
    SumSnoc([], Range(0, slab), RangeLen());
  }

  // ----- a run in which it happens -----

  /** One slot, one pushing thread: a push that starts before the generation is
      bumped publishes after it, and its slot is removed and collected at once. */
  const SAME_GENERATION: seq<Choice> := [Push(0), Push(0), Collect, Push(0), Push(0), Remove(0), Collect, Collect]

  lemma CollectedInItsGeneration()
    ensures Run(Init(1, 1), SAME_GENERATION, 1)
         == State(2, [Slot(FreeList, 0)], [Range(0, 1)], [Idle], None, 1, [], {(0, 2)}, map[0 := 2])
  {
    hide Run;
    var s0 := Init(1, 1);
    RunNothing(s0);
    var s2 := Two(s0, [], Push(0), Push(0));
    assert s2 == State(1, [Slot(FreeList, 0)], [], [Returned(0)], None, 0, [], {}, map[]);
    assert [] + [Push(0), Push(0)] == [Push(0), Push(0)];
    var s4 := Two(s0, [Push(0), Push(0)], Collect, Push(0));
    assert s4 == State(2, [Slot(FreeList, 0)], [], [Loaded(0, 2)], Some(0), 1, [], {}, map[]);
    assert [Push(0), Push(0)] + [Collect, Push(0)] == [Push(0), Push(0), Collect, Push(0)];
    var s6 := Two(s0, [Push(0), Push(0), Collect, Push(0)], Push(0), Remove(0));
    assert s6 == State(2, [Slot(Free, 2)], [], [Idle], Some(0), 1, [], {(0, 2)}, map[]);
    assert [Push(0), Push(0), Collect, Push(0)] + [Push(0), Remove(0)] == [Push(0), Push(0), Collect, Push(0), Push(0), Remove(0)];
    var s8 := Two(s0, [Push(0), Push(0), Collect, Push(0), Push(0), Remove(0)], Collect, Collect);
    assert Act(s6, Collect, 1) == State(2, [Slot(FreeList, 0)], [], [Idle], Some(1), 1, [0], {(0, 2)}, map[0 := 2]);
    assert Singles([0]) == [Range(0, 1)];
    assert [Push(0), Push(0), Collect, Push(0), Push(0), Remove(0)] + [Collect, Collect] == SAME_GENERATION;
  }

  /** The shortest case: the next push brings the removed ref back. */
  lemma InterleavedCollectRevives()
    ensures var s := Run(Init(1, 1), SAME_GENERATION + [Push(0), Push(0), Push(0), Push(0)], 1);
      (0, 2) in s.dead && IsValid(s, 0, 2)
  {
    hide Run, Init;
    CollectedInItsGeneration();
    var s10 := Two(Init(1, 1), SAME_GENERATION, Push(0), Push(0));
    assert s10 == State(2, [Slot(FreeList, 0)], [], [Returned(0)], None, 1, [], {(0, 2)}, map[0 := 2]);
    var s12 := Two(Init(1, 1), SAME_GENERATION + [Push(0), Push(0)], Push(0), Push(0));
    assert SAME_GENERATION + [Push(0), Push(0)] + [Push(0), Push(0)] == SAME_GENERATION + [Push(0), Push(0), Push(0), Push(0)];
  }

  lemma RunNothing(s: State)
    ensures Run(s, [], 1) == s
  {}

  lemma Two(s: State, before: seq<Choice>, a: Choice, b: Choice) returns (r: State)
    ensures r == Act(Act(Run(s, before, 1), a, 1), b, 1) == Run(s, before + [a, b], 1)
  {
    r := Act(Act(Run(s, before, 1), a, 1), b, 1);
    var all := before + [a, b];
    assert all[..|all| - 1] == before + [a];
    assert (before + [a])[..|before + [a]| - 1] == before;
  }
}
