/** The region arena with snapshot and rewind (src/utils/arena.cpp), as a state
    and what its operations make of it. */
module ArenaModel {

  const DEFAULT_CAPACITY := 16 * 1024
  const MIN_ALIGN := 16

  /** A region's memory is capacity words from base, of which count are handed out. */
  datatype Reg = Reg(base: nat, capacity: nat, count: nat)

  /** A live allocation: size bytes at lo, inside the words from..upto of a region. */
  datatype Block = Block(region: nat, from: nat, upto: nat, lo: nat, size: nat)

  /** The chain of regions, the index of end (-1 for a null end), and what is allocated. */
  datatype State = State(regs: seq<Reg>, end: int, blocks: seq<Block>)

  function Words(bytes: nat): (w: nat)
    ensures 8 * w >= bytes + 16 && w >= 2
  {
    (bytes + MIN_ALIGN + 8 - 1) / 8
  }

  function Align(p: nat): (q: nat)
    ensures p <= q < p + MIN_ALIGN && q % MIN_ALIGN == 0
  {
    (p + MIN_ALIGN - 1) / MIN_ALIGN * MIN_ALIGN
  }

  predicate Apart(a: Reg, b: Reg) {
    a.base + 8 * a.capacity <= b.base || b.base + 8 * b.capacity <= a.base
  }

  predicate Disjoint(a: Block, b: Block) {
    a.lo + a.size <= b.lo || b.lo + b.size <= a.lo
  }

  /** A block is aligned and lies within its reserved words, all of them handed out. */
  predicate InPlace(b: Block, regs: seq<Reg>) {
    && b.region < |regs|
    && b.from < b.upto <= regs[b.region].count
    && b.lo % MIN_ALIGN == 0
    && regs[b.region].base + 8 * b.from <= b.lo
    && b.lo + b.size <= regs[b.region].base + 8 * b.upto
  }

  predicate RegsOk(regs: seq<Reg>, end: int) {
    && -1 <= end < |regs|
    && (end == -1 <==> regs == [])
    && (forall i :: 0 <= i < |regs| ==> regs[i].base % MIN_ALIGN == 0 && regs[i].count <= regs[i].capacity)
    && (forall i :: end < i < |regs| ==> regs[i].count == 0)
    && (forall i, j :: 0 <= i < j < |regs| ==> Apart(regs[i], regs[j]))
  }

  /** Regions after end are empty, and live allocations are in place and pairwise disjoint. */
  predicate Ok(s: State) {
    && RegsOk(s.regs, s.end)
    && (forall k :: 0 <= k < |s.blocks| ==> InPlace(s.blocks[k], s.regs))
    && (forall j, k :: 0 <= j < k < |s.blocks| ==> Disjoint(s.blocks[j], s.blocks[k]))
  }

  function NewCapacity(size: nat): nat {
    if DEFAULT_CAPACITY < size then size else DEFAULT_CAPACITY
  }

  /** What malloc promises about the place of a new region. */
  predicate PlaceOk(s: State, place: nat, size: nat) {
    place % MIN_ALIGN == 0 && forall i :: 0 <= i < |s.regs| ==> Apart(s.regs[i], Reg(place, NewCapacity(size), 0))
  }

  predicate Fits(r: Reg, size: nat) {
    r.count + size <= r.capacity
  }

  /** Where the walk along the chain stops. */
  function Seek(regs: seq<Reg>, size: nat, i: nat): (r: nat)
    requires i < |regs|
    ensures i <= r < |regs| && (r + 1 == |regs| || Fits(regs[r], size))
    decreases |regs| - i
  {
    if !Fits(regs[i], size) && i + 1 < |regs| then Seek(regs, size, i + 1) else i
  }

  /** The chain and end after room for size words was found or made. */
  function MakeRoom(s: State, size: nat, place: nat): (r: State)
    requires RegsOk(s.regs, s.end) && PlaceOk(s, place, size)
    ensures RegsOk(r.regs, r.end) && r.end >= 0 && Fits(r.regs[r.end], size) && r.blocks == s.blocks
    ensures |s.regs| <= |r.regs| <= |s.regs| + 1 && r.regs[..|s.regs|] == s.regs && s.end <= r.end
    ensures r.end > s.end ==> r.regs[r.end].count == 0
  {
    if s.end == -1 then
      State([Reg(place, NewCapacity(size), 0)], 0, s.blocks)
    else
      var i := Seek(s.regs, size, s.end);
      if Fits(s.regs[i], size) then s.(end := i)
      else State(s.regs + [Reg(place, NewCapacity(size), 0)], |s.regs|, s.blocks)
  }

  /** The words handed out and the block they become. */
  function Take(s: State, bytes: nat): (r: State)
    requires 0 <= s.end < |s.regs|
  {
    var e, size := s.regs[s.end], Words(bytes);
    State(s.regs[s.end := e.(count := e.count + size)], s.end,
          s.blocks + [Block(s.end, e.count, e.count + size, Align(e.base + 8 * e.count), bytes)])
  }

  function Alloc(s: State, bytes: nat, place: nat): State
    requires RegsOk(s.regs, s.end) && PlaceOk(s, place, Words(bytes))
  {
    Take(MakeRoom(s, Words(bytes), place), bytes)
  }

  /** The blocks whose words are still handed out. */
  function Surviving(blocks: seq<Block>, regs: seq<Reg>): seq<Block> {
    if blocks == [] then [] else
    var b := blocks[|blocks| - 1];
    Surviving(blocks[..|blocks| - 1], regs) + if b.region < |regs| && b.upto <= regs[b.region].count then [b] else []
  }

  /** Clears the regions from first to end, ends at back. */
  function Cleared(s: State, first: nat, back: nat, count: nat): (r: seq<Reg>)
    ensures |r| == |s.regs| && forall i :: 0 <= i < |r| ==> r[i].base == s.regs[i].base
  {
    seq(|s.regs|, i requires 0 <= i < |s.regs| =>
      if i == back then s.regs[i].(count := count) else if first <= i <= s.end then s.regs[i].(count := 0) else s.regs[i])
  }

  function Reset(s: State): State {
    var regs := Cleared(s, 0, 0, 0);
    State(regs, if regs == [] then -1 else 0, Surviving(s.blocks, regs))
  }

  datatype Mark = Mark(region: int, count: nat)

  function Snapshot(s: State): Mark
    requires RegsOk(s.regs, s.end)
  {
    if s.end == -1 then Mark(-1, 0) else Mark(s.end, s.regs[s.end].count)
  }

  /** What the caller of rewind must have kept: the mark's words are still handed out. */
  predicate MarkOk(s: State, m: Mark) {
    -1 <= m.region <= s.end < |s.regs| && (m.region >= 0 ==> m.count <= s.regs[m.region].count)
  }

  function Rewind(s: State, m: Mark): State
    requires MarkOk(s, m)
  {
    if m.region == -1 then Reset(s) else
    var regs := Cleared(s, m.region + 1, m.region, m.count);
    State(regs, m.region, Surviving(s.blocks, regs))
  }

  // ----- every step keeps the arena in order -----

  lemma AllocIsSafe(s: State, bytes: nat, place: nat)
    requires Ok(s) && PlaceOk(s, place, Words(bytes))
    ensures var r := Alloc(s, bytes, place);
      && Ok(r) && |r.blocks| == |s.blocks| + 1 && r.blocks[..|s.blocks|] == s.blocks
      && r.blocks[|s.blocks|].size == bytes && r.blocks[|s.blocks|].lo % MIN_ALIGN == 0
  {
    var t := MakeRoom(s, Words(bytes), place);
    forall k | 0 <= k < |s.blocks| ensures InPlace(s.blocks[k], t.regs) {
      assert t.regs[s.blocks[k].region] == s.regs[s.blocks[k].region];
    }
    TakeIsSafe(t, bytes);
  }

  lemma TakeIsSafe(t: State, bytes: nat)
    requires Ok(t) && t.end >= 0 && Fits(t.regs[t.end], Words(bytes))
    ensures Ok(Take(t, bytes))
  {
    var r := Take(t, bytes);
    var b := r.blocks[|t.blocks|];
    forall k | 0 <= k < |t.blocks| ensures InPlace(t.blocks[k], r.regs) && Disjoint(t.blocks[k], b) {
      var o := t.blocks[k];
      assert InPlace(o, t.regs);
      if o.region < t.end {
        assert Apart(t.regs[o.region], t.regs[t.end]);
      }
    }
    forall i, j | 0 <= i < j < |r.regs| ensures Apart(r.regs[i], r.regs[j]) {
      assert Apart(t.regs[i], t.regs[j]);
    }
  }

  lemma {:induction false} SurvivingIsPart(blocks: seq<Block>, regs: seq<Reg>, now: seq<Reg>)
    requires forall k :: 0 <= k < |blocks| ==> InPlace(blocks[k], regs)
    requires forall j, k :: 0 <= j < k < |blocks| ==> Disjoint(blocks[j], blocks[k])
    requires |now| == |regs| && forall i :: 0 <= i < |regs| ==> now[i].base == regs[i].base
    ensures var r := Surviving(blocks, now);
      && (forall b :: b in r ==> InPlace(b, now) && b in blocks)
      && (forall j, k :: 0 <= j < k < |r| ==> Disjoint(r[j], r[k]))
  {
    if blocks != [] {
      var n := |blocks| - 1;
      SurvivingIsPart(blocks[..n], regs, now);
      var part := Surviving(blocks[..n], now);
      assert InPlace(blocks[n], regs);
      forall b | b in part ensures b in blocks && Disjoint(b, blocks[n]) {
        assert b in blocks[..n];
        var j :| 0 <= j < |blocks[..n]| && blocks[..n][j] == b;
        assert blocks[j] == b;
      }
      assert forall k :: 0 <= k < |part| ==> part[k] in part;
    }
  }

  lemma ClearedIsOk(s: State, first: nat, back: nat, count: nat, end: int)
    requires Ok(s) && s.regs != [] && end == back <= s.end && back <= first <= back + 1
    requires count <= s.regs[back].count
    ensures RegsOk(Cleared(s, first, back, count), end)
  {
    var r := Cleared(s, first, back, count);
    forall i, j | 0 <= i < j < |r| ensures Apart(r[i], r[j]) {
      assert Apart(s.regs[i], s.regs[j]);
    }
  }

  lemma BlocksSafe(s: State, regs: seq<Reg>, end: int)
    requires Ok(s) && RegsOk(regs, end) && |regs| == |s.regs| && forall i :: 0 <= i < |regs| ==> regs[i].base == s.regs[i].base
    ensures Ok(State(regs, end, Surviving(s.blocks, regs)))
  {
    SurvivingIsPart(s.blocks, s.regs, regs);
    hide RegsOk, InPlace, Surviving, Disjoint;
    var r := Surviving(s.blocks, regs);
    assert forall k :: 0 <= k < |r| ==> r[k] in r;
  }

  lemma ResetIsSafe(s: State)
    requires Ok(s)
    ensures Ok(Reset(s))
  {
    if s.regs != [] { ClearedIsOk(s, 0, 0, 0, 0); }
    BlocksSafe(s, Reset(s).regs, Reset(s).end);
  }

  lemma RewindIsSafe(s: State, m: Mark)
    requires Ok(s) && MarkOk(s, m)
    ensures Ok(Rewind(s, m))
  {
    hide InPlace, Disjoint, Apart, Cleared, Surviving;
    if m.region == -1 {
      ResetIsSafe(s);
    } else {
      ClearedIsOk(s, m.region + 1, m.region, m.count, m.region);
      BlocksSafe(s, Cleared(s, m.region + 1, m.region, m.count), m.region);
    }
  }

  // ----- nesting -----

  /** s is reached from s0 without giving back anything s0 had. */
  ghost predicate Grown(s0: State, s: State) {
    && |s0.regs| <= |s.regs| && s0.end <= s.end && |s0.blocks| <= |s.blocks|
    && (forall i :: 0 <= i < |s0.regs| ==> s.regs[i].base == s0.regs[i].base && s.regs[i].capacity == s0.regs[i].capacity)
    && (forall i :: 0 <= i < s0.end && i < |s0.regs| ==> s.regs[i].count == s0.regs[i].count)
    && (0 <= s0.end < |s0.regs| ==> s0.regs[s0.end].count <= s.regs[s0.end].count)
    && s.blocks[..|s0.blocks|] == s0.blocks
    && (forall k :: |s0.blocks| <= k < |s.blocks| ==> Later(s.blocks[k], s0))
  }

  /** The block uses words that s0 had not handed out. */
  predicate Later(b: Block, s0: State) {
    b.from < b.upto && (b.region > s0.end || (b.region == s0.end && b.region < |s0.regs| && b.from >= s0.regs[b.region].count))
  }

  /** The allocation state of s0, with perhaps more empty regions behind. */
  ghost predicate Restored(s0: State, s: State) {
    && s.blocks == s0.blocks
    && |s0.regs| <= |s.regs| && s.regs[..|s0.regs|] == s0.regs
    && (forall i :: |s0.regs| <= i < |s.regs| ==> s.regs[i].count == 0)
    && (s0.end >= 0 ==> s.end == s0.end) && (s0.end == -1 ==> s.end <= 0)
  }

  lemma GrownByAlloc(s0: State, s: State, bytes: nat, place: nat)
    requires Ok(s0) && Ok(s) && Grown(s0, s) && PlaceOk(s, place, Words(bytes))
    ensures Grown(s0, Alloc(s, bytes, place))
  {
    var t := MakeRoom(s, Words(bytes), place);
    assert forall i :: 0 <= i < |s.regs| ==> t.regs[i] == s.regs[i];
    var r := Take(t, bytes);
    assert r.blocks[..|s.blocks|] == s.blocks;
    assert r.blocks[..|s0.blocks|] == s.blocks[..|s0.blocks|];
  }

  lemma GrownTransitive(s0: State, s1: State, s2: State)
    requires Ok(s0) && Ok(s1) && Ok(s2) && Grown(s0, s1) && Restored(s1, s2)
    ensures Grown(s0, s2)
  {
    assert forall i :: 0 <= i < |s1.regs| ==> s2.regs[i] == s1.regs[i];
  }

  lemma {:induction false} SurvivingAll(blocks: seq<Block>, regs: seq<Reg>)
    requires forall k :: 0 <= k < |blocks| ==> blocks[k].region < |regs| && blocks[k].upto <= regs[blocks[k].region].count
    ensures Surviving(blocks, regs) == blocks
  {
    if blocks != [] {
      SurvivingAll(blocks[..|blocks| - 1], regs);
      assert blocks == blocks[..|blocks| - 1] + [blocks[|blocks| - 1]];
    }
  }

  lemma {:induction false} SurvivingNone(a: seq<Block>, b: seq<Block>, regs: seq<Reg>)
    requires forall k :: 0 <= k < |b| ==> b[k].region < |regs| ==> b[k].upto > regs[b[k].region].count
    ensures Surviving(a + b, regs) == Surviving(a, regs)
  {
    if b == [] {
      assert a + b == a;
    } else {
      assert (a + b)[..|a + b| - 1] == a + b[..|b| - 1];
      SurvivingNone(a, b[..|b| - 1], regs);
    }
  }

  lemma RewindRegs(s0: State, s: State)
    requires Ok(s0) && Ok(s) && Grown(s0, s)
    ensures MarkOk(s, Snapshot(s0))
    ensures var regs := Rewind(s, Snapshot(s0)).regs;
      && |regs| == |s.regs| && regs[..|s0.regs|] == s0.regs
      && forall i :: s0.end < i < |regs| ==> regs[i].count == 0
  {
    hide InPlace, Disjoint, Later, Surviving;
    var regs := Rewind(s, Snapshot(s0)).regs;
    forall i | 0 <= i < |s0.regs| ensures regs[i] == s0.regs[i] {}
  }

  /** The blocks of s0 keep their words. */
  lemma OldBlocksCounted(s0: State, regs: seq<Reg>)
    requires Ok(s0) && |regs| >= |s0.regs| && regs[..|s0.regs|] == s0.regs
    ensures Surviving(s0.blocks, regs) == s0.blocks
  {
    forall k | 0 <= k < |s0.blocks| ensures s0.blocks[k].region < |regs| && s0.blocks[k].upto <= regs[s0.blocks[k].region].count {
      assert InPlace(s0.blocks[k], s0.regs);
      assert regs[s0.blocks[k].region] == regs[..|s0.regs|][s0.blocks[k].region];
    }
    SurvivingAll(s0.blocks, regs);
  }

  /** A block that s0 had not handed out loses its words. */
  lemma LaterUncounted(b: Block, s0: State, regs: seq<Reg>)
    requires Later(b, s0) && RegsOk(s0.regs, s0.end) && |regs| >= |s0.regs| && regs[..|s0.regs|] == s0.regs
    requires forall i :: s0.end < i < |regs| ==> regs[i].count == 0
    ensures b.region < |regs| ==> b.upto > regs[b.region].count
  {
    if b.region == s0.end { assert regs[s0.end] == regs[..|s0.regs|][s0.end]; }
  }

  lemma RewindBlocks(s0: State, s: State, regs: seq<Reg>)
    requires Ok(s0) && Grown(s0, s) && |regs| >= |s0.regs| && regs[..|s0.regs|] == s0.regs
    requires forall i :: s0.end < i < |regs| ==> regs[i].count == 0
    ensures Surviving(s.blocks, regs) == s0.blocks
  {
    var n := |s0.blocks|;
    var b := s.blocks[n..];
    assert s.blocks == s0.blocks + b;
    OldBlocksCounted(s0, regs);
    hide RegsOk, InPlace, Later, Surviving, Disjoint;
    forall k | 0 <= k < |b| ensures b[k].region < |regs| ==> b[k].upto > regs[b[k].region].count {
      assert Later(s.blocks[n + k], s0);
      LaterUncounted(b[k], s0, regs);
    }
    SurvivingNone(s0.blocks, b, regs);
  }

  /** Rewinding to the snapshot of a state that has only grown restores it. */
  lemma RewindRestores(s0: State, s: State)
    requires Ok(s0) && Ok(s) && Grown(s0, s)
    ensures MarkOk(s, Snapshot(s0)) && Restored(s0, Rewind(s, Snapshot(s0)))
  {
    RewindRegs(s0, s);
    RewindBlocks(s0, s, Rewind(s, Snapshot(s0)).regs);
    hide InPlace, Disjoint, Later, Surviving, Cleared, Grown;
  }

  /** A program that allocates, and takes a snapshot around some of its parts. */
  datatype Op = AllocOp(bytes: nat, place: nat) | Scope(body: seq<Op>)

  predicate Runs(ops: seq<Op>, s: State)
    requires Ok(s)
    decreases ops, 0
  {
    ops == [] ||
    var n := |ops| - 1;
    Runs(ops[..n], s) && var t := Run(ops[..n], s);
      match ops[n]
      case AllocOp(bytes, place) => PlaceOk(t, place, Words(bytes))
      case Scope(body) => Runs(body, t)
  }

  /** Every allocation finds or makes room; every scope is taken back at its end. */
  function Run(ops: seq<Op>, s: State): (r: State)
    requires Ok(s) && Runs(ops, s)
    ensures Ok(r) && Grown(s, r)
    decreases ops, 1
  {
    if ops == [] then s else
    var n := |ops| - 1;
    var t := Run(ops[..n], s);
    match ops[n]
    case AllocOp(bytes, place) =>
      AllocIsSafe(t, bytes, place);
      GrownByAlloc(s, t, bytes, place);
      Alloc(t, bytes, place)
    case Scope(body) =>
      var u := Run(body, t);
      RewindRestores(t, u);
      RewindIsSafe(u, Snapshot(t));
      GrownTransitive(s, t, Rewind(u, Snapshot(t)));
      Rewind(u, Snapshot(t))
  }

  /** Whatever runs inside a scope, scopes included, the state after it is the one before. */
  lemma ScopeRestores(body: seq<Op>, s: State)
    requires Ok(s) && Runs([Scope(body)], s)
    ensures Restored(s, Run([Scope(body)], s))
  {
    var ops := [Scope(body)];
    assert ops[..0] == [] && Run([], s) == s;
    RewindRestores(s, Run(body, s));
  }
}

/** The arena as linked regions, each operation against the model. */
module Arena {
  import Model = ArenaModel
  import opened ArenaModel

  class Region {
    var next: Region?
    var count: nat
    const capacity: nat
    const base: nat
    ghost const index: nat

    /** index is the place the region takes in the chain. */
    constructor (capacity: nat, base: nat, ghost index: nat)
      ensures next == null && count == 0 && this.capacity == capacity && this.base == base && this.index == index
    {
      next := null;
      count := 0;
      this.capacity := capacity;
      this.base := base;
      this.index := index;
    }
  }

  function View(chain: seq<Region>): (regs: seq<Reg>)
    reads set r | r in chain
    ensures |regs| == |chain|
    ensures forall i :: 0 <= i < |chain| ==> regs[i] == Reg(chain[i].base, chain[i].capacity, chain[i].count)
  {
    if chain == [] then [] else
    View(chain[..|chain| - 1]) + [Reg(chain[|chain| - 1].base, chain[|chain| - 1].capacity, chain[|chain| - 1].count)]
  }

  class Arena {
    var begin: Region?
    var end: Region?
    ghost var chain: seq<Region>
    ghost var at: int
    ghost var blocks: seq<Block>

    ghost predicate Linked()
      reads this, chain
    {
      && -1 <= at < |chain|
      && (chain == [] <==> at == -1)
      && begin == (if chain == [] then null else chain[0])
      && end == (if at == -1 then null else chain[at])
      && (forall i :: 0 <= i < |chain| ==> chain[i].index == i)
      && (forall i {:trigger chain[i].next} :: 0 <= i < |chain| ==> chain[i].next == if i + 1 < |chain| then chain[i + 1] else null)
    }

    ghost function Now(): State
      reads this, chain
    {
      State(View(chain), at, blocks)
    }

    ghost predicate Valid()
      reads this, chain
    {
      Linked() && Ok(Now())
    }

    constructor ()
      ensures Valid() && Now() == State([], -1, [])
    {
      begin := null;
      end := null;
      chain := [];
      at := -1;
      blocks := [];
    }

    /** Moves end along the chain while it has no room. */
    method Walk(size: nat)
      requires Linked() && at >= 0
      modifies this`end, this`at
      ensures Linked() && at >= 0 && at == Seek(View(chain), size, old(at))
    {
      hide View;
      while end.count + size > end.capacity && end.next != null
        invariant Linked() && at >= 0
        invariant Seek(View(chain), size, at) == Seek(View(chain), size, old(at))
        decreases |chain| - at
      {
        end := end.next;
        at := at + 1;
      }
    }

    /** Walks to a region with room, or adds one; place is where malloc puts it. */
    method FindRoom(size: nat, place: nat)
      requires Valid() && PlaceOk(Now(), place, size)
      modifies this, chain
      ensures Linked() && at >= 0
      ensures Now() == MakeRoom(old(Now()), size, place)
      ensures old(chain) <= chain && forall i :: |old(chain)| <= i < |chain| ==> fresh(chain[i])
    {
      hide Ok, RegsOk, Seek, View, PlaceOk;
      if end == null {
        FirstRegion(NewCapacity(size), place);
        return;
      }
      Walk(size);
      if end.count + size > end.capacity {
        var r := new Region(NewCapacity(size), place, |chain|);
        AppendRegion(r);
      }
    }

    method FirstRegion(capacity: nat, place: nat)
      requires Linked() && end == null
      modifies this
      ensures Linked() && at == 0 && |chain| == 1 && fresh(chain[0]) && blocks == old(blocks)
      ensures View(chain) == [Reg(place, capacity, 0)]
    {
      hide View;
      end := new Region(capacity, place, 0);
      begin := end;
      chain := [begin];
      at := 0;
      assert View(chain) == [Reg(place, capacity, 0)];
    }

    /** A new region becomes the last of the chain, and the end. */
    method AppendRegion(r: Region)
      requires Linked() && at >= 0 && at == |chain| - 1 && r.index == |chain| && r.next == null
      modifies this, chain
      ensures Linked() && at == |chain| - 1 && chain == old(chain) + [r] && blocks == old(blocks)
      ensures View(chain) == old(View(chain)) + [Reg(r.base, r.capacity, r.count)]
      ensures r.count == old(r.count)
    {
      end.next := r;
      end := r;
      chain := chain + [r];
      at := at + 1;
    }

    /** Hands out the next words of end. */
    method TakeWords(bytes: nat) returns (p: nat)
      requires Linked() && at >= 0
      modifies this`blocks, end`count
      ensures Linked() && Now() == Take(old(Now()), bytes)
      ensures blocks == old(blocks) + [blocks[|old(blocks)|]] && p == blocks[|old(blocks)|].lo
    {
      hide View;
      ghost var regs := View(chain);
      var size := Words(bytes);
      var result := end.base + 8 * end.count;
      blocks := blocks + [Block(at, end.count, end.count + size, Align(result), bytes)];
      end.count := end.count + size;
      assert View(chain) == regs[at := regs[at].(count := end.count)];
      p := Align(result);
    }

    method Alloc(bytes: nat, place: nat) returns (p: nat)
      requires Valid() && PlaceOk(Now(), place, Words(bytes))
      modifies this, chain
      ensures Valid() && Now() == Model.Alloc(old(Now()), bytes, place)
      ensures |blocks| == |old(blocks)| + 1 && p == blocks[|old(blocks)|].lo
      ensures old(chain) <= chain && forall i :: |old(chain)| <= i < |chain| ==> fresh(chain[i])
    {
      hide Ok, RegsOk, MakeRoom, View, PlaceOk, Take;
      AllocIsSafe(Now(), bytes, place);
      FindRoom(Words(bytes), place);
      p := TakeWords(bytes);
    }

    /** Empties the regions from first up to end. */
    method ClearRun(first: Region?, ghost f: nat)
      requires Linked() && f <= at + 1 && first == (if f < |chain| then chain[f] else null) && (f <= at || first == null)
      modifies chain`count
      ensures Linked()
      ensures forall i :: 0 <= i < |chain| ==> chain[i].count == if f <= i <= at then 0 else old(chain[i].count)
    {
      var r := first;
      ghost var i := f;
      while r != null
        invariant f <= i <= |chain| && (r != null ==> i <= at) && r == (if i < |chain| then chain[i] else null)
        invariant i <= at || i == f
        invariant Linked() && chain == old(chain) && at == old(at)
        invariant forall h :: 0 <= h < |chain| ==> chain[h].count == if f <= h < i then 0 else old(chain[h].count)
        decreases |chain| - i
      {
        r.count := 0;
        if r == end {
          break;
        }
        r := r.next;
        i := i + 1;
      }
    }

    /** Moves end back, and gives up the blocks that lost their words. */
    method SetEnd(region: Region?, ghost k: int)
      requires Linked() && -1 <= k < |chain| && (k == -1 <==> chain == []) && region == if k == -1 then null else chain[k]
      modifies this`end, this`at, this`blocks
      ensures Linked() && Now() == State(View(chain), k, Surviving(old(blocks), View(chain)))
    {
      end := region;
      at := k;
      blocks := Surviving(blocks, View(chain));
    }

    method Reset()
      requires Valid()
      modifies this, chain
      ensures Valid() && chain == old(chain) && Now() == Model.Reset(old(Now()))
    {
      hide Ok, RegsOk, View, Surviving;
      ghost var s := Now();
      ResetIsSafe(s);
      ClearRun(begin, 0);
      assert View(chain) == Cleared(s, 0, 0, 0);
      SetEnd(begin, if chain == [] then -1 else 0);
    }

    /** The mark's region and its index in the chain. */
    method Snapshot() returns (region: Region?, count: nat, ghost m: Mark)
      requires Valid()
      ensures m == Model.Snapshot(Now()) && count == Model.Snapshot(Now()).count
      ensures region == if at == -1 then null else chain[at]
    {
      if end == null {
        region := null;
        count := 0;
      } else {
        region := end;
        count := end.count;
      }
      m := Mark(at, count);
    }

    /** Takes the words after the mark back, up to end. */
    method TakeBack(region: Region, count: nat, ghost k: nat)
      requires Linked() && k <= at && region == chain[k]
      modifies chain`count
      ensures Linked() && View(chain) == Cleared(old(Now()), k + 1, k, count)
    {
      hide View;
      ghost var s := Now();
      region.count := count;
      if region != end {
        ClearRun(region.next, k + 1);
      }
      assert View(chain) == Cleared(s, k + 1, k, count);
    }

    method Rewind(region: Region?, count: nat, ghost m: Mark)
      requires Valid() && MarkOk(Now(), m) && m.count == count
      requires region == if m.region == -1 then null else chain[m.region]
      modifies this, chain
      ensures Valid() && chain == old(chain) && Now() == Model.Rewind(old(Now()), m)
    {
      hide Ok, RegsOk, View, Surviving, Cleared;
      RewindIsSafe(Now(), m);
      if region == null {
        Reset();
        return;
      }
      TakeBack(region, count, m.region);
      SetEnd(region, m.region);
    }
  }
}
