/** Moving the instructions between two jumps into a block of their own
    (src/mir/legalize_bb_form.hpp). */
module LegalizeBBForm {

  /** Plain stands for every instruction that is no control flow, unreach included. */
  datatype Instr = Plain(id: nat) | CJmp(cond: nat, target: nat) | Jmp(target: nat) | Ret

  type Block = seq<Instr>

  predicate IsControlFlow(i: Instr) {
    !i.Plain?
  }

  predicate AllPlain(b: Block) {
    forall i :: 0 <= i < |b| ==> b[i].Plain?
  }

  predicate AllControlFlow(b: Block) {
    forall i :: 0 <= i < |b| ==> IsControlFlow(b[i])
  }

  /** No ordinary instruction after a jump. */
  predicate Legal(b: Block) {
    forall i, j :: 0 <= i < j < |b| && b[j].Plain? ==> b[i].Plain?
  }

  /** A block with jumps ends with one. */
  predicate Ended(b: Block) {
    b == [] || IsControlFlow(b[|b| - 1]) || AllPlain(b)
  }

  /** The jump that follows the gap now goes to the new block, unless it is a return. */
  function Rewired(i: Instr, target: nat): Instr {
    match i
    case CJmp(c, _) => CJmp(c, target)
    case Jmp(_) => Jmp(target)
    case _ => i
  }

  /** What ends the new block: a copy of the return, or a jump to the old target. */
  function EndOf(i: Instr): Instr {
    match i
    case CJmp(_, t) => Jmp(t)
    case Jmp(t) => Jmp(t)
    case _ => Ret
  }

  /** Between p and start there is no jump, and start is a jump unless none was seen. */
  predicate ScanOk(b: Block, p: nat, start: nat) {
    && p <= start <= |b|
    && (forall k :: p <= k < start ==> b[k].Plain?)
    && (start == |b| ==> (p == |b| && Ended(b)) || AllPlain(b))
  }

  /** The backward scan: p instructions are left, start is the last jump seen.
      Returns the block and the new blocks. */
  function Scan(b: Block, p: nat, start: nat, news: seq<Block>, base: nat): (r: (Block, seq<Block>))
    requires ScanOk(b, p, start)
    decreases p
  {
    if p == 0 then (b, news) else
    var i := p - 1;
    if !IsControlFlow(b[i]) then
      Scan(b, i, start, news, base)
    else if i + 1 != start then
      Scan(b[..i + 1] + [Rewired(b[start], base + |news|)] + b[start + 1..], i, i,
           news + [b[i + 1..start] + [EndOf(b[start])]], base)
    else
      Scan(b, i, i, news, base)
  }

  // ----- the pass, as it edits the blocks -----

  class MFunc {
    var bbs: seq<Block>

    constructor (bbs: seq<Block>)
      ensures this.bbs == bbs
    {
      this.bbs := bbs;
    }

    /** Moves the instructions after instrId and before start out of block bb. */
    method MoveGap(bb: nat, instrId: nat, start: nat)
      requires bb < |bbs| && instrId < start < |bbs[bb]|
      modifies this
      ensures var b := old(bbs)[bb];
        bbs == old(bbs)[bb := b[..instrId + 1] + [Rewired(b[start], |old(bbs)|)] + b[start + 1..]]
               + [b[instrId + 1..start] + [EndOf(b[start])]]
    {
      ghost var b := bbs[bb];
      var newBB: Block := [];
      var oldTerm := bbs[bb][start];
      var isRet := oldTerm.Ret?;
      var cur := bbs[bb][start := Rewired(oldTerm, |bbs|)];
      for remId := instrId + 1 to start
        invariant newBB == b[instrId + 1..remId]
        invariant cur == b[..instrId + 1] + b[remId..start] + [Rewired(b[start], |bbs|)] + b[start + 1..]
        invariant bbs == old(bbs)
      {
        assert cur[instrId + 1] == b[remId];
        assert cur[instrId + 2..] == b[remId + 1..start] + [Rewired(b[start], |bbs|)] + b[start + 1..];
        newBB := newBB + [cur[instrId + 1]];
        cur := cur[..instrId + 1] + cur[instrId + 2..];
      }
      assert b[start..start] == [] && cur == b[..instrId + 1] + [Rewired(b[start], |bbs|)] + b[start + 1..];
      newBB := newBB + [if isRet then oldTerm else EndOf(oldTerm)];
      bbs := bbs[bb := cur] + [newBB];
    }

    /** The inner loop over one block, from its end. */
    method SplitBlock(bb: nat)
      requires bb < |bbs| && Ended(bbs[bb])
      modifies this
      ensures var r := Scan(old(bbs)[bb], |old(bbs)[bb]|, |old(bbs)[bb]|, [], |old(bbs)|);
        bbs == old(bbs)[bb := r.0] + r.1
    {
      var start: nat, p: nat := |bbs[bb]|, |bbs[bb]|;
      ghost var news: seq<Block> := [];
      ghost var n := |bbs|;
      ghost var goal := Scan(bbs[bb], p, p, [], n);
      while p > 0
        invariant bb < n <= |bbs| && ScanOk(bbs[bb], p, start)
        invariant bbs == old(bbs)[bb := bbs[bb]] + news
        invariant Scan(bbs[bb], p, start, news, n) == goal
        decreases p
      {
        var instrId := p - 1;
        if IsControlFlow(bbs[bb][instrId]) {
          if instrId + 1 != start {
            news := news + [bbs[bb][instrId + 1..start] + [EndOf(bbs[bb][start])]];
            MoveGap(bb, instrId, start);
          }
          start := instrId;
        }
        p := p - 1;
      }
    }

    /** The outer loop also visits the blocks it appends. */
    method Apply()
      requires forall k :: 0 <= k < |bbs| ==> Ended(bbs[k])
      modifies this
      ensures |bbs| >= |old(bbs)|
      ensures forall k :: 0 <= k < |bbs| ==> Legal(bbs[k]) && Ended(bbs[k])
      ensures PlainsOf(bbs) == PlainsOf(old(bbs))
      ensures Splits(old(bbs), bbs, |old(bbs)|)
    {
      ghost var was := bbs;
      var bb := 0;
      while bb < |bbs|
        invariant 0 <= bb <= |bbs| && |was| <= |bbs|
        invariant forall k :: 0 <= k < |bbs| ==> Ended(bbs[k]) && (k < bb || k >= |was| ==> Legal(bbs[k]))
        invariant forall k :: bb <= k < |was| ==> bbs[k] == was[k]
        invariant PlainsOf(bbs) == PlainsOf(was)
        invariant Splits(was, bbs, if bb < |was| then bb else |was|)
        decreases if bb < |was| then |was| - bb else 0, |bbs| - bb
      {
        hide Legal, Ended, Splits, PlainsOf, Scan;
        ghost var before := bbs;
        SplitBlock(bb);
        SplitFacts(was, before, bbs, bb);
        bb := bb + 1;
      }
    }
  }

  /** What one turn of the outer loop keeps. */
  lemma SplitFacts(was: seq<Block>, before: seq<Block>, after: seq<Block>, bb: nat)
    requires bb < |before| && |was| <= |before| && Ended(before[bb])
    requires forall k :: 0 <= k < |before| ==> Ended(before[k]) && (k < bb || k >= |was| ==> Legal(before[k]))
    requires forall k :: bb <= k < |was| ==> before[k] == was[k]
    requires var r := Scan(before[bb], |before[bb]|, |before[bb]|, [], |before|); after == before[bb := r.0] + r.1
    requires Splits(was, before, if bb < |was| then bb else |was|)
    ensures |after| >= |before| && (bb >= |was| ==> after == before)
    ensures forall k :: 0 <= k < |after| ==> Ended(after[k]) && (k < bb + 1 || k >= |was| ==> Legal(after[k]))
    ensures forall k :: bb + 1 <= k < |was| ==> after[k] == was[k]
    ensures PlainsOf(after) == PlainsOf(before)
    ensures Splits(was, after, if bb + 1 < |was| then bb + 1 else |was|)
  {
    hide Legal, Ended, Scan, Plains, PlainsOf, Splits, ScanOk;
    var b := before[bb];
    var r := ScanWhole(b, |before|);
    if Legal(b) { assert before[bb := b] + [] == before; }
    PlainsOfSplit(before, bb, r.0, r.1);
    if bb < |was| {
      OneMoreSplit(was, before, after, bb);
    }
  }

  lemma ScanWhole(b: Block, base: nat) returns (r: (Block, seq<Block>))
    requires Ended(b)
    ensures ScanOk(b, |b|, |b|) && r == Scan(b, |b|, |b|, [], base)
    ensures Legal(r.0) && Ended(r.0) && forall k :: 0 <= k < |r.1| ==> Legal(r.1[k]) && Ended(r.1[k])
    ensures Plains(r.0) + PlainsOf(r.1) == Plains(b)
    ensures Legal(b) ==> r == (b, [])
  {
    assert b[|b|..] == [];
    ScanIsLegal(b, |b|, |b|, [], base);
    r := Scan(b, |b|, |b|, [], base);
    if Legal(b) { ScanOfLegal(b, |b|, |b|, base); }
  }

  lemma PlainsOfSplit(bs: seq<Block>, i: nat, b: Block, news: seq<Block>)
    requires i < |bs| && Plains(b) + PlainsOf(news) == Plains(bs[i])
    ensures PlainsOf(bs[i := b] + news) == PlainsOf(bs)
  {
    hide Plains, PlainsOf;
    var pre, post := bs[..i], bs[i + 1..];
    assert bs == pre + [bs[i]] + post && bs[i := b] == pre + [b] + post;
    PlainsOfConcat(pre + [bs[i]], post);
    PlainsOfConcat(pre, [bs[i]]);
    PlainsOfConcat(pre + [b] + post, news);
    PlainsOfConcat(pre + [b], post);
    PlainsOfConcat(pre, [b]);
    PlainsOfOne(b);
    PlainsOfOne(bs[i]);
  }

  lemma PlainBelowStart(b: Block, p: nat, start: nat)
    requires ScanOk(b, p, start)
    ensures p < start ==> b[p].Plain?
  {}

  /** A legal block is left alone. */
  lemma {:induction false} ScanOfLegal(b: Block, p: nat, start: nat, base: nat)
    requires ScanOk(b, p, start) && Legal(b)
    ensures Scan(b, p, start, [], base) == (b, [])
    decreases p
  {
    if p > 0 {
      if b[p - 1].Plain? {
        ScanOfLegal(b, p - 1, start, base);
      } else {
        PlainBelowStart(b, p, start);
        ScanOfLegal(b, p - 1, p - 1, base);
      }
    }
  }

  // ----- legal form and conservation -----

  function Plains(b: Block): multiset<nat> {
    if b == [] then multiset{} else
    Plains(b[..|b| - 1]) + match b[|b| - 1] case Plain(id) => multiset{id} case _ => multiset{}
  }

  function PlainsOf(bs: seq<Block>): multiset<nat> {
    if bs == [] then multiset{} else PlainsOf(bs[..|bs| - 1]) + Plains(bs[|bs| - 1])
  }

  lemma {:induction false} PlainsConcat(a: Block, b: Block)
    ensures Plains(a + b) == Plains(a) + Plains(b)
  {
    if b == [] {
      assert a + b == a;
    } else {
      assert (a + b)[..|a + b| - 1] == a + b[..|b| - 1];
      PlainsConcat(a, b[..|b| - 1]);
    }
  }

  lemma {:induction false} PlainsOfConcat(a: seq<Block>, b: seq<Block>)
    ensures PlainsOf(a + b) == PlainsOf(a) + PlainsOf(b)
  {
    if b == [] {
      assert a + b == a;
    } else {
      assert (a + b)[..|a + b| - 1] == a + b[..|b| - 1];
      PlainsOfConcat(a, b[..|b| - 1]);
    }
  }

  lemma AroundJump(a: Block, i: Instr, b: Block)
    requires IsControlFlow(i)
    ensures Plains(a + [i] + b) == Plains(a) + Plains(b)
  {
    PlainsConcat(a + [i], b);
    assert (a + [i])[..|a|] == a;
  }

  /** The jumps around a gap may be replaced by others. */
  lemma GapOut(pre: Block, gap: Block, j: Instr, post: Block, j': Instr, j'': Instr)
    requires IsControlFlow(j) && IsControlFlow(j') && IsControlFlow(j'')
    ensures Plains(pre + [j'] + post) + Plains(gap + [j'']) == Plains(pre + gap + [j] + post)
  {
    AroundJump(pre + gap, j, post);
    AroundJump(pre, j', post);
    AroundJump(gap, j'', []);
    PlainsConcat(pre, gap);
    assert gap + [j''] + [] == gap + [j''];
    hide Plains;
  }

  /** Cutting a gap out of a block and putting it into another keeps the instructions. */
  lemma GapKeeps(b: Block, i: nat, start: nat, t: nat)
    requires i < start < |b| && IsControlFlow(b[start])
    ensures Plains(b[..i + 1] + [Rewired(b[start], t)] + b[start + 1..]) + Plains(b[i + 1..start] + [EndOf(b[start])]) == Plains(b)
  {
    hide Plains;
    var pre, gap, post := b[..i + 1], b[i + 1..start], b[start + 1..];
    assert b == pre + gap + [b[start]] + post;
    GapOut(pre, gap, b[start], post, Rewired(b[start], t), EndOf(b[start]));
  }

  /** Every scan ends in legal blocks holding the same ordinary instructions. */
  lemma {:induction false} ScanIsLegal(b: Block, p: nat, start: nat, news: seq<Block>, base: nat)
    requires ScanOk(b, p, start) && AllControlFlow(b[start..])
    requires forall k :: 0 <= k < |news| ==> Legal(news[k]) && Ended(news[k])
    ensures var r := Scan(b, p, start, news, base);
      && Legal(r.0) && Ended(r.0) && (forall k :: 0 <= k < |r.1| ==> Legal(r.1[k]) && Ended(r.1[k]))
      && Plains(r.0) + PlainsOf(r.1) == Plains(b) + PlainsOf(news)
    decreases p
  {
    hide Plains, PlainsOf;
    if p == 0 {
      ScanEnd(b, start);
    } else {
      var i := p - 1;
      if !IsControlFlow(b[i]) {
        ScanIsLegal(b, i, start, news, base);
      } else if i + 1 != start {
        var b' := b[..i + 1] + [Rewired(b[start], base + |news|)] + b[start + 1..];
        var gap := b[i + 1..start] + [EndOf(b[start])];
        assert IsControlFlow(b[start]) by { assert b[start..][0] == b[start]; }
        GapKeeps(b, i, start, base + |news|);
        GapTail(b, i, start, base + |news|);
        PlainsOfConcat(news, [gap]);
        PlainsOfOne(gap);
        ScanIsLegal(b', i, i, news + [gap], base);
      } else {
        assert b[i..] == [b[i]] + b[start..];
        ScanIsLegal(b, i, i, news, base);
      }
    }
  }

  lemma PlainsOfOne(b: Block)
    ensures PlainsOf([b]) == Plains(b)
  {
    assert [b][..0] == [];
    assert PlainsOf([]) == multiset{};
  }

  lemma ScanEnd(b: Block, start: nat)
    requires ScanOk(b, 0, start) && AllControlFlow(b[start..])
    ensures Legal(b) && Ended(b)
  {
    assert forall k :: start <= k < |b| ==> b[k] == b[start..][k - start];
  }

  lemma GapTail(b: Block, i: nat, start: nat, t: nat)
    requires i + 1 < start < |b| && AllControlFlow(b[start..]) && IsControlFlow(b[i])
    requires forall k :: i + 1 <= k < start ==> b[k].Plain?
    ensures var b' := b[..i + 1] + [Rewired(b[start], t)] + b[start + 1..];
      i < |b'| && AllControlFlow(b'[i..]) && ScanOk(b', i, i)
    ensures var gap := b[i + 1..start] + [EndOf(b[start])];
      Legal(gap) && Ended(gap)
  {
    var b' := b[..i + 1] + [Rewired(b[start], t)] + b[start + 1..];
    assert IsControlFlow(b[start]) by { assert b[start..][0] == b[start]; }
    forall k | 0 <= k < |b'[i..]| ensures IsControlFlow(b'[i..][k]) {
      if k > 1 { assert b'[i..][k] == b[start..][k - 1]; }
    }
  }

  // ----- what a block does -----

  /** Where control goes after a block; t is the trace of ordinary instructions executed. */
  datatype Outcome = Goto(target: nat, t: seq<nat>) | Returned(t: seq<nat>) | Fell(t: seq<nat>)

  /** Conditions depend on what was executed before. */
  type Conditions = (nat, seq<nat>) -> bool

  function Exec(b: Block, conds: Conditions, t: seq<nat>): Outcome {
    if b == [] then Fell(t) else
    match b[0]
    case Plain(id) => Exec(b[1..], conds, t + [id])
    case CJmp(c, target) => if conds(c, t) then Goto(target, t) else Exec(b[1..], conds, t)
    case Jmp(target) => Goto(target, t)
    case Ret => Returned(t)
  }

  /** A block read edge by edge: behind the first jump, ordinary instructions are the
      moves of the next jump and run only when it is taken; a return runs none. */
  function EdgeExec(b: Block, conds: Conditions, t: seq<nat>): Outcome {
    if b == [] then Fell(t)
    else if b[0].Plain? then EdgeExec(b[1..], conds, t + [b[0].id])
    else Edge(b, [], conds, t)
  }

  /** The rest of the block behind a jump; own are the moves seen since. */
  function Edge(b: Block, own: seq<nat>, conds: Conditions, t: seq<nat>): Outcome {
    if b == [] then Fell(t) else
    match b[0]
    case Plain(id) => Edge(b[1..], own + [id], conds, t)
    case CJmp(c, target) => if conds(c, t) then Goto(target, t + own) else Edge(b[1..], [], conds, t)
    case Jmp(target) => Goto(target, t + own)
    case Ret => Returned(t)
  }

  /** A jump to one of the new blocks, numbered from base, goes on there. */
  function Resolve(o: Outcome, news: seq<Block>, base: nat, conds: Conditions): Outcome {
    match o
    case Goto(target, t) => if base <= target < base + |news| then Exec(news[target - base], conds, t) else o
    case _ => o
  }

  /** What the split block and its new blocks do. */
  function ExecSplit(now: Block, news: seq<Block>, base: nat, conds: Conditions, t: seq<nat>): Outcome {
    Resolve(Exec(now, conds, t), news, base, conds)
  }

  predicate TargetsBelow(b: Block, n: nat) {
    forall i :: 0 <= i < |b| ==> (b[i].Jmp? || b[i].CJmp? ==> b[i].target < n)
  }

  lemma {:induction false} EdgeInside(b: Block, own: seq<nat>, conds: Conditions, t: seq<nat>, n: nat)
    requires TargetsBelow(b, n)
    ensures Edge(b, own, conds, t).Goto? ==> Edge(b, own, conds, t).target < n
  {
    if b != [] {
      match b[0]
      case Plain(id) => EdgeInside(b[1..], own + [id], conds, t, n);
      case CJmp(c, _) => if !conds(c, t) { EdgeInside(b[1..], [], conds, t, n); }
      case _ =>
    }
  }

  lemma {:induction false} EdgeExecInside(b: Block, conds: Conditions, t: seq<nat>, n: nat)
    requires TargetsBelow(b, n)
    ensures EdgeExec(b, conds, t).Goto? ==> EdgeExec(b, conds, t).target < n
  {
    if b != [] && b[0].Plain? {
      EdgeExecInside(b[1..], conds, t + [b[0].id], n);
    } else if b != [] {
      EdgeInside(b, [], conds, t, n);
    }
  }

  // ----- the scan is the edge by edge reading -----

  function Ids(g: Block): seq<nat> {
    if g == [] then [] else (match g[0] case Plain(id) => [id] case _ => []) + Ids(g[1..])
  }

  lemma {:induction false} ExecPlain(g: Block, z: Block, conds: Conditions, t: seq<nat>)
    requires AllPlain(g)
    ensures Exec(g + z, conds, t) == Exec(z, conds, t + Ids(g))
  {
    if g == [] {
      assert g + z == z && t + [] == t;
    } else {
      assert (g + z)[1..] == g[1..] + z && t + [g[0].id] + Ids(g[1..]) == t + Ids(g);
      ExecPlain(g[1..], z, conds, t + [g[0].id]);
    }
  }

  lemma {:induction false} EdgePlain(g: Block, z: Block, own: seq<nat>, conds: Conditions, t: seq<nat>)
    requires AllPlain(g)
    ensures Edge(g + z, own, conds, t) == Edge(z, own + Ids(g), conds, t)
  {
    if g == [] {
      assert g + z == z && own + [] == own;
    } else {
      assert (g + z)[1..] == g[1..] + z && own + [g[0].id] + Ids(g[1..]) == own + Ids(g);
      EdgePlain(g[1..], z, own + [g[0].id], conds, t);
    }
  }

  /** Two ways of going on behind a jump that come to the same do so behind any prefix. */
  lemma {:induction false} BehindJump(pre: Block, x: Block, y: Block, own: seq<nat>, conds: Conditions, t: seq<nat>,
                                      news: seq<Block>, more: seq<Block>, base: nat)
    requires TargetsBelow(pre, base) && pre != [] && IsControlFlow(pre[|pre| - 1])
    requires forall u :: Resolve(Edge(x, [], conds, u), news, base, conds) == Resolve(Edge(y, [], conds, u), more, base, conds)
    ensures Resolve(Edge(pre + x, own, conds, t), news, base, conds) == Resolve(Edge(pre + y, own, conds, t), more, base, conds)
  {
    assert (pre + x)[1..] == pre[1..] + x && (pre + y)[1..] == pre[1..] + y;
    if |pre| == 1 {
      assert pre[1..] + x == x && pre[1..] + y == y;
    } else {
      match pre[0]
      case Plain(id) => BehindJump(pre[1..], x, y, own + [id], conds, t, news, more, base);
      case CJmp(c, _) => if !conds(c, t) { BehindJump(pre[1..], x, y, [], conds, t, news, more, base); }
      case _ =>
    }
  }

  lemma {:induction false} BehindBody(pre: Block, x: Block, y: Block, conds: Conditions, t: seq<nat>,
                                      news: seq<Block>, more: seq<Block>, base: nat)
    requires TargetsBelow(pre, base) && pre != [] && IsControlFlow(pre[|pre| - 1])
    requires forall u :: Resolve(Edge(x, [], conds, u), news, base, conds) == Resolve(Edge(y, [], conds, u), more, base, conds)
    ensures Resolve(EdgeExec(pre + x, conds, t), news, base, conds) == Resolve(EdgeExec(pre + y, conds, t), more, base, conds)
  {
    if pre[0].Plain? {
      assert (pre + x)[1..] == pre[1..] + x && (pre + y)[1..] == pre[1..] + y;
      BehindBody(pre[1..], x, y, conds, t + [pre[0].id], news, more, base);
    } else {
      BehindJump(pre, x, y, [], conds, t, news, more, base);
    }
  }

  lemma MoreNews(o: Outcome, news: seq<Block>, gap: Block, base: nat, conds: Conditions)
    requires o.Goto? ==> o.target < base + |news|
    ensures Resolve(o, news, base, conds) == Resolve(o, news + [gap], base, conds)
  {}

  /** The moves of one jump, before it or in the block it now goes to. */
  lemma GapMoves(g: Block, j: Instr, post: Block, news: seq<Block>, base: nat, conds: Conditions, t: seq<nat>)
    requires AllPlain(g) && IsControlFlow(j) && TargetsBelow([j], base) && TargetsBelow(post, base + |news|)
    ensures Resolve(Edge(g + ([j] + post), [], conds, t), news, base, conds)
            == Resolve(Edge([Rewired(j, base + |news|)] + post, [], conds, t), news + [g + [EndOf(j)]], base, conds)
  {
    var j' := Rewired(j, base + |news|);
    var gap := g + [EndOf(j)];
    EdgePlain(g, [j] + post, [], conds, t);
    ExecPlain(g, [EndOf(j)], conds, t);
    EdgeInside(post, [], conds, t, base + |news|);
    MoreNews(Edge(post, [], conds, t), news, gap, base, conds);
    assert ([j] + post)[1..] == post && ([j'] + post)[1..] == post;
    assert t + [] == t && [] + Ids(g) == Ids(g);
    assert [j][0].Jmp? || [j][0].CJmp? ==> [j][0].target < base;
    assert (news + [gap])[base + |news| - base] == gap;
  }

  lemma {:induction false} JumpsOnly(b: Block, conds: Conditions, t: seq<nat>)
    requires AllControlFlow(b)
    ensures Edge(b, [], conds, t) == Exec(b, conds, t)
  {
    assert t + [] == t;
    if b != [] && b[0].CJmp? { JumpsOnly(b[1..], conds, t); }
  }

  lemma {:induction false} LegalByEdges(b: Block, conds: Conditions, t: seq<nat>)
    requires Legal(b)
    ensures EdgeExec(b, conds, t) == Exec(b, conds, t)
  {
    if b != [] && b[0].Plain? {
      assert forall i :: 0 <= i < |b| - 1 ==> b[1..][i] == b[i + 1];
      LegalByEdges(b[1..], conds, t + [b[0].id]);
    } else if b != [] {
      JumpsOnly(b, conds, t);
    }
  }

  /** The jumps from the last one seen back still have their old targets. */
  predicate OldTargets(b: Block, start: nat, base: nat) {
    forall i :: 0 <= i < |b| && i <= start ==> (b[i].Jmp? || b[i].CJmp? ==> b[i].target < base)
  }

  lemma {:induction false} ScanByEdges(b: Block, p: nat, start: nat, news: seq<Block>, base: nat, conds: Conditions, t: seq<nat>)
    requires ScanOk(b, p, start) && AllControlFlow(b[start..]) && OldTargets(b, start, base) && TargetsBelow(b, base + |news|)
    ensures var r := Scan(b, p, start, news, base);
      ExecSplit(r.0, r.1, base, conds, t) == Resolve(EdgeExec(b, conds, t), news, base, conds)
    decreases p
  {
    if p == 0 {
      ScanEnd(b, start);
      LegalByEdges(b, conds, t);
    } else {
      var i := p - 1;
      if !IsControlFlow(b[i]) {
        ScanByEdges(b, i, start, news, base, conds, t);
      } else if i + 1 != start {
        assert IsControlFlow(b[start]) by { assert b[start..][0] == b[start]; }
        GapTail(b, i, start, base + |news|);
        GapTargets(b, i, start, |news|, base);
        GapByEdges(b, i, start, news, base, conds, t);
        ScanByEdges(b[..i + 1] + [Rewired(b[start], base + |news|)] + b[start + 1..], i, i,
                    news + [b[i + 1..start] + [EndOf(b[start])]], base, conds, t);
      } else {
        assert b[i..] == [b[i]] + b[start..];
        ScanByEdges(b, i, i, news, base, conds, t);
      }
    }
  }

  lemma GapTargets(b: Block, i: nat, start: nat, n: nat, base: nat)
    requires i + 1 < start < |b| && OldTargets(b, start, base) && TargetsBelow(b, base + n)
    ensures var b' := b[..i + 1] + [Rewired(b[start], base + n)] + b[start + 1..];
      OldTargets(b', i, base) && TargetsBelow(b', base + n + 1)
  {}

  lemma GapByEdges(b: Block, i: nat, start: nat, news: seq<Block>, base: nat, conds: Conditions, t: seq<nat>)
    requires i + 1 < start < |b| && IsControlFlow(b[i]) && IsControlFlow(b[start]) && forall k :: i < k < start ==> b[k].Plain?
    requires OldTargets(b, start, base) && TargetsBelow(b, base + |news|)
    ensures var b' := b[..i + 1] + [Rewired(b[start], base + |news|)] + b[start + 1..];
      var more := news + [b[i + 1..start] + [EndOf(b[start])]];
      Resolve(EdgeExec(b, conds, t), news, base, conds) == Resolve(EdgeExec(b', conds, t), more, base, conds)
  {
    var pre, g, j, post := b[..i + 1], b[i + 1..start], b[start], b[start + 1..];
    var j' := Rewired(j, base + |news|);
    var more := news + [g + [EndOf(j)]];
    assert b == pre + (g + ([j] + post)) && pre + [j'] + post == pre + ([j'] + post);
    assert pre[|pre| - 1] == b[i] && TargetsBelow(pre, base) && TargetsBelow([j], base) && AllPlain(g);
    assert TargetsBelow(post, base + |news|);
    hide TargetsBelow, OldTargets, AllPlain, Edge, EdgeExec, Resolve;
    forall u ensures Resolve(Edge(g + ([j] + post), [], conds, u), news, base, conds)
                     == Resolve(Edge([j'] + post, [], conds, u), more, base, conds)
    {
      GapMoves(g, j, post, news, base, conds, u);
    }
    BehindBody(pre, g + ([j] + post), [j'] + post, conds, t, news, more, base);
  }

  /** For every block: the block the scan leaves and the blocks it makes do what the
      block does read edge by edge. */
  lemma SplitRunsByEdges(b: Block, base: nat, conds: Conditions, t: seq<nat>)
    requires Ended(b) && TargetsBelow(b, base)
    ensures var r := Scan(b, |b|, |b|, [], base); ExecSplit(r.0, r.1, base, conds, t) == EdgeExec(b, conds, t)
  {
    assert b[|b|..] == [];
    ScanByEdges(b, |b|, |b|, [], base, conds, t);
  }

  // ----- what a function does -----

  /** Old block b was scanned into now and the blocks from base on. */
  predicate SplitAt(b: Block, now: Block, bs: seq<Block>, base: nat)
    requires Ended(b)
  {
    var r := Scan(b, |b|, |b|, [], base);
    base + |r.1| <= |bs| && now == r.0 && forall k :: 0 <= k < |r.1| ==> bs[base + k] == r.1[k]
  }

  ghost predicate SplitAs(b: Block, now: Block, bs: seq<Block>, n: nat)
    requires Ended(b)
  {
    exists base: nat :: n <= base && SplitAt(b, now, bs, base)
  }

  ghost predicate Splits(was: seq<Block>, now: seq<Block>, done: nat) {
    && |was| <= |now| && done <= |was|
    && forall k :: 0 <= k < done ==> Ended(was[k]) && SplitAs(was[k], now[k], now, |was|)
  }

  lemma OneMoreSplit(was: seq<Block>, before: seq<Block>, after: seq<Block>, bb: nat)
    requires bb < |was| <= |before| && before[bb] == was[bb] && Ended(was[bb]) && Splits(was, before, bb)
    requires var b := was[bb]; var r := Scan(b, |b|, |b|, [], |before|); after == before[bb := r.0] + r.1
    ensures Splits(was, after, bb + 1)
  {
    hide Scan, Ended;
    assert SplitAt(was[bb], after[bb], after, |before|);
    forall k | 0 <= k < bb ensures SplitAs(was[k], after[k], after, |was|) {
      var base: nat :| |was| <= base && SplitAt(was[k], before[k], before, base);
      assert SplitAt(was[k], after[k], after, base);
    }
  }

  datatype Config = At(bb: nat, t: seq<nat>) | Done(t: seq<nat>) | Dead(t: seq<nat>)

  function Next(o: Outcome): Config {
    match o
    case Goto(target, t) => At(target, t)
    case Returned(t) => Done(t)
    case Fell(t) => Dead(t)
  }

  function Step(f: seq<Block>, conds: Conditions, c: Config): Config {
    if c.At? && c.bb < |f| then Next(Exec(f[c.bb], conds, c.t)) else c
  }

  function Steps(f: seq<Block>, conds: Conditions, n: nat, c: Config): Config {
    if n == 0 then c else Step(f, conds, Steps(f, conds, n - 1, c))
  }

  /** The same with every block read edge by edge. */
  function EdgeStep(f: seq<Block>, conds: Conditions, c: Config): Config {
    if c.At? && c.bb < |f| then Next(EdgeExec(f[c.bb], conds, c.t)) else c
  }

  function EdgeSteps(f: seq<Block>, conds: Conditions, n: nat, c: Config): Config {
    if n == 0 then c else EdgeStep(f, conds, EdgeSteps(f, conds, n - 1, c))
  }

  /** Jumps of old blocks go to old blocks. */
  predicate Closed(f: seq<Block>) {
    forall k :: 0 <= k < |f| ==> TargetsBelow(f[k], |f|)
  }

  /** Ended, or at the start of an old block. */
  predicate Old(c: Config, n: nat) {
    c.At? ==> c.bb < n
  }

  /** One old block is one or two new ones. */
  lemma StepMatches(was: seq<Block>, now: seq<Block>, conds: Conditions, bb: nat, t: seq<nat>)
    requires Splits(was, now, |was|) && Closed(was) && bb < |was|
    ensures var c, d := Step(now, conds, At(bb, t)), EdgeStep(was, conds, At(bb, t));
      Old(d, |was|) && (c == d || (!Old(c, |was|) && Step(now, conds, c) == d))
  {
    var b := was[bb];
    var base: nat :| |was| <= base && SplitAt(b, now[bb], now, base);
    SplitRunsByEdges(b, base, conds, t);
    EdgeExecInside(b, conds, t, |was|);
    hide Scan, Exec, EdgeExec, Ended;
    var o := Exec(now[bb], conds, t);
    if o.Goto? && base <= o.target < base + |Scan(b, |b|, |b|, [], base).1| {
      assert now[o.target] == now[base + (o.target - base)];
    }
  }

  lemma {:induction false} RunsForward(was: seq<Block>, now: seq<Block>, conds: Conditions, n: nat, c: Config) returns (m: nat)
    requires Splits(was, now, |was|) && Closed(was) && Old(c, |was|)
    ensures Steps(now, conds, m, c) == EdgeSteps(was, conds, n, c) && Old(EdgeSteps(was, conds, n, c), |was|)
  {
    hide Splits, Closed, Step, EdgeStep;
    m := 0;
    if n > 0 {
      m := RunsForward(was, now, conds, n - 1, c);
      var d := EdgeSteps(was, conds, n - 1, c);
      if d.At? {
        StepMatches(was, now, conds, d.bb, d.t);
        m := if Step(now, conds, d) == EdgeStep(was, conds, d) then m + 1 else m + 2;
      } else {
        Stopped(was, conds, d);
      }
    }
  }

  /** The new function is where the old one is, or in a new block on the way there. */
  lemma {:induction false} RunsBack(was: seq<Block>, now: seq<Block>, conds: Conditions, m: nat, c: Config) returns (n: nat)
    requires Splits(was, now, |was|) && Closed(was) && Old(c, |was|)
    ensures var d, e := Steps(now, conds, m, c), EdgeSteps(was, conds, n, c);
      Old(e, |was|) && (d == e || (!Old(d, |was|) && Step(now, conds, d) == e))
  {
    hide Splits, Closed, Step, EdgeStep;
    n := 0;
    if m > 0 {
      n := RunsBack(was, now, conds, m - 1, c);
      var d := Steps(now, conds, m - 1, c);
      if d == EdgeSteps(was, conds, n, c) {
        if d.At? {
          StepMatches(was, now, conds, d.bb, d.t);
          n := n + 1;
        } else {
          Stopped(now, conds, d);
        }
      }
    }
  }

  lemma Stopped(f: seq<Block>, conds: Conditions, c: Config)
    requires !c.At?
    ensures Step(f, conds, c) == c && EdgeStep(f, conds, c) == c
  {}

  /** For every function: the result of the pass reaches a configuration, ended or at
      the start of an old block, exactly when the function read edge by edge does. */
  lemma RunsByEdges(was: seq<Block>, now: seq<Block>, conds: Conditions, c: Config, d: Config)
    requires Splits(was, now, |was|) && Closed(was) && Old(c, |was|) && Old(d, |was|)
    ensures (exists n: nat :: EdgeSteps(was, conds, n, c) == d) <==> (exists m: nat :: Steps(now, conds, m, c) == d)
  {
    if n: nat :| EdgeSteps(was, conds, n, c) == d {
      var m := RunsForward(was, now, conds, n, c);
    }
    if m: nat :| Steps(now, conds, m, c) == d {
      var n := RunsBack(was, now, conds, m, c);
    }
  }

  // ----- the shape on which the two readings agree -----

  /** Body, conditional jumps, the moves of the last edge, and the jump of that edge;
      a return has no moves of its own behind a conditional jump. */
  predicate ShapedAt(b: Block, body: nat, jumps: nat) {
    && body <= jumps < |b|
    && (forall k :: 0 <= k < body ==> b[k].Plain?)
    && (forall k :: body <= k < jumps ==> b[k].CJmp?)
    && (forall k :: jumps <= k < |b| - 1 ==> b[k].Plain?)
    && (b[|b| - 1].Jmp? || (b[|b| - 1].Ret? && (body == jumps || jumps == |b| - 1)))
  }

  /** Or no jump at all, when the end is unreachable. */
  ghost predicate Shaped(b: Block) {
    AllPlain(b) || exists body: nat, jumps: nat :: ShapedAt(b, body, jumps)
  }

  lemma {:induction false} ShapedByEdges(b: Block, body: nat, jumps: nat, conds: Conditions, t: seq<nat>)
    requires ShapedAt(b, body, jumps)
    ensures EdgeExec(b, conds, t) == Exec(b, conds, t)
  {
    if body > 0 {
      ShapedByEdges(b[1..], body - 1, jumps - 1, conds, t + [b[0].id]);
    } else if jumps > 0 {
      EdgesOfShaped(b, jumps, conds, t);
    } else if b[0].Plain? {
      ShapedByEdges(b[1..], 0, 0, conds, t + [b[0].id]);
    } else {
      assert t + [] == t;
    }
  }

  lemma {:induction false} EdgesOfShaped(b: Block, jumps: nat, conds: Conditions, t: seq<nat>)
    requires ShapedAt(b, 0, jumps) && (b[|b| - 1].Jmp? || jumps == |b| - 1)
    ensures Edge(b, [], conds, t) == Exec(b, conds, t)
  {
    assert t + [] == t;
    if jumps > 0 {
      if !conds(b[0].cond, t) { EdgesOfShaped(b[1..], jumps - 1, conds, t); }
    } else {
      var e := |b| - 1;
      assert b == b[..e] + [b[e]] && [] + Ids(b[..e]) == Ids(b[..e]);
      EdgePlain(b[..e], [b[e]], [], conds, t);
      ExecPlain(b[..e], [b[e]], conds, t);
    }
  }

  lemma ShapedSteps(f: seq<Block>, conds: Conditions, c: Config)
    requires forall k :: 0 <= k < |f| ==> Shaped(f[k])
    ensures EdgeStep(f, conds, c) == Step(f, conds, c)
  {
    if c.At? && c.bb < |f| {
      var b := f[c.bb];
      if AllPlain(b) {
        LegalByEdges(b, conds, c.t);
      } else {
        var body: nat, jumps: nat :| ShapedAt(b, body, jumps);
        ShapedByEdges(b, body, jumps, conds, c.t);
      }
    }
  }

  lemma {:induction false} ShapedRuns(f: seq<Block>, conds: Conditions, n: nat, c: Config)
    requires forall k :: 0 <= k < |f| ==> Shaped(f[k])
    ensures EdgeSteps(f, conds, n, c) == Steps(f, conds, n, c)
  {
    hide Shaped, Step, EdgeStep;
    if n > 0 {
      ShapedRuns(f, conds, n - 1, c);
      ShapedSteps(f, conds, Steps(f, conds, n - 1, c));
    }
  }

  /** A shaped function and the result of the pass return with the same traces, fall
      off the end with the same traces, and enter the old blocks with the same traces. */
  lemma BehaviourPreserved(was: seq<Block>, now: seq<Block>, conds: Conditions, c: Config, d: Config)
    requires Splits(was, now, |was|) && Closed(was) && (forall k :: 0 <= k < |was| ==> Shaped(was[k]))
    requires Old(c, |was|) && Old(d, |was|)
    ensures (exists n: nat :: Steps(was, conds, n, c) == d) <==> (exists m: nat :: Steps(now, conds, m, c) == d)
  {
    hide Splits, Closed, Shaped;
    RunsByEdges(was, now, conds, c, d);
    if n: nat :| Steps(was, conds, n, c) == d {
      ShapedRuns(was, conds, n, c);
      assert EdgeSteps(was, conds, n, c) == d;
    }
    if n: nat :| EdgeSteps(was, conds, n, c) == d {
      ShapedRuns(was, conds, n, c);
      assert Steps(was, conds, n, c) == d;
    }
  }

  // ----- exactly which blocks are safe -----

  /** A block that ends with a jump or a return and has only conditional jumps before. */
  predicate Straight(b: Block) {
    && b != [] && (b[|b| - 1].Jmp? || b[|b| - 1].Ret?)
    && forall i :: 0 <= i < |b| - 1 ==> b[i].Plain? || b[i].CJmp?
  }

  /** The block behaves as before under all conditions. */
  ghost predicate Safe(b: Block, base: nat)
    requires Straight(b)
  {
    var r := Scan(b, |b|, |b|, [], base);
    forall conds: Conditions, t: seq<nat> :: ExecSplit(r.0, r.1, base, conds, t) == Exec(b, conds, t)
  }

  function Never(): Conditions {
    (c, u) => false
  }

  lemma PlainsFront(b: Block)
    requires b != []
    ensures |Plains(b)| == (if b[0].Plain? then 1 else 0) + |Plains(b[1..])|
  {
    assert b == [b[0]] + b[1..];
    PlainsConcat([b[0]], b[1..]);
    assert [b[0]][..0] == [];
  }

  /** When no condition holds, every ordinary instruction is executed. */
  lemma {:induction false} NeverRun(b: Block, t: seq<nat>)
    requires Straight(b)
    ensures |Exec(b, Never(), t).t| == |t| + |Plains(b)|
  {
    PlainsFront(b);
    if |b| > 1 { NeverRun(b[1..], if b[0].Plain? then t + [b[0].id] else t); }
  }

  /** But edge by edge, no more than that. */
  lemma {:induction false} EdgeBound(b: Block, own: seq<nat>, t: seq<nat>)
    requires Straight(b)
    ensures |Edge(b, own, Never(), t).t| <= |t| + |own| + |Plains(b)|
  {
    PlainsFront(b);
    if |b| > 1 { EdgeBound(b[1..], if b[0].Plain? then own + [b[0].id] else [], t); }
  }

  /** Moves that are executed although no condition holds belong to the last jump. */
  lemma {:induction false} OwnOfLast(b: Block, own: seq<nat>, t: seq<nat>)
    requires Straight(b) && own != [] && |Edge(b, own, Never(), t).t| == |t| + |own| + |Plains(b)|
    ensures b[|b| - 1].Jmp? && forall k :: 0 <= k < |b| - 1 ==> b[k].Plain?
  {
    PlainsFront(b);
    hide Plains;
    if |b| > 1 {
      if b[0].Plain? {
        OwnOfLast(b[1..], own + [b[0].id], t);
        assert forall k :: 0 <= k < |b| - 2 ==> b[1..][k] == b[k + 1];
      } else {
        EdgeBound(b[1..], [], t);
      }
    }
  }

  lemma {:induction false} ShapeBehindBody(b: Block, t: seq<nat>) returns (jumps: nat)
    requires Straight(b) && |Edge(b, [], Never(), t).t| == |t| + |Plains(b)|
    ensures ShapedAt(b, 0, jumps) && (b[|b| - 1].Jmp? || jumps == |b| - 1)
  {
    PlainsFront(b);
    hide Plains;
    jumps := 0;
    if |b| > 1 {
      if b[0].Plain? {
        assert [] + [b[0].id] == [b[0].id];
        OwnOfLast(b[1..], [b[0].id], t);
        assert forall k :: 0 < k < |b| - 1 ==> b[k] == b[1..][k - 1];
      } else {
        jumps := ShapeBehindBody(b[1..], t);
        jumps := jumps + 1;
        assert forall k :: 0 < k < |b| ==> b[k] == b[1..][k - 1];
      }
    }
  }

  lemma {:induction false} ShapeOf(b: Block, t: seq<nat>) returns (body: nat, jumps: nat)
    requires Straight(b) && |EdgeExec(b, Never(), t).t| == |t| + |Plains(b)|
    ensures ShapedAt(b, body, jumps)
  {
    PlainsFront(b);
    if b[0].Plain? {
      body, jumps := ShapeOf(b[1..], t + [b[0].id]);
      body, jumps := body + 1, jumps + 1;
      assert forall k :: 0 < k < |b| ==> b[k] == b[1..][k - 1];
    } else {
      body := 0;
      jumps := ShapeBehindBody(b, t);
    }
  }

  /** The pass keeps what a block does, under all conditions, exactly when the block
      is shaped: conditional jumps stand together, and a return behind them has no
      moves of its own. */
  lemma SafeIff(b: Block, base: nat)
    requires Straight(b) && TargetsBelow(b, base)
    ensures Safe(b, base) <==> exists body: nat, jumps: nat :: ShapedAt(b, body, jumps)
  {
    forall conds: Conditions, t: seq<nat> { SplitRunsByEdges(b, base, conds, t); }
    hide Scan, Plains;
    if body: nat, jumps: nat :| ShapedAt(b, body, jumps) {
      forall conds: Conditions, t: seq<nat> { ShapedByEdges(b, body, jumps, conds, t); }
    }
    if Safe(b, base) {
      NeverRun(b, []);
      var body, jumps := ShapeOf(b, []);
    }
  }

  /** Like a shaped block, but a return may have moves of its own. */
  predicate OneGap(b: Block, body: nat, jumps: nat) {
    && body <= jumps < |b|
    && (forall k :: 0 <= k < body ==> b[k].Plain?)
    && (forall k :: body <= k < jumps ==> b[k].CJmp?)
    && (forall k :: jumps <= k < |b| - 1 ==> b[k].Plain?)
    && (b[|b| - 1].Jmp? || b[|b| - 1].Ret?)
  }

  lemma GapBeforeReturn(b: Block, body: nat, jumps: nat, body': nat, jumps': nat)
    requires OneGap(b, body, jumps) && b[|b| - 1].Ret? && body < jumps < |b| - 1
    ensures !ShapedAt(b, body', jumps')
  {
    assert b[body].CJmp? && b[jumps - 1].CJmp? && b[jumps].Plain?;
  }

  /** With one gap, behind the last conditional jump: it must not lie before a return. */
  lemma OneGapSafeIff(b: Block, body: nat, jumps: nat, base: nat)
    requires OneGap(b, body, jumps) && TargetsBelow(b, base)
    ensures Safe(b, base) <==> b[|b| - 1].Jmp? || body == jumps || jumps == |b| - 1
  {
    SafeIff(b, base);
    if b[|b| - 1].Jmp? || body == jumps || jumps == |b| - 1 {
      assert ShapedAt(b, body, jumps);
    } else {
      forall body': nat, jumps': nat ensures !ShapedAt(b, body', jumps') {
        GapBeforeReturn(b, body, jumps, body', jumps');
      }
    }
  }

  /** Moves before a second conditional jump are skipped when that jump is not taken. */
  lemma SecondJumpLosesMoves()
    ensures var b := [CJmp(0, 1), Plain(7), CJmp(1, 2), Jmp(3)];
      var r := Scan(b, 4, 4, [], 9);
      var never: Conditions := (c, u) => false;
      Exec(b, never, []) == Goto(3, [7]) && ExecSplit(r.0, r.1, 9, never, []) == Goto(3, [])
  {
    var b := [CJmp(0, 1), Plain(7), CJmp(1, 2), Jmp(3)];
    var b' := [CJmp(0, 1), CJmp(1, 9), Jmp(3)];
    assert b[..1] + [Rewired(b[2], 9 + 0)] + b[3..] == b';
    var gap := b[1..2] + [EndOf(b[2])];
    assert gap == [Plain(7), Jmp(2)] && [] + [gap] == [[Plain(7), Jmp(2)]];
    assert Scan(b, 4, 4, [], 9) == Scan(b, 3, 3, [], 9) == Scan(b, 2, 2, [], 9) == Scan(b, 1, 2, [], 9);
    assert Scan(b, 1, 2, [], 9) == Scan(b', 0, 0, [[Plain(7), Jmp(2)]], 9);
    var never: Conditions := (c, u) => false;
    assert b[1..] == [Plain(7), CJmp(1, 2), Jmp(3)] && b[1..][1..] == [CJmp(1, 2), Jmp(3)] && b[1..][1..][1..] == [Jmp(3)];
    assert Exec([Jmp(3)], never, [7]) == Goto(3, [7]);
    assert [] + [7] == [7];
    assert b'[1..] == [CJmp(1, 9), Jmp(3)] && b'[1..][1..] == [Jmp(3)];
  }
}
