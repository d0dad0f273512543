/** Operands and use lists of the IR (src/ir/instruction.cpp, src/ir/use.cpp).
    Every edit of an operand must keep, for every definition, its use list equal
    as a multiset to the operand slots that hold it. */
module DefUse {
  import opened Options

  /** Operand values. All results of an instruction share its use list; constants
      and the invalid value have none. */
  datatype Value = Invalid | Result(instr: nat, idx: nat) | Block(block: nat) | BlockArg(arg: nat) | Const(id: nat)

  datatype Def = InstrDef(instr: nat) | BlockDef(block: nat) | BlockArgDef(arg: nat)

  function DefOf(v: Value): Option<Def> {
    match v
    case Result(i, _) => Some(InstrDef(i))
    case Block(b) => Some(BlockDef(b))
    case BlockArg(a) => Some(BlockArgDef(a))
    case _ => None
  }

  datatype UseType = NormalArg | BB | BBArg

  datatype Use = Use(user: nat, kind: UseType, argId: nat, bbArgId: nat)

  function Norm(i: nat, k: nat): Use { Use(i, NormalArg, k, 0) }
  function BBUse(i: nat, k: nat): Use { Use(i, BB, k, 0) }
  function BBArgUse(i: nat, k: nat, a: nat): Use { Use(i, BBArg, k, a) }

  datatype Target = Target(bb: nat, args: seq<Value>)

  datatype Operands = Operands(args: seq<Value>, bbs: seq<Target>)

  /** What the operand slot u of an instruction with operands ops holds. */
  function SlotIn(ops: Operands, u: Use): Option<Value> {
    match u.kind
    case NormalArg => if u.bbArgId == 0 && u.argId < |ops.args| then Some(ops.args[u.argId]) else None
    case BB => if u.bbArgId == 0 && u.argId < |ops.bbs| then Some(Block(ops.bbs[u.argId].bb)) else None
    case BBArg =>
      if u.argId < |ops.bbs| && u.bbArgId < |ops.bbs[u.argId].args| then Some(ops.bbs[u.argId].args[u.bbArgId]) else None
  }

  function Slot(instrs: map<nat, Operands>, u: Use): Option<Value> {
    if u.user in instrs then SlotIn(instrs[u.user], u) else None
  }

  function Holds(v: Option<Value>, d: Def): nat {
    if v.Some? && DefOf(v.value) == Some(d) then 1 else 0
  }

  function UsesOf(uses: map<Def, seq<Use>>, d: Def): seq<Use> {
    if d in uses then uses[d] else []
  }

  function Count(us: seq<Use>, u: Use): nat {
    if us == [] then 0 else Count(us[..|us| - 1], u) + if us[|us| - 1] == u then 1 else 0
  }

  function C(uses: map<Def, seq<Use>>, d: Def, u: Use): nat {
    Count(UsesOf(uses, d), u)
  }

  lemma {:induction false} CountConcat(a: seq<Use>, b: seq<Use>, u: Use)
    ensures Count(a + b, u) == Count(a, u) + Count(b, u)
  {
    if b == [] {
      assert a + b == a;
    } else {
      assert (a + b)[..|a + b| - 1] == a + b[..|b| - 1];
      CountConcat(a, b[..|b| - 1], u);
    }
  }

  lemma CountErase(us: seq<Use>, p: nat, u: Use)
    requires p < |us|
    ensures Count(us[..p] + us[p + 1..], u) == Count(us, u) - if us[p] == u then 1 else 0
  {
    assert us == us[..p] + ([us[p]] + us[p + 1..]);
    CountConcat(us[..p], [us[p]] + us[p + 1..], u);
    CountConcat([us[p]], us[p + 1..], u);
    CountConcat(us[..p], us[p + 1..], u);
  }

  lemma {:induction false} CountPositive(us: seq<Use>, u: Use)
    ensures Count(us, u) > 0 <==> u in us
  {
    if us != [] {
      var k := |us| - 1;
      CountPositive(us[..k], u);
      assert us == us[..k] + [us[k]];
    }
  }

  /** The use lists are, as multisets, the slots that hold each definition. */
  ghost predicate Tracked(instrs: map<nat, Operands>, uses: map<Def, seq<Use>>) {
    forall d, u :: C(uses, d, u) == Holds(Slot(instrs, u), d)
  }

  class Graph {
    var instrs: map<nat, Operands>
    var uses: map<Def, seq<Use>>

    ghost predicate Consistent()
      reads this
    {
      Tracked(instrs, uses)
    }

    /** An empty module. */
    constructor ()
      ensures Consistent() && instrs == map[] && uses == map[]
    {
      instrs, uses := map[], map[];
    }

    /** A new instruction has no operands yet; whatever still refers to its id keeps doing so. */
    method NewInstr(i: nat)
      requires Consistent() && i !in instrs
      modifies this`instrs
      ensures Consistent() && instrs == old(instrs)[i := Operands([], [])]
    {
      hide C, Holds;
      instrs := instrs[i := Operands([], [])];
      assert forall u :: Slot(instrs, u) == Slot(old(instrs), u);
    }

    method AddUsage(v: Value, u: Use)
      modifies this`uses
      ensures forall d, x :: C(uses, d, x) == C(old(uses), d, x) + if DefOf(v) == Some(d) && x == u then 1 else 0
    {
      if DefOf(v).Some? {
        var d := DefOf(v).value;
        forall x ensures Count(UsesOf(uses, d) + [u], x) == C(uses, d, x) + if x == u then 1 else 0 {
          CountConcat(UsesOf(uses, d), [u], x);
        }
        uses := uses[d := UsesOf(uses, d) + [u]];
      }
    }

    /** Erases the first entry that equals u. The source asserts that there is one. */
    method RemoveUsage(v: Value, u: Use)
      requires DefOf(v).Some? ==> C(uses, DefOf(v).value, u) > 0
      modifies this`uses
      ensures forall d, x :: C(uses, d, x) == C(old(uses), d, x) - if DefOf(v) == Some(d) && x == u then 1 else 0
    {
      if DefOf(v).None? { return; }
      var d := DefOf(v).value;
      var us := UsesOf(uses, d);
      CountPositive(us, u);
      var i := 0;
      while i < |us|
        invariant 0 <= i <= |us| && u !in us[..i]
      {
        if us[i] == u {
          forall x ensures Count(us[..i] + us[i + 1..], x) == Count(us, x) - if x == u then 1 else 0 {
            CountErase(us, i, x);
          }
          uses := uses[d := us[..i] + us[i + 1..]];
          return;
        }
        i := i + 1;
      }
      assert false;
    }

    method AddArg(i: nat, v: Value) returns (index: nat)
      requires Consistent() && i in instrs
      modifies this
      ensures Consistent()
      ensures index == |old(instrs[i]).args|
      ensures instrs == old(instrs)[i := old(instrs[i]).(args := old(instrs[i]).args + [v])]
    {
      hide C;
      var ops := instrs[i];
      instrs := instrs[i := ops.(args := ops.args + [v])];
      index := |ops.args|;
      AddUsage(v, Norm(i, index));
      EditOne(old(instrs), instrs, old(uses), uses, Norm(i, index), Some(v));
    }

    method AddBB(i: nat, b: nat) returns (index: nat)
      requires Consistent() && i in instrs
      modifies this
      ensures Consistent()
      ensures index == |old(instrs[i]).bbs|
      ensures instrs == old(instrs)[i := old(instrs[i]).(bbs := old(instrs[i]).bbs + [Target(b, [])])]
    {
      hide C;
      var ops := instrs[i];
      instrs := instrs[i := ops.(bbs := ops.bbs + [Target(b, [])])];
      index := |ops.bbs|;
      AddUsage(Block(b), BBUse(i, index));
      EditOne(old(instrs), instrs, old(uses), uses, BBUse(i, index), Some(Block(b)));
    }

    method AddBBArg(i: nat, bb: nat, v: Value) returns (index: nat)
      requires Consistent() && i in instrs && bb < |instrs[i].bbs|
      modifies this
      ensures Consistent()
      ensures index == |old(instrs[i]).bbs[bb].args|
      ensures instrs == old(instrs)[i := WithBBArgs(old(instrs[i]), bb, old(instrs[i]).bbs[bb].args + [v])]
    {
      hide C;
      var ops := instrs[i];
      instrs := instrs[i := WithBBArgs(ops, bb, ops.bbs[bb].args + [v])];
      index := |ops.bbs[bb].args|;
      AddUsage(v, BBArgUse(i, bb, index));
      EditOne(old(instrs), instrs, old(uses), uses, BBArgUse(i, bb, index), Some(v));
    }

    method ReplaceArg(i: nat, index: nat, v: Value) returns (was: Value)
      requires Consistent() && i in instrs && index < |instrs[i].args|
      modifies this
      ensures Consistent() && was == old(instrs[i]).args[index]
      ensures instrs == old(instrs)[i := old(instrs[i]).(args := old(instrs[i]).args[index := v])]
    {
      hide C;
      var ops := instrs[i];
      was := ops.args[index];
      if was == v {
        assert ops.(args := ops.args[index := v]) == ops;
        return;
      }
      instrs := instrs[i := ops.(args := ops.args[index := v])];
      PresentSlot(old(instrs), uses, Norm(i, index), was);
      RemoveUsage(was, Norm(i, index));
      AddUsage(v, Norm(i, index));
      EditOne(old(instrs), instrs, old(uses), uses, Norm(i, index), Some(v));
    }

    /** Keeps the block arguments unless told otherwise. */
    method ReplaceBB(i: nat, index: nat, b: nat, keepArgs: bool) returns (was: nat)
      requires Consistent() && i in instrs && index < |instrs[i].bbs|
      modifies this
      ensures Consistent() && was == old(instrs[i]).bbs[index].bb
      ensures instrs == old(instrs)[i := old(instrs[i]).(bbs := old(instrs[i]).bbs[index :=
        Target(b, if keepArgs || was == b then old(instrs[i]).bbs[index].args else [])])]
    {
      hide C;
      var ops := instrs[i];
      was := ops.bbs[index].bb;
      if was == b {
        assert ops.(bbs := ops.bbs[index := Target(b, ops.bbs[index].args)]) == ops;
        return;
      }
      instrs := instrs[i := ops.(bbs := ops.bbs[index := Target(b, ops.bbs[index].args)])];
      PresentSlot(old(instrs), uses, BBUse(i, index), Block(was));
      RemoveUsage(Block(was), BBUse(i, index));
      AddUsage(Block(b), BBUse(i, index));
      EditOne(old(instrs), instrs, old(uses), uses, BBUse(i, index), Some(Block(b)));
      if !keepArgs {
        ghost var mid := instrs[i];
        ClearBBArgs(i, index);
        assert WithBBArgs(mid, index, []) == ops.(bbs := ops.bbs[index := Target(b, [])]);
      }
    }

    /** Writing past the end first fills up with invalid values. */
    method ReplaceBBArg(i: nat, bb: nat, index: nat, v: Value) returns (was: Value)
      requires Consistent() && i in instrs && bb < |instrs[i].bbs|
      modifies this
      ensures Consistent()
      ensures var a := Resized(old(instrs[i]).bbs[bb].args, index + 1);
        was == a[index] && instrs == old(instrs)[i := WithBBArgs(old(instrs[i]), bb, a[index := v])]
    {
      hide C;
      var ops := instrs[i];
      var args := ops.bbs[bb].args;
      var full := Resized(args, index + 1);
      was := full[index];
      if index < |args| && was == v {
        assert WithBBArgs(ops, bb, full[index := v]) == ops by { assert full[index := v] == args; }
        return;
      }
      instrs := instrs[i := WithBBArgs(ops, bb, full[index := v])];
      ghost var u := BBArgUse(i, bb, index);
      ResizedSlots(old(instrs), i, bb, index);
      ghost var mid := old(instrs)[i := WithBBArgs(ops, bb, full)];
      assert Tracked(mid, old(uses)) by {
        forall d, x ensures Holds(Slot(mid, x), d) == Holds(Slot(old(instrs), x), d) {}
      }
      PresentSlot(mid, uses, u, was);
      RemoveUsage(was, BBArgUse(i, bb, index));
      AddUsage(v, BBArgUse(i, bb, index));
      EditOne(mid, instrs, old(uses), uses, u, Some(v));
    }

    method ClearArgs(i: nat)
      requires Consistent() && i in instrs
      modifies this
      ensures Consistent() && instrs == old(instrs)[i := old(instrs[i]).(args := [])]
    {
      hide C;
      var args := instrs[i].args;
      for k := 0 to |args|
        invariant instrs == old(instrs)
        invariant forall d, x :: C(uses, d, x) == if OfArgs(i, x) && x.argId < k then 0 else Holds(Slot(instrs, x), d)
      {
        assert Slot(instrs, Norm(i, k)) == Some(args[k]);
        RemoveUsage(args[k], Norm(i, k));
      }
      instrs := instrs[i := instrs[i].(args := [])];
    }

    method ClearBBArgs(i: nat, bb: nat)
      requires Consistent() && i in instrs && bb < |instrs[i].bbs|
      modifies this
      ensures Consistent() && instrs == old(instrs)[i := WithBBArgs(old(instrs[i]), bb, [])]
    {
      hide C;
      var args := instrs[i].bbs[bb].args;
      for k := 0 to |args|
        invariant instrs == old(instrs)
        invariant forall d, x :: C(uses, d, x) == if OfBBArgs(i, bb, x) && x.bbArgId < k then 0 else Holds(Slot(instrs, x), d)
      {
        assert Slot(instrs, BBArgUse(i, bb, k)) == Some(args[k]);
        RemoveUsage(args[k], BBArgUse(i, bb, k));
      }
      instrs := instrs[i := WithBBArgs(instrs[i], bb, [])];
    }

    method ClearBBs(i: nat)
      requires Consistent() && i in instrs
      modifies this
      ensures Consistent() && instrs == old(instrs)[i := old(instrs[i]).(bbs := [])]
    {
      hide C;
      var n := |instrs[i].bbs|;
      var k := 0;
      ghost var before := instrs;
      while k < n
        invariant 0 <= k <= n && i in instrs && |instrs[i].bbs| == n
        invariant instrs == before[i := instrs[i]] && instrs[i].args == before[i].args
        invariant forall j :: 0 <= j < n ==> instrs[i].bbs[j] == if j < k then Target(before[i].bbs[j].bb, []) else before[i].bbs[j]
        invariant forall d, x :: C(uses, d, x) == if OfBBs(i, x) && x.argId < k then 0 else Holds(Slot(instrs, x), d)
      {
        ClearBBArgsWithin(i, k, k);
        assert Slot(instrs, BBUse(i, k)) == Some(Block(instrs[i].bbs[k].bb));
        RemoveUsage(Block(instrs[i].bbs[k].bb), BBUse(i, k));
        k := k + 1;
      }
      instrs := instrs[i := instrs[i].(bbs := [])];
      assert Consistent() by {
        forall d, x ensures C(uses, d, x) == Holds(Slot(instrs, x), d) {
          assert x.user == i && x.kind == BBArg && x.argId < n ==> before[i].bbs[x.argId] == before[i].bbs[x.argId];
        }
      }
    }

    /** clear_bb_args while the uses of the first gone blocks are already removed. */
    method ClearBBArgsWithin(i: nat, bb: nat, gone: nat)
      requires i in instrs && bb < |instrs[i].bbs|
      requires forall d, x :: C(uses, d, x) == if OfBBs(i, x) && x.argId < gone then 0 else Holds(Slot(instrs, x), d)
      modifies this
      ensures instrs == old(instrs)[i := WithBBArgs(old(instrs[i]), bb, [])]
      ensures forall d, x :: C(uses, d, x) == if OfBBs(i, x) && x.argId < gone then 0 else Holds(Slot(instrs, x), d)
    {
      hide C;
      var args := instrs[i].bbs[bb].args;
      for k := 0 to |args|
        invariant instrs == old(instrs)
        invariant forall d, x :: C(uses, d, x) == if (OfBBs(i, x) && x.argId < gone) || (OfBBArgs(i, bb, x) && x.bbArgId < k)
                                                  then 0 else Holds(Slot(instrs, x), d)
      {
        assert Slot(instrs, BBArgUse(i, bb, k)) == Some(args[k]);
        RemoveUsage(args[k], BBArgUse(i, bb, k));
      }
      instrs := instrs[i := WithBBArgs(instrs[i], bb, [])];
    }

    /** Renumbers the uses of every later operand, then drops the operand. */
    method RemoveArg(i: nat, index: nat)
      requires Consistent() && i in instrs && index < |instrs[i].args|
      modifies this
      ensures Consistent()
      ensures instrs == old(instrs)[i := old(instrs[i]).(args := Erase(old(instrs[i]).args, index))]
    {
      var args := instrs[i].args;
      RenumberArgs(i, index);
      ghost var before := instrs;
      instrs := instrs[i := instrs[i].(args := Erase(args, index))];
      assert Consistent() by {
        hide C, Slot, Holds, Renumbered;
        forall d, x ensures C(uses, d, x) == Holds(Slot(instrs, x), d) { ArgErased(before, i, index, d, x); }
      }
    }

    method RenumberArgs(i: nat, index: nat)
      requires Consistent() && i in instrs && index < |instrs[i].args|
      modifies this`uses
      ensures forall d, x ::
        C(uses, d, x) == Renumbered(instrs, d, x, NextArg(x), OfArgs(i, x) && x.argId >= index, OfArgs(i, x) && x.argId >= index)
    {
      hide C, Slot, Holds;
      for k := index + 1 to |instrs[i].args|
        invariant forall d, x ::
          C(uses, d, x) == Renumbered(instrs, d, x, NextArg(x), ArgMoved(i, index, k, x), ArgMoved(i, index, k, NextArg(x)))
      {
        MoveArg(i, index, k);
      }
      DropArg(i, index);
    }

    method MoveArg(i: nat, index: nat, k: nat)
      requires i in instrs && index < k < |instrs[i].args|
      requires forall d, x ::
        C(uses, d, x) == Renumbered(instrs, d, x, NextArg(x), ArgMoved(i, index, k, x), ArgMoved(i, index, k, NextArg(x)))
      modifies this`uses
      ensures forall d, x ::
        C(uses, d, x) == Renumbered(instrs, d, x, NextArg(x), ArgMoved(i, index, k + 1, x), ArgMoved(i, index, k + 1, NextArg(x)))
    {
      hide C;
      var v := instrs[i].args[k];
      assert Slot(instrs, Norm(i, k)) == Some(v);
      RemoveUsage(v, Norm(i, k));
      AddUsage(v, Norm(i, k - 1));
    }

    method DropArg(i: nat, index: nat)
      requires i in instrs && index < |instrs[i].args|
      requires forall d, x :: C(uses, d, x) == Renumbered(instrs, d, x, NextArg(x),
                 ArgMoved(i, index, |instrs[i].args|, x), ArgMoved(i, index, |instrs[i].args|, NextArg(x)))
      modifies this`uses
      ensures forall d, x ::
        C(uses, d, x) == Renumbered(instrs, d, x, NextArg(x), OfArgs(i, x) && x.argId >= index, OfArgs(i, x) && x.argId >= index)
    {
      hide C;
      var v := instrs[i].args[index];
      assert Slot(instrs, Norm(i, index)) == Some(v);
      RemoveUsage(v, Norm(i, index));
    }

    method RemoveBBArg(i: nat, bb: nat, index: nat)
      requires Consistent() && i in instrs && bb < |instrs[i].bbs| && index < |instrs[i].bbs[bb].args|
      modifies this
      ensures Consistent()
      ensures instrs == old(instrs)[i := WithBBArgs(old(instrs[i]), bb, Erase(old(instrs[i]).bbs[bb].args, index))]
    {
      var args := instrs[i].bbs[bb].args;
      RenumberBBArgs(i, bb, index);
      ghost var before := instrs;
      instrs := instrs[i := WithBBArgs(instrs[i], bb, Erase(args, index))];
      assert Consistent() by {
        hide C, Slot, Holds, Renumbered;
        forall d, x ensures C(uses, d, x) == Holds(Slot(instrs, x), d) { BBArgErased(before, i, bb, index, d, x); }
      }
    }

    method RenumberBBArgs(i: nat, bb: nat, index: nat)
      requires Consistent() && i in instrs && bb < |instrs[i].bbs| && index < |instrs[i].bbs[bb].args|
      modifies this`uses
      ensures forall d, x ::
        C(uses, d, x) == Renumbered(instrs, d, x, NextBBArg(x), OfBBArgs(i, bb, x) && x.bbArgId >= index, OfBBArgs(i, bb, x) && x.bbArgId >= index)
    {
      hide C, Slot, Holds;
      var n := |instrs[i].bbs[bb].args|;
      for k := index + 1 to n
        invariant forall d, x ::
          C(uses, d, x) == Renumbered(instrs, d, x, NextBBArg(x), BBArgMoved(i, bb, index, k, x), BBArgMoved(i, bb, index, k, NextBBArg(x)))
      {
        MoveBBArg(i, bb, index, k);
      }
      DropBBArg(i, bb, index);
    }

    method MoveBBArg(i: nat, bb: nat, index: nat, k: nat)
      requires i in instrs && bb < |instrs[i].bbs| && index < k < |instrs[i].bbs[bb].args|
      requires forall d, x ::
        C(uses, d, x) == Renumbered(instrs, d, x, NextBBArg(x), BBArgMoved(i, bb, index, k, x), BBArgMoved(i, bb, index, k, NextBBArg(x)))
      modifies this`uses
      ensures forall d, x ::
        C(uses, d, x) == Renumbered(instrs, d, x, NextBBArg(x), BBArgMoved(i, bb, index, k + 1, x), BBArgMoved(i, bb, index, k + 1, NextBBArg(x)))
    {
      hide C;
      var v := instrs[i].bbs[bb].args[k];
      assert Slot(instrs, BBArgUse(i, bb, k)) == Some(v);
      RemoveUsage(v, BBArgUse(i, bb, k));
      AddUsage(v, BBArgUse(i, bb, k - 1));
    }

    method DropBBArg(i: nat, bb: nat, index: nat)
      requires i in instrs && bb < |instrs[i].bbs| && index < |instrs[i].bbs[bb].args|
      requires forall d, x :: C(uses, d, x) == Renumbered(instrs, d, x, NextBBArg(x),
                 BBArgMoved(i, bb, index, |instrs[i].bbs[bb].args|, x), BBArgMoved(i, bb, index, |instrs[i].bbs[bb].args|, NextBBArg(x)))
      modifies this`uses
      ensures forall d, x ::
        C(uses, d, x) == Renumbered(instrs, d, x, NextBBArg(x), OfBBArgs(i, bb, x) && x.bbArgId >= index, OfBBArgs(i, bb, x) && x.bbArgId >= index)
    {
      hide C;
      var v := instrs[i].bbs[bb].args[index];
      assert Slot(instrs, BBArgUse(i, bb, index)) == Some(v);
      RemoveUsage(v, BBArgUse(i, bb, index));
    }

    /** Renumbers every later block together with its arguments. */
    method RemoveBB(i: nat, index: nat)
      requires Consistent() && i in instrs && index < |instrs[i].bbs|
      modifies this
      ensures Consistent()
      ensures instrs == old(instrs)[i := old(instrs[i]).(bbs := Erase(old(instrs[i]).bbs, index))]
    {
      var bbs := instrs[i].bbs;
      RenumberBBs(i, index);
      DropTarget(i, index);
      ghost var before := instrs;
      instrs := instrs[i := instrs[i].(bbs := Erase(bbs, index))];
      assert Consistent() by {
        hide C, Slot, Holds, Renumbered;
        forall d, x ensures C(uses, d, x) == Holds(Slot(instrs, x), d) { BBErased(before, i, index, d, x); }
      }
    }

    method RenumberBBs(i: nat, index: nat)
      requires Consistent() && i in instrs && index < |instrs[i].bbs|
      modifies this`uses
      ensures forall d, x :: C(uses, d, x) == Renumbered(instrs, d, x, NextArg(x),
                 BBMoved(i, index, |instrs[i].bbs|, 0, x), BBMoved(i, index, |instrs[i].bbs|, 0, NextArg(x)))
    {
      hide C, Slot, Holds;
      for k := index + 1 to |instrs[i].bbs|
        invariant forall d, x ::
          C(uses, d, x) == Renumbered(instrs, d, x, NextArg(x), BBMoved(i, index, k, 0, x), BBMoved(i, index, k, 0, NextArg(x)))
      {
        MoveTarget(i, index, k);
      }
    }

    /** Moves the uses of block k and of its arguments one block down. */
    method MoveTarget(i: nat, index: nat, k: nat)
      requires i in instrs && index < k < |instrs[i].bbs|
      requires forall d, x ::
        C(uses, d, x) == Renumbered(instrs, d, x, NextArg(x), BBMoved(i, index, k, 0, x), BBMoved(i, index, k, 0, NextArg(x)))
      modifies this`uses
      ensures forall d, x ::
        C(uses, d, x) == Renumbered(instrs, d, x, NextArg(x), BBMoved(i, index, k + 1, 0, x), BBMoved(i, index, k + 1, 0, NextArg(x)))
    {
      hide C;
      var t := instrs[i].bbs[k];
      assert Slot(instrs, BBUse(i, k)) == Some(Block(t.bb));
      RemoveUsage(Block(t.bb), BBUse(i, k));
      AddUsage(Block(t.bb), BBUse(i, k - 1));
      for a := 0 to |t.args|
        invariant forall d, x ::
          C(uses, d, x) == Renumbered(instrs, d, x, NextArg(x), BBMoved(i, index, k, a + 1, x), BBMoved(i, index, k, a + 1, NextArg(x)))
      {
        assert Slot(instrs, BBArgUse(i, k, a)) == Some(t.args[a]);
        RemoveUsage(t.args[a], BBArgUse(i, k, a));
        AddUsage(t.args[a], BBArgUse(i, k - 1, a));
      }
    }

    /** Removes the uses of the erased block and of its arguments. */
    method DropTarget(i: nat, index: nat)
      requires i in instrs && index < |instrs[i].bbs|
      requires forall d, x :: C(uses, d, x) == Renumbered(instrs, d, x, NextArg(x),
                 BBMoved(i, index, |instrs[i].bbs|, 0, x), BBMoved(i, index, |instrs[i].bbs|, 0, NextArg(x)))
      modifies this`uses
      ensures forall d, x :: C(uses, d, x) == Renumbered(instrs, d, x, NextArg(x),
                 OfTarget(i, x) && x.argId >= index, OfTarget(i, x) && x.argId >= index)
    {
      hide C;
      var t := instrs[i].bbs[index];
      ghost var n := |instrs[i].bbs|;
      assert Slot(instrs, BBUse(i, index)) == Some(Block(t.bb));
      RemoveUsage(Block(t.bb), BBUse(i, index));
      for a := 0 to |t.args|
        invariant forall d, x :: C(uses, d, x) == Renumbered(instrs, d, x, NextArg(x),
                    BBMoved(i, index, n, 0, x) || (OfTarget(i, x) && x.argId == index && (x.kind == BB || x.bbArgId < a)),
                    BBMoved(i, index, n, 0, NextArg(x)))
      {
        assert Slot(instrs, BBArgUse(i, index, a)) == Some(t.args[a]);
        RemoveUsage(t.args[a], BBArgUse(i, index, a));
      }
    }

    /** Every operand of one instruction that has a replacement is rewritten. */
    method Substitute(i: nat, repl: map<Value, Value>) returns (replaced: bool)
      requires Consistent() && i in instrs
      requires forall v :: v in repl && v.Block? ==> repl[v].Block?
      modifies this
      ensures Consistent() && SameShapes(old(instrs), instrs)
      ensures forall x :: Slot(instrs, x) == if x.user == i then Mapped(Slot(old(instrs), x), repl) else Slot(old(instrs), x)
      ensures replaced <==> exists x: Use :: x.user == i && InMap(Slot(old(instrs), x), repl)
    {
      hide Tracked, Mapped, Substituted, InMap;
      ghost var before, done: set<Use> := instrs, {};
      replaced := false;
      SubstitutedNothing(instrs, repl);
      for k := 0 to |instrs[i].args|
        invariant Consistent() && SameShapes(before, instrs)
        invariant forall x :: x in done ==> x.user == i && x.kind == NormalArg && x.argId < k
        invariant forall j :: 0 <= j < k ==> Norm(i, j) in done
        invariant Substituted(before, instrs, done, repl, replaced)
      {
        var r := SubstituteUse(Norm(i, k), repl, before, done, replaced);
        replaced := replaced || r;
        done := done + {Norm(i, k)};
      }
      for k := 0 to |instrs[i].bbs|
        invariant Consistent() && SameShapes(before, instrs)
        invariant forall x :: x in done ==> x.user == i && (x.kind == NormalArg || x.argId < k)
        invariant forall j :: 0 <= j < |before[i].args| ==> Norm(i, j) in done
        invariant forall j :: 0 <= j < k ==> TargetDone(before, i, j, done)
        invariant Substituted(before, instrs, done, repl, replaced)
      {
        hide TargetDone;
        ghost var was := done;
        var r;
        r, done := SubstituteTarget(i, k, repl, before, done, replaced);
        replaced := replaced || r;
        forall j | 0 <= j < k + 1 ensures TargetDone(before, i, j, done) {
          if j < k { TargetStays(before, i, j, was, done); }
        }
      }
      AllDone(before, i, done);
      SubstitutedAll(before, instrs, i, done, repl, replaced);
    }

    /** The block and then the block arguments of one target. */
    method SubstituteTarget(i: nat, k: nat, repl: map<Value, Value>, ghost before: map<nat, Operands>, ghost done: set<Use>, ghost sofar: bool)
      returns (r: bool, ghost done': set<Use>)
      requires Consistent() && SameShapes(before, instrs) && i in instrs && k < |instrs[i].bbs|
      requires forall v :: v in repl && v.Block? ==> repl[v].Block?
      requires forall x :: x in done ==> x.kind == NormalArg || x.argId < k
      requires Substituted(before, instrs, done, repl, sofar)
      modifies this
      ensures Consistent() && SameShapes(before, instrs)
      ensures Substituted(before, instrs, done', repl, sofar || r)
      ensures done <= done' && TargetDone(before, i, k, done')
      ensures forall x :: x in done' - done ==> x.user == i && x.kind != NormalArg && x.argId == k
    {
      hide Tracked, Mapped, Substituted, InMap;
      r := SubstituteUse(BBUse(i, k), repl, before, done, sofar);
      done' := done + {BBUse(i, k)};
      for a := 0 to |instrs[i].bbs[k].args|
        invariant Consistent() && SameShapes(before, instrs)
        invariant done <= done' && BBUse(i, k) in done'
        invariant forall x :: x in done' - done ==> x == BBUse(i, k) || (x.user == i && x.kind == BBArg && x.argId == k && x.bbArgId < a)
        invariant forall b :: 0 <= b < a ==> BBArgUse(i, k, b) in done'
        invariant Substituted(before, instrs, done', repl, sofar || r)
      {
        var r1 := SubstituteUse(BBArgUse(i, k, a), repl, before, done', sofar || r);
        r := r || r1;
        done' := done' + {BBArgUse(i, k, a)};
      }
    }

    method SubstituteUse(u: Use, repl: map<Value, Value>, ghost before: map<nat, Operands>, ghost done: set<Use>, ghost sofar: bool)
      returns (r: bool)
      requires Consistent() && Slot(instrs, u).Some? && u !in done && SameShapes(before, instrs)
      requires forall v :: v in repl && v.Block? ==> repl[v].Block?
      requires Substituted(before, instrs, done, repl, sofar)
      modifies this
      ensures Consistent() && SameShapes(before, instrs)
      ensures Substituted(before, instrs, done + {u}, repl, sofar || r)
    {
      hide Tracked, Slot;
      BlockSlot(instrs, u);
      var v := Slot(instrs, u).value;
      r := v in repl;
      assert Slot(before, u) == Some(v);
      if r {
        ShapesTransitive(before, instrs, instrs);
        ghost var mid := instrs;
        ReplaceUse(u, repl[v]);
        ShapesTransitive(before, mid, instrs);
      }
      if sofar {
        var x: Use :| x in done && InMap(Slot(before, x), repl);
        assert x in done + {u};
      }
      assert r ==> u in done + {u} && InMap(Slot(before, u), repl);
    }

    /** Use::replace_use. */
    method ReplaceUse(u: Use, w: Value)
      requires Consistent() && Slot(instrs, u).Some? && (u.kind == BB ==> w.Block?)
      modifies this
      ensures Consistent() && SameShapes(old(instrs), instrs)
      ensures forall x :: Slot(instrs, x) == if x == u then Some(w) else Slot(old(instrs), x)
    {
      hide Tracked;
      match u.kind {
        case NormalArg => var was := ReplaceArg(u.user, u.argId, w);
        case BBArg => var was := ReplaceBBArg(u.user, u.argId, u.bbArgId, w);
        case BB => var was := ReplaceBB(u.user, u.argId, w.block, true);
      }
    }

    /** Used::replace_all_uses, over a snapshot of the use list. */
    method ReplaceAllUses(d: Def, w: Value)
      requires Consistent()
      requires !w.Block? ==> forall u: Use :: Holds(Slot(instrs, u), d) == 1 ==> u.kind != BB
      modifies this
      ensures Consistent() && SameShapes(old(instrs), instrs)
      ensures forall x :: Slot(instrs, x) == if Holds(Slot(old(instrs), x), d) == 1 then Some(w) else Slot(old(instrs), x)
      ensures DefOf(w) != Some(d) ==> UsesOf(uses, d) == []
    {
      var snapshot := UsesOf(uses, d);
      SnapshotIsSlots(instrs, uses, d);
      for k := 0 to |snapshot|
        invariant Consistent() && SameShapes(old(instrs), instrs)
        invariant forall x :: Slot(instrs, x) == if x in snapshot[..k] then Some(w) else Slot(old(instrs), x)
      {
        hide Tracked, Slot, Holds;
        assert snapshot[..k + 1] == snapshot[..k] + [snapshot[k]];
        assert snapshot[k] in snapshot;
        ReplaceUse(snapshot[k], w);
      }
      assert snapshot[..|snapshot|] == snapshot;
      if DefOf(w) != Some(d) { NoSlotsNoUses(instrs, uses, d); }
    }

    /** Used::replace_result_uses: only the uses of one result of an instruction. */
    method ReplaceResultUses(instr: nat, idx: nat, w: Value)
      requires Consistent()
      modifies this
      ensures Consistent() && SameShapes(old(instrs), instrs)
      ensures forall x :: Slot(instrs, x) == if Slot(old(instrs), x) == Some(Result(instr, idx)) then Some(w) else Slot(old(instrs), x)
    {
      var snapshot := UsesOf(uses, InstrDef(instr));
      SnapshotIsSlots(instrs, uses, InstrDef(instr));
      for k := 0 to |snapshot|
        invariant Consistent() && SameShapes(old(instrs), instrs)
        invariant forall x ::
          Slot(instrs, x) == if x in snapshot[..k] && Slot(old(instrs), x) == Some(Result(instr, idx)) then Some(w) else Slot(old(instrs), x)
      {
        hide Tracked, Slot;
        assert snapshot[..k + 1] == snapshot[..k] + [snapshot[k]];
        assert snapshot[k] in snapshot;
        var v := Slot(instrs, snapshot[k]);
        if v == Some(Result(instr, idx)) {
          ResultSlot(instrs, snapshot[k], instr, idx);
          ReplaceUse(snapshot[k], w);
        }
      }
      assert snapshot[..|snapshot|] == snapshot;
    }

    /** Instr::destroy: the operands give up their uses, then the instruction goes. */
    method Destroy(i: nat)
      requires Consistent() && i in instrs
      modifies this
      ensures Consistent() && instrs == old(instrs) - {i}
    {
      ClearArgs(i);
      var n := |instrs[i].bbs|;
      for k := 0 to n
        invariant Consistent() && i in instrs && |instrs[i].bbs| == n && instrs == old(instrs)[i := instrs[i]] && instrs[i].args == []
      {
        hide Tracked;
        ClearBBArgs(i, k);
      }
      ClearBBs(i);
      instrs := instrs - {i};
    }
  }

  predicate SameShape(a: Operands, b: Operands) {
    |a.args| == |b.args| && |a.bbs| == |b.bbs| && forall k :: 0 <= k < |a.bbs| ==> |a.bbs[k].args| == |b.bbs[k].args|
  }

  predicate SameShapes(a: map<nat, Operands>, b: map<nat, Operands>) {
    a.Keys == b.Keys && forall i :: i in a ==> SameShape(a[i], b[i])
  }

  predicate InMap(v: Option<Value>, repl: map<Value, Value>) {
    v.Some? && v.value in repl
  }

  function Mapped(v: Option<Value>, repl: map<Value, Value>): Option<Value> {
    if InMap(v, repl) then Some(repl[v.value]) else v
  }

  /** The slots in done are rewritten, and hit tells whether one of them had to be. */
  ghost predicate Substituted(before: map<nat, Operands>, after: map<nat, Operands>, done: set<Use>, repl: map<Value, Value>, hit: bool) {
    && (forall x :: Slot(after, x) == if x in done then Mapped(Slot(before, x), repl) else Slot(before, x))
    && (hit <==> exists x: Use :: x in done && InMap(Slot(before, x), repl))
  }

  ghost predicate TargetDone(before: map<nat, Operands>, i: nat, j: nat, done: set<Use>)
    requires i in before && j < |before[i].bbs|
  {
    BBUse(i, j) in done && forall a :: 0 <= a < |before[i].bbs[j].args| ==> BBArgUse(i, j, a) in done
  }

  lemma TargetStays(before: map<nat, Operands>, i: nat, j: nat, done: set<Use>, done': set<Use>)
    requires i in before && j < |before[i].bbs| && done <= done' && TargetDone(before, i, j, done)
    ensures TargetDone(before, i, j, done')
  {}

  lemma SubstitutedNothing(instrs: map<nat, Operands>, repl: map<Value, Value>)
    ensures Substituted(instrs, instrs, {}, repl, false)
  {}

  lemma BlockSlot(instrs: map<nat, Operands>, u: Use)
    ensures u.kind == BB && Slot(instrs, u).Some? ==> Slot(instrs, u).value.Block?
  {}

  lemma ShapesTransitive(a: map<nat, Operands>, b: map<nat, Operands>, c: map<nat, Operands>)
    requires SameShapes(a, b) && SameShapes(b, c)
    ensures SameShapes(a, c)
  {}

  lemma AllDone(before: map<nat, Operands>, i: nat, done: set<Use>)
    requires i in before
    requires forall j :: 0 <= j < |before[i].args| ==> Norm(i, j) in done
    requires forall j :: 0 <= j < |before[i].bbs| ==> TargetDone(before, i, j, done)
    ensures forall x: Use :: x.user == i && Slot(before, x).Some? ==> x in done
  {
    forall x: Use | x.user == i && Slot(before, x).Some? ensures x in done {
      match x.kind
      case NormalArg => assert x == Norm(i, x.argId);
      case BB => assert x == BBUse(i, x.argId) && TargetDone(before, i, x.argId, done);
      case BBArg => assert TargetDone(before, i, x.argId, done); assert x == BBArgUse(i, x.argId, x.bbArgId);
    }
  }

  lemma SubstitutedAll(before: map<nat, Operands>, after: map<nat, Operands>, i: nat, done: set<Use>, repl: map<Value, Value>, hit: bool)
    requires Substituted(before, after, done, repl, hit)
    requires forall x :: x in done ==> x.user == i
    requires forall x: Use :: x.user == i && Slot(before, x).Some? ==> x in done
    ensures forall x :: Slot(after, x) == if x.user == i then Mapped(Slot(before, x), repl) else Slot(before, x)
    ensures hit <==> exists x: Use :: x.user == i && InMap(Slot(before, x), repl)
  {
    hide Slot;
    if exists x: Use :: x.user == i && InMap(Slot(before, x), repl) {
      var x: Use :| x.user == i && InMap(Slot(before, x), repl);
      assert x in done;
    }
  }

  /** Consistency, read off the list itself: no use is listed twice, and the
      listed uses are the slots that hold the definition. */
  lemma UseListIsExact(instrs: map<nat, Operands>, uses: map<Def, seq<Use>>, d: Def)
    requires Tracked(instrs, uses)
    ensures forall p, q :: 0 <= p < q < |UsesOf(uses, d)| ==> UsesOf(uses, d)[p] != UsesOf(uses, d)[q]
    ensures forall u :: u in UsesOf(uses, d) <==> Holds(Slot(instrs, u), d) == 1
  {
    SnapshotIsSlots(instrs, uses, d);
    hide Slot, Holds;
    var us := UsesOf(uses, d);
    forall p, q | 0 <= p < q < |us| ensures us[p] != us[q] {
      assert us == us[..q] + us[q..];
      CountConcat(us[..q], us[q..], us[p]);
      CountPositive(us[..q], us[p]);
      CountPositive(us[q..], us[p]);
      assert us[..q][p] in us[..q] && us[q..][0] in us[q..];
      assert C(uses, d, us[p]) == Holds(Slot(instrs, us[p]), d);
      HoldsOne(Slot(instrs, us[p]), d);
    }
  }

  /** The use list names exactly the slots that hold the definition. */
  lemma SnapshotIsSlots(instrs: map<nat, Operands>, uses: map<Def, seq<Use>>, d: Def)
    requires Tracked(instrs, uses)
    ensures forall u: Use :: u in UsesOf(uses, d) <==> Holds(Slot(instrs, u), d) == 1
  {
    hide Slot, Holds;
    forall u ensures u in UsesOf(uses, d) <==> Holds(Slot(instrs, u), d) == 1 {
      CountPositive(UsesOf(uses, d), u);
      assert C(uses, d, u) == Holds(Slot(instrs, u), d);
      HoldsOne(Slot(instrs, u), d);
    }
  }

  lemma HoldsOne(v: Option<Value>, d: Def)
    ensures Holds(v, d) <= 1 && (Holds(v, d) == 1 ==> v.Some?)
  {}

  lemma ResultSlot(instrs: map<nat, Operands>, u: Use, instr: nat, idx: nat)
    requires Slot(instrs, u) == Some(Result(instr, idx))
    ensures u.kind != BB
  {}

  lemma NonEmptyHasMember(us: seq<Use>)
    ensures us != [] ==> exists u :: u in us
  {
    if us != [] { assert us[0] in us; }
  }

  lemma NoSlotsNoUses(instrs: map<nat, Operands>, uses: map<Def, seq<Use>>, d: Def)
    requires Tracked(instrs, uses) && forall u: Use :: Holds(Slot(instrs, u), d) == 0
    ensures UsesOf(uses, d) == []
  {
    SnapshotIsSlots(instrs, uses, d);
    NonEmptyHasMember(UsesOf(uses, d));
  }

  function Erase<T>(s: seq<T>, k: nat): seq<T>
    requires k < |s|
  {
    s[..k] + s[k + 1..]
  }

  lemma ArgErased(instrs: map<nat, Operands>, i: nat, index: nat, d: Def, x: Use)
    requires i in instrs && index < |instrs[i].args|
    ensures Holds(Slot(instrs[i := instrs[i].(args := Erase(instrs[i].args, index))], x), d)
         == Renumbered(instrs, d, x, NextArg(x), OfArgs(i, x) && x.argId >= index, OfArgs(i, x) && x.argId >= index)
  {}

  lemma BBArgErased(instrs: map<nat, Operands>, i: nat, bb: nat, index: nat, d: Def, x: Use)
    requires i in instrs && bb < |instrs[i].bbs| && index < |instrs[i].bbs[bb].args|
    ensures Holds(Slot(instrs[i := WithBBArgs(instrs[i], bb, Erase(instrs[i].bbs[bb].args, index))], x), d)
         == Renumbered(instrs, d, x, NextBBArg(x), OfBBArgs(i, bb, x) && x.bbArgId >= index, OfBBArgs(i, bb, x) && x.bbArgId >= index)
  {}

  lemma BBErased(instrs: map<nat, Operands>, i: nat, index: nat, d: Def, x: Use)
    requires i in instrs && index < |instrs[i].bbs|
    ensures Holds(Slot(instrs[i := instrs[i].(bbs := Erase(instrs[i].bbs, index))], x), d)
         == Renumbered(instrs, d, x, NextArg(x), OfTarget(i, x) && x.argId >= index, OfTarget(i, x) && x.argId >= index)
  {}

  function NextArg(x: Use): Use { x.(argId := x.argId + 1) }

  function NextBBArg(x: Use): Use { x.(bbArgId := x.bbArgId + 1) }

  predicate ArgMoved(i: nat, index: nat, k: nat, x: Use) {
    OfArgs(i, x) && index < x.argId < k
  }

  predicate BBArgMoved(i: nat, bb: nat, index: nat, k: nat, x: Use) {
    OfBBArgs(i, bb, x) && index < x.bbArgId < k
  }

  predicate OfTarget(i: nat, x: Use) {
    x.user == i && (x.kind == BBArg || (x.kind == BB && x.bbArgId == 0))
  }

  /** Blocks index+1 up to k are moved, and the first part of block k: with
      part > 0 its block use, and part - 1 of its arguments. */
  predicate BBMoved(i: nat, index: nat, k: nat, part: nat, x: Use) {
    OfTarget(i, x) && (index < x.argId < k || (x.argId == k && if x.kind == BB then part > 0 else x.bbArgId + 1 < part))
  }

  /** The count of x when its own use has or has not moved away, and the use of
      the next slot has or has not arrived. */
  function Renumbered(instrs: map<nat, Operands>, d: Def, x: Use, next: Use, left: bool, arrived: bool): int {
    (if left then 0 else Holds(Slot(instrs, x), d)) + if arrived then Holds(Slot(instrs, next), d) else 0
  }

  predicate OfArgs(i: nat, x: Use) {
    x.user == i && x.kind == NormalArg && x.bbArgId == 0
  }

  predicate OfBBs(i: nat, x: Use) {
    x.user == i && x.kind == BB && x.bbArgId == 0
  }

  predicate OfBBArgs(i: nat, bb: nat, x: Use) {
    x.user == i && x.kind == BBArg && x.argId == bb
  }

  function WithBBArgs(ops: Operands, bb: nat, args: seq<Value>): Operands
    requires bb < |ops.bbs|
  {
    ops.(bbs := ops.bbs[bb := ops.bbs[bb].(args := args)])
  }

  function Resized(args: seq<Value>, n: nat): (r: seq<Value>)
    ensures |r| >= n
  {
    if |args| >= n then args else args + seq(n - |args|, _ => Invalid)
  }

  lemma PresentSlot(instrs: map<nat, Operands>, uses: map<Def, seq<Use>>, u: Use, v: Value)
    requires Tracked(instrs, uses) && Slot(instrs, u) == Some(v)
    ensures DefOf(v).Some? ==> C(uses, DefOf(v).value, u) > 0
  {}

  lemma ResizedSlots(instrs: map<nat, Operands>, i: nat, bb: nat, index: nat)
    requires i in instrs && bb < |instrs[i].bbs|
    ensures var mid := instrs[i := WithBBArgs(instrs[i], bb, Resized(instrs[i].bbs[bb].args, index + 1))];
      forall x, d :: Holds(Slot(mid, x), d) == Holds(Slot(instrs, x), d)
  {}

  /** Rewriting one slot, with the matching change to the use lists. */
  lemma EditOne(instrs: map<nat, Operands>, instrs': map<nat, Operands>, uses: map<Def, seq<Use>>, uses': map<Def, seq<Use>>,
                u: Use, now: Option<Value>)
    requires Tracked(instrs, uses) && Slot(instrs', u) == now
    requires forall x :: x != u ==> Slot(instrs', x) == Slot(instrs, x)
    requires forall d, x :: C(uses', d, x) == C(uses, d, x)
               + if x == u then Holds(now, d) - Holds(Slot(instrs, u), d) as int else 0
    ensures Tracked(instrs', uses')
  {
    hide C, Slot;
  }
}
