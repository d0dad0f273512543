/** Block arguments are assigned in parallel; generate_bb_args
    (src/mir/matcher.cpp) turns the assignment into a sequence of moves. */
module ParallelMove {
  import opened Mir
  import opened Sums

  /** One argument of a jump: the register of the block argument, whether anyone
      reads it, and the operand passed. */
  datatype JumpArg = JumpArg(used: bool, to: Reg, from: Operand)

  datatype PhiPair = PhiPair(to: Reg, from: Operand)

  predicate UsesReg(o: Operand, r: Reg) {
    o == R(r)
  }

  ghost predicate DistinctTargets(args: seq<JumpArg>) {
    forall i, j :: 0 <= i < j < |args| && args[i].used && args[j].used ==> args[i].to != args[j].to
  }

  ghost predicate Known(args: seq<JumpArg>, bound: nat) {
    forall i :: 0 <= i < |args| ==> Old(args[i].to, bound) && OldOperand(args[i].from, bound)
  }

  /** after does what before does, and then assigns all used arguments at once;
      registers up to bound that are not assigned keep their value. */
  ghost predicate Assigns(before: seq<Instr>, after: seq<Instr>, args: seq<JumpArg>, bound: nat) {
    && (forall rf, i :: 0 <= i < |args| && args[i].used ==> V(after, rf, args[i].to) == OpV(before, rf, args[i].from))
    && (forall rf, r {:trigger V(after, rf, r)} :: Old(r, bound) && (forall i :: 0 <= i < |args| && args[i].used ==> args[i].to != r)
          ==> V(after, rf, r) == V(before, rf, r))
  }

  class Emission {
    var result: seq<Instr>
    // the number of the last virtual register given out
    var vregNum: nat

    constructor (result: seq<Instr>, vregNum: nat)
      ensures this.result == result && this.vregNum == vregNum
    {
      this.result := result;
      this.vregNum := vregNum;
    }

    method Move(to: Reg, from: Operand)
      requires to.Virt?
      modifies this`result
      ensures forall rf :: V(result, rf, to) == OpV(old(result), rf, from)
      ensures forall rf, r: Reg {:trigger V(result, rf, r)} :: r != to ==> V(result, rf, r) == V(old(result), rf, r)
    {
      RunSnoc(result, Mov(to, from));
      result := result + [Mov(to, from)];
    }

    method GenerateBBArgs(args: seq<JumpArg>)
      requires DistinctTargets(args) && Known(args, vregNum)
      modifies this
      ensures vregNum >= old(vregNum)
      ensures Assigns(old(result), result, args, old(vregNum))
    {
      var pairs, home := CollectPairs(args);
      forall i | 0 <= i < |pairs| ensures Old(pairs[i].to, vregNum) && OldOperand(pairs[i].from, vregNum) {
        assert pairs[i].to in home;
      }
      Resolve(pairs, home);
      OpVRegAll(old(result));
    }

    /** Skips unread block arguments and moves of a register to itself. */
    method CollectPairs(args: seq<JumpArg>) returns (pairs: seq<PhiPair>, ghost home: map<Reg, Operand>)
      requires DistinctTargets(args)
      ensures forall i, j :: 0 <= i < j < |pairs| ==> pairs[i].to != pairs[j].to
      ensures forall i :: 0 <= i < |pairs| ==> pairs[i].to in home && home[pairs[i].to] == pairs[i].from
      ensures forall r :: r in home ==> Target(pairs, r) && TargetArg(args, |args|, r)
      ensures forall i :: 0 <= i < |args| && args[i].used ==>
                if args[i].from == R(args[i].to) then args[i].to !in home else args[i].to in home && home[args[i].to] == args[i].from
    {
      pairs, home := [], map[];
      for k := 0 to |args|
        invariant forall i, j :: 0 <= i < j < |pairs| ==> pairs[i].to != pairs[j].to
        invariant forall i :: 0 <= i < |pairs| ==> pairs[i].to in home && home[pairs[i].to] == pairs[i].from
        invariant forall r :: r in home ==> Target(pairs, r) && TargetArg(args, k, r)
        invariant forall i :: 0 <= i < k && args[i].used ==>
                    if args[i].from == R(args[i].to) then args[i].to !in home else args[i].to in home && home[args[i].to] == args[i].from
      {
        assert forall r :: TargetArg(args, k, r) ==> TargetArg(args, k + 1, r);
        if args[k].used && args[k].from != R(args[k].to) {
          assert args[k].to !in home;
          ghost var was := pairs;
          pairs := pairs + [PhiPair(args[k].to, args[k].from)];
          forall r | Target(was, r) ensures Target(pairs, r) {
            var i :| 0 <= i < |was| && was[i].to == r;
            assert pairs[i].to == r;
          }
          assert pairs[|was|].to == args[k].to;
          home := home[args[k].to := args[k].from];
        }
      }
    }

    /** The loop that emits every pair no other pair still reads, and breaks a cycle
        by saving one source in a new register. */
    method Resolve(start: seq<PhiPair>, ghost home: map<Reg, Operand>)
      requires forall i :: 0 <= i < |start| ==> Old(start[i].to, vregNum) && OldOperand(start[i].from, vregNum)
      requires Pending(result, result, start, home, vregNum, vregNum)
      requires forall r :: r in home ==> Target(start, r)
      modifies this
      ensures vregNum >= old(vregNum)
      ensures Pending(old(result), result, [], home, old(vregNum), vregNum)
    {
      ghost var c0, bound := result, vregNum;
      var pairs := start;
      var foundOne := true;
      while foundOne
        invariant vregNum >= bound
        invariant Pending(c0, result, pairs, home, bound, vregNum)
        invariant !foundOne ==> pairs == []
        decreases |pairs|, Unsaved(pairs, bound), foundOne
      {
        foundOne := false;
        ghost var before := pairs;
        var id := 0;
        while id < |pairs|
          invariant 0 <= id && vregNum >= bound
          invariant Pending(c0, result, pairs, home, bound, vregNum)
          invariant foundOne ==> |pairs| < |before|
          invariant !foundOne ==> pairs == before && forall k :: 0 <= k < id && k < |pairs| ==> Collides(pairs, k)
          decreases |pairs| - id
        {
          var collision := FindCollision(pairs, id);
          if !collision {
            ghost var c1 := result;
            Move(pairs[id].to, pairs[id].from);
            MoveKeeps(c0, c1, result, pairs, id, home, bound, vregNum);
            pairs := pairs[..id] + pairs[id + 1..];
            if id > 0 { id := id - 1; }
            foundOne := true;
          }
          id := id + 1;
        }
        if !foundOne && pairs != [] {
          var pair := pairs[0];
          AllCollide(pairs, home, c0, result, bound, vregNum);
          vregNum := vregNum + 1;
          var save := Virt(vregNum);
          ghost var c1 := result;
          Move(save, pair.from);
          SaveKeeps(c0, c1, result, pairs, home, bound, vregNum);
          pairs := pairs[1..] + [PhiPair(pair.to, R(save))];
          UnsavedShrinks(before, pairs, bound);
          foundOne := true;
        }
      }
    }
  }

  ghost predicate Target(pairs: seq<PhiPair>, r: Reg) {
    exists i :: 0 <= i < |pairs| && pairs[i].to == r
  }

  ghost predicate TargetArg(args: seq<JumpArg>, k: nat, r: Reg) {
    exists i :: 0 <= i < k && i < |args| && args[i].used && args[i].to == r
  }

  /** Some pair still reads the register pair k writes. */
  ghost predicate Collides(pairs: seq<PhiPair>, k: nat)
    requires k < |pairs|
  {
    exists j :: 0 <= j < |pairs| && UsesReg(pairs[j].from, pairs[k].to)
  }

  method FindCollision(pairs: seq<PhiPair>, k: nat) returns (collision: bool)
    requires k < |pairs|
    ensures collision <==> Collides(pairs, k)
  {
    for j := 0 to |pairs|
      invariant forall h :: 0 <= h < j ==> !UsesReg(pairs[h].from, pairs[k].to)
    {
      if UsesReg(pairs[j].from, pairs[k].to) {
        return true;
      }
    }
    return false;
  }

  function Unsaved(pairs: seq<PhiPair>, bound: nat): nat {
    if pairs == [] then 0 else Unsaved(pairs[1..], bound) + if OldOperand(pairs[0].from, bound) then 1 else 0
  }

  /** Between c0 and now: every pair left would still deliver the original value
      of its home operand, every other target has it, and nothing else changed. */
  ghost predicate Pending(c0: seq<Instr>, now: seq<Instr>, pairs: seq<PhiPair>, home: map<Reg, Operand>, bound: nat, next: nat) {
    && bound <= next
    && (forall i :: 0 <= i < |pairs| ==> pairs[i].to in home && Old(pairs[i].to, bound) && OldOperand(pairs[i].from, next))
    && (forall i, j :: 0 <= i < j < |pairs| ==> pairs[i].to != pairs[j].to)
    && (forall rf, i :: 0 <= i < |pairs| ==> OpV(now, rf, pairs[i].from) == OpV(c0, rf, home[pairs[i].to]))
    && (forall rf, r {:trigger V(now, rf, r)} :: r in home && (forall i :: 0 <= i < |pairs| ==> pairs[i].to != r) ==> V(now, rf, r) == OpV(c0, rf, home[r]))
    && (forall rf, r {:trigger V(now, rf, r)} :: Old(r, bound) && r !in home ==> V(now, rf, r) == V(c0, rf, r))
  }

  lemma OpVRegAll(code: seq<Instr>)
    ensures forall rf, r {:trigger OpV(code, rf, R(r))} :: OpV(code, rf, R(r)) == V(code, rf, r)
  {}

  lemma OpVCases(code: seq<Instr>, rf: Regs, o: Operand)
    ensures OpV(code, rf, o) == if o.R? then V(code, rf, o.reg) else o.value
  {}

  lemma MoveKeeps(c0: seq<Instr>, c1: seq<Instr>, c2: seq<Instr>, pairs: seq<PhiPair>, k: nat, home: map<Reg, Operand>, bound: nat, next: nat)
    requires Pending(c0, c1, pairs, home, bound, next) && k < |pairs| && !Collides(pairs, k)
    requires forall rf :: V(c2, rf, pairs[k].to) == OpV(c1, rf, pairs[k].from)
    requires forall rf, r: Reg {:trigger V(c2, rf, r)} :: r != pairs[k].to ==> V(c2, rf, r) == V(c1, rf, r)
    ensures Pending(c0, c2, pairs[..k] + pairs[k + 1..], home, bound, next)
  {
    hide V, OpV;
    var rest := pairs[..k] + pairs[k + 1..];
    forall rf, i | 0 <= i < |rest| ensures OpV(c2, rf, rest[i].from) == OpV(c0, rf, home[rest[i].to]) {
      var j := if i < k then i else i + 1;
      assert rest[i] == pairs[j] && !UsesReg(pairs[j].from, pairs[k].to);
      OpVCases(c1, rf, pairs[j].from);
      OpVCases(c2, rf, pairs[j].from);
    }
    forall rf, r: Reg | r in home && (forall i :: 0 <= i < |rest| ==> rest[i].to != r)
      ensures V(c2, rf, r) == OpV(c0, rf, home[r])
    {
      if r != pairs[k].to {
        forall i | 0 <= i < |pairs| ensures pairs[i].to != r {
          if i < k { assert rest[i] == pairs[i]; } else if i > k { assert rest[i - 1] == pairs[i]; }
        }
      }
    }
  }

  lemma SaveKeeps(c0: seq<Instr>, c1: seq<Instr>, c2: seq<Instr>, pairs: seq<PhiPair>, home: map<Reg, Operand>, bound: nat, next: nat)
    requires next > bound && Pending(c0, c1, pairs, home, bound, next - 1) && pairs != []
    requires forall r: Reg :: r in home ==> Old(r, bound)
    requires forall rf :: V(c2, rf, Virt(next)) == OpV(c1, rf, pairs[0].from)
    requires forall rf, r: Reg {:trigger V(c2, rf, r)} :: r != Virt(next) ==> V(c2, rf, r) == V(c1, rf, r)
    ensures Pending(c0, c2, pairs[1..] + [PhiPair(pairs[0].to, R(Virt(next)))], home, bound, next)
  {
    hide V, OpV;
    var rest := pairs[1..] + [PhiPair(pairs[0].to, R(Virt(next)))];
    forall rf, i | 0 <= i < |rest| ensures OpV(c2, rf, rest[i].from) == OpV(c0, rf, home[rest[i].to]) {
      OpVCases(c2, rf, rest[i].from);
      if i < |pairs| - 1 {
        assert rest[i] == pairs[i + 1];
        OpVCases(c1, rf, pairs[i + 1].from);
      }
    }
    forall rf, r: Reg | r in home && (forall i :: 0 <= i < |rest| ==> rest[i].to != r)
      ensures V(c2, rf, r) == OpV(c0, rf, home[r])
    {
      forall i | 0 <= i < |pairs| ensures pairs[i].to != r {
        if i > 0 { assert rest[i - 1] == pairs[i]; } else { assert rest[|pairs| - 1].to == pairs[0].to; }
      }
    }
  }

  // ----- when every pair collides, the first source is not a saved one -----

  function Targets(pairs: seq<PhiPair>): set<Reg> {
    set i | 0 <= i < |pairs| :: pairs[i].to
  }

  function Sources(pairs: seq<PhiPair>): set<Reg> {
    set i | 0 <= i < |pairs| && pairs[i].from.R? :: pairs[i].from.reg
  }

  lemma {:induction false} TargetCount(pairs: seq<PhiPair>)
    requires forall i, j :: 0 <= i < j < |pairs| ==> pairs[i].to != pairs[j].to
    ensures |Targets(pairs)| == |pairs|
  {
    if pairs != [] {
      var k := |pairs| - 1;
      TargetCount(pairs[..k]);
      assert Targets(pairs) == Targets(pairs[..k]) + {pairs[k].to};
      assert pairs[k].to !in Targets(pairs[..k]);
    }
  }

  lemma {:induction false} SourceCount(pairs: seq<PhiPair>)
    ensures |Sources(pairs)| <= |pairs|
  {
    if pairs != [] {
      var k := |pairs| - 1;
      SourceCount(pairs[..k]);
      assert Sources(pairs) == Sources(pairs[..k]) + if pairs[k].from.R? then {pairs[k].from.reg} else {};
    } else {
      assert Sources(pairs) == {};
    }
  }

  /** Pigeonhole: with as many targets as sources, and every target also a source,
      the first source must be one of the targets. */
  lemma AllCollide(pairs: seq<PhiPair>, home: map<Reg, Operand>, c0: seq<Instr>, now: seq<Instr>, bound: nat, next: nat)
    requires Pending(c0, now, pairs, home, bound, next) && pairs != []
    requires forall k :: 0 <= k < |pairs| ==> Collides(pairs, k)
    ensures pairs[0].from.R? && Old(pairs[0].from.reg, bound)
  {
    hide V, OpV;
    if !(pairs[0].from.R? && Old(pairs[0].from.reg, bound)) {
      var rest := pairs[1..];
      forall r | r in Targets(pairs) ensures r in Sources(rest) {
        var k :| 0 <= k < |pairs| && pairs[k].to == r;
        assert Collides(pairs, k);
        var j :| 0 <= j < |pairs| && UsesReg(pairs[j].from, pairs[k].to);
        assert j > 0;
        assert rest[j - 1].from == R(r);
      }
      TargetCount(pairs);
      SourceCount(rest);
      SubsetSize(Targets(pairs), Sources(rest));
    }
  }

  lemma {:induction false} UnsavedConcat(a: seq<PhiPair>, p: PhiPair, bound: nat)
    ensures Unsaved(a + [p], bound) == Unsaved(a, bound) + if OldOperand(p.from, bound) then 1 else 0
  {
    if a == [] {
      assert a + [p] == [p];
    } else {
      assert (a + [p])[1..] == a[1..] + [p];
      UnsavedConcat(a[1..], p, bound);
    }
  }

  lemma UnsavedShrinks(before: seq<PhiPair>, after: seq<PhiPair>, bound: nat)
    requires before != [] && OldOperand(before[0].from, bound)
    requires exists p :: after == before[1..] + [p] && !OldOperand(p.from, bound)
    ensures |after| == |before| && Unsaved(after, bound) < Unsaved(before, bound)
  {
    var p :| after == before[1..] + [p] && !OldOperand(p.from, bound);
    UnsavedConcat(before[1..], p, bound);
  }
}
