/** Aggregates as flat lists of scalar leaves (src/llvm/llir_loader.cpp). */
module Aggregate {
  import opened Arith

  /** A type with the layout that the data layout gives it. A scalar occupies
      alloc bytes, of which a store writes the first size. */
  datatype Ty =
    | Scalar(id: nat, size: nat, alloc: nat)
    | Struct(elems: seq<Ty>, offsets: seq<nat>, total: nat)
    | Arr(n: nat, elem: Ty)

  datatype Leaf = Leaf(ty: Ty, offset: nat)

  function AllocSize(ty: Ty): nat {
    match ty
    case Scalar(_, _, alloc) => alloc
    case Struct(_, _, total) => total
    case Arr(n, elem) => n * AllocSize(elem)
  }

  function Members(ty: Ty): nat {
    match ty
    case Scalar(_, _, _) => 0
    case Struct(elems, _, _) => |elems|
    case Arr(n, _) => n
  }

  function Member(ty: Ty, i: nat): (m: Ty)
    requires i < Members(ty)
    ensures m < ty
  {
    if ty.Struct? then ty.elems[i] else ty.elem
  }

  /** Where member i starts. */
  function Offset(ty: Ty, i: nat): nat
    requires i < Members(ty) && (ty.Struct? ==> |ty.offsets| == |ty.elems|)
  {
    if ty.Struct? then ty.offsets[i] else i * AllocSize(ty.elem)
  }

  /** Every struct in the type has an offset for every member. */
  predicate WfTy(ty: Ty) {
    && (ty.Struct? ==> |ty.offsets| == |ty.elems|)
    && forall i :: 0 <= i < Members(ty) ==> WfTy(Member(ty, i))
  }

  /** Members lie one after the other, inside their aggregate. */
  predicate Sane(ty: Ty)
    requires WfTy(ty)
  {
    && (ty.Scalar? ==> ty.size <= ty.alloc)
    && (forall i :: 0 <= i < Members(ty) ==> Sane(Member(ty, i)))
    && (ty.Struct? ==> forall i :: 0 <= i < |ty.elems| ==> MemberFits(ty, i))
  }

  /** Member i of a struct ends before the next one starts, the last inside the struct. */
  predicate MemberFits(ty: Ty, i: nat)
    requires ty.Struct? && |ty.offsets| == |ty.elems| && i < |ty.elems|
  {
    ty.offsets[i] + AllocSize(ty.elems[i]) <= if i + 1 < |ty.elems| then ty.offsets[i + 1] else ty.total
  }

  // ----- collecting and counting -----

  function Leaves(ty: Ty, base: nat): seq<Leaf>
    requires WfTy(ty)
    decreases ty, Members(ty) + 1
  {
    if ty.Scalar? then [Leaf(ty, base)] else LeavesTo(ty, base, Members(ty))
  }

  /** The leaves of the first k members. */
  function LeavesTo(ty: Ty, base: nat, k: nat): seq<Leaf>
    requires WfTy(ty) && k <= Members(ty)
    decreases ty, k
  {
    if k == 0 then [] else LeavesTo(ty, base, k - 1) + Leaves(Member(ty, k - 1), base + Offset(ty, k - 1))
  }

  method CollectLeaves(ty: Ty, base: nat, out: seq<Leaf>) returns (r: seq<Leaf>)
    requires WfTy(ty)
    ensures r == out + Leaves(ty, base)
    decreases ty
  {
    r := out;
    if ty.Struct? {
      for i := 0 to |ty.elems|
        invariant r == out + LeavesTo(ty, base, i)
      {
        assert Member(ty, i) == ty.elems[i];
        r := CollectLeaves(ty.elems[i], base + ty.offsets[i], r);
      }
      return;
    }
    if ty.Arr? {
      var stride := AllocSize(ty.elem);
      for i := 0 to ty.n
        invariant r == out + LeavesTo(ty, base, i)
      {
        assert Member(ty, i) == ty.elem && Offset(ty, i) == i * stride;
        r := CollectLeaves(ty.elem, base + i * stride, r);
      }
      return;
    }
    r := r + [Leaf(ty, base)];
  }

  /** How many leaves the first k members have. */
  function CountTo(ty: Ty, k: nat): (c: nat)
    requires k <= Members(ty)
    decreases ty, k
  {
    if k == 0 then 0 else CountTo(ty, k - 1) + Count(Member(ty, k - 1))
  }

  function Count(ty: Ty): nat
    decreases ty, Members(ty) + 1
  {
    if ty.Scalar? then 1 else CountTo(ty, Members(ty))
  }

  lemma {:induction false} CountOfArray(ty: Ty, k: nat)
    requires ty.Arr? && k <= ty.n
    ensures CountTo(ty, k) == k * Count(ty.elem)
  {
    if k > 0 {
      CountOfArray(ty, k - 1);
      MulDistribute(k - 1, 1, Count(ty.elem));
    }
  }

  method CountLeaves(ty: Ty) returns (n: nat)
    ensures n == Count(ty)
    decreases ty
  {
    if ty.Struct? {
      n := 0;
      for i := 0 to |ty.elems|
        invariant n == CountTo(ty, i)
      {
        assert Member(ty, i) == ty.elems[i];
        var c := CountLeaves(ty.elems[i]);
        n := n + c;
      }
      return;
    }
    if ty.Arr? {
      CountOfArray(ty, ty.n);
      var c := CountLeaves(ty.elem);
      n := ty.n * c;
      return;
    }
    n := 1;
  }

  /** The count is the number of leaves collected. */
  lemma {:induction false} CountIsExact(ty: Ty, base: nat)
    requires WfTy(ty)
    ensures |Leaves(ty, base)| == Count(ty)
    decreases ty, Members(ty) + 1
  {
    if !ty.Scalar? { CountToIsExact(ty, base, Members(ty)); }
  }

  lemma {:induction false} CountToIsExact(ty: Ty, base: nat, k: nat)
    requires WfTy(ty) && k <= Members(ty)
    ensures |LeavesTo(ty, base, k)| == CountTo(ty, k)
    decreases ty, k
  {
    if k > 0 {
      CountToIsExact(ty, base, k - 1);
      CountIsExact(Member(ty, k - 1), base + Offset(ty, k - 1));
    }
  }

  // ----- nested values -----

  /** The nested value a flat list stands for. */
  datatype Value = Bits(bytes: seq<u8>) | Node(members: seq<Value>)

  predicate HasType(v: Value, ty: Ty)
    decreases ty
  {
    if ty.Scalar? then v.Bits? && |v.bytes| == ty.size else
    && v.Node? && |v.members| == Members(ty)
    && forall i :: 0 <= i < Members(ty) ==> HasType(v.members[i], Member(ty, i))
  }

  function Flatten(v: Value): seq<seq<u8>>
    decreases v, if v.Node? then |v.members| + 1 else 0
  {
    if v.Bits? then [v.bytes] else FlattenTo(v, |v.members|)
  }

  function FlattenTo(v: Value, k: nat): seq<seq<u8>>
    requires v.Node? && k <= |v.members|
    decreases v, k
  {
    if k == 0 then [] else FlattenTo(v, k - 1) + Flatten(v.members[k - 1])
  }

  lemma {:induction false} FlatLength(v: Value, ty: Ty)
    requires HasType(v, ty)
    ensures |Flatten(v)| == Count(ty)
    decreases ty, Members(ty) + 1
  {
    if !ty.Scalar? { FlatToLength(v, ty, Members(ty)); }
  }

  lemma {:induction false} FlatToLength(v: Value, ty: Ty, k: nat)
    requires HasType(v, ty) && !ty.Scalar? && k <= Members(ty)
    ensures |FlattenTo(v, k)| == CountTo(ty, k)
    decreases ty, k
  {
    if k > 0 {
      FlatToLength(v, ty, k - 1);
      FlatLength(v.members[k - 1], Member(ty, k - 1));
    }
  }

  /** Member i in the flat list: what is before it, it, and what is after it. */
  lemma {:induction false} FlatMember(v: Value, i: nat, k: nat)
    requires v.Node? && i < k <= |v.members|
    ensures FlattenTo(v, i) + Flatten(v.members[i]) <= FlattenTo(v, k)
  {
    if i + 1 < k {
      FlatMember(v, i, k - 1);
    }
  }

  /** Replacing member i replaces its part of the list. */
  lemma {:induction false} FlatUpdate(v: Value, i: nat, w: Value, k: nat)
    requires v.Node? && i < |v.members| && k <= |v.members|
    ensures k > i ==> |FlattenTo(v, i)| + |Flatten(v.members[i])| <= |FlattenTo(v, k)|
    ensures var v' := Node(v.members[i := w]);
      FlattenTo(v', k) == if k <= i then FlattenTo(v, k) else
        FlattenTo(v, i) + Flatten(w) + FlattenTo(v, k)[|FlattenTo(v, i)| + |Flatten(v.members[i])|..]
    decreases k
  {
    if k > 0 {
      FlatUpdate(v, i, w, k - 1);
      if k > i { FlatMember(v, i, k); }
    }
  }

  // ----- paths -----

  predicate PathOk(ty: Ty, path: seq<nat>)
    decreases |path|
  {
    path == [] || (path[0] < Members(ty) && PathOk(Member(ty, path[0]), path[1..]))
  }

  function TypeAt(ty: Ty, path: seq<nat>): Ty
    requires PathOk(ty, path)
    decreases |path|
  {
    if path == [] then ty else TypeAt(Member(ty, path[0]), path[1..])
  }

  /** The position of the first leaf of the member at a path. */
  function First(ty: Ty, path: seq<nat>): nat
    requires PathOk(ty, path)
    decreases |path|
  {
    if path == [] then 0 else CountTo(ty, path[0]) + First(Member(ty, path[0]), path[1..])
  }

  function Select(v: Value, ty: Ty, path: seq<nat>): (w: Value)
    requires HasType(v, ty) && PathOk(ty, path)
    ensures HasType(w, TypeAt(ty, path))
    decreases |path|
  {
    if path == [] then v else Select(v.members[path[0]], Member(ty, path[0]), path[1..])
  }

  function Update(v: Value, ty: Ty, path: seq<nat>, w: Value): (v': Value)
    requires HasType(v, ty) && PathOk(ty, path) && HasType(w, TypeAt(ty, path))
    ensures HasType(v', ty)
    decreases |path|
  {
    if path == [] then w else
    Node(v.members[path[0] := Update(v.members[path[0]], Member(ty, path[0]), path[1..], w)])
  }

  /** The loop over the path, as the loader runs it. */
  method LeafRange(ty: Ty, path: seq<nat>) returns (first: nat, count: nat)
    requires PathOk(ty, path)
    ensures first == First(ty, path) && count == Count(TypeAt(ty, path))
  {
    first := 0;
    var t := ty;
    assert path[0..] == path;
    for k := 0 to |path|
      invariant PathOk(t, path[k..])
      invariant first + First(t, path[k..]) == First(ty, path) && TypeAt(t, path[k..]) == TypeAt(ty, path)
    {
      var idx := path[k];
      assert path[k..][1..] == path[k + 1..];
      if t.Struct? {
        ghost var before := first;
        for i := 0 to idx
          invariant first == before + CountTo(t, i)
        {
          assert Member(t, i) == t.elems[i];
          var c := CountLeaves(t.elems[i]);
          first := first + c;
        }
        t := t.elems[idx];
      } else {
        CountOfArray(t, idx);
        var c := CountLeaves(t.elem);
        first := first + idx * c;
        t := t.elem;
      }
    }
    count := CountLeaves(t);
  }

  lemma {:induction false} RangeInside(ty: Ty, path: seq<nat>)
    requires PathOk(ty, path)
    ensures First(ty, path) + Count(TypeAt(ty, path)) <= Count(ty)
    decreases |path|
  {
    if path != [] {
      RangeInside(Member(ty, path[0]), path[1..]);
      CountGrows(ty, path[0] + 1, Members(ty));
    }
  }

  lemma {:induction false} CountGrows(ty: Ty, i: nat, k: nat)
    requires i <= k <= Members(ty)
    ensures CountTo(ty, i) <= CountTo(ty, k)
    decreases k
  {
    if i < k { CountGrows(ty, i, k - 1); }
  }

  /** Taking the range of a path is selecting the member there. */
  lemma {:induction false} ExtractCommutes(v: Value, ty: Ty, path: seq<nat>)
    requires HasType(v, ty) && PathOk(ty, path)
    ensures First(ty, path) + Count(TypeAt(ty, path)) <= |Flatten(v)|
    ensures Flatten(v)[First(ty, path)..][..Count(TypeAt(ty, path))] == Flatten(Select(v, ty, path))
    decreases |path|
  {
    RangeInside(ty, path);
    FlatLength(v, ty);
    if path == [] {
      assert Flatten(v)[0..] == Flatten(v);
    } else {
      var i := path[0];
      ExtractCommutes(v.members[i], Member(ty, i), path[1..]);
      FlatMember(v, i, |v.members|);
      FlatToLength(v, ty, i);
      FlatLength(v.members[i], Member(ty, i));
      RangeInside(Member(ty, i), path[1..]);
      SliceOfPrefix(Flatten(v), FlattenTo(v, i), Flatten(v.members[i]), First(Member(ty, i), path[1..]), Count(TypeAt(ty, path)));
    }
  }

  lemma SliceOfPrefix<T>(s: seq<T>, a: seq<T>, b: seq<T>, f: nat, c: nat)
    requires a + b <= s && f + c <= |b|
    ensures |a| + f + c <= |s| && s[|a| + f..][..c] == b[f..][..c]
  {
    assert s[..|a| + |b|] == a + b;
    assert s[|a| + f..|a| + f + c] == (a + b)[|a| + f..|a| + f + c] == b[f..f + c];
    assert s[|a| + f..][..c] == s[|a| + f..|a| + f + c] && b[f..][..c] == b[f..f + c];
  }

  /** The list with n elements from f on replaced. */
  function Splice<T>(s: seq<T>, f: nat, n: nat, t: seq<T>): seq<T>
    requires f + n <= |s|
  {
    s[..f] + t + s[f + n..]
  }

  /** Replacing the range of a path is updating the member there. */
  lemma {:induction false} InsertCommutes(v: Value, ty: Ty, path: seq<nat>, w: Value)
    requires HasType(v, ty) && PathOk(ty, path) && HasType(w, TypeAt(ty, path))
    ensures First(ty, path) + Count(TypeAt(ty, path)) <= |Flatten(v)|
    ensures Flatten(Update(v, ty, path, w)) == Splice(Flatten(v), First(ty, path), Count(TypeAt(ty, path)), Flatten(w))
    decreases |path|
  {
    hide Flatten, FlattenTo, Splice, Count, CountTo;
    RangeInside(ty, path);
    FlatLength(v, ty);
    if path == [] {
      WholeSplice(Flatten(v), Flatten(w));
      assert Splice(Flatten(v), 0, Count(ty), Flatten(w)) == Flatten(w);
    } else {
      var i := path[0];
      InsertCommutes(v.members[i], Member(ty, i), path[1..], w);
      RangeInside(Member(ty, i), path[1..]);
      FlatLength(v.members[i], Member(ty, i));
      InsertInMember(v, ty, i, Update(v.members[i], Member(ty, i), path[1..], w),
                     First(Member(ty, i), path[1..]), Count(TypeAt(ty, path)), Flatten(w));
    }
  }

  /** A replacement inside member i, seen from the whole list. */
  lemma InsertInMember(v: Value, ty: Ty, i: nat, u: Value, f: nat, n: nat, t: seq<seq<u8>>)
    requires HasType(v, ty) && i < Members(ty) && f + n <= |Flatten(v.members[i])|
    requires Flatten(u) == Splice(Flatten(v.members[i]), f, n, t)
    ensures CountTo(ty, i) + f + n <= |Flatten(v)|
    ensures Flatten(Node(v.members[i := u])) == Splice(Flatten(v), CountTo(ty, i) + f, n, t)
  {
    hide Flatten, FlattenTo, HasType, Splice, CountTo, Count;
    FlatToLength(v, ty, i) by { NotScalar(ty, i); }
    NodeOf(v, ty);
    WholeList(v);
    WholeList(Node(v.members[i := u]));
    FlatMember(v, i, |v.members|);
    FlatUpdate(v, i, u, |v.members|);
    SpliceInside(Flatten(v), FlattenTo(v, i), Flatten(v.members[i]), f, n, t);
  }

  lemma NotScalar(ty: Ty, i: nat)
    ensures i < Members(ty) ==> !ty.Scalar?
  {}

  lemma NodeOf(v: Value, ty: Ty)
    requires HasType(v, ty)
    ensures !ty.Scalar? ==> v.Node? && |v.members| == Members(ty)
  {}

  lemma WholeList(v: Value)
    ensures v.Node? ==> Flatten(v) == FlattenTo(v, |v.members|)
  {}

  lemma SpliceInside<T>(s: seq<T>, a: seq<T>, b: seq<T>, f: nat, n: nat, t: seq<T>)
    requires a + b <= s && f + n <= |b|
    ensures a + Splice(b, f, n, t) + s[|a| + |b|..] == Splice(s, |a| + f, n, t)
  {
    assert s == a + b + s[|a| + |b|..];
  }

  lemma WholeSplice<T>(s: seq<T>, t: seq<T>)
    ensures Splice(s, 0, |s|, t) == t
  {}

  lemma SpliceNone<T>(s: seq<T>, f: nat)
    requires f <= |s|
    ensures Splice(s, f, 0, []) == s
  {}

  lemma SpliceOne<T>(s: seq<T>, f: nat, i: nat, t: seq<T>)
    requires i < |t| && f + i < |s|
    ensures var p := Splice(s, f, i, t[..i]);
      |p| == |s| && p[f + i := t[i]] == Splice(s, f, i + 1, t[..i + 1])
  {}

  /** extractvalue on the leaf list. */
  method ExtractValue(leaves: seq<seq<u8>>, ty: Ty, path: seq<nat>, ghost v: Value) returns (r: seq<seq<u8>>)
    requires HasType(v, ty) && PathOk(ty, path) && leaves == Flatten(v)
    ensures r == Flatten(Select(v, ty, path))
  {
    ExtractCommutes(v, ty, path);
    var first, count := LeafRange(ty, path);
    assert leaves[first..first + count] == leaves[first..][..count];
    r := leaves[first..first + count];
  }

  /** insertvalue on the leaf list: the leaves of the member are overwritten one by one. */
  method InsertValue(agg: seq<seq<u8>>, ty: Ty, path: seq<nat>, sub: seq<seq<u8>>, ghost v: Value, ghost w: Value)
    returns (leaves: seq<seq<u8>>)
    requires HasType(v, ty) && PathOk(ty, path) && HasType(w, TypeAt(ty, path))
    requires agg == Flatten(v) && sub == Flatten(w)
    ensures leaves == Flatten(Update(v, ty, path, w))
  {
    InsertCommutes(v, ty, path, w);
    FlatLength(w, TypeAt(ty, path));
    var first, count := LeafRange(ty, path);
    leaves := agg;
    hide Flatten, HasType, PathOk, TypeAt, First, Count, Update, Splice;
    SpliceNone(agg, first);
    for i := 0 to count
      invariant |leaves| == |agg|
      invariant leaves == Splice(agg, first, i, sub[..i])
    {
      SpliceOne(agg, first, i, sub);
      leaves := leaves[first + i := sub[i]];
    }
    assert sub[..count] == sub;
  }

  // ----- loads and stores -----

  function Size(l: Leaf): nat {
    if l.ty.Scalar? then l.ty.size else 0
  }

  /** Leaves lie one after the other between two addresses. */
  predicate Ordered(ls: seq<Leaf>, lo: nat, hi: nat) {
    && lo <= hi
    && (forall i :: 0 <= i < |ls| ==> lo <= ls[i].offset && ls[i].offset + Size(ls[i]) <= hi)
    && (forall i, j :: 0 <= i < j < |ls| ==> ls[i].offset + Size(ls[i]) <= ls[j].offset)
  }

  lemma OrderedConcat(a: seq<Leaf>, b: seq<Leaf>, lo: nat, mid: nat, mid': nat, hi: nat)
    requires Ordered(a, lo, mid) && Ordered(b, mid', hi) && mid <= mid'
    ensures Ordered(a + b, lo, hi)
  {}

  /** The end of the first k members. */
  function EndOf(ty: Ty, k: nat): nat
    requires WfTy(ty) && !ty.Scalar? && k <= Members(ty)
  {
    if k == 0 then 0 else Offset(ty, k - 1) + AllocSize(Member(ty, k - 1))
  }

  lemma EndBeforeNext(ty: Ty, k: nat)
    requires WfTy(ty) && Sane(ty) && !ty.Scalar? && k <= Members(ty)
    ensures k < Members(ty) ==> EndOf(ty, k) <= Offset(ty, k)
    ensures k == Members(ty) ==> EndOf(ty, k) <= AllocSize(ty)
  {
    if ty.Arr? && k > 0 {
      MulDistribute(k - 1, 1, AllocSize(ty.elem));
    } else if ty.Struct? && k > 0 {
      assert MemberFits(ty, k - 1);
    }
  }

  lemma MemberSane(ty: Ty, i: nat)
    requires WfTy(ty) && Sane(ty) && !ty.Scalar? && i < Members(ty)
    ensures WfTy(Member(ty, i)) && Sane(Member(ty, i))
  {}

  /** In a sane layout the byte ranges of the leaves are disjoint and inside the aggregate. */
  lemma {:induction false} LeavesDisjoint(ty: Ty, base: nat)
    requires WfTy(ty) && Sane(ty)
    ensures Ordered(Leaves(ty, base), base, base + AllocSize(ty))
    decreases ty, Members(ty) + 1
  {
    if !ty.Scalar? {
      LeavesToDisjoint(ty, base, Members(ty));
      EndBeforeNext(ty, Members(ty));
    }
  }

  lemma {:induction false} LeavesToDisjoint(ty: Ty, base: nat, k: nat)
    requires WfTy(ty) && Sane(ty) && !ty.Scalar? && k <= Members(ty)
    ensures Ordered(LeavesTo(ty, base, k), base, base + EndOf(ty, k))
    decreases ty, k
  {
    if k > 0 {
      MemberSane(ty, k - 1);
      EndBeforeNext(ty, k - 1);
      hide Ordered, Offset, AllocSize, Sane, WfTy, EndOf, LeavesTo, Leaves;
      LeavesToDisjoint(ty, base, k - 1);
      LeavesDisjoint(Member(ty, k - 1), base + Offset(ty, k - 1));
      MemberAppended(ty, base, k);
    }
  }

  lemma MemberAppended(ty: Ty, base: nat, k: nat)
    requires WfTy(ty) && !ty.Scalar? && 0 < k <= Members(ty) && EndOf(ty, k - 1) <= Offset(ty, k - 1)
    requires Ordered(LeavesTo(ty, base, k - 1), base, base + EndOf(ty, k - 1))
    requires var o := base + Offset(ty, k - 1); Ordered(Leaves(Member(ty, k - 1), o), o, o + AllocSize(Member(ty, k - 1)))
    ensures Ordered(LeavesTo(ty, base, k), base, base + EndOf(ty, k))
  {
    hide Ordered, Offset, AllocSize, Leaves;
    OrderedConcat(LeavesTo(ty, base, k - 1), Leaves(Member(ty, k - 1), base + Offset(ty, k - 1)),
                  base, base + EndOf(ty, k - 1), base + Offset(ty, k - 1), base + EndOf(ty, k));
  }

  /** One scalar store. */
  method StoreScalar(mem: array<u8>, addr: nat, bytes: seq<u8>)
    requires addr + |bytes| <= mem.Length
    modifies mem
    ensures mem[addr..addr + |bytes|] == bytes
    ensures forall p :: 0 <= p < mem.Length && !(addr <= p < addr + |bytes|) ==> mem[p] == old(mem[p])
  {
    for i := 0 to |bytes|
      invariant mem[addr..addr + i] == bytes[..i]
      invariant forall p :: 0 <= p < mem.Length && !(addr <= p < addr + i) ==> mem[p] == old(mem[p])
    {
      mem[addr + i] := bytes[i];
    }
  }

  /** What the loads of all leaves would read. */
  predicate Holds(mem: seq<u8>, ptr: nat, info: seq<Leaf>, leaves: seq<seq<u8>>, k: nat) {
    && k <= |info| && k <= |leaves|
    && forall i :: 0 <= i < k ==>
         ptr + info[i].offset + Size(info[i]) <= |mem| && mem[ptr + info[i].offset..ptr + info[i].offset + Size(info[i])] == leaves[i]
  }

  /** A store of an aggregate writes every leaf at its offset, and nothing between. */
  method StoreLeaves(mem: array<u8>, ptr: nat, ty: Ty, leaves: seq<seq<u8>>, ghost v: Value)
    requires WfTy(ty) && Sane(ty) && HasType(v, ty) && leaves == Flatten(v)
    requires ptr + AllocSize(ty) <= mem.Length
    modifies mem
    ensures Holds(mem[..], ptr, Leaves(ty, 0), leaves, |leaves|)
    ensures OnlyLeaves(old(mem[..]), mem[..], ptr, Leaves(ty, 0))
  {
    hide Flatten, HasType, Leaves, Ordered, Holds, OnlyLeaves, Count, Sane, WfTy, Size, AllocSize;
    var info := CollectLeaves(ty, 0, []);
    LeavesFit(ty, v, info);
    StoreAll(mem, ptr, info, leaves, AllocSize(ty));
  }

  lemma LeavesFit(ty: Ty, v: Value, info: seq<Leaf>)
    requires WfTy(ty) && Sane(ty) && HasType(v, ty) && info == [] + Leaves(ty, 0)
    ensures info == Leaves(ty, 0) && Ordered(info, 0, AllocSize(ty))
    ensures |Flatten(v)| == |info| && forall i :: 0 <= i < |info| ==> |Flatten(v)[i]| == Size(info[i])
  {
    LeavesDisjoint(ty, 0);
    LeafSizes(v, ty, 0);
    hide Flatten, Leaves, Ordered, AllocSize, Size;
  }

  /** One store after the other. */
  method StoreAll(mem: array<u8>, ptr: nat, info: seq<Leaf>, leaves: seq<seq<u8>>, ghost hi: nat)
    requires Ordered(info, 0, hi) && ptr + hi <= mem.Length
    requires |leaves| == |info| && forall i :: 0 <= i < |info| ==> |leaves[i]| == Size(info[i])
    modifies mem
    ensures Holds(mem[..], ptr, info, leaves, |leaves|) && OnlyLeaves(old(mem[..]), mem[..], ptr, info)
  {
    hide Ordered, Holds, OnlyLeaves, Size;
    ghost var start := mem[..];
    NothingStored(start, ptr, info, leaves);
    for i := 0 to |leaves|
      invariant Holds(mem[..], ptr, info, leaves, i)
      invariant OnlyLeaves(start, mem[..], ptr, info)
    {
      StoreLeaf(mem, ptr, info, leaves, i, hi, start);
    }
  }

  /** The store of one leaf, after those before it. */
  method StoreLeaf(mem: array<u8>, ptr: nat, info: seq<Leaf>, leaves: seq<seq<u8>>, i: nat, ghost hi: nat, ghost start: seq<u8>)
    requires Holds(mem[..], ptr, info, leaves, i) && OnlyLeaves(start, mem[..], ptr, info)
    requires i < |info| && i < |leaves| && |leaves[i]| == Size(info[i]) && Ordered(info, 0, hi) && ptr + hi <= mem.Length
    modifies mem
    ensures Holds(mem[..], ptr, info, leaves, i + 1) && OnlyLeaves(start, mem[..], ptr, info)
  {
    hide Ordered, Holds, OnlyLeaves, Untouched, Size;
    ghost var was := mem[..];
    LeafInside(info, i, 0, hi);
    StoreScalar(mem, ptr + info[i].offset, leaves[i]);
    StoreStep(start, was, mem[..], ptr, info, leaves, i);
    HoldsStep(was, mem[..], ptr, info, leaves, i, hi);
  }

  lemma LeafInside(info: seq<Leaf>, i: nat, lo: nat, hi: nat)
    requires Ordered(info, lo, hi) && i < |info|
    ensures lo <= info[i].offset && info[i].offset + Size(info[i]) <= hi
  {}

  /** Bytes outside all leaves are as they were. */
  predicate OnlyLeaves(start: seq<u8>, now: seq<u8>, ptr: nat, info: seq<Leaf>) {
    |now| == |start| && forall p :: 0 <= p < |now| && Untouched(info, ptr, p) ==> now[p] == start[p]
  }

  lemma NothingStored(start: seq<u8>, ptr: nat, info: seq<Leaf>, leaves: seq<seq<u8>>)
    ensures Holds(start, ptr, info, leaves, 0) && OnlyLeaves(start, start, ptr, info)
  {}

  lemma StoreStep(start: seq<u8>, was: seq<u8>, now: seq<u8>, ptr: nat, info: seq<Leaf>, leaves: seq<seq<u8>>, i: nat)
    requires OnlyLeaves(start, was, ptr, info) && i < |info| && i < |leaves| && |leaves[i]| == Size(info[i]) && |now| == |was|
    requires var a := ptr + info[i].offset;
      forall p :: 0 <= p < |now| && !(a <= p < a + |leaves[i]|) ==> now[p] == was[p]
    ensures OnlyLeaves(start, now, ptr, info)
  {}

  predicate Untouched(info: seq<Leaf>, ptr: nat, p: nat) {
    forall i :: 0 <= i < |info| ==> !(ptr + info[i].offset <= p < ptr + info[i].offset + Size(info[i]))
  }

  lemma HoldsStep(was: seq<u8>, now: seq<u8>, ptr: nat, info: seq<Leaf>, leaves: seq<seq<u8>>, i: nat, hi: nat)
    requires Holds(was, ptr, info, leaves, i) && i < |info| && i < |leaves| && |was| == |now|
    requires Ordered(info, 0, hi) && ptr + hi <= |now| && |leaves[i]| == Size(info[i])
    requires var a := ptr + info[i].offset;
      now[a..a + |leaves[i]|] == leaves[i] && forall p :: 0 <= p < |now| && !(a <= p < a + |leaves[i]|) ==> now[p] == was[p]
    ensures Holds(now, ptr, info, leaves, i + 1)
  {
    forall h | 0 <= h < i
      ensures now[ptr + info[h].offset..ptr + info[h].offset + Size(info[h])] == leaves[h]
    {
      assert info[h].offset + Size(info[h]) <= info[i].offset;
      assert now[ptr + info[h].offset..ptr + info[h].offset + Size(info[h])]
          == was[ptr + info[h].offset..ptr + info[h].offset + Size(info[h])];
    }
  }

  /** Every leaf has as many bytes as its type. */
  lemma {:induction false} LeafSizes(v: Value, ty: Ty, base: nat)
    requires WfTy(ty) && HasType(v, ty)
    ensures |Leaves(ty, base)| == |Flatten(v)|
    ensures forall i :: 0 <= i < |Flatten(v)| ==> |Flatten(v)[i]| == Size(Leaves(ty, base)[i])
    decreases ty, Members(ty) + 1
  {
    if !ty.Scalar? { LeafSizesTo(v, ty, base, Members(ty)); }
  }

  lemma {:induction false} LeafSizesTo(v: Value, ty: Ty, base: nat, k: nat)
    requires WfTy(ty) && HasType(v, ty) && !ty.Scalar? && k <= Members(ty)
    ensures |LeavesTo(ty, base, k)| == |FlattenTo(v, k)|
    ensures forall i :: 0 <= i < |FlattenTo(v, k)| ==> |FlattenTo(v, k)[i]| == Size(LeavesTo(ty, base, k)[i])
    decreases ty, k
  {
    if k > 0 {
      LeafSizesTo(v, ty, base, k - 1);
      LeafSizes(v.members[k - 1], Member(ty, k - 1), base + Offset(ty, k - 1));
    }
  }

  /** A load of an aggregate reads its leaves in order; after a store of a value
      of the same type it reads that value back. */
  method LoadLeaves(mem: array<u8>, ptr: nat, ty: Ty, ghost leaves: seq<seq<u8>>) returns (r: seq<seq<u8>>)
    requires WfTy(ty) && Sane(ty) && ptr + AllocSize(ty) <= mem.Length
    ensures |r| == |Leaves(ty, 0)| && Holds(mem[..], ptr, Leaves(ty, 0), r, |r|)
    ensures |leaves| == |r| && Holds(mem[..], ptr, Leaves(ty, 0), leaves, |leaves|) ==> r == leaves
  {
    var info := CollectLeaves(ty, 0, []);
    LeavesDisjoint(ty, 0);
    hide Leaves, Ordered, Holds, Sane, WfTy, AllocSize;
    r := LoadAll(mem, ptr, info, AllocSize(ty));
    ghost var bytes := mem[..];
    if |leaves| == |r| && Holds(bytes, ptr, info, leaves, |leaves|) { SameLoads(bytes, ptr, info, r, leaves); }
  }

  /** One load after the other. */
  method LoadAll(mem: array<u8>, ptr: nat, info: seq<Leaf>, ghost hi: nat) returns (r: seq<seq<u8>>)
    requires Ordered(info, 0, hi) && ptr + hi <= mem.Length
    ensures |r| == |info| && Holds(mem[..], ptr, info, r, |r|)
  {
    hide Ordered, Holds, OnlyLeaves, Size;
    r := [];
    ghost var bytes := mem[..];
    NothingStored(bytes, ptr, info, r);
    for i := 0 to |info|
      invariant |r| == i && Holds(bytes, ptr, info, r, i)
    {
      LeafInside(info, i, 0, hi);
      var a := ptr + info[i].offset;
      var x := mem[a..a + Size(info[i])];
      assert x == bytes[a..a + Size(info[i])];
      LoadStep(bytes, ptr, info, r, i, x);
      r := r + [x];
    }
  }

  lemma LoadStep(mem: seq<u8>, ptr: nat, info: seq<Leaf>, r: seq<seq<u8>>, i: nat, x: seq<u8>)
    requires Holds(mem, ptr, info, r, i) && |r| == i < |info|
    requires var a := ptr + info[i].offset; a + Size(info[i]) <= |mem| && x == mem[a..a + Size(info[i])]
    ensures Holds(mem, ptr, info, r + [x], i + 1)
  {}

  /** What the leaves hold is determined by the memory. */
  lemma SameLoads(mem: seq<u8>, ptr: nat, info: seq<Leaf>, r: seq<seq<u8>>, leaves: seq<seq<u8>>)
    requires |r| == |leaves| && Holds(mem, ptr, info, r, |r|) && Holds(mem, ptr, info, leaves, |leaves|)
    ensures r == leaves
  {}
}
