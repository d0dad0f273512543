/** The hash-consing table (src/ir/intern_table.hpp): linear probing over 64 bit
    keys in one of 32 shards, stale entries replaced in place, and a per-thread
    cache in front. Entries are never erased, and a freed slot may be reused, so a
    table entry can name a dead ref, or one that now holds another value. */
module InternTable {
  import opened Arith
  import opened Options
  import opened Sums

  const N_SHARDS: nat := 32
  const CACHE_SIZE: nat := 256

  /** A ref of the StableVec behind the table. */
  type Ref = nat
  type Value = nat

  datatype CacheEntry = CacheEntry(tableId: nat, hash: u64, ref: Ref)

  function Key(hash: u64, n: nat): u64 {
    (hash + n) % B64
  }

  function ShardOf(hash: u64): nat {
    Shr(hash, 40) % N_SHARDS
  }

  /** All keys from the hash up to probe n are bound. */
  predicate Bound(m: map<u64, Ref>, hash: u64, n: nat) {
    forall i {:trigger Key(hash, i)} :: 0 <= i <= n ==> Key(hash, i) in m
  }

  /** Probing from hash meets r after bound keys only. */
  ghost predicate Reaches(m: map<u64, Ref>, hash: u64, r: Ref) {
    exists n: nat :: n < B64 && Bound(m, hash, n) && m[Key(hash, n)] == r
  }

  class InternTable {
    const id: nat
    const hash: Value -> u64
    var shards: seq<map<u64, Ref>>
    // the caches of all threads, by thread and slot
    var caches: map<(nat, nat), CacheEntry>
    // the storage: which refs are live, and what they hold
    var live: map<Ref, Value>

    constructor (id: nat, hash: Value -> u64)
      ensures Valid() && live == map[] && this.hash == hash && this.id == id
    {
      this.id := id;
      this.hash := hash;
      shards := seq(N_SHARDS, _ => map[]);
      caches := map[];
      live := map[];
    }

    /** Every live ref is reachable by probing, and no value is live twice. */
    ghost predicate Valid()
      reads this
    {
      && |shards| == N_SHARDS
      && (forall r :: r in live ==> Reaches(shards[ShardOf(hash(live[r]))], hash(live[r]), r))
      && (forall r, q :: r in live && q in live && live[r] == live[q] ==> r == q)
    }

    predicate Matches(r: Ref, v: Value)
      reads this
    {
      r in live && live[r] == v
    }

    /** A slot is freed; its entries in the table and the caches stay. */
    method Remove(r: Ref)
      requires Valid() && r in live
      modifies this`live
      ensures Valid() && live == old(live) - {r}
    {
      live := live - {r};
    }

    /** newRef is the slot make() would take: any slot that is not live, possibly
        one that old entries still name. */
    method Intern(thread: nat, v: Value, newRef: Ref) returns (r: Ref)
      requires Valid() && newRef !in live
      requires |shards[ShardOf(hash(v))]| < B64
      modifies this
      ensures Valid()
      ensures Matches(r, v)
      ensures forall q :: Matches(q, v) ==> q == r
      ensures if exists q :: q in old(live) && old(live)[q] == v then live == old(live) else r == newRef && live == old(live)[r := v]
    {
      var h := hash(v);
      var slot := (thread, h % CACHE_SIZE);
      if slot in caches {
        var ce := caches[slot];
        if ce.tableId == id && ce.hash == h && Matches(ce.ref, v) {
          return ce.ref;
        }
      }
      var shard := ShardOf(h);
      var stale: Option<u64> := None;
      var n := 0;
      while true
        invariant n < B64 && shards == old(shards) && live == old(live)
        invariant forall i {:trigger Key(h, i)} :: 0 <= i < n ==> Key(h, i) in shards[shard] && !Matches(shards[shard][Key(h, i)], v)
        invariant stale.Some? ==> exists i {:trigger Key(h, i)} :: 0 <= i < n && stale.value == Key(h, i) && shards[shard][stale.value] !in live
        decreases |shards[shard]| - n
      {
        ProbesBounded(shards[shard], h, n);
        var key := Key(h, n);
        if key !in shards[shard] {
          NoMatch(v, shard, n);
          Insert(v, newRef, shard, n, stale);
          caches := caches[slot := CacheEntry(id, h, newRef)];
          return newRef;
        }
        var found := shards[shard][key];
        if Matches(found, v) {
          caches := caches[slot := CacheEntry(id, h, found)];
          return found;
        }
        if stale == None && found !in live {
          stale := Some(key);
        }
        n := n + 1;
        ProbesBounded(shards[shard], h, n);
      }
    }

    /** The whole bound run was examined, so no live ref holds v. */
    lemma NoMatch(v: Value, shard: nat, n: nat)
      requires Valid() && shard == ShardOf(hash(v)) && n < B64
      requires forall i {:trigger Key(hash(v), i)} :: 0 <= i < n ==> Key(hash(v), i) in shards[shard] && !Matches(shards[shard][Key(hash(v), i)], v)
      requires Key(hash(v), n) !in shards[shard]
      ensures forall q :: q in live ==> live[q] != v
    {
      var m := shards[shard];
      forall q | q in live ensures live[q] != v {
        ReachedBefore(m, hash(v), n, q);
      }
    }

    /** make(), and the new entry in the first stale place or at the end of the run. */
    method Insert(v: Value, newRef: Ref, shard: nat, n: nat, stale: Option<u64>)
      requires Valid() && newRef !in live && shard == ShardOf(hash(v)) && n < B64
      requires forall i {:trigger Key(hash(v), i)} :: 0 <= i < n ==> Key(hash(v), i) in shards[shard]
      requires Key(hash(v), n) !in shards[shard]
      requires stale.Some? ==> exists i {:trigger Key(hash(v), i)} :: 0 <= i < n && stale.value == Key(hash(v), i) && shards[shard][stale.value] !in live
      requires forall q :: q in live ==> live[q] != v
      modifies this`live, this`shards
      ensures Valid() && live == old(live)[newRef := v]
    {
      var key := if stale.Some? then stale.value else Key(hash(v), n);
      ghost var at: nat := n;
      if stale.Some? {
        at :| 0 <= at < n && stale.value == Key(hash(v), at);
      }
      var before := shards[shard];
      shards := shards[shard := before[key := newRef]];
      live := live[newRef := v];
      forall r | r in live ensures Reaches(shards[ShardOf(hash(live[r]))], hash(live[r]), r) {
        if r == newRef {
          assert Bound(shards[shard], hash(v), at) && shards[shard][Key(hash(v), at)] == newRef;
        } else if ShardOf(hash(live[r])) == shard {
          StillReaches(before, hash(live[r]), r, key, newRef);
        }
      }
    }
  }

  lemma StillReaches(m: map<u64, Ref>, hash: u64, r: Ref, key: u64, newRef: Ref)
    requires Reaches(m, hash, r) && (key in m ==> m[key] != r)
    ensures Reaches(m[key := newRef], hash, r)
  {
    var n: nat :| n < B64 && Bound(m, hash, n) && m[Key(hash, n)] == r;
    assert Bound(m[key := newRef], hash, n) && m[key := newRef][Key(hash, n)] == r;
  }

  lemma ReachedBefore(m: map<u64, Ref>, hash: u64, n: nat, r: Ref)
    requires Key(hash, n) !in m
    ensures Reaches(m, hash, r) ==> exists i {:trigger Key(hash, i)} :: 0 <= i < n && Key(hash, i) in m && m[Key(hash, i)] == r
  {
    if Reaches(m, hash, r) {
      var k: nat :| k < B64 && Bound(m, hash, k) && m[Key(hash, k)] == r;
      assert k < n;
    }
  }

  lemma KeyInjective(hash: u64, i: nat, j: nat)
    requires i < j < B64
    ensures Key(hash, i) != Key(hash, j)
  {}

  function Keys(hash: u64, n: nat): set<u64> {
    if n == 0 then {} else Keys(hash, n - 1) + {Key(hash, n - 1)}
  }

  lemma {:induction false} KeysAre(hash: u64, n: nat)
    requires n <= B64
    ensures |Keys(hash, n)| == n
    ensures forall k :: k in Keys(hash, n) ==> exists i {:trigger Key(hash, i)} :: 0 <= i < n && k == Key(hash, i)
  {
    if n > 0 {
      KeysAre(hash, n - 1);
      forall i | 0 <= i < n - 1 ensures Key(hash, i) != Key(hash, n - 1) { KeyInjective(hash, i, n - 1); }
      hide Key;
      assert Key(hash, n - 1) !in Keys(hash, n - 1);
    }
  }

  /** n different keys bound: the run is no longer than the table, so it ends. */
  lemma ProbesBounded(m: map<u64, Ref>, hash: u64, n: nat)
    requires n <= B64 && forall i {:trigger Key(hash, i)} :: 0 <= i < n ==> Key(hash, i) in m
    ensures n <= |m|
  {
    KeysAre(hash, n);
    SubsetSize(Keys(hash, n), m.Keys);
  }
}
