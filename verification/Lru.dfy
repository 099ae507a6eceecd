/**
 The cache of logged block numbers (src/kernel/lru-ng.c): a hash table and a recency list over the
 same nodes.
 */
module LruNg {
  import opened Bytes
  import opened Seqs

  // ---------------------------------------------------------------- the cache as a list of keys

  /** What a successful lookup does: the key moves to the young end. */
  function Touch(keys: seq<u64>, key: u64): seq<u64> {
    Without(keys, key) + [key]
  }

  /** What an insertion does: the key goes to the young end, and one key too many drops the oldest. */
  function Added(keys: seq<u64>, key: u64, max: nat): seq<u64> {
    var all := keys + [key];
    if |all| <= max then all else all[1..]
  }

  /** Distinct keys of a history, ordered by their last occurrence. */
  function Recent(history: seq<u64>): seq<u64> {
    if history == [] then [] else Touch(Recent(history[..|history| - 1]), history[|history| - 1])
  }

  lemma {:induction false} RecentNoDup(history: seq<u64>)
    ensures NoDup(Recent(history))
  {
    if history != [] {
      var before, key := Recent(history[..|history| - 1]), history[|history| - 1];
      RecentNoDup(history[..|history| - 1]);
      WithoutNoDup(before, key);
      WithoutElements(before, key);
    }
  }

  datatype Op = Lookup(key: u64) | Add(key: u64)

  function Step(keys: seq<u64>, op: Op, max: nat): seq<u64> {
    match op
    case Lookup(key) => if key in keys then Touch(keys, key) else keys
    case Add(key) => Added(keys, key, max)
  }

  /** The keys cached after `ops`, starting empty. */
  function Run(ops: seq<Op>, max: nat): seq<u64> {
    if ops == [] then [] else Step(Run(ops[..|ops| - 1], max), ops[|ops| - 1], max)
  }

  /** The keys touched by `ops`: those added and those looked up successfully. */
  function Touched(ops: seq<Op>, max: nat): seq<u64> {
    if ops == [] then []
    else
      var before, op := ops[..|ops| - 1], ops[|ops| - 1];
      if op.Lookup? && op.key !in Run(before, max) then Touched(before, max) else Touched(before, max) + [op.key]
  }

  /** The discipline of the only caller: a key is added only when it is not cached. */
  ghost predicate AddsOnMiss(ops: seq<Op>, max: nat) {
    forall i :: 0 <= i < |ops| && ops[i].Add? ==> ops[i].key !in Run(ops[..i], max)
  }

  /** The older part of a recency order, in front of its last `max` keys. */
  lemma {:induction false} SplitRecent(recent: seq<u64>, max: nat) returns (older: seq<u64>)
    ensures recent == older + LastN(recent, max)
    ensures older == [] || |LastN(recent, max)| == max
  {
    older := recent[..|recent| - |LastN(recent, max)|];
  }

  /** Touching a cached key: the cache stays the tail of the recency order. */
  lemma {:induction false} TouchCached(recent: seq<u64>, key: u64, max: nat)
    requires NoDup(recent) && key in LastN(recent, max)
    ensures Touch(LastN(recent, max), key) == LastN(Touch(recent, key), max)
  {
    hide LastN, Without;
    var keys := LastN(recent, max);
    var older := SplitRecent(recent, max);
    NoDupParts(older, keys);
    WithoutConcat(older, keys, key);
    WithoutAbsent(older, key);
    WithoutNoDup(keys, key);
    LastNOfTail(older, Touch(keys, key), max);
    assert older + Touch(keys, key) == Touch(recent, key);
  }

  lemma {:induction false} NoDupParts(a: seq<u64>, b: seq<u64>)
    requires NoDup(a + b)
    ensures NoDup(a) && NoDup(b) && forall k :: k in b ==> k !in a
  {
    var s := a + b;
    assert forall i :: 0 <= i < |a| ==> a[i] == s[i];
    assert forall i :: 0 <= i < |b| ==> b[i] == s[|a| + i];
  }

  /** Adding a key that is not cached: likewise. */
  lemma {:induction false} AddUncached(recent: seq<u64>, key: u64, max: nat)
    requires key !in LastN(recent, max)
    ensures Added(LastN(recent, max), key, max) == LastN(Touch(recent, key), max)
  {
    var keys := LastN(recent, max);
    var older := SplitRecent(recent, max);
    WithoutConcat(older, keys, key);
    WithoutAbsent(keys, key);
    assert Touch(recent, key) == Without(older, key) + (keys + [key]);
    AddedIsTail(Without(older, key), keys, key, max);
  }

  lemma {:induction false} AddedIsTail(older: seq<u64>, keys: seq<u64>, key: u64, max: nat)
    requires |keys| <= max && (older == [] || |keys| == max)
    ensures Added(keys, key, max) == LastN(older + (keys + [key]), max)
  {
    hide LastN;
    var all := keys + [key];
    if |all| <= max {
      LastNOfTail(older, all, max);
    } else {
      assert older + all == (older + [all[0]]) + all[1..];
      LastNOfTail(older + [all[0]], all[1..], max);
    }
  }

  /** The cache is the most recently touched distinct keys, in order, cut to the maximum. */
  lemma {:induction false} LruIsMostRecent(ops: seq<Op>, max: nat)
    requires AddsOnMiss(ops, max)
    ensures Run(ops, max) == LastN(Recent(Touched(ops, max)), max)
    ensures NoDup(Run(ops, max)) && |Run(ops, max)| <= max
  {
    if ops != [] {
      var before, op := ops[..|ops| - 1], ops[|ops| - 1];
      forall i | 0 <= i < |before| && before[i].Add?
        ensures before[i].key !in Run(before[..i], max)
      {
        assert ops[..i] == before[..i];
        assert ops[i].Add?;
      }
      LruIsMostRecent(before, max);
      var history := Touched(before, max);
      assert (history + [op.key])[..|history|] == history;
      RecentNoDup(history);
      if op.Add? {
        assert ops[..|ops| - 1] == before;
        AddUncached(Recent(history), op.key, max);
      } else if op.key in Run(before, max) {
        TouchCached(Recent(history), op.key, max);
      }
      RecentNoDup(Touched(ops, max));
    }
  }

  // ---------------------------------------------------------------- the data structure

  /** An allocated node: its identity and its key. The links are the two containers below. */
  datatype Node = Node(addr: nat, blknr: u64)

  function KeysOf(list: seq<Node>): (keys: seq<u64>)
    ensures |keys| == |list|
    ensures forall i :: 0 <= i < |list| ==> keys[i] == list[i].blknr
  {
    seq(|list|, i requires 0 <= i < |list| => list[i].blknr)
  }

  /** A list and a bucket table over the same nodes, each in the bucket of its key. */
  ghost predicate Agree(list: seq<Node>, buckets: seq<seq<Node>>, hash: u64 -> nat) {
    && NoDup(list)
    && (forall n :: n in list ==> hash(n.blknr) < |buckets| && n in buckets[hash(n.blknr)])
    && (forall b :: 0 <= b < |buckets| ==> NoDup(buckets[b]))
    && (forall b, n :: 0 <= b < |buckets| && n in buckets[b] ==> n in list && hash(n.blknr) == b)
  }

  lemma {:induction false} AgreeInsert(list: seq<Node>, buckets: seq<seq<Node>>, hash: u64 -> nat, n: Node)
    requires Agree(list, buckets, hash) && n !in list && hash(n.blknr) < |buckets|
    ensures Agree(list + [n], buckets[hash(n.blknr) := [n] + buckets[hash(n.blknr)]], hash)
  {
  }

  lemma {:induction false} AgreeRemove(list: seq<Node>, buckets: seq<seq<Node>>, hash: u64 -> nat, n: Node)
    requires Agree(list, buckets, hash) && n in list
    ensures var h := hash(n.blknr);
            h < |buckets| && Agree(Without(list, n), buckets[h := Without(buckets[h], n)], hash)
  {
    WithoutElements(list, n);
    WithoutNoDup(list, n);
    WithoutElements(buckets[hash(n.blknr)], n);
    WithoutNoDup(buckets[hash(n.blknr)], n);
  }

  /** Moving a node to the end of the list changes no bucket. */
  lemma {:induction false} AgreeMove(list: seq<Node>, buckets: seq<seq<Node>>, hash: u64 -> nat, n: Node)
    requires Agree(list, buckets, hash) && n in list
    ensures Agree(Without(list, n) + [n], buckets, hash)
  {
    MoveToEnd(list, n);
  }

  /** A bucket is only inhabited if the list is. */
  lemma {:induction false} BucketNodesListed(list: seq<Node>, buckets: seq<seq<Node>>, hash: u64 -> nat, b: nat)
    requires Agree(list, buckets, hash) && b < |buckets| && buckets[b] != []
    ensures list != []
  {
    assert buckets[b][0] in list;
  }

  /** Over an empty list every bucket is empty. */
  lemma {:induction false} EmptyBuckets(list: seq<Node>, buckets: seq<seq<Node>>, hash: u64 -> nat)
    requires Agree(list, buckets, hash)
    ensures list == [] ==> forall b :: 0 <= b < |buckets| ==> buckets[b] == []
  {
    forall b | 0 <= b < |buckets| && buckets[b] != []
      ensures list != []
    {
      BucketNodesListed(list, buckets, hash, b);
    }
  }

  lemma {:induction false} KeysSnoc(list: seq<Node>, n: Node)
    ensures KeysOf(list + [n]) == KeysOf(list) + [n.blknr]
  {
  }

  lemma {:induction false} WithoutSnoc<T>(s: seq<T>, y: T, x: T)
    ensures Without(s + [y], x) == if y == x then Without(s, x) else Without(s, x) + [y]
  {
    assert (s + [y])[..|s|] == s;
  }

  lemma {:induction false} KeysWithout(list: seq<Node>, n: Node)
    requires n in list && NoDup(KeysOf(list))
    ensures KeysOf(Without(list, n)) == Without(KeysOf(list), n.blknr)
  {
    hide KeysOf, Without, NoDup;
    var front, last := list[..|list| - 1], list[|list| - 1];
    assert list == front + [last];
    KeysSnoc(front, last);
    WithoutSnoc(front, last, n);
    WithoutSnoc(KeysOf(front), last.blknr, n.blknr);
    NoDupSnocParts(KeysOf(front), last.blknr);
    if last == n {
      KeyIn(front, n);
      WithoutAbsent(KeysOf(front), n.blknr);
      WithoutAbsent(front, n);
    } else {
      KeyIn(front, n);
      KeysWithout(front, n);
      KeysSnoc(Without(front, n), last);
    }
  }

  lemma {:induction false} KeyIn(list: seq<Node>, n: Node)
    ensures n in list ==> n.blknr in KeysOf(list)
  {
    if i :| 0 <= i < |list| && list[i] == n {
      assert KeysOf(list)[i] == n.blknr;
    }
  }

  lemma {:induction false} NoDupSnocParts(s: seq<u64>, x: u64)
    requires NoDup(s + [x])
    ensures NoDup(s) && x !in s
  {
    NoDupParts(s, [x]);
  }

  lemma {:induction false} KeysMoved(list: seq<Node>, n: Node)
    requires n in list
    ensures NoDup(KeysOf(list)) ==> KeysOf(Without(list, n) + [n]) == Touch(KeysOf(list), n.blknr)
  {
    if NoDup(KeysOf(list)) {
      KeysWithout(list, n);
    }
  }

  lemma {:induction false} WithoutHead(list: seq<Node>)
    requires list != [] && NoDup(list)
    ensures Without(list, list[0]) == list[1..]
  {
    var n, rest := list[0], list[1..];
    assert list == [n] + rest;
    WithoutConcat([n], rest, n);
    WithoutAbsent(rest, n);
  }

  class Lru {
    const max: nat
    const hash: u64 -> nat
    const buckets: array<seq<Node>>
    var list: seq<Node>
    var nextAddr: nat

    /** List and buckets hold the same nodes. */
    ghost predicate Linked()
      reads this, buckets
    {
      && (forall k :: hash(k) < buckets.Length)
      && Agree(list, buckets[..], hash)
      && (forall n :: n in list ==> n.addr < nextAddr)
    }

    /** Between two operations there are no more nodes than the maximum, either. */
    ghost predicate Valid()
      reads this, buckets
    {
      Linked() && |list| <= max
    }

    ghost function Keys(): seq<u64>
      reads this
    {
      KeysOf(list)
    }

    constructor (max: nat, nbuckets: nat, hash: u64 -> nat)
      requires forall k :: hash(k) < nbuckets
      ensures Valid() && fresh(buckets) && Keys() == [] && this.max == max
    {
      this.max, this.hash := max, hash;
      buckets := new seq<Node>[nbuckets](_ => []);
      list, nextAddr := [], 0;
    }

    /** `evict_cb` on the oldest node: unlinked from the list and from its bucket. */
    method EvictOldest()
      requires Linked() && list != []
      modifies this, buckets
      ensures Linked() && list == old(list)[1..]
    {
      var node := list[0];
      var h := hash(node.blknr);
      AgreeRemove(list, buckets[..], hash, node);
      WithoutHead(list);
      ghost var expected := buckets[..][h := Without(buckets[h], node)];
      list := list[1..];
      buckets[h] := Without(buckets[h], node);
      assert buckets[..] == expected;
    }

    /** `lru_ng_add`, `enforce_lru_size_limit` included. */
    method Insert(key: u64)
      requires Valid()
      modifies this, buckets
      ensures Valid() && Keys() == Added(old(Keys()), key, max)
    {
      hide Agree, Without;
      var node := Node(nextAddr, key);
      nextAddr := nextAddr + 1;
      var h := hash(key);
      AgreeInsert(list, buckets[..], hash, node);
      ghost var expected := buckets[..][h := [node] + buckets[h]];
      buckets[h] := [node] + buckets[h];
      list := list + [node];
      assert buckets[..] == expected;
      assert Keys() == old(Keys()) + [key];
      if |list| > max {
        EvictOldest();
      }
    }

    /** `lru_ng_lookup`: walks the bucket of the key, and moves the node found to the young end. */
    method Find(key: u64) returns (found: bool)
      requires Valid()
      modifies this`list
      ensures Valid()
      ensures found <==> key in old(Keys())
      ensures !found ==> list == old(list)
      ensures found && NoDup(old(Keys())) ==> Keys() == Touch(old(Keys()), key)
    {
      var chain := buckets[hash(key)];
      var i := 0;
      while i < |chain|
        invariant 0 <= i <= |chain|
        invariant forall j :: 0 <= j < i ==> chain[j].blknr != key
      {
        var node := chain[i];
        if node.blknr == key {
          assert node in buckets[..][hash(key)];
          ghost var at :| 0 <= at < |list| && list[at] == node;
          assert Keys()[at] == key;
          AgreeMove(list, buckets[..], hash, node);
          WithoutNoDup(list, node);
          KeysMoved(list, node);
          list := Without(list, node) + [node];
          return true;
        }
        i := i + 1;
      }
      NotInBucket(key);
      return false;
    }

    lemma {:induction false} NotInBucket(key: u64)
      requires Valid() && forall n :: n in buckets[hash(key)] ==> n.blknr != key
      ensures key !in Keys()
    {
      assert buckets[..][hash(key)] == buckets[hash(key)];
      assert forall n :: n in list ==> n in buckets[..][hash(n.blknr)];
    }

    /** `lru_ng_cleanup`: evicts until nothing is left, in the list or in any bucket. */
    method Cleanup()
      requires Valid()
      modifies this, buckets
      ensures Valid() && list == []
      ensures forall b :: 0 <= b < buckets.Length ==> buckets[b] == []
    {
      while list != []
        invariant Valid()
        decreases |list|
      {
        EvictOldest();
      }
      EmptyBuckets(list, buckets[..], hash);
      assert forall b :: 0 <= b < buckets.Length ==> buckets[..][b] == buckets[b];
    }
  }
}
