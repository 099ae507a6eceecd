/**
 The table of per-thread slots that carries a block from the read probe to the write probe, and the
 periodic sweep that drops the slots of dead threads (src/kernel/fs-support/singlefilefs.c).
 */
module Slots {
  import opened Bytes
  import opened Options

  /** A thread: its id and when it was started. */
  datatype Key = Key(tid: u64, tstart: u64)

  /** The last block the thread read, and its number. */
  datatype Slot = Slot(block: seq<byte>, blocknum: u64)

  datatype Node = Node(key: Key, slot: Slot)

  ghost predicate DistinctKeys(chain: seq<Node>) {
    forall i, j :: 0 <= i < j < |chain| ==> chain[i].key != chain[j].key
  }

  /** `search_threadentry` in one chain: the first node of the key. */
  function FindIn(chain: seq<Node>, key: Key): Option<Slot> {
    if chain == [] then None
    else if chain[0].key == key then Some(chain[0].slot)
    else FindIn(chain[1..], key)
  }

  lemma {:induction false} FindAt(chain: seq<Node>, i: nat)
    requires i < |chain| && forall j :: 0 <= j < i ==> chain[j].key != chain[i].key
    ensures FindIn(chain, chain[i].key) == Some(chain[i].slot)
  {
    if i > 0 {
      FindAt(chain[1..], i - 1);
    }
  }

  lemma {:induction false} FindNone(chain: seq<Node>, key: Key)
    ensures FindIn(chain, key) == None <==> forall i :: 0 <= i < |chain| ==> chain[i].key != key
  {
    if chain != [] {
      FindNone(chain[1..], key);
      if FindIn(chain, key) == None {
        assert forall i :: 1 <= i < |chain| ==> chain[i] == chain[1..][i - 1];
      }
    }
  }

  /** Overwriting the slot of node `i` is seen by its key and by no other. */
  lemma {:induction false} FindUpdated(chain: seq<Node>, i: nat, slot: Slot, key: Key)
    requires i < |chain| && DistinctKeys(chain)
    ensures FindIn(chain[i := Node(chain[i].key, slot)], key) ==
            if key == chain[i].key then Some(slot) else FindIn(chain, key)
  {
    var chain' := chain[i := Node(chain[i].key, slot)];
    if i > 0 {
      assert chain[0].key != chain[i].key;
      assert chain'[1..] == chain[1..][i - 1 := Node(chain[i].key, slot)];
      FindUpdated(chain[1..], i - 1, slot, key);
    } else {
      assert chain'[1..] == chain[1..];
    }
  }

  /** Unlinking node `i` hides its key and no other. */
  lemma {:induction false} FindRemoved(chain: seq<Node>, i: nat, key: Key)
    requires i < |chain| && DistinctKeys(chain)
    ensures FindIn(chain[..i] + chain[i + 1..], key) == if key == chain[i].key then None else FindIn(chain, key)
  {
    var chain' := chain[..i] + chain[i + 1..];
    if i > 0 {
      assert chain'[1..] == chain[1..][..i - 1] + chain[1..][i..];
      FindRemoved(chain[1..], i - 1, key);
    } else {
      assert chain' == chain[1..];
      if key == chain[0].key {
        FindNone(chain[1..], key);
      }
    }
  }

  /** A chain without the nodes of threads that are gone. */
  function Alive(chain: seq<Node>, live: set<Key>): seq<Node> {
    if chain == [] then []
    else if chain[0].key in live then [chain[0]] + Alive(chain[1..], live)
    else Alive(chain[1..], live)
  }

  lemma {:induction false} AliveFind(chain: seq<Node>, live: set<Key>, key: Key)
    ensures FindIn(Alive(chain, live), key) == if key in live then FindIn(chain, key) else None
  {
    if chain != [] {
      AliveFind(chain[1..], live, key);
      if chain[0].key in live {
        assert ([chain[0]] + Alive(chain[1..], live))[1..] == Alive(chain[1..], live);
      }
    }
  }

  lemma {:induction false} AliveKeys(chain: seq<Node>, live: set<Key>)
    ensures forall n :: n in Alive(chain, live) ==> n in chain
    ensures DistinctKeys(chain) ==> DistinctKeys(Alive(chain, live))
  {
    if chain != [] {
      AliveKeys(chain[1..], live);
      assert chain == [chain[0]] + chain[1..];
      if DistinctKeys(chain) {
        forall n | n in chain[1..]
          ensures n.key != chain[0].key
        {
          var i :| 0 <= i < |chain[1..]| && chain[1..][i] == n;
          assert chain[i + 1] == n;
        }
        forall i, j | 0 <= i < j < |chain[1..]|
          ensures chain[1..][i].key != chain[1..][j].key
        {
          assert chain[i + 1].key != chain[j + 1].key;
        }
      }
    }
  }

  // ---------------------------------------------------------------- the sweep cursor

  const STRIDE: nat := 50

  function SweepEnd(cursor: nat, size: nat): nat {
    if cursor + STRIDE <= size then cursor + STRIDE else size
  }

  /** The cursor update as shipped, and with the assignment that was evidently meant. */
  datatype Update = AddEnd | SetEnd

  function NextCursor(cursor: nat, size: nat, u: Update): nat {
    var end := SweepEnd(cursor, size);
    if end < size then (if u.AddEnd? then cursor + end else end) else 0
  }

  /** The cursor before run `r`. */
  function Cursor(r: nat, size: nat, u: Update): nat {
    if r == 0 then 0 else NextCursor(Cursor(r - 1, size, u), size, u)
  }

  predicate SweptInRun(b: nat, r: nat, size: nat, u: Update) {
    Cursor(r, size, u) <= b < SweepEnd(Cursor(r, size, u), size)
  }

  /** Some run from `from` on sweeps bucket `b`. */
  ghost predicate SweptFrom(b: nat, from: nat, size: nat, u: Update) {
    exists r: nat :: r >= from && SweptInRun(b, r, size, u)
  }

  /** A cycle starts whenever the cursor is 0, and all cycles are alike. */
  lemma {:induction false} CyclesAlike(r: nat, k: nat, size: nat, u: Update)
    requires Cursor(r, size, u) == 0
    ensures Cursor(r + k, size, u) == Cursor(k, size, u)
  {
    if k > 0 {
      CyclesAlike(r, k - 1, size, u);
    }
  }

  function Pow2(k: nat): (p: nat)
    ensures p >= 1
  {
    if k == 0 then 1 else 2 * Pow2(k - 1)
  }

  /** The cursor values of the shipped update: 0, 50, 150, 350, ... */
  ghost predicate ShippedValue(cursor: nat, k: nat) {
    cursor == STRIDE * (Pow2(k) - 1)
  }

  lemma {:induction false} ShippedCursor(r: nat, size: nat) returns (k: nat)
    ensures ShippedValue(Cursor(r, size, AddEnd), k)
  {
    k := 0;
    if r > 0 {
      k := ShippedCursor(r - 1, size);
      k := if Cursor(r, size, AddEnd) == 0 then 0 else k + 1;
    }
  }

  lemma {:induction false} Pow2Grows(j: nat, k: nat)
    requires j < k
    ensures 2 * Pow2(j) <= Pow2(k)
  {
    if j < k - 1 {
      Pow2Grows(j, k - 1);
    }
  }

  lemma {:induction false} ShippedReaches(k: nat, b: nat, size: nat)
    requires STRIDE * (Pow2(k) - 1) <= b < size
    ensures Cursor(k, size, AddEnd) == STRIDE * (Pow2(k) - 1)
  {
    if k > 0 {
      ShippedReaches(k - 1, b, size);
    }
  }

  /** Under either update the cursor is back at 0 after at most `size / 50 + 2` runs. */
  lemma {:induction false} CursorReturns(r: nat, size: nat, u: Update) returns (r': nat)
    ensures r < r' <= r + (if Cursor(r, size, u) < size then (size - Cursor(r, size, u)) / STRIDE else 0) + 2
    ensures Cursor(r', size, u) == 0
    decreases if Cursor(r, size, u) < size then size - Cursor(r, size, u) else 0
  {
    r' := r + 1;
    if Cursor(r + 1, size, u) != 0 {
      assert Cursor(r + 1, size, u) >= Cursor(r, size, u) + STRIDE;
      if Cursor(r + 1, size, u) < size {
        r' := CursorReturns(r + 1, size, u);
      } else {
        r' := r + 2;
      }
    }
  }

  /** The ranges [50 (2^k - 1), 50 2^k). */
  ghost predicate InRange(b: nat, k: nat) {
    STRIDE * (Pow2(k) - 1) <= b < STRIDE * Pow2(k)
  }

  /**
   As shipped, the sweep covers exactly the buckets of those ranges, from any run on: the others are
   missed in every cycle, and range `k` is swept by the run `k` of every cycle.
   */
  lemma {:induction false} ShippedCoverage(b: nat, from: nat, size: nat)
    requires b < size
    ensures SweptFrom(b, from, size, AddEnd) <==> exists k: nat :: InRange(b, k)
    ensures forall k: nat :: Cursor(from, size, AddEnd) == 0 && InRange(b, k) ==> SweptInRun(b, from + k, size, AddEnd)
  {
    if r: nat :| r >= from && SweptInRun(b, r, size, AddEnd) {
      var k := ShippedCursor(r, size);
      assert InRange(b, k);
    }
    if k: nat :| InRange(b, k) {
      var start := CursorReturns(from, size, AddEnd);
      SweptInCycle(b, start, k, size);
    }
    forall k: nat | Cursor(from, size, AddEnd) == 0 && InRange(b, k)
      ensures SweptInRun(b, from + k, size, AddEnd)
    {
      SweptInCycle(b, from, k, size);
    }
  }

  lemma {:induction false} SweptInCycle(b: nat, start: nat, k: nat, size: nat)
    requires b < size && Cursor(start, size, AddEnd) == 0 && InRange(b, k)
    ensures SweptInRun(b, start + k, size, AddEnd)
  {
    ShippedReaches(k, b, size);
    CyclesAlike(start, k, size, AddEnd);
  }

  /**
   In numbers: every cycle sweeps the first fifty buckets in its first run, the next fifty in its second and
   those from 150 to 199 in its third, and no run ever sweeps those from 100 to 149 or from 200 to 349.
   */
  lemma {:induction false} ShippedCycle(b: nat, start: nat, size: nat)
    requires b < size && Cursor(start, size, AddEnd) == 0
    ensures b < 50 ==> SweptInRun(b, start, size, AddEnd)
    ensures 50 <= b < 100 ==> SweptInRun(b, start + 1, size, AddEnd)
    ensures 150 <= b < 200 ==> SweptInRun(b, start + 2, size, AddEnd)
    ensures 100 <= b < 150 || 200 <= b < 350 ==> !SweptFrom(b, 0, size, AddEnd)
  {
    assert Pow2(0) == 1 && Pow2(1) == 2 && Pow2(2) == 4 && Pow2(3) == 8;
    ShippedCoverage(b, start, size);
    assert b < 50 ==> InRange(b, 0);
    assert 50 <= b < 100 ==> InRange(b, 1);
    assert 150 <= b < 200 ==> InRange(b, 2);
    if 100 <= b < 150 || 200 <= b < 350 {
      ShippedCoverage(b, 0, size);
      forall k: nat
        ensures !InRange(b, k)
      {
        if k > 3 { Pow2Grows(3, k); }
      }
    }
  }

  /** Bucket 100 is one that no run ever sweeps. */
  lemma {:induction false} ShippedMissesBucket(size: nat)
    requires 100 < size
    ensures !SweptFrom(100, 0, size, AddEnd)
  {
    ShippedCoverage(100, 0, size);
    forall k: nat
      ensures !InRange(100, k)
    {
      assert Pow2(0) == 1 && Pow2(1) == 2;
      if k > 1 { Pow2Grows(1, k); }
    }
  }

  lemma {:induction false} FixedReaches(q: nat, size: nat)
    requires STRIDE * q < size
    ensures Cursor(q, size, SetEnd) == STRIDE * q
  {
    if q > 0 {
      FixedReaches(q - 1, size);
    }
  }

  /** With the plain assignment every cycle sweeps every bucket. */
  lemma {:induction false} FixedCycle(b: nat, start: nat, size: nat)
    requires b < size && Cursor(start, size, SetEnd) == 0
    ensures SweptInRun(b, start + b / STRIDE, size, SetEnd)
  {
    FixedReaches(b / STRIDE, size);
    CyclesAlike(start, b / STRIDE, size, SetEnd);
  }

  /** So whenever a slot is orphaned, its bucket is swept within the rest of this cycle and the next one. */
  lemma {:induction false} FixedCoverage(b: nat, from: nat, size: nat) returns (r: nat)
    requires b < size
    ensures from <= r <= from + 2 * (size / STRIDE) + 2 && SweptInRun(b, r, size, SetEnd)
  {
    var start := CursorReturns(from, size, SetEnd);
    FixedCycle(b, start, size);
    r := start + b / STRIDE;
  }

  // ---------------------------------------------------------------- the table

  class SlotTable {
    const buckets: array<seq<Node>>
    const hash: Key -> nat
    var nextBktnr: nat

    ghost predicate Valid()
      reads this, buckets
    {
      && (forall k :: hash(k) < buckets.Length)
      && (forall b :: 0 <= b < buckets.Length ==> DistinctKeys(buckets[b]))
    }

    /** The slot a probe running in thread `key` finds. */
    ghost function Find(key: Key): Option<Slot>
      requires Valid()
      reads this, buckets
    {
      FindIn(buckets[hash(key)], key)
    }

    constructor (nbuckets: nat, hash: Key -> nat)
      requires forall k :: hash(k) < nbuckets
      ensures Valid() && fresh(buckets) && nextBktnr == 0
      ensures forall k :: Find(k) == None
    {
      buckets := new seq<Node>[nbuckets](_ => []);
      this.hash := hash;
      nextBktnr := 0;
    }

    /** The position of the first node of `key` in its chain, or the length of the chain. */
    method Search(key: Key) returns (i: nat)
      requires Valid()
      ensures i <= |buckets[hash(key)]|
      ensures i < |buckets[hash(key)]| <==> Find(key).Some?
      ensures i < |buckets[hash(key)]| ==>
                buckets[hash(key)][i].key == key && Find(key) == Some(buckets[hash(key)][i].slot)
    {
      var chain := buckets[hash(key)];
      i := 0;
      while i < |chain| && chain[i].key != key
        invariant 0 <= i <= |chain|
        invariant forall j :: 0 <= j < i ==> chain[j].key != key
      {
        i := i + 1;
      }
      FindNone(chain, key);
      if i < |chain| {
        FindAt(chain, i);
      }
    }

    /** The `vfs_write` entry probe: a new node with whatever its memory holds. */
    method OnWriteEntry(key: Key, junk: Slot)
      requires Valid() && Find(key) == None
      modifies buckets
      ensures Valid()
      ensures forall k :: Find(k) == if k == key then Some(junk) else old(Find(k))
    {
      var h := hash(key);
      FindNone(buckets[h], key);
      ghost var before := buckets[h];
      buckets[h] := [Node(key, junk)] + buckets[h];
      assert buckets[h][1..] == before;
    }

    /**
     The `sb_bread` return probe: the block just read replaces the slot of this thread, if any. It is not
     checked that there is a block: without one the probe faults, for a thread that has a slot.
     */
    method OnBread(key: Key, read: Option<Slot>) returns (faulted: bool)
      requires Valid()
      modifies buckets
      ensures Valid()
      ensures faulted <==> read.None? && old(Find(key)).Some?
      ensures forall k :: Find(k) == if k == key && old(Find(key)).Some? && !faulted then read else old(Find(k))
    {
      var h := hash(key);
      var i := Search(key);
      if i == |buckets[h]| {
        return false;
      }
      if read.None? {
        return true;
      }
      ghost var before := buckets[h];
      forall k
        ensures FindIn(before[i := Node(before[i].key, read.value)], k) ==
                if k == before[i].key then read else FindIn(before, k)
      {
        FindUpdated(before, i, read.value, k);
      }
      buckets[h] := buckets[h][i := Node(buckets[h][i].key, read.value)];
      return false;
    }

    /** The `write_dirty_buffer` probe: what is handed to the snapshot service for this thread. */
    method OnWriteDirty(key: Key) returns (slot: Option<Slot>)
      requires Valid()
      ensures slot == Find(key)
    {
      var i := Search(key);
      slot := if i < |buckets[hash(key)]| then Some(buckets[hash(key)][i].slot) else None;
    }

    /** The `vfs_write` return probe: the node of this thread is unlinked. */
    method OnWriteExit(key: Key)
      requires Valid()
      modifies buckets
      ensures Valid()
      ensures forall k :: Find(k) == if k == key then None else old(Find(k))
    {
      var h := hash(key);
      var i := Search(key);
      if i < |buckets[h]| {
        ghost var before := buckets[h];
        forall k
          ensures FindIn(before[..i] + before[i + 1..], k) == if k == before[i].key then None else FindIn(before, k)
        {
          FindRemoved(before, i, k);
        }
        buckets[h] := buckets[h][..i] + buckets[h][i + 1..];
      }
    }

    /**
     `periodic_taskcheck_xkpblocks_ht`: in the buckets of this run the nodes of dead threads go;
     whatever the cursor, a live thread keeps its slot.
     */
    method PeriodicSweep(live: set<Key>)
      requires Valid()
      modifies this`nextBktnr, buckets
      ensures Valid()
      ensures nextBktnr == NextCursor(old(nextBktnr), buckets.Length, AddEnd)
      ensures forall k :: Find(k) ==
                if k !in live && old(nextBktnr) <= hash(k) < SweepEnd(old(nextBktnr), buckets.Length)
                then None else old(Find(k))
    {
      ghost var before := buckets[..];
      var end := if nextBktnr + 50 < buckets.Length then nextBktnr + 50 else buckets.Length;
      var bktnr := nextBktnr;
      while bktnr < end
        invariant nextBktnr <= bktnr && nextBktnr == old(nextBktnr)
        invariant forall b :: 0 <= b < buckets.Length ==>
                    buckets[b] == if nextBktnr <= b < bktnr && b < end then Alive(before[b], live) else before[b]
        decreases end - bktnr
      {
        buckets[bktnr] := Alive(buckets[bktnr], live);
        bktnr := bktnr + 1;
      }
      forall b | 0 <= b < buckets.Length
        ensures DistinctKeys(buckets[b])
      {
        AliveKeys(before[b], live);
      }
      forall k
        ensures FindIn(Alive(before[hash(k)], live), k) == if k in live then FindIn(before[hash(k)], k) else None
      {
        AliveFind(before[hash(k)], live, k);
      }
      if end < buckets.Length {
        nextBktnr := nextBktnr + end;
      } else {
        nextBktnr := 0;
      }
    }
  }
}
