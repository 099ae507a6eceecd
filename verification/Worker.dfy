/**
 The deferred work `make_snapshot` (src/kernel/snapshot.c:466-534): look the block up in the cache,
 then in the log, and append it if it is in neither.
 */
module Worker {
  import opened Bytes
  import opened Seqs
  import opened Snapblocks
  import opened LruNg

  /** A queued block; its size is a 32-bit number. */
  datatype RawWork = Work(blknr: u64, block: seq<byte>)
  type Work = w: RawWork | |w.block| < 0x1_0000_0000 witness Work(0, [])

  /** Room for a log: far below the largest file offset. */
  const MAX_LOG: nat := 0x4000_0000_0000_0000

  function RecordOf(w: Work): Record {
    Record(w.blknr, RAW, [], w.block)
  }

  /** What an epoch has cached and logged. */
  datatype Store = Store(cached: seq<u64>, file: seq<byte>)

  /** The test at line 521 as shipped, and as the comment in the README of the module intends it. */
  datatype Polarity = CacheOnFailure | CacheOnSuccess

  /** Whether a record for `w` fits behind `file`. */
  predicate Room(file: seq<byte>, w: Work, limit: nat) {
    |file| + RecordSize(RecordOf(w)) <= limit
  }

  /** One `make_snapshot` with a cache of `max` entries and `limit` bytes of room for the log. */
  ghost function Snap(s: Store, w: Work, max: nat, limit: nat, p: Polarity): Store {
    if w.blknr in s.cached then s.(cached := Touch(s.cached, w.blknr))
    else if Found(s.file, w.blknr) then s.(cached := Added(s.cached, w.blknr, max))
    else
      var file := Truncate(s.file + EncodeRecord(RecordOf(w)), limit);
      if Room(s.file, w, limit) == p.CacheOnSuccess? then Store(Added(s.cached, w.blknr, max), file)
      else Store(s.cached, file)
  }

  /** The three writes of a raw record without extended header make up its encoding. */
  lemma {:induction false} PlainRecord(w: Work)
    ensures EncodeHeader(HeaderOf(RecordOf(w))) + [] + w.block == EncodeRecord(RecordOf(w))
  {
  }

  /** What is written for a work: the raw type 0, the payload right behind the forty bytes of the header. */
  lemma {:induction false} WorkerRecord(w: Work)
    ensures var s := EncodeRecord(RecordOf(w));
            && s[..8] == [0xef, 0x5a, 0xbe, 0x5a, 0xad, 0x5a, 0xde, 0x5a]
            && FieldAt(s, 8, w.blknr) && FieldAt(s, 16, |w.block|) && FieldAt(s, 24, 0) && FieldAt(s, 32, 40)
            && s[40..] == w.block
  {
    hide EncodeRecord, FieldAt;
    RecordLayout(RecordOf(w));
  }

  /** The forty bytes in front of the payload, for block 7 of 4096 bytes. */
  lemma {:induction false} WorkerHeader(w: Work)
    requires w.blknr == 7 && |w.block| == 4096
    ensures EncodeRecord(RecordOf(w)) ==
            [0xef, 0x5a, 0xbe, 0x5a, 0xad, 0x5a, 0xde, 0x5a] + [7, 0, 0, 0, 0, 0, 0, 0] + [0, 16, 0, 0, 0, 0, 0, 0]
            + [0, 0, 0, 0, 0, 0, 0, 0] + [40, 0, 0, 0, 0, 0, 0, 0] + w.block
  {
    hide EncodeU64;
    MagicBytes();
    SmallField(7);
    SmallField(4096);
    SmallField(0);
    SmallField(40);
  }

  lemma {:induction false} SmallField(x: u64)
    requires x < 0x1_0000
    ensures EncodeU64(x) == [x % 256, x / 256, 0, 0, 0, 0, 0, 0]
  {
    assert ToLE(0, 2) == [0, 0];
    assert ToLE(0, 4) == [0, 0, 0, 0];
    assert ToLE(0, 6) == [0, 0, 0, 0, 0, 0];
    assert ToLE(x / 256, 7) == [x / 256] + ToLE(0, 6);
    assert ToLE(x, 8) == [x % 256] + ToLE(x / 256, 7);
  }

  // ---------------------------------------------------------------- the log stays a cut log

  /** The log holds `rs`, the last of them cut if and only if the room ran out inside it. */
  ghost predicate Holds(file: seq<byte>, rs: seq<Record>, limit: nat) {
    && CutLog(file, rs)
    && |file| <= limit < MAX_LOG
    && (file == EncodeLog(rs) || |file| == limit)
  }

  lemma {:induction false} AppendHolds(file: seq<byte>, rs: seq<Record>, w: Work, limit: nat) returns (rs': seq<Record>)
    requires Holds(file, rs, limit)
    ensures Holds(Truncate(file + EncodeRecord(RecordOf(w)), limit), rs', limit)
    ensures rs <= rs' <= rs + [RecordOf(w)]
    ensures file == EncodeLog(rs) ==> rs' == rs + [RecordOf(w)]
    ensures file != EncodeLog(rs) ==> rs' == rs && Truncate(file + EncodeRecord(RecordOf(w)), limit) == file
  {
    var r := RecordOf(w);
    var whole := file + EncodeRecord(r);
    hide EncodeRecord;
    if file == EncodeLog(rs) {
      rs' := rs + [r];
      assert rs'[..|rs|] == rs;
      EncodeLogLength(rs);
      EncodeLogLength(rs');
    } else {
      rs' := rs;
      assert Truncate(whole, limit) == whole[..limit] == file;
    }
  }

  /** After an attempted append the block is found just if its header made it into the log. */
  lemma {:induction false} FoundAfterAppend(file: seq<byte>, rs: seq<Record>, w: Work, limit: nat)
    requires Holds(file, rs, limit) && !Found(file, w.blknr)
    ensures Found(Truncate(file + EncodeRecord(RecordOf(w)), limit), w.blknr) <==> |file| + HDR_SIZE <= limit
  {
    hide Found, EncodeRecord, HeaderWithin;
    var rs' := AppendHolds(file, rs, w, limit);
    FoundInCutLog(Truncate(file + EncodeRecord(RecordOf(w)), limit), rs', w.blknr);
    if file == EncodeLog(rs) {
      EncodeLogLength(rs);
      FoundInWholeLog(rs, w.blknr);
      NewHeaderWithin(rs, RecordOf(w), |Truncate(file + EncodeRecord(RecordOf(w)), limit)|);
    }
  }

  lemma {:induction false} NewHeaderWithin(rs: seq<Record>, r: Record, len: nat)
    requires !HasBlock(rs, r.blknr)
    ensures HeaderWithin(rs + [r], r.blknr, len) <==> Offset(rs, |rs|) + HDR_SIZE <= len
  {
    var n, all := |rs|, rs + [r];
    assert all[..n] == rs;
    OffsetOfPrefix(all, n, n);
    assert forall i :: 0 <= i < n ==> all[i] == rs[i];
    assert all[n].blknr == r.blknr;
  }

  // ---------------------------------------------------------------- cached implies found

  ghost predicate CachedIsFound(s: Store) {
    forall k :: k in s.cached ==> Found(s.file, k)
  }

  lemma {:induction false} TouchElements(cached: seq<u64>, k: u64, max: nat)
    ensures forall j :: j in Touch(cached, k) <==> j in cached || j == k
    ensures forall j :: j in Added(cached, k, max) ==> j in cached || j == k
    ensures |cached| <= max && max > 0 ==> k in Added(cached, k, max)
  {
    WithoutElements(cached, k);
    var all := cached + [k];
    assert all[|all| - 1] == k;
    if |cached| <= max && max > 0 && |all| > max {
      assert all[1..][|all| - 2] == k;
    }
  }

  /** The log only grows, up to the room there is. */
  lemma {:induction false} SnapGrows(s: Store, w: Work, max: nat, limit: nat, p: Polarity)
    requires |s.file| <= limit
    ensures s.file <= Snap(s, w, max, limit, p).file && |Snap(s, w, max, limit, p).file| <= limit
    ensures forall k :: Found(s.file, k) ==> Found(Snap(s, w, max, limit, p).file, k)
  {
    hide Found, EncodeRecord;
    var file := Snap(s, w, max, limit, p).file;
    forall k | Found(s.file, k)
      ensures Found(file, k)
    {
      FoundInLonger(s.file, file, k);
    }
  }

  /** Read as intended, the header of a cached block can always be found in the log. */
  lemma {:induction false} IntendedCachedIsFound(s: Store, rs: seq<Record>, w: Work, max: nat, limit: nat)
    requires Holds(s.file, rs, limit) && CachedIsFound(s)
    ensures CachedIsFound(Snap(s, w, max, limit, CacheOnSuccess))
  {
    hide Found, CutLog, EncodeRecord, EncodeLog;
    TouchElements(s.cached, w.blknr, max);
    SnapGrows(s, w, max, limit, CacheOnSuccess);
    if w.blknr !in s.cached && !Found(s.file, w.blknr) {
      FoundAfterAppend(s.file, rs, w, limit);
    }
  }

  /** As shipped, that holds just if the block is known already or at least its header fits. */
  lemma {:induction false} ShippedCachedIsFound(s: Store, rs: seq<Record>, w: Work, max: nat, limit: nat)
    requires Holds(s.file, rs, limit) && CachedIsFound(s) && |s.cached| <= max && max > 0
    ensures CachedIsFound(Snap(s, w, max, limit, CacheOnFailure)) <==>
            w.blknr in s.cached || Found(s.file, w.blknr) || |s.file| + HDR_SIZE <= limit
  {
    hide Found, CutLog, EncodeRecord, EncodeLog;
    TouchElements(s.cached, w.blknr, max);
    SnapGrows(s, w, max, limit, CacheOnFailure);
    if w.blknr !in s.cached && !Found(s.file, w.blknr) {
      FoundAfterAppend(s.file, rs, w, limit);
    }
  }

  /** A block whose write failed outright is then skipped as cached, however much room there is later. */
  lemma {:induction false} ShippedForgetsFailedBlock(s: Store, rs: seq<Record>, w: Work, again: Work, max: nat, limit: nat, later: nat)
    requires Holds(s.file, rs, limit) && |s.cached| <= max && max > 0
    requires w.blknr !in s.cached && !Found(s.file, w.blknr) && |s.file| + HDR_SIZE > limit
    requires again.blknr == w.blknr
    ensures var s1 := Snap(s, w, max, limit, CacheOnFailure);
            var s2 := Snap(s1, again, max, later, CacheOnFailure);
            w.blknr in s1.cached && s2.file == s1.file && !Found(s2.file, w.blknr)
  {
    TouchElements(s.cached, w.blknr, max);
    FoundAfterAppend(s.file, rs, w, limit);
  }

  /**
   What the test of line 521 comes to for a block neither cached nor in the log: as shipped it is cached just
   if its record does not fit, as intended just if it does; otherwise the cache is left alone.
   */
  lemma {:induction false} FreshCached(s: Store, w: Work, max: nat, limit: nat)
    requires w.blknr !in s.cached && !Found(s.file, w.blknr)
    ensures var fits := |s.file| + 40 + |w.block| <= limit;
            var shipped := Snap(s, w, max, limit, CacheOnFailure).cached;
            var intended := Snap(s, w, max, limit, CacheOnSuccess).cached;
            && (if fits then shipped == s.cached else intended == s.cached)
            && (max > 0 && |s.cached| <= max ==> (w.blknr in shipped <==> !fits) && (w.blknr in intended <==> fits))
  {
    hide Found, Truncate, EncodeRecord;
    TouchElements(s.cached, w.blknr, max);
  }

  /** A block cached or found becomes the youngest of the cache, and the log is left alone. */
  lemma {:induction false} KnownBecomesYoungest(s: Store, w: Work, max: nat, limit: nat, p: Polarity)
    requires (w.blknr in s.cached || Found(s.file, w.blknr)) && max > 0
    ensures var t := Snap(s, w, max, limit, p);
            t.file == s.file && t.cached != [] && t.cached[|t.cached| - 1] == w.blknr
  {
    hide Found;
    var all := s.cached + [w.blknr];
    assert all[|all| - 1] == w.blknr;
  }

  // ---------------------------------------------------------------- cached implies wholly logged

  ghost predicate CachedIsWhole(s: Store, rs: seq<Record>) {
    forall k :: k in s.cached ==> WhollyLogged(s.file, rs, k)
  }

  /** What is wholly logged stays so. */
  lemma {:induction false} WholeStays(file: seq<byte>, rs: seq<Record>, file': seq<byte>, rs': seq<Record>, k: u64)
    requires rs <= rs' && |file| <= |file'| && WhollyLogged(file, rs, k)
    ensures WhollyLogged(file', rs', k)
  {
    var i :| 0 <= i < |rs| && rs[i].blknr == k && Offset(rs, i + 1) <= |file|;
    assert rs'[..|rs|] == rs;
    OffsetOfPrefix(rs', |rs|, i + 1);
    assert rs'[i].blknr == k;
  }

  lemma {:induction false} NewWhollyLogged(rs: seq<Record>, r: Record, file: seq<byte>)
    requires !HasBlock(rs, r.blknr)
    ensures WhollyLogged(file, rs + [r], r.blknr) <==> Offset(rs, |rs|) + RecordSize(r) <= |file|
  {
    hide RecordSize;
    var n, all := |rs|, rs + [r];
    assert all[..n] == rs;
    OffsetOfPrefix(all, n, n);
    assert forall i :: 0 <= i < n ==> all[i] == rs[i];
    assert all[n].blknr == r.blknr;
  }

  /** A block that is neither cached nor in the log is wholly logged by the next work if and only if its record fits. */
  lemma {:induction false} FreshIsLoggedIfRoom(s: Store, rs: seq<Record>, w: Work, max: nat, limit: nat, p: Polarity)
    returns (rs': seq<Record>)
    requires Holds(s.file, rs, limit) && w.blknr !in s.cached && !Found(s.file, w.blknr)
    ensures Holds(Snap(s, w, max, limit, p).file, rs', limit) && rs <= rs'
    ensures WhollyLogged(Snap(s, w, max, limit, p).file, rs', w.blknr) <==> Room(s.file, w, limit)
  {
    hide Found, EncodeRecord, EncodeLog, WhollyLogged, HasBlock;
    var file' := Truncate(s.file + EncodeRecord(RecordOf(w)), limit);
    rs' := AppendHolds(s.file, rs, w, limit);
    if s.file == EncodeLog(rs) {
      EncodeLogLength(rs);
      FoundInWholeLog(rs, w.blknr);
      NewWhollyLogged(rs, RecordOf(w), file');
    } else {
      NotFoundIsNotWhole(s.file, rs, w, limit);
    }
  }

  lemma {:induction false} NotFoundIsNotWhole(file: seq<byte>, rs: seq<Record>, w: Work, limit: nat)
    requires Holds(file, rs, limit) && !Found(file, w.blknr)
    ensures !WhollyLogged(file, rs, w.blknr)
  {
    if WhollyLogged(file, rs, w.blknr) {
      WhollyLoggedIsFound(file, rs, w.blknr);
    }
  }

  /**
   As intended, what is cached stays wholly logged, except when the work finds a header without its
   payload in the log: exactly then a block becomes cached that is not there.
   */
  lemma {:induction false} IntendedCachedIsWhole(s: Store, rs: seq<Record>, w: Work, max: nat, limit: nat)
    returns (rs': seq<Record>)
    requires Holds(s.file, rs, limit) && CachedIsWhole(s, rs) && |s.cached| <= max && max > 0
    ensures Holds(Snap(s, w, max, limit, CacheOnSuccess).file, rs', limit) && rs <= rs'
    ensures CachedIsWhole(Snap(s, w, max, limit, CacheOnSuccess), rs') <==>
            w.blknr in s.cached || !Found(s.file, w.blknr) || WhollyLogged(s.file, rs, w.blknr)
  {
    hide Found, CutLog, EncodeLog, EncodeRecord, WhollyLogged;
    TouchElements(s.cached, w.blknr, max);
    rs' := rs;
    if w.blknr !in s.cached && !Found(s.file, w.blknr) {
      rs' := FreshIsLoggedIfRoom(s, rs, w, max, limit, CacheOnSuccess);
      KeepsWhole(s, rs, w, max, limit, CacheOnSuccess, rs');
    }
  }

  /** As shipped, in these cases and whenever a new block does not fit. */
  lemma {:induction false} ShippedCachedIsWhole(s: Store, rs: seq<Record>, w: Work, max: nat, limit: nat)
    returns (rs': seq<Record>)
    requires Holds(s.file, rs, limit) && CachedIsWhole(s, rs) && |s.cached| <= max && max > 0
    ensures Holds(Snap(s, w, max, limit, CacheOnFailure).file, rs', limit) && rs <= rs'
    ensures CachedIsWhole(Snap(s, w, max, limit, CacheOnFailure), rs') <==>
            || w.blknr in s.cached
            || (if Found(s.file, w.blknr) then WhollyLogged(s.file, rs, w.blknr) else Room(s.file, w, limit))
  {
    hide Found, CutLog, EncodeLog, EncodeRecord, WhollyLogged, Room;
    TouchElements(s.cached, w.blknr, max);
    rs' := rs;
    if w.blknr !in s.cached && !Found(s.file, w.blknr) {
      rs' := FreshIsLoggedIfRoom(s, rs, w, max, limit, CacheOnFailure);
      KeepsWhole(s, rs, w, max, limit, CacheOnFailure, rs');
    }
  }

  lemma {:induction false} KeepsWhole(s: Store, rs: seq<Record>, w: Work, max: nat, limit: nat, p: Polarity, rs': seq<Record>)
    requires |s.file| <= limit && rs <= rs'
    ensures forall k :: WhollyLogged(s.file, rs, k) ==> WhollyLogged(Snap(s, w, max, limit, p).file, rs', k)
  {
    hide Found, EncodeRecord, WhollyLogged;
    SnapGrows(s, w, max, limit, p);
    forall k | WhollyLogged(s.file, rs, k)
      ensures WhollyLogged(Snap(s, w, max, limit, p).file, rs', k)
    {
      WholeStays(s.file, rs, Snap(s, w, max, limit, p).file, rs', k);
    }
  }

  // ---------------------------------------------------------------- a torn record

  /** All `works` in queue order on bytes; `limits(i)` is the room at work `i`, `gone(i)` leaves the cache after it. */
  ghost function SnapAll(s: Store, works: seq<Work>, gone: nat -> set<u64>, limits: nat -> nat, max: nat, p: Polarity): Store {
    if works == [] then s
    else
      var n := |works| - 1;
      var t := Snap(SnapAll(s, works[..n], gone, limits, max, p), works[n], max, limits(n), p);
      t.(cached := Drop(t.cached, gone(n)))
  }

  /** The room never gets smaller. */
  ghost predicate Growing(size: nat, limits: nat -> nat) {
    size <= limits(0) && forall i: nat, j: nat :: i <= j ==> limits(i) <= limits(j)
  }

  lemma {:induction false} SnapAllGrows(s: Store, works: seq<Work>, gone: nat -> set<u64>, limits: nat -> nat, max: nat, p: Polarity)
    requires Growing(|s.file|, limits)
    ensures s.file <= SnapAll(s, works, gone, limits, max, p).file
    ensures |SnapAll(s, works, gone, limits, max, p).file| <= limits(|works|)
  {
    hide Snap;
    if works != [] {
      var n := |works| - 1;
      SnapAllGrows(s, works[..n], gone, limits, max, p);
      SnapGrows(SnapAll(s, works[..n], gone, limits, max, p), works[n], max, limits(n), p);
    }
  }

  /**
   If the header of a new block fits and its payload does not, then under either polarity the block is
   found from then on without being there, and whatever works, evictions and room follow, no work of that
   block changes the log any more.
   */
  lemma {:induction false} TornIsLost(s: Store, rs: seq<Record>, w: Work, max: nat, limit: nat, p: Polarity,
                                      works: seq<Work>, gone: nat -> set<u64>, limits: nat -> nat, again: Work)
    returns (rs': seq<Record>)
    requires Holds(s.file, rs, limit) && w.blknr !in s.cached && !Found(s.file, w.blknr)
    requires |s.file| + HDR_SIZE <= limit && !Room(s.file, w, limit)
    requires Growing(limit, limits) && again.blknr == w.blknr
    ensures var torn := Snap(s, w, max, limit, p);
            && Holds(torn.file, rs', limit) && Found(torn.file, w.blknr) && !WhollyLogged(torn.file, rs', w.blknr)
    ensures var later := SnapAll(Snap(s, w, max, limit, p), works, gone, limits, max, p);
            && Found(later.file, w.blknr)
            && Snap(later, again, max, limits(|works|), p).file == later.file
  {
    hide Found, EncodeRecord, WhollyLogged, CutLog, EncodeLog, Growing;
    var torn := Snap(s, w, max, limit, p);
    rs' := FreshIsLoggedIfRoom(s, rs, w, max, limit, p);
    FoundAfterAppend(s.file, rs, w, limit);
    assert |torn.file| == limit;
    SnapAllGrows(torn, works, gone, limits, max, p);
    FoundInLonger(torn.file, SnapAll(torn, works, gone, limits, max, p).file, w.blknr);
  }

  /** Once the room is used up and does not grow, no work at all changes the log. */
  lemma {:induction false} FullStaysAsItIs(s: Store, works: seq<Work>, gone: nat -> set<u64>, limits: nat -> nat, max: nat, p: Polarity)
    requires forall i: nat :: limits(i) == |s.file|
    ensures SnapAll(s, works, gone, limits, max, p).file == s.file
  {
    hide Snap;
    if works != [] {
      var n := |works| - 1;
      FullStaysAsItIs(s, works[..n], gone, limits, max, p);
      SnapGrows(SnapAll(s, works[..n], gone, limits, max, p), works[n], max, limits(n), p);
    }
  }

  // ---------------------------------------------------------------- the cache does not change the log

  ghost predicate Logs(log: seq<Work>, blknr: u64) {
    exists i :: 0 <= i < |log| && log[i].blknr == blknr
  }

  /** The cacheless reference: the first work of each block, in order. */
  ghost function FirstOf(works: seq<Work>): seq<Work> {
    if works == [] then []
    else
      var before, w := FirstOf(works[..|works| - 1]), works[|works| - 1];
      if Logs(before, w.blknr) then before else before + [w]
  }

  /** What the worker holds when every write succeeds: cached keys and logged works. */
  datatype Kept = Kept(cached: seq<u64>, log: seq<Work>)

  /** `make_snapshot`, every write succeeding. */
  ghost function Process(k: Kept, w: Work, max: nat, p: Polarity): Kept {
    if w.blknr in k.cached then k.(cached := Touch(k.cached, w.blknr))
    else if Logs(k.log, w.blknr) then k.(cached := Added(k.cached, w.blknr, max))
    else Kept(if p.CacheOnSuccess? then Added(k.cached, w.blknr, max) else k.cached, k.log + [w])
  }

  /** Keys may also leave the cache at any time, for any reason. */
  function Drop(cached: seq<u64>, gone: set<u64>): seq<u64> {
    if cached == [] then []
    else
      var front := Drop(cached[..|cached| - 1], gone);
      if cached[|cached| - 1] in gone then front else front + [cached[|cached| - 1]]
  }

  lemma {:induction false} DropElements(cached: seq<u64>, gone: set<u64>)
    ensures forall k :: k in Drop(cached, gone) ==> k in cached
  {
    if cached != [] {
      DropElements(cached[..|cached| - 1], gone);
    }
  }

  /** All works in queue order; `gone(i)` leaves the cache after work `i`. */
  ghost function ProcessAll(works: seq<Work>, gone: nat -> set<u64>, max: nat, p: Polarity): Kept {
    if works == [] then Kept([], [])
    else
      var n := |works| - 1;
      var k := Process(ProcessAll(works[..n], gone, max, p), works[n], max, p);
      k.(cached := Drop(k.cached, gone(n)))
  }

  /** One work: the log grows by it just if it has no record of the block yet, and covers the cache afterwards. */
  lemma {:induction false} ProcessLogs(k: Kept, w: Work, max: nat, p: Polarity)
    requires forall b :: b in k.cached ==> Logs(k.log, b)
    ensures Process(k, w, max, p).log == if Logs(k.log, w.blknr) then k.log else k.log + [w]
    ensures forall b :: b in Process(k, w, max, p).cached ==> Logs(Process(k, w, max, p).log, b)
  {
    TouchElements(k.cached, w.blknr, max);
    forall b
      ensures Logs(k.log + [w], b) <==> Logs(k.log, b) || w.blknr == b
    {
      LogsSnoc(k.log, w, b);
    }
  }

  /** Whatever is evicted and when, and under either polarity, the log is that of the cacheless reference. */
  lemma {:induction false} CacheTransparent(works: seq<Work>, gone: nat -> set<u64>, max: nat, p: Polarity)
    ensures ProcessAll(works, gone, max, p).log == FirstOf(works)
    ensures forall b :: b in ProcessAll(works, gone, max, p).cached ==> Logs(FirstOf(works), b)
  {
    hide Process, Logs;
    if works != [] {
      var n := |works| - 1;
      CacheTransparent(works[..n], gone, max, p);
      var before := ProcessAll(works[..n], gone, max, p);
      ProcessLogs(before, works[n], max, p);
      DropElements(Process(before, works[n], max, p).cached, gone(n));
    }
  }

  /** At least two of the works are of block `b`. */
  ghost predicate Twice(works: seq<Work>, b: u64) {
    exists i, j :: 0 <= i < j < |works| && works[i].blknr == b && works[j].blknr == b
  }

  lemma {:induction false} TwiceSnoc(works: seq<Work>, w: Work, b: u64)
    ensures Twice(works + [w], b) <==> Twice(works, b) || (w.blknr == b && Logs(works, b))
  {
    var all := works + [w];
    assert forall i :: 0 <= i < |works| ==> all[i] == works[i];
    assert all[|works|] == w;
    if i, j :| 0 <= i < j < |all| && all[i].blknr == b && all[j].blknr == b {
      assert works[i].blknr == b;
      assert j < |works| ==> works[j].blknr == b;
    }
    if w.blknr == b && Logs(works, b) {
      var i :| 0 <= i < |works| && works[i].blknr == b;
      assert all[i].blknr == b && all[|works|].blknr == b;
    }
    if i, j :| 0 <= i < j < |works| && works[i].blknr == b && works[j].blknr == b {
      assert all[i].blknr == b && all[j].blknr == b;
    }
  }

  /** Which block one work adds to the cache, every write succeeding. */
  lemma {:induction false} ProcessCaches(k: Kept, w: Work, max: nat, p: Polarity)
    ensures forall b :: b in Process(k, w, max, p).cached ==>
              b in k.cached || (b == w.blknr && (p.CacheOnSuccess? || Logs(k.log, b)))
    ensures |k.cached| < max ==>
              forall b :: (b in k.cached || (b == w.blknr && (p.CacheOnSuccess? || Logs(k.log, b)))) ==>
                b in Process(k, w, max, p).cached
    ensures |Process(k, w, max, p).cached| <= |k.cached| + 1
  {
    hide Logs;
    TouchElements(k.cached, w.blknr, max);
  }

  /** Nothing leaves the cache but for the maximum. */
  lemma {:induction false} DropNothing(cached: seq<u64>)
    ensures Drop(cached, {}) == cached
  {
    if cached != [] {
      DropNothing(cached[..|cached| - 1]);
    }
  }

  /** Whether the block has had works enough to be cached: two as shipped, one as intended. */
  ghost predicate WorksEnough(works: seq<Work>, b: u64, p: Polarity) {
    if p.CacheOnFailure? then Twice(works, b) else Logs(works, b)
  }

  lemma {:induction false} WorksEnoughSnoc(works: seq<Work>, w: Work, b: u64, p: Polarity)
    ensures WorksEnough(works + [w], b, p) <==>
            WorksEnough(works, b, p) || (b == w.blknr && (p.CacheOnSuccess? || Logs(works, b)))
  {
    hide Twice, Logs;
    TwiceSnoc(works, w, b);
    LogsSnoc(works, w, b);
  }

  /** Where the log stands when the last work comes: it has the blocks of the works before. */
  lemma {:induction false} LastWork(works: seq<Work>, gone: nat -> set<u64>, max: nat, p: Polarity, b: u64)
    requires works != []
    ensures var n := |works| - 1;
            WorksEnough(works, b, p) <==>
            WorksEnough(works[..n], b, p)
            || (b == works[n].blknr && (p.CacheOnSuccess? || Logs(ProcessAll(works[..n], gone, max, p).log, b)))
  {
    hide ProcessAll, WorksEnough, Logs;
    var n := |works| - 1;
    assert works == works[..n] + [works[n]];
    CacheTransparent(works[..n], gone, max, p);
    FirstOfIsFirst(works[..n]);
    WorksEnoughSnoc(works[..n], works[n], b, p);
  }

  lemma {:induction false} CacheIsShort(works: seq<Work>, gone: nat -> set<u64>, max: nat, p: Polarity)
    ensures |ProcessAll(works, gone, max, p).cached| <= |works|
  {
    hide Process, Logs;
    if works != [] {
      var n := |works| - 1;
      var before := ProcessAll(works[..n], gone, max, p);
      CacheIsShort(works[..n], gone, max, p);
      ProcessCaches(before, works[n], max, p);
      DropShortens(Process(before, works[n], max, p).cached, gone(n));
    }
  }

  /**
   As shipped, and every write succeeding, a block enters the cache no earlier than its second work, as
   intended no earlier than its first.
   */
  lemma {:induction false} CachedHasWorks(works: seq<Work>, gone: nat -> set<u64>, max: nat, p: Polarity, b: u64)
    requires b in ProcessAll(works, gone, max, p).cached
    ensures WorksEnough(works, b, p)
  {
    hide Process, WorksEnough, Logs;
    if works != [] {
      var n := |works| - 1;
      var before := ProcessAll(works[..n], gone, max, p);
      ProcessCaches(before, works[n], max, p);
      DropElements(Process(before, works[n], max, p).cached, gone(n));
      LastWork(works, gone, max, p, b);
      if b in before.cached {
        CachedHasWorks(works[..n], gone, max, p, b);
      }
    }
  }

  /** If nothing is evicted, exactly then. */
  lemma {:induction false} CachedAtSecondWork(works: seq<Work>, gone: nat -> set<u64>, max: nat, p: Polarity, b: u64)
    requires |works| <= max && forall i: nat :: gone(i) == {}
    ensures b in ProcessAll(works, gone, max, p).cached <==> WorksEnough(works, b, p)
  {
    hide Process, WorksEnough, Logs;
    if b in ProcessAll(works, gone, max, p).cached {
      CachedHasWorks(works, gone, max, p, b);
    } else if works == [] {
      NoWorks(p, b);
    } else {
      var n := |works| - 1;
      var before := ProcessAll(works[..n], gone, max, p);
      CachedAtSecondWork(works[..n], gone, max, p, b);
      CacheIsShort(works[..n], gone, max, p);
      ProcessCaches(before, works[n], max, p);
      DropNothing(Process(before, works[n], max, p).cached);
      LastWork(works, gone, max, p, b);
    }
  }

  lemma {:induction false} DropShortens(cached: seq<u64>, gone: set<u64>)
    ensures |Drop(cached, gone)| <= |cached|
  {
    if cached != [] {
      DropShortens(cached[..|cached| - 1], gone);
    }
  }

  lemma {:induction false} NoWorks(p: Polarity, b: u64)
    ensures !WorksEnough([], b, p)
  {
  }

  ghost predicate DistinctWorks(log: seq<Work>) {
    forall i, j :: 0 <= i < j < |log| ==> log[i].blknr != log[j].blknr
  }

  /** The reference logs every block once, and with the contents of its first work. */
  lemma {:induction false} FirstOfIsFirst(works: seq<Work>)
    ensures DistinctWorks(FirstOf(works))
    ensures forall i :: 0 <= i < |works| && (forall j :: 0 <= j < i ==> works[j].blknr != works[i].blknr)
              ==> works[i] in FirstOf(works)
    ensures forall w :: w in FirstOf(works) ==> w in works
    ensures forall b :: Logs(works, b) <==> Logs(FirstOf(works), b)
  {
    if works != [] {
      var n := |works| - 1;
      var front, w := works[..n], works[n];
      FirstOfIsFirst(front);
      assert works == front + [w];
      assert forall i :: 0 <= i < n ==> works[i] == front[i];
      var log := FirstOf(works);
      forall b
        ensures Logs(works, b) <==> Logs(log, b)
      {
        LogsSnoc(front, w, b);
        LogsSnoc(FirstOf(front), w, b);
      }
      forall j | 0 <= j < n && front[j].blknr == w.blknr
        ensures Logs(front, w.blknr)
      {
      }
    }
  }

  lemma {:induction false} LogsSnoc(log: seq<Work>, w: Work, b: u64)
    ensures Logs(log + [w], b) <==> Logs(log, b) || w.blknr == b
  {
    var all := log + [w];
    assert all[|log|] == w;
    if Logs(log, b) {
      var i :| 0 <= i < |log| && log[i].blknr == b;
      assert all[i].blknr == b;
    }
  }

  function RecordsOf(log: seq<Work>): (rs: seq<Record>)
    ensures |rs| == |log| && forall i :: 0 <= i < |log| ==> rs[i] == RecordOf(log[i])
  {
    seq(|log|, i requires 0 <= i < |log| => RecordOf(log[i]))
  }

  /** While there is room, `make_snapshot` on bytes is `Process` on works. */
  lemma {:induction false} SnapIsProcess(k: Kept, w: Work, max: nat, limit: nat, p: Polarity)
    requires Offset(RecordsOf(k.log), |k.log|) <= limit < MAX_LOG
    requires Logs(k.log, w.blknr) || Room(EncodeLog(RecordsOf(k.log)), w, limit)
    ensures var s := Snap(Store(k.cached, EncodeLog(RecordsOf(k.log))), w, max, limit, p);
            var k' := Process(k, w, max, p);
            s == Store(k'.cached, EncodeLog(RecordsOf(k'.log)))
  {
    hide Found, EncodeRecord, Offset;
    var rs := RecordsOf(k.log);
    EncodeLogLength(rs);
    WholeLogFinds(k.log, w.blknr);
    assert RecordsOf(k.log + [w]) == rs + [RecordOf(w)];
    assert (rs + [RecordOf(w)])[..|rs|] == rs;
  }

  /** The file holds the records of `log` in order, as far as there is room: all of them, or up to a cut in `rs`. */
  ghost predicate Follows(file: seq<byte>, rs: seq<Record>, log: seq<Work>, limit: nat) {
    Holds(file, rs, limit) && rs <= RecordsOf(log) && (file == EncodeLog(rs) ==> rs == RecordsOf(log))
  }

  lemma {:induction false} FollowsIsTruncated(file: seq<byte>, rs: seq<Record>, log: seq<Work>, limit: nat)
    requires Follows(file, rs, log, limit)
    ensures file == Truncate(EncodeLog(RecordsOf(log)), limit)
  {
    hide EncodeLog;
    var all := RecordsOf(log);
    EncodeLogPrefix(all, |rs|);
    assert all[..|rs|] == rs;
    if file != EncodeLog(rs) {
      assert EncodeLog(all)[..limit] == file;
    }
  }

  lemma {:induction false} FoundIsLogged(file: seq<byte>, rs: seq<Record>, log: seq<Work>, limit: nat, b: u64)
    requires Follows(file, rs, log, limit) && Found(file, b)
    ensures Logs(log, b)
  {
    hide Found, EncodeLog, Offset;
    FoundInCutLog(file, rs, b);
    var i :| 0 <= i < |rs| && rs[i].blknr == b && Offset(rs, i) + HDR_SIZE <= |file|;
    assert RecordsOf(log)[i] == rs[i];
    assert log[i].blknr == b;
  }

  /** One work on bytes, room or no room: the file follows the log of the cacheless reference. */
  lemma {:induction false} SnapFollows(s: Store, rs: seq<Record>, log: seq<Work>, w: Work, max: nat, limit: nat, p: Polarity)
    returns (rs': seq<Record>)
    requires Follows(s.file, rs, log, limit) && forall k :: k in s.cached ==> Logs(log, k)
    ensures var log' := if Logs(log, w.blknr) then log else log + [w];
            && Follows(Snap(s, w, max, limit, p).file, rs', log', limit)
            && forall k :: k in Snap(s, w, max, limit, p).cached ==> Logs(log', k)
  {
    hide Found, EncodeRecord, EncodeLog, CutLog, Logs;
    TouchElements(s.cached, w.blknr, max);
    rs' := rs;
    forall b
      ensures Logs(log + [w], b) <==> Logs(log, b) || w.blknr == b
    {
      LogsSnoc(log, w, b);
    }
    if w.blknr in s.cached {
    } else if Found(s.file, w.blknr) {
      FoundIsLogged(s.file, rs, log, limit, w.blknr);
    } else {
      rs' := AppendHolds(s.file, rs, w, limit);
      AppendFollows(s.file, rs, log, w, limit, rs');
    }
  }

  lemma {:induction false} AppendFollows(file: seq<byte>, rs: seq<Record>, log: seq<Work>, w: Work, limit: nat, rs': seq<Record>)
    requires Follows(file, rs, log, limit) && !Found(file, w.blknr)
    requires Holds(Truncate(file + EncodeRecord(RecordOf(w)), limit), rs', limit)
    requires file == EncodeLog(rs) ==> rs' == rs + [RecordOf(w)]
    requires file != EncodeLog(rs) ==> rs' == rs && Truncate(file + EncodeRecord(RecordOf(w)), limit) == file
    ensures var log' := if Logs(log, w.blknr) then log else log + [w];
            Follows(Truncate(file + EncodeRecord(RecordOf(w)), limit), rs', log', limit)
  {
    hide Found, EncodeRecord, EncodeLog, Offset;
    assert RecordsOf(log + [w]) == RecordsOf(log) + [RecordOf(w)];
    if file == EncodeLog(rs) {
      WholeLogFinds(log, w.blknr);
    }
  }

  /**
   After any works and any evictions, under either polarity and with any room for the log, the file is the
   encoding of the first work of each block, cut where the room ends.
   */
  lemma {:induction false} LogFileIsFirstOf(works: seq<Work>, gone: nat -> set<u64>, limits: nat -> nat, max: nat, limit: nat, p: Polarity)
    returns (rs: seq<Record>)
    requires limit < MAX_LOG && forall i: nat :: limits(i) == limit
    ensures var s := SnapAll(Store([], []), works, gone, limits, max, p);
            && Follows(s.file, rs, FirstOf(works), limit)
            && s.file == Truncate(EncodeLog(RecordsOf(FirstOf(works))), limit)
            && forall k :: k in s.cached ==> Logs(FirstOf(works), k)
  {
    hide Snap, Follows, Logs, Truncate, EncodeLog;
    if works == [] {
      rs := [];
      EmptyFollows(limit);
    } else {
      var n := |works| - 1;
      var before := SnapAll(Store([], []), works[..n], gone, limits, max, p);
      rs := LogFileIsFirstOf(works[..n], gone, limits, max, limit, p);
      rs := SnapFollows(before, rs, FirstOf(works[..n]), works[n], max, limit, p);
      DropElements(Snap(before, works[n], max, limit, p).cached, gone(n));
    }
    FollowsIsTruncated(SnapAll(Store([], []), works, gone, limits, max, p).file, rs, FirstOf(works), limit);
  }

  /** With room for one record per block, the cache is that of the record level, too. */
  lemma {:induction false} CacheWithRoom(works: seq<Work>, gone: nat -> set<u64>, limits: nat -> nat, max: nat, limit: nat, p: Polarity)
    requires Offset(RecordsOf(FirstOf(works)), |FirstOf(works)|) <= limit < MAX_LOG && forall i: nat :: limits(i) == limit
    ensures var s := SnapAll(Store([], []), works, gone, limits, max, p);
            && s.file == EncodeLog(RecordsOf(FirstOf(works)))
            && s.cached == ProcessAll(works, gone, max, p).cached
  {
    hide Snap, Process, EncodeLog;
    if works != [] {
      var n := |works| - 1;
      var front, w := works[..n], works[n];
      var log := FirstOf(front);
      CacheTransparent(front, gone, max, p);
      CacheTransparent(works, gone, max, p);
      LogGrows(log, w);
      CacheWithRoom(front, gone, limits, max, limit, p);
      EncodeLogLength(RecordsOf(log));
      SnapIsProcess(ProcessAll(front, gone, max, p), w, max, limit, p);
    } else {
      EmptyFollows(limit);
      FollowsIsTruncated([], [], [], limit);
      EncodeLogLength([]);
      assert RecordsOf([]) == [];
    }
  }

  lemma {:induction false} LogGrows(log: seq<Work>, w: Work)
    ensures Offset(RecordsOf(log + [w]), |log| + 1) == Offset(RecordsOf(log), |log|) + RecordSize(RecordOf(w))
  {
    var rs := RecordsOf(log);
    assert RecordsOf(log + [w]) == rs + [RecordOf(w)];
    assert (rs + [RecordOf(w)])[..|rs|] == rs;
    OffsetOfPrefix(rs + [RecordOf(w)], |rs|, |rs|);
  }

  lemma {:induction false} EmptyFollows(limit: nat)
    requires limit < MAX_LOG
    ensures Follows([], [], [], limit)
  {
    assert RecordsOf([]) == [];
  }

  lemma {:induction false} WholeLogFinds(log: seq<Work>, blknr: u64)
    requires Offset(RecordsOf(log), |log|) < TWO63
    ensures Found(EncodeLog(RecordsOf(log)), blknr) <==> Logs(log, blknr)
  {
    hide Found, EncodeLog, Offset;
    var rs := RecordsOf(log);
    FoundInWholeLog(rs, blknr);
    if i :| 0 <= i < |log| && log[i].blknr == blknr {
      assert rs[i].blknr == blknr;
    }
  }

  // ---------------------------------------------------------------- the epoch as an object

  /** `struct epoch`, as far as the deferred work uses it: cache and log are made by the first work. */
  class Epoch {
    const max: nat
    const nbuckets: nat
    const hash: u64 -> nat
    const limit: nat
    var cachedBlocks: Lru?
    var snapblocks: LogFile?
    ghost var records: seq<Record>
    ghost var Repr: set<object>

    ghost predicate Valid()
      reads this, Repr
    {
      && this in Repr
      && (forall k :: hash(k) < nbuckets)
      && (cachedBlocks != null ==>
            && {cachedBlocks, cachedBlocks.buckets} <= Repr
            && cachedBlocks.Valid() && cachedBlocks.max == max && NoDup(cachedBlocks.Keys()))
      && (snapblocks != null ==> snapblocks in Repr && snapblocks.limit == limit)
      && Holds(File(), records, limit)
    }

    ghost function Cached(): seq<u64>
      reads this, cachedBlocks
    {
      if cachedBlocks == null then [] else cachedBlocks.Keys()
    }

    ghost function File(): seq<byte>
      reads this, snapblocks
    {
      if snapblocks == null then [] else snapblocks.bytes
    }

    constructor (max: nat, nbuckets: nat, hash: u64 -> nat, limit: nat)
      requires limit < MAX_LOG && forall k :: hash(k) < nbuckets
      ensures Valid() && fresh(Repr) && Cached() == [] && File() == []
      ensures this.max == max && this.limit == limit
    {
      this.max, this.nbuckets, this.hash, this.limit := max, nbuckets, hash, limit;
      cachedBlocks, snapblocks := null, null;
      records := [];
      Repr := {this};
    }

    /** `ensure_cached_blocks_lru_ok` */
    method EnsureCache()
      requires Valid()
      modifies this
      ensures Valid() && cachedBlocks != null && fresh(Repr - old(Repr))
      ensures Cached() == old(Cached()) && File() == old(File()) && records == old(records)
      ensures old(cachedBlocks) != null ==> cachedBlocks == old(cachedBlocks)
    {
      if cachedBlocks == null {
        cachedBlocks := new Lru(max, nbuckets, hash);
        Repr := Repr + {cachedBlocks, cachedBlocks.buckets};
      }
    }

    /** `ensure_path_snapdir_ok` and `ensure_snapblocks_file_ok`: a fresh, empty log at first. */
    method EnsureLog()
      requires Valid()
      modifies this
      ensures Valid() && snapblocks != null && fresh(Repr - old(Repr))
      ensures Cached() == old(Cached()) && File() == old(File()) && records == old(records)
      ensures cachedBlocks == old(cachedBlocks)
    {
      if snapblocks == null {
        snapblocks := new LogFile(limit);
        Repr := Repr + {snapblocks};
      }
    }

    /** The linear search of the log. */
    method SearchLog(blknr: u64) returns (found: bool)
      requires Valid() && snapblocks != null
      ensures found <==> Found(File(), blknr)
    {
      ghost var last := ScanHalts(snapblocks.bytes, records, blknr);
      found := FileLookup(blknr, snapblocks.bytes, last);
    }

    /** Appending the record of `w`, as far as there is room. */
    method AppendBlock(w: Work) returns (ok: bool)
      requires Valid() && snapblocks != null
      modifies this`records, snapblocks
      ensures Valid() && Cached() == old(Cached())
      ensures ok == Room(old(File()), w, limit)
      ensures File() == Truncate(old(File()) + EncodeRecord(RecordOf(w)), limit)
    {
      hide Found, CutLog, EncodeRecord, EncodeHeader;
      ghost var rs := AppendHolds(snapblocks.bytes, records, w, limit);
      PlainRecord(w);
      ok := snapblocks.WriteSnapblock(EncodeHeader(HeaderOf(RecordOf(w))), [], w.block);
      records := rs;
    }

    /** `make_snapshot`, with the test of line 521 as it stands. */
    method MakeSnapshot(w: Work)
      requires Valid()
      modifies Repr
      ensures Valid() && fresh(Repr - old(Repr))
      ensures Store(Cached(), File()) == Snap(Store(old(Cached()), old(File())), w, max, limit, CacheOnFailure)
    {
      hide Found, Holds, EncodeRecord, Truncate;
      ghost var before := Store(Cached(), File());
      EnsureCache();
      var hit := cachedBlocks.Find(w.blknr);
      if hit {
        MoveToEnd(before.cached, w.blknr);
        return;
      }
      EnsureLog();
      var logged := SearchLog(w.blknr);
      if !logged {
        var ok := AppendBlock(w);
        if ok {
          return;
        }
      }
      AddedNoDup(before.cached, w.blknr, max);
      cachedBlocks.Insert(w.blknr);
    }
  }

  lemma {:induction false} AddedNoDup(cached: seq<u64>, k: u64, max: nat)
    requires NoDup(cached) && k !in cached
    ensures NoDup(Added(cached, k, max))
  {
    NoDupSnoc(cached, k);
  }
}
