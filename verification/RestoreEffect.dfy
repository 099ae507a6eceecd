/** What restoring does to the device, block by block and byte by byte (src/user/restore.c:66-105, 136-175). */
module RestoreEffect {
  import opened Bytes
  import opened Options
  import opened Snapblocks
  import opened Restore

  function BlockAt(device: seq<byte>, size: nat, b: nat): (block: seq<byte>)
    requires b * size + size <= |device|
    ensures |block| == size
  {
    device[b * size..b * size + size]
  }

  /** Raw records of one block size, each with its place on the device. */
  ghost predicate RawBlock(r: Record, size: nat, deviceSize: nat) {
    r.kind == RAW && |r.payload| == size && r.blknr * size + size <= deviceSize
  }

  ghost predicate RawBlocks(rs: seq<Record>, size: nat, deviceSize: nat) {
    forall r :: r in rs ==> RawBlock(r, size, deviceSize)
  }

  lemma {:induction false} MulMonotone(a: nat, b: nat, size: nat)
    requires a < b
    ensures a * size + size <= b * size
  {
    assert (a + 1) * size <= b * size;
  }

  /** Writing one block leaves every other block as it was. */
  lemma {:induction false} BlockOfSplice(device: seq<byte>, size: nat, c: nat, data: seq<byte>, b: nat)
    requires |data| == size && c * size + size <= |device| && b * size + size <= |device|
    ensures BlockAt(Splice(device, c * size, data), size, b) == if b == c then data else BlockAt(device, size, b)
  {
    hide Splice;
    if b < c {
      MulMonotone(b, c, size);
      SliceOutsideSplice(device, c * size, data, b * size, b * size + size);
    } else if c < b {
      MulMonotone(c, b, size);
      SliceOutsideSplice(device, c * size, data, b * size, b * size + size);
    }
  }

  /** The payload of the last record for block `b`. */
  function LastPayload(rs: seq<Record>, b: nat): Option<seq<byte>> {
    if rs == [] then None
    else
      var later := LastPayload(rs[1..], b);
      if later.Some? then later else if rs[0].blknr == b then Some(rs[0].payload) else None
  }

  /** A replay changes exactly the blocks that have a record; the last record of a block wins. */
  lemma {:induction false} ReplayBlock(device: seq<byte>, rs: seq<Record>, size: nat, b: nat)
    requires RawBlocks(rs, size, |device|) && b * size + size <= |device|
    ensures BlockAt(Replay(device, rs), size, b) ==
            if LastPayload(rs, b).Some? then LastPayload(rs, b).value else BlockAt(device, size, b)
    decreases |rs|
  {
    if rs != [] {
      assert rs[0] in rs;
      ReplayBlock(ApplyRecord(device, rs[0]), rs[1..], size, b);
      BlockOfSplice(device, size, rs[0].blknr, rs[0].payload, b);
    }
  }

  lemma {:induction false} BlockByte(device: seq<byte>, size: nat, n: nat, k: nat)
    returns (b: nat, i: nat)
    requires size > 0 && k < |device| == n * size
    ensures i < size && b * size + size <= |device| && k == b * size + i
    ensures device[k] == BlockAt(device, size, b)[i]
  {
    b, i := k / size, k % size;
    assert k == b * size + i;
    if n <= b {
      MulMonotone(n - 1, b, size);
      assert false;
    }
    if b + 1 < n {
      MulMonotone(b, n - 1, size);
    }
  }

  /** Two devices with the same blocks are the same device. */
  lemma {:induction false} SameBlocks(d: seq<byte>, e: seq<byte>, size: nat, n: nat)
    requires size > 0 && |d| == |e| == n * size
    requires forall b: nat :: b * size + size <= |d| ==> BlockAt(d, size, b) == BlockAt(e, size, b)
    ensures d == e
  {
    forall k | 0 <= k < |d|
      ensures d[k] == e[k]
    {
      var b, i := BlockByte(d, size, n, k);
      assert BlockAt(d, size, b)[i] == BlockAt(e, size, b)[i];
    }
  }

  // ---------------------------------------------------------------- byte by byte, whatever the records

  /** Record `r` has a place on a device of `size` bytes, and byte `k` is in it. */
  predicate Covers(r: Record, k: nat, size: nat) {
    && r.kind == RAW && r.blknr * |r.payload| + |r.payload| <= size
    && r.blknr * |r.payload| <= k < r.blknr * |r.payload| + |r.payload|
  }

  /** What the last record that covers byte `k` has for it. */
  function LastByte(rs: seq<Record>, k: nat, size: nat): Option<byte> {
    if rs == [] then None
    else
      var r, front := rs[|rs| - 1], rs[..|rs| - 1];
      if Covers(r, k, size) then Some(r.payload[k - r.blknr * |r.payload|]) else LastByte(front, k, size)
  }

  lemma {:induction false} ReplaySnoc(device: seq<byte>, rs: seq<Record>, r: Record)
    ensures Replay(device, rs + [r]) == ApplyRecord(Replay(device, rs), r)
    decreases |rs|
  {
    hide ApplyRecord;
    if rs == [] {
      OneReplayed(device, r);
      assert rs + [r] == [r];
    } else {
      ReplaySnoc(ApplyRecord(device, rs[0]), rs[1..], r);
      assert (rs + [r])[1..] == rs[1..] + [r];
    }
  }

  lemma {:induction false} AppliedByte(device: seq<byte>, r: Record, k: nat)
    requires k < |device|
    ensures ApplyRecord(device, r)[k] ==
            if Covers(r, k, |device|) then r.payload[k - r.blknr * |r.payload|] else device[k]
  {
    hide Splice;
    var off := r.blknr * |r.payload|;
    if r.kind == RAW && off + |r.payload| <= |device| {
      SpliceAt(device, off, r.payload, k);
    }
  }

  /** A replay of any records, overlapping or not: each byte is that of the last record that covers it. */
  lemma {:induction false} ReplayByte(device: seq<byte>, rs: seq<Record>, k: nat)
    requires k < |device|
    ensures Replay(device, rs)[k] ==
            if LastByte(rs, k, |device|).Some? then LastByte(rs, k, |device|).value else device[k]
  {
    hide Replay, ApplyRecord, Covers;
    if rs != [] {
      var r, front := rs[|rs| - 1], rs[..|rs| - 1];
      assert rs == front + [r];
      ReplayByte(device, front, k);
      ReplaySnoc(device, front, r);
      AppliedByte(Replay(device, front), r, k);
    } else {
      ReplayNothing(device);
    }
  }

  lemma {:induction false} ReplayNothing(device: seq<byte>)
    ensures Replay(device, []) == device
  {
  }

  /**
   Restoring a log cut anywhere, under any options and answers: each byte of the device is that of the last
   confirmed record covering it, and a byte that no confirmed record covers is what it was.
   */
  lemma {:induction false} SelectiveRestore(file: seq<byte>, rs: seq<Record>, m: nat, c: Choice, answers: seq<bool>,
                                            device: seq<byte>, k: nat)
    requires CutLog(file, rs) && WholeRecords(file, rs, m) && k < |device|
    requires AllFit(Confirmed(rs[..m], 0, c, answers, 0), |device|)
    ensures var out := RestoreRun(file, c, answers, Progress(0, device, 0, 0), |rs| + 2);
            && out.Some? && |out.value.0.device| == |device|
            && out.value.0.device[k] ==
               (var last := LastByte(Confirmed(rs[..m], 0, c, answers, 0), k, |device|);
                if last.Some? then last.value else device[k])
  {
    hide RestoreRun, EncodeLog, Offset, Confirmed, Replay, LastByte, Fits;
    RestoreFittingLog(file, rs, m, c, answers, device);
    ReplayByte(device, Confirmed(rs[..m], 0, c, answers, 0), k);
  }

  // ---------------------------------------------------------------- which records are confirmed

  /** `-n` without prompts: exactly the first record of that block is restored. */
  lemma {:induction false} ConfirmedFirst(rs: seq<Record>, i: nat, only: u64, answers: seq<bool>, asked: nat)
    requires i <= |rs|
    ensures var confirmed := Confirmed(rs, i, Choice(false, only, false), answers, asked);
            && (confirmed == [] <==> forall j :: i <= j < |rs| ==> rs[j].blknr != only)
            && (confirmed != [] ==>
                  exists j :: i <= j < |rs| && confirmed == [rs[j]] && rs[j].blknr == only
                              && forall k :: i <= k < j ==> rs[k].blknr != only)
    decreases |rs| - i
  {
    if i < |rs| && rs[i].blknr != only {
      ConfirmedFirst(rs, i + 1, only, answers, asked);
    }
  }

  ghost predicate Within(js: seq<nat>, lo: nat, hi: nat) {
    forall k :: 0 <= k < |js| ==> lo <= js[k] < hi
  }

  ghost predicate Increasing(js: seq<nat>) {
    forall a, b :: 0 <= a < b < |js| ==> js[a] < js[b]
  }

  /** The records at the places `js`, in that order. */
  ghost function At(rs: seq<Record>, js: seq<nat>): (r: seq<Record>)
    requires Within(js, 0, |rs|)
    ensures |r| == |js|
  {
    if js == [] then [] else [rs[js[0]]] + At(rs, js[1..])
  }

  /** The prompts from `i` on and before `n` that are answered yes. */
  ghost function YesFrom(answers: seq<bool>, i: nat, n: nat): (js: seq<nat>)
    requires i <= n
    ensures Within(js, i, n)
    decreases n - i
  {
    if i == n then []
    else
      var rest := YesFrom(answers, i + 1, n);
      if Yes(answers, i) then [i] + rest else rest
  }

  lemma {:induction false} ConsIncreasing(i: nat, rest: seq<nat>, n: nat)
    requires Within(rest, i + 1, n) && Increasing(rest)
    ensures Increasing([i] + rest)
    ensures forall j: nat :: j in [i] + rest <==> j == i || j in rest
  {
    var all := [i] + rest;
    forall a, b | 0 <= a < b < |all|
      ensures all[a] < all[b]
    {
      assert all[b] == rest[b - 1];
      assert a > 0 ==> all[a] == rest[a - 1];
    }
  }

  lemma {:induction false} YesFromExact(answers: seq<bool>, i: nat, n: nat)
    requires i <= n
    ensures Increasing(YesFrom(answers, i, n))
    ensures forall j: nat :: j in YesFrom(answers, i, n) <==> i <= j < n && Yes(answers, j)
    decreases n - i
  {
    hide Yes, Within, Increasing;
    if i < n {
      var rest := YesFrom(answers, i + 1, n);
      YesFromExact(answers, i + 1, n);
      ConsIncreasing(i, rest, n);
    } else {
      NothingIncreasing();
    }
  }

  lemma {:induction false} NothingIncreasing()
    ensures Increasing([])
  {
  }

  lemma {:induction false} YesFromHead(answers: seq<bool>, i: nat, n: nat)
    requires i < n
    ensures YesFrom(answers, i, n) ==
            if i < |answers| && answers[i] then [i] + YesFrom(answers, i + 1, n) else YesFrom(answers, i + 1, n)
  {
  }

  lemma {:induction false} NoneFrom(answers: seq<bool>, i: nat)
    ensures YesFrom(answers, i, i) == []
  {
  }

  lemma {:induction false} AtNothing(rs: seq<Record>)
    ensures At(rs, []) == []
  {
  }

  lemma {:induction false} AtCons(rs: seq<Record>, i: nat, rest: seq<nat>)
    requires i < |rs| && Within(rest, i + 1, |rs|)
    ensures Within([i] + rest, 0, |rs|) && Within(rest, 0, |rs|)
    ensures At(rs, [i] + rest) == [rs[i]] + At(rs, rest)
  {
    assert ([i] + rest)[1..] == rest;
  }

  /** `-a` with prompts: record `j` is restored if and only if prompt `j` is answered yes, in log order. */
  lemma {:induction false} ConfirmedByAnswer(rs: seq<Record>, i: nat, only: u64, answers: seq<bool>)
    requires i <= |rs|
    ensures Increasing(YesFrom(answers, i, |rs|))
    ensures forall j: nat :: j in YesFrom(answers, i, |rs|) <==> i <= j < |rs| && j < |answers| && answers[j]
    ensures Confirmed(rs, i, Choice(true, only, true), answers, i) == At(rs, YesFrom(answers, i, |rs|))
    decreases |rs| - i
  {
    hide Increasing, At, YesFrom;
    YesFromExact(answers, i, |rs|);
    if i < |rs| {
      ConfirmedByAnswer(rs, i + 1, only, answers);
      AtCons(rs, i, YesFrom(answers, i + 1, |rs|));
      YesFromHead(answers, i, |rs|);
    } else {
      AtNothing(rs);
      NoneFrom(answers, i);
    }
  }

  /** How many records of block `only` come before record `j`. */
  function Rank(rs: seq<Record>, only: u64, j: nat): nat
    requires j <= |rs|
  {
    if j == 0 then 0 else Rank(rs, only, j - 1) + (if rs[j - 1].blknr == only then 1 else 0)
  }

  /** Record `j` is of block `only`, and its prompt is answered yes. */
  predicate Accepted(rs: seq<Record>, only: u64, answers: seq<bool>, j: nat)
    requires j < |rs|
  {
    rs[j].blknr == only && Rank(rs, only, j) < |answers| && answers[Rank(rs, only, j)]
  }

  /** `-n` with prompts: prompts count the records of that block, and the first one accepted is the only one restored. */
  lemma {:induction false} ConfirmedFirstAccepted(rs: seq<Record>, i: nat, only: u64, answers: seq<bool>)
    requires i <= |rs| && forall j :: 0 <= j < i ==> !Accepted(rs, only, answers, j)
    ensures var confirmed := Confirmed(rs, i, Choice(false, only, true), answers, Rank(rs, only, i));
            && (confirmed == [] <==> forall j :: 0 <= j < |rs| ==> !Accepted(rs, only, answers, j))
            && (confirmed != [] ==>
                  exists j :: 0 <= j < |rs| && confirmed == [rs[j]] && Accepted(rs, only, answers, j)
                              && forall k :: 0 <= k < j ==> !Accepted(rs, only, answers, k))
    decreases |rs| - i
  {
    if i < |rs| && !Accepted(rs, only, answers, i) {
      ConfirmedFirstAccepted(rs, i + 1, only, answers);
    } else if i < |rs| {
      assert Confirmed(rs, i, Choice(false, only, true), answers, Rank(rs, only, i)) == [rs[i]];
    }
  }

  ghost predicate DistinctBlocks(rs: seq<Record>) {
    forall i, j :: 0 <= i < j < |rs| ==> rs[i].blknr != rs[j].blknr
  }

  /** With one record per block, "the last record" is simply "the record". */
  lemma {:induction false} LastPayloadDistinct(rs: seq<Record>, b: nat)
    requires DistinctBlocks(rs)
    ensures forall r :: r in rs && r.blknr == b ==> LastPayload(rs, b) == Some(r.payload)
    ensures LastPayload(rs, b).Some? ==> exists r :: r in rs && r.blknr == b
  {
    if rs != [] {
      LastPayloadDistinct(rs[1..], b);
      assert rs == [rs[0]] + rs[1..];
      if LastPayload(rs[1..], b).Some? {
        var r :| r in rs[1..] && r.blknr == b;
        var j :| 0 <= j < |rs[1..]| && rs[1..][j] == r;
        assert rs[j + 1] == r;
      }
    }
  }

  /** With one record per block, the order of the records does not matter. */
  lemma {:induction false} RestoreOrderIrrelevant(device: seq<byte>, rs: seq<Record>, qs: seq<Record>, size: nat, n: nat)
    requires size > 0 && |device| == n * size && RawBlocks(rs, size, |device|)
    requires multiset(rs) == multiset(qs) && DistinctBlocks(rs) && DistinctBlocks(qs)
    ensures Replay(device, rs) == Replay(device, qs)
  {
    assert forall r :: r in qs <==> r in multiset(qs);
    assert forall r :: r in rs <==> r in multiset(rs);
    forall b: nat | b * size + size <= |device|
      ensures BlockAt(Replay(device, rs), size, b) == BlockAt(Replay(device, qs), size, b)
    {
      ReplayBlock(device, rs, size, b);
      ReplayBlock(device, qs, size, b);
      LastPayloadDistinct(rs, b);
      LastPayloadDistinct(qs, b);
    }
    SameBlocks(Replay(device, rs), Replay(device, qs), size, n);
  }

  /** Restoring twice is restoring once, whatever the records and however they overlap. */
  lemma {:induction false} RestoreIdempotent(device: seq<byte>, rs: seq<Record>)
    ensures Replay(Replay(device, rs), rs) == Replay(device, rs)
  {
    hide Replay, LastByte;
    var once := Replay(device, rs);
    var twice := Replay(once, rs);
    forall k | 0 <= k < |once|
      ensures twice[k] == once[k]
    {
      ReplayByte(device, rs, k);
      ReplayByte(once, rs, k);
    }
  }
}
