/**
 The restore tool (src/user/restore.c): a loop over the log with relative seeks that writes
 confirmed raw payloads back to the device.
 */
module Restore {
  import opened Bytes
  import opened Options
  import opened Snapblocks

  /** Linux never transfers more than this in one `read` or `write`. */
  const MAX_RW: nat := 0x7fff_f000

  /** The options -a/-o/-n and -p/-c. */
  datatype Choice = Choice(restoreAll: bool, only: u64, ask: bool)

  /** A prompt is confirmed by "yes"; anything else, or the end of the input, declines. */
  predicate Yes(answers: seq<bool>, i: nat) {
    i < |answers| && answers[i]
  }

  /** What a run of the tool changes: both file positions, the device, the prompts used up. */
  datatype Progress = Progress(pos: nat, device: seq<byte>, devPos: nat, asked: nat)

  /** `lseek`: a target outside the offset range leaves the position alone. */
  function Seek(base: nat, delta: int): nat {
    if 0 <= base + delta < TWO63 then base + delta else base
  }

  function Min(a: nat, b: nat): (m: nat)
    ensures m <= a && m <= b && (m == a || m == b)
  {
    if a <= b then a else b
  }

  /** How many of `n` bytes a transfer at `pos` of a file of `size` bytes moves. */
  function Moved(pos: nat, n: nat, size: nat): (m: nat)
    ensures m <= n && (m > 0 ==> pos + m <= size)
    ensures n <= MAX_RW && pos + n <= size ==> m == n
    ensures pos + n > size && n > 0 ==> m < n
  {
    if pos >= size then 0 else Min(Min(n, MAX_RW), size - pos)
  }

  /** `seek_nexthdr`, from the position just behind the header. */
  function PastPayload(pos: nat, h: Header): nat {
    Seek(pos, ToS64(Wrap64(h.payldOff + h.payldsiz - HDR_SIZE)))
  }

  /** How a turn of the loop ends: go on, leave the loop, or exit with failure. */
  datatype Turn = More(s: Progress) | Stop(s: Progress) | Exit(s: Progress)

  /** The seek over the extended header and the read of the payload: new position and bytes read. */
  function ReadPayload(file: seq<byte>, h: Header, pos: nat): (nat, seq<byte>) {
    var p := Seek(pos, ToS64(Wrap64(h.payldOff - HDR_SIZE)));
    var got := Moved(p, h.payldsiz, |file|);
    (p + got, if got == 0 then [] else file[p..p + got])
  }

  /** Where the device is written: `lseek` to `blknr * n`, kept where it was if that is not on the device. */
  function Target(blknr: u64, n: nat, devPos: nat, size: nat): (q: nat)
    ensures blknr * n < TWO63 && blknr * n <= size ==> q == blknr * n
  {
    var target := ToS64(Wrap64(blknr * n));
    if target < 0 || target > size then devPos else target
  }

  /** The device after a write of `data` at `q`, as far as it fits. */
  function WriteAt(device: seq<byte>, q: nat, data: seq<byte>): (d: seq<byte>)
    ensures |d| == |device|
    ensures |data| <= MAX_RW && q + |data| <= |device| ==> d == Splice(device, q, data)
  {
    var put := Moved(q, |data|, |device|);
    if put == 0 then
      assert |data| == 0 && q <= |device| ==> Splice(device, q, data) == device;
      device
    else
      assert put == |data| ==> data[..put] == data;
      Splice(device, q, data[..put])
  }

  /** `__do_restore_rawblocks`, entered just behind the header. */
  function RawTurn(file: seq<byte>, h: Header, s: Progress): Turn {
    var (p, data) := ReadPayload(file, h, s.pos);
    if |data| != h.payldsiz then Exit(s.(pos := p))
    else
      var q := Target(h.blknr, |data|, s.devPos, |s.device|);
      var put := Moved(q, |data|, |s.device|);
      var s' := Progress(p, WriteAt(s.device, q, data), q + put, s.asked);
      if put != |data| then Exit(s') else More(s')
  }

  /** What the loop body does with header `h`, entered just behind it. */
  function HeaderTurn(file: seq<byte>, c: Choice, answers: seq<bool>, h: Header, s: Progress): Turn {
    if !c.restoreAll && c.only != h.blknr then More(s.(pos := PastPayload(s.pos, h)))
    else if c.ask && !Yes(answers, s.asked) then More(s.(pos := PastPayload(s.pos, h), asked := s.asked + 1))
    else
      var ready := if c.ask then s.(asked := s.asked + 1) else s;
      var t := if h.payldType == RAW then RawTurn(file, h, ready)
               else More(ready.(pos := PastPayload(ready.pos, h)));
      if t.More? && !c.restoreAll then Stop(t.s) else t
  }

  /** One turn of the loop of `do_restore`. */
  function RestoreTurn(file: seq<byte>, c: Choice, answers: seq<bool>, s: Progress): Turn {
    match ReadHeader(file, s.pos)
    case None => Stop(s)
    case Some(h) => HeaderTurn(file, c, answers, h, s.(pos := s.pos + HDR_SIZE))
  }

  /** The whole loop, if it ends within `n` turns: the final state and whether the tool succeeded. */
  function RestoreRun(file: seq<byte>, c: Choice, answers: seq<bool>, s: Progress, n: nat): Option<(Progress, bool)>
    decreases n
  {
    if n == 0 then None
    else match RestoreTurn(file, c, answers, s)
      case More(s') => RestoreRun(file, c, answers, s', n - 1)
      case Stop(s') => Some((s', true))
      case Exit(s') => Some((s', false))
  }

  // ---------------------------------------------------------------- the tool itself

  class Tool {
    const snaps: seq<byte>
    const answers: seq<bool>
    const device: array<byte>
    var pos: nat
    var devPos: nat
    var asked: nat

    constructor (snaps: seq<byte>, device: array<byte>, answers: seq<bool>)
      ensures this.snaps == snaps && this.device == device && this.answers == answers
      ensures Now() == Progress(0, device[..], 0, 0)
    {
      this.snaps, this.device, this.answers := snaps, device, answers;
      pos, devPos, asked := 0, 0, 0;
    }

    ghost function Now(): Progress
      reads this, device
    {
      Progress(pos, device[..], devPos, asked)
    }

    method Read(n: nat) returns (buf: seq<byte>)
      modifies this`pos
      ensures |buf| == Moved(old(pos), n, |snaps|) && pos == old(pos) + |buf|
      ensures |buf| > 0 ==> buf == snaps[old(pos)..old(pos) + |buf|]
    {
      var m := Moved(pos, n, |snaps|);
      buf := if m == 0 then [] else snaps[pos..pos + m];
      pos := pos + m;
    }

    method WriteDevice(buf: seq<byte>) returns (wrote: nat)
      modifies this`devPos, device
      ensures wrote == Moved(old(devPos), |buf|, device.Length) && devPos == old(devPos) + wrote
      ensures device[..] == WriteAt(old(device[..]), old(devPos), buf)
    {
      wrote := Moved(devPos, |buf|, device.Length);
      forall i | 0 <= i < wrote {
        device[devPos + i] := buf[i];
      }
      if wrote > 0 {
        assert device[..] == Splice(old(device[..]), old(devPos), buf[..wrote]);
      }
      devPos := devPos + wrote;
    }

    method SeekNextHdr(h: Header)
      modifies this`pos
      ensures pos == PastPayload(old(pos), h)
    {
      pos := Seek(pos, ToS64(Wrap64(h.payldOff + h.payldsiz - HDR_SIZE)));
    }

    /** Returns false where the source calls `exit(EXIT_FAILURE)`. */
    method RestoreRawBlocks(h: Header) returns (alive: bool)
      modifies this`pos, this`devPos, device
      ensures RawTurn(snaps, h, old(Now())) == if alive then More(Now()) else Exit(Now())
    {
      ghost var before := Now();
      pos := Seek(pos, ToS64(Wrap64(h.payldOff - HDR_SIZE)));
      var buf := Read(h.payldsiz);
      assert ReadPayload(snaps, h, before.pos) == (pos, buf);
      if |buf| != h.payldsiz {
        return false;
      }
      devPos := Target(h.blknr, |buf|, devPos, device.Length);
      var wrote := WriteDevice(buf);
      return wrote == |buf|;
    }

    method RestoreByType(h: Header) returns (alive: bool)
      modifies this`pos, this`devPos, device
      ensures (if h.payldType == RAW then RawTurn(snaps, h, old(Now()))
               else More(old(Now()).(pos := PastPayload(old(pos), h))))
           == if alive then More(Now()) else Exit(Now())
    {
      if h.payldType == RAW {
        alive := RestoreRawBlocks(h);
      } else {
        SeekNextHdr(h);
        alive := true;
      }
    }

    /** The body of the loop, behind the header read. */
    method OnHeader(c: Choice, h: Header) returns (on: bool, ok: bool)
      modifies this`pos, this`devPos, this`asked, device
      ensures HeaderTurn(snaps, c, answers, h, old(Now())) ==
              if on then More(Now()) else if ok then Stop(Now()) else Exit(Now())
      ensures on ==> ok
    {
      hide RawTurn, PastPayload;
      if !c.restoreAll && c.only != h.blknr {
        SeekNextHdr(h);
        return true, true;
      }
      if c.ask {
        var yes := Yes(answers, asked);
        asked := asked + 1;
        if !yes {
          SeekNextHdr(h);
          return true, true;
        }
      }
      ok := RestoreByType(h);
      on := ok && c.restoreAll;
    }

    /**
     `do_restore`. On some files the loop spins, so the run has to be finite (within `turns`);
     `RestoreCutLog` shows that it is on every cut log, and `RestoreHalts` on which other files.
     */
    method DoRestore(c: Choice, ghost turns: nat) returns (ok: bool)
      requires RestoreRun(snaps, c, answers, Now(), turns).Some?
      modifies this`pos, this`devPos, this`asked, device
      ensures RestoreRun(snaps, c, answers, old(Now()), turns) == Some((Now(), ok))
    {
      hide HeaderTurn, ReadHeader;
      ghost var result := RestoreRun(snaps, c, answers, Now(), turns);
      ghost var left := turns;
      var on := true;
      ok := true;
      var hdr := ReadHeader(snaps, pos);
      while on && hdr.Some?
        invariant on ==> ok && hdr == ReadHeader(snaps, pos)
        invariant on ==> RestoreRun(snaps, c, answers, Now(), left) == result
        invariant !on ==> result == Some((Now(), ok))
        decreases left, on
      {
        pos := pos + HDR_SIZE;
        on, ok := OnHeader(c, hdr.value);
        left := left - 1;
        hdr := ReadHeader(snaps, pos);
      }
    }
  }

  // ---------------------------------------------------------------- what a run does, in records

  /** The raw branch on a whole record `r`; the log goes on at `next`. One read has to transfer the payload. */
  function StoreRaw(r: Record, next: nat, s: Progress): Turn {
    if |r.payload| > MAX_RW then Exit(s)
    else
      var q := Target(r.blknr, |r.payload|, s.devPos, |s.device|);
      var put := Moved(q, |r.payload|, |s.device|);
      var s' := Progress(next, WriteAt(s.device, q, r.payload), q + put, s.asked);
      if put != |r.payload| then Exit(s') else More(s')
  }

  /** Whether the options choose block `blknr`, and whether a record of it is then restored. */
  predicate Chosen(c: Choice, blknr: u64) {
    c.restoreAll || c.only == blknr
  }

  predicate Sure(c: Choice, answers: seq<bool>, blknr: u64, asked: nat) {
    Chosen(c, blknr) && (c.ask ==> Yes(answers, asked))
  }

  /** A turn of the loop on a whole record: no bytes of the log any more, just records. */
  function RecordTurn(r: Record, next: nat, c: Choice, answers: seq<bool>, s: Progress): Turn {
    var asked := if c.ask && Chosen(c, r.blknr) then s.asked + 1 else s.asked;
    var passed := s.(pos := next, asked := asked);
    if !Sure(c, answers, r.blknr, s.asked) then More(passed)
    else
      var t := if r.kind == RAW then StoreRaw(r, next, s.(asked := asked)) else More(passed);
      if t.More? && !c.restoreAll then Stop(t.s) else t
  }

  /** The loop over the records from `i` on: the final state and whether the tool succeeds. */
  function RunRecords(rs: seq<Record>, i: nat, c: Choice, answers: seq<bool>, s: Progress): (Progress, bool)
    requires i <= |rs|
    decreases |rs| - i
  {
    if i == |rs| then (s, true)
    else match RecordTurn(rs[i], Offset(rs, i + 1), c, answers, s)
      case More(s') => RunRecords(rs, i + 1, c, answers, s')
      case Stop(s') => (s', true)
      case Exit(s') => (s', false)
  }

  /** The device after one record; a record that is not raw changes nothing. */
  function ApplyRecord(device: seq<byte>, r: Record): (d: seq<byte>)
    ensures |d| == |device|
  {
    if r.kind == RAW && r.blknr * |r.payload| + |r.payload| <= |device|
    then Splice(device, r.blknr * |r.payload|, r.payload)
    else device
  }

  function Replay(device: seq<byte>, rs: seq<Record>): (d: seq<byte>)
    ensures |d| == |device|
    decreases |rs|
  {
    if rs == [] then device else Replay(ApplyRecord(device, rs[0]), rs[1..])
  }

  /** The records from `i` on that the options and the answers confirm. */
  function Confirmed(rs: seq<Record>, i: nat, c: Choice, answers: seq<bool>, asked: nat): seq<Record>
    requires i <= |rs|
    decreases |rs| - i
  {
    if i == |rs| then []
    else if !c.restoreAll && c.only != rs[i].blknr then Confirmed(rs, i + 1, c, answers, asked)
    else if c.ask && !Yes(answers, asked) then Confirmed(rs, i + 1, c, answers, asked + 1)
    else if !c.restoreAll then [rs[i]]
    else [rs[i]] + Confirmed(rs, i + 1, c, answers, if c.ask then asked + 1 else asked)
  }

  /** Raw payloads can be read in one transfer and have their place on the device. */
  ghost predicate Fits(r: Record, deviceSize: nat) {
    r.kind == RAW ==> |r.payload| <= MAX_RW && r.blknr * |r.payload| + |r.payload| <= deviceSize < TWO63
  }

  ghost predicate AllFit(rs: seq<Record>, deviceSize: nat) {
    forall r :: r in rs ==> Fits(r, deviceSize)
  }

  lemma {:induction false} RawFits(r: Record, next: nat, s: Progress)
    requires r.kind == RAW && Fits(r, |s.device|)
    ensures StoreRaw(r, next, s).More? && StoreRaw(r, next, s).s.asked == s.asked
    ensures StoreRaw(r, next, s).s.device == ApplyRecord(s.device, r)
  {
    hide Splice;
  }

  /** If all confirmed records fit, the loop over the records replays them in order and succeeds. */
  lemma {:induction false} ConfirmedAreReplayed(rs: seq<Record>, i: nat, c: Choice, answers: seq<bool>, s: Progress)
    requires i <= |rs| && AllFit(Confirmed(rs, i, c, answers, s.asked), |s.device|)
    ensures RunRecords(rs, i, c, answers, s).1
    ensures RunRecords(rs, i, c, answers, s).0.device == Replay(s.device, Confirmed(rs, i, c, answers, s.asked))
    decreases |rs| - i
  {
    hide StoreRaw, ApplyRecord, Offset;
    if i < |rs| {
      var t := RecordTurn(rs[i], Offset(rs, i + 1), c, answers, s);
      var asked := if c.ask && Chosen(c, rs[i].blknr) then s.asked + 1 else s.asked;
      var rest := Confirmed(rs, i + 1, c, answers, asked);
      assert ([rs[i]] + rest)[1..] == rest;
      if Sure(c, answers, rs[i].blknr, s.asked) {
        assert rs[i] in Confirmed(rs, i, c, answers, s.asked);
        if rs[i].kind == RAW {
          RawFits(rs[i], Offset(rs, i + 1), s.(asked := asked));
        } else {
          NotRaw(s.device, rs[i]);
        }
        OneReplayed(s.device, rs[i]);
      }
      if t.More? {
        ConfirmedAreReplayed(rs, i + 1, c, answers, t.s);
      }
    }
  }

  lemma {:induction false} NotRaw(device: seq<byte>, r: Record)
    requires r.kind != RAW
    ensures ApplyRecord(device, r) == device
  {
  }

  lemma {:induction false} OneReplayed(device: seq<byte>, r: Record)
    ensures Replay(device, [r]) == ApplyRecord(device, r)
  {
    assert Replay(ApplyRecord(device, r), [r][1..]) == ApplyRecord(device, r);
  }

  // ---------------------------------------------------------------- records that do not fit

  /** The place on the device that a record names. */
  function Place(r: Record): nat {
    r.blknr * |r.payload|
  }

  /** The raw branch when the device position has come to `q`: the payload goes there, as far as there is room. */
  function StoreAt(r: Record, q: nat, next: nat, s: Progress): Turn
    requires q <= |s.device|
  {
    var n, size := |r.payload|, |s.device|;
    if q + n <= size then More(Progress(next, Splice(s.device, q, r.payload), q + n, s.asked))
    else Exit(Progress(next, Splice(s.device, q, r.payload[..size - q]), size, s.asked))
  }

  /**
   Where the payload of any record goes: to its own place, if that begins on the device; otherwise to that
   place modulo 2^64, if that is on the device, as the product wraps; otherwise to where the device position
   was, as the seek fails. There it is written as far as there is room, and only a lack of room ends the run.
   */
  lemma {:induction false} RawOutcome(r: Record, next: nat, s: Progress)
    requires |r.payload| <= MAX_RW && s.devPos <= |s.device| < TWO63
    ensures var q := if Place(r) <= |s.device| then Place(r)
                     else if Wrap64(Place(r)) <= |s.device| then Wrap64(Place(r))
                     else s.devPos;
            StoreRaw(r, next, s) == StoreAt(r, q, next, s) && StoreRaw(r, next, s).s.devPos <= |s.device|
  {
    hide Splice;
    var q := Target(r.blknr, |r.payload|, s.devPos, |s.device|);
    NothingWritten(s.device);
    assert r.payload[..|r.payload|] == r.payload;
  }

  lemma {:induction false} NothingWritten(device: seq<byte>)
    ensures Splice(device, |device|, []) == device
  {
  }

  /** A raw record goes wholly to its own place, and the run goes on behind it, if and only if it fits. */
  lemma {:induction false} FitsExactly(r: Record, next: nat, s: Progress)
    requires r.kind == RAW && |s.device| < TWO63
    ensures StoreRaw(r, next, s).More? && StoreRaw(r, next, s).s.devPos == Place(r) + |r.payload| <==> Fits(r, |s.device|)
    ensures Fits(r, |s.device|) <==> |r.payload| <= 0x7fff_f000 && r.blknr * |r.payload| + |r.payload| <= |s.device|
  {
    hide Splice, WriteAt;
  }

  /** With its place beyond the end of the device, a payload goes unnoticed behind whatever was written last. */
  lemma {:induction false} MisplacedRecord(r: Record, next: nat, s: Progress)
    requires |r.payload| <= MAX_RW && |s.device| < Place(r) < TWO64
    requires s.devPos + |r.payload| <= |s.device| < TWO63
    ensures StoreRaw(r, next, s) ==
            More(Progress(next, Splice(s.device, s.devPos, r.payload), s.devPos + |r.payload|, s.asked))
  {
    hide StoreRaw, Splice;
    RawOutcome(r, next, s);
  }

  /** Block 2^52 of 4096 bytes goes unnoticed over block 0. */
  lemma {:induction false} WrappedRecord(r: Record, next: nat, s: Progress)
    requires r.blknr == 0x10_0000_0000_0000 && |r.payload| == 4096
    requires s.devPos <= |s.device| && 4096 <= |s.device| < TWO63
    ensures StoreRaw(r, next, s) == More(Progress(next, Splice(s.device, 0, r.payload), 4096, s.asked))
  {
    hide StoreRaw, Splice;
    RawOutcome(r, next, s);
  }

  /** A payload that the device ends in is written up to there before the tool gives up. */
  lemma {:induction false} CutRecord(r: Record, next: nat, s: Progress)
    requires |r.payload| <= MAX_RW && Place(r) <= |s.device| < Place(r) + |r.payload|
    requires s.devPos <= |s.device| < TWO63
    ensures var front := r.payload[..|s.device| - Place(r)];
            StoreRaw(r, next, s) == Exit(Progress(next, Splice(s.device, Place(r), front), |s.device|, s.asked))
  {
    hide StoreRaw, Splice;
    RawOutcome(r, next, s);
  }

  /** Records `0..m` are wholly in the file and no further one is. */
  ghost predicate WholeRecords(file: seq<byte>, rs: seq<Record>, m: nat) {
    m <= |rs| && Offset(rs, m) <= |file| && (m < |rs| ==> |file| < Offset(rs, m + 1))
  }

  lemma {:induction false} WholeRecordsExist(file: seq<byte>, rs: seq<Record>) returns (m: nat)
    requires file <= EncodeLog(rs)
    ensures WholeRecords(file, rs, m)
    ensures file == EncodeLog(rs) ==> m == |rs|
  {
    hide EncodeLog;
    m := 0;
    while m < |rs| && Offset(rs, m + 1) <= |file|
      invariant m <= |rs| && Offset(rs, m) <= |file|
    {
      m := m + 1;
    }
    if m < |rs| {
      EncodeLogPrefix(rs, m + 1);
    }
  }

  lemma {:induction false} PayloadInFile(file: seq<byte>, rs: seq<Record>, i: nat)
    requires CutLog(file, rs) && i < |rs| && Offset(rs, i + 1) <= |file|
    ensures var p := Offset(rs, i) + HDR_SIZE + |rs[i].ext|;
            p + |rs[i].payload| <= |file| && file[p..p + |rs[i].payload|] == rs[i].payload
  {
    PartInCutLog(file, rs, i, HDR_SIZE + |rs[i].ext|, RecordSize(rs[i]));
    RecordParts(rs[i]);
  }

  lemma {:induction false} ReadWholePayload(file: seq<byte>, rs: seq<Record>, i: nat)
    requires CutLog(file, rs) && i < |rs| && Offset(rs, i + 1) <= |file| && |rs[i].payload| <= MAX_RW
    ensures ReadPayload(file, HeaderOf(rs[i]), Offset(rs, i) + HDR_SIZE) == (Offset(rs, i + 1), rs[i].payload)
  {
    hide EncodeLog;
    PayloadInFile(file, rs, i);
    OffsetMonotone(rs, i + 1, |rs|);
  }

  /** A payload longer than one read leaves the tool with an error, and the device alone. */
  lemma {:induction false} ReadLongPayload(file: seq<byte>, h: Header, pos: nat)
    requires h.payldsiz > MAX_RW
    ensures |ReadPayload(file, h, pos).1| != h.payldsiz
  {
  }

  /** The same turn, up to where an aborted read leaves the log. */
  ghost predicate SameTurn(t: Turn, u: Turn) {
    t == u || (t.Exit? && u.Exit? && t.s.(pos := u.s.pos) == u.s)
  }

  /** The raw branch on the bytes of a whole record is the raw branch on the record. */
  lemma {:induction false} RawTurnWhole(file: seq<byte>, rs: seq<Record>, i: nat, s: Progress)
    requires CutLog(file, rs) && i < |rs| && Offset(rs, i + 1) <= |file| && s.pos == Offset(rs, i) + HDR_SIZE
    ensures SameTurn(RawTurn(file, HeaderOf(rs[i]), s), StoreRaw(rs[i], Offset(rs, i + 1), s))
  {
    hide CutLog, ReadPayload, Offset, WriteAt, Target;
    if |rs[i].payload| <= MAX_RW {
      ReadWholePayload(file, rs, i);
    } else {
      ReadLongPayload(file, HeaderOf(rs[i]), s.pos);
    }
  }

  /** A raw record cut short is never written, not even in part. */
  lemma {:induction false} RawTurnCut(file: seq<byte>, rs: seq<Record>, i: nat, s: Progress)
    requires CutLog(file, rs) && i < |rs| && |file| < Offset(rs, i + 1)
    requires s.pos == Offset(rs, i) + HDR_SIZE
    ensures var t := RawTurn(file, HeaderOf(rs[i]), s);
            t.s.device == s.device && (t.More? ==> t.s.pos == Offset(rs, i + 1))
  {
    hide EncodeLog;
    OffsetMonotone(rs, i + 1, |rs|);
  }

  lemma {:induction false} SkipLands(rs: seq<Record>, i: nat)
    requires Offset(rs, |rs|) < TWO63 && i < |rs|
    ensures PastPayload(Offset(rs, i) + HDR_SIZE, HeaderOf(rs[i])) == Offset(rs, i + 1)
  {
    OffsetMonotone(rs, i + 1, |rs|);
  }

  /** Past the cut, the loop ends at once and leaves everything as it is. */
  lemma {:induction false} TurnPastCut(file: seq<byte>, rs: seq<Record>, i: nat, c: Choice, answers: seq<bool>, s: Progress)
    requires CutLog(file, rs) && i <= |rs| && s.pos == Offset(rs, i)
    requires i == |rs| || |file| < Offset(rs, i) + HDR_SIZE
    ensures RestoreTurn(file, c, answers, s) == Stop(s)
  {
    HeaderInCutLog(file, rs, i);
  }

  lemma {:induction false} HeaderTurnWhole(file: seq<byte>, rs: seq<Record>, i: nat, c: Choice, answers: seq<bool>, s: Progress)
    requires CutLog(file, rs) && i < |rs| && Offset(rs, i + 1) <= |file| && s.pos == Offset(rs, i) + HDR_SIZE
    ensures SameTurn(HeaderTurn(file, c, answers, HeaderOf(rs[i]), s),
                     RecordTurn(rs[i], Offset(rs, i + 1), c, answers, s))
  {
    hide PastPayload, RawTurn, StoreRaw, EncodeLog, Offset;
    SkipLands(rs, i);
    RawTurnWhole(file, rs, i, s);
    RawTurnWhole(file, rs, i, s.(asked := s.asked + 1));
  }

  /**
   Whatever the branch taken (skipped, declined, unknown type, restored, given up), a turn of the loop on
   the bytes of a whole record is the turn on the record, and unless the tool gives up it ends behind it.
   */
  lemma {:induction false} TurnOnWhole(file: seq<byte>, rs: seq<Record>, i: nat, c: Choice, answers: seq<bool>, s: Progress)
    requires CutLog(file, rs) && i < |rs| && Offset(rs, i + 1) <= |file| && s.pos == Offset(rs, i)
    ensures SameTurn(RestoreTurn(file, c, answers, s), RecordTurn(rs[i], Offset(rs, i + 1), c, answers, s))
    ensures !RestoreTurn(file, c, answers, s).Exit? ==> RestoreTurn(file, c, answers, s).s.pos == Offset(rs, i + 1)
  {
    hide CutLog, ReadHeader, HeaderTurn, RecordTurn, Offset;
    HeaderInCutLog(file, rs, i);
    WholeHasHeader(rs, i);
    RecordTurnEnds(rs[i], Offset(rs, i + 1), c, answers, s.(pos := s.pos + HDR_SIZE));
    RecordTurnStart(rs[i], Offset(rs, i + 1), c, answers, s, s.pos + HDR_SIZE);
    HeaderTurnWhole(file, rs, i, c, answers, s.(pos := s.pos + HDR_SIZE));
  }

  lemma {:induction false} RecordTurnEnds(r: Record, next: nat, c: Choice, answers: seq<bool>, s: Progress)
    ensures !RecordTurn(r, next, c, answers, s).Exit? ==> RecordTurn(r, next, c, answers, s).s.pos == next
  {
  }

  /** Where the header of the record was does not matter. */
  lemma {:induction false} RecordTurnStart(r: Record, next: nat, c: Choice, answers: seq<bool>, s: Progress, pos: nat)
    ensures SameTurn(RecordTurn(r, next, c, answers, s.(pos := pos)), RecordTurn(r, next, c, answers, s))
  {
  }

  lemma {:induction false} WholeHasHeader(rs: seq<Record>, i: nat)
    requires i < |rs|
    ensures Offset(rs, i) + HDR_SIZE <= Offset(rs, i + 1)
  {
  }

  /** The kernel's absolute offsets and the tool's relative seeks walk the same headers. */
  lemma {:induction false} ReadersAgree(file: seq<byte>, rs: seq<Record>, k: nat, c: Choice, answers: seq<bool>, s: Progress)
    requires CutLog(file, rs) && k < |rs| && Offset(rs, k + 1) <= |file| && Hop(file, k) == Some(s.pos)
    ensures ReadHeader(file, s.pos) == Some(HeaderOf(rs[k]))
    ensures var t := RestoreTurn(file, c, answers, s);
            !t.Exit? ==> t.s.pos == Offset(rs, k + 1) && Hop(file, k + 1) == Some(t.s.pos)
  {
    hide CutLog, RestoreTurn, RecordTurn;
    ScanOffsets(file, rs, k);
    ScanOffsets(file, rs, k + 1);
    HeaderInCutLog(file, rs, k);
    TurnOnWhole(file, rs, k, c, answers, s);
  }

  lemma {:induction false} HeaderTurnCut(file: seq<byte>, rs: seq<Record>, i: nat, c: Choice, answers: seq<bool>, s: Progress)
    requires CutLog(file, rs) && i < |rs| && |file| < Offset(rs, i + 1)
    requires s.pos == Offset(rs, i) + HDR_SIZE
    ensures var t := HeaderTurn(file, c, answers, HeaderOf(rs[i]), s);
            t.s.device == s.device && (t.More? ==> t.s.pos == Offset(rs, i + 1))
  {
    hide PastPayload, RawTurn, EncodeLog, Offset;
    SkipLands(rs, i);
    RawTurnCut(file, rs, i, s);
    RawTurnCut(file, rs, i, s.(asked := s.asked + 1));
  }

  /** The record the cut falls into changes nothing; the tool stops there or right behind it. */
  lemma {:induction false} RunAtCut(file: seq<byte>, rs: seq<Record>, m: nat, c: Choice, answers: seq<bool>, s: Progress, turns: nat)
    requires CutLog(file, rs) && m < |rs| && WholeRecords(file, rs, m) && s.pos == Offset(rs, m) && turns >= 2
    ensures RestoreRun(file, c, answers, s, turns).Some?
    ensures RestoreRun(file, c, answers, s, turns).value.0.device == s.device
  {
    hide EncodeLog, ReadHeader, HeaderTurn;
    HeaderInCutLog(file, rs, m);
    if Offset(rs, m) + HDR_SIZE <= |file| {
      HeaderTurnCut(file, rs, m, c, answers, s.(pos := s.pos + HDR_SIZE));
    }
    var t := RestoreTurn(file, c, answers, s);
    if t.More? {
      TurnPastCut(file, rs, m + 1, c, answers, t.s);
    }
  }

  lemma {:induction false} RunUnfold(file: seq<byte>, c: Choice, answers: seq<bool>, s: Progress, turns: nat, t: Turn)
    requires turns > 0 && t == RestoreTurn(file, c, answers, s)
    ensures t.More? ==> RestoreRun(file, c, answers, s, turns) == RestoreRun(file, c, answers, t.s, turns - 1)
    ensures t.Stop? ==> RestoreRun(file, c, answers, s, turns) == Some((t.s, true))
  {
  }

  lemma {:induction false} RunEnds(file: seq<byte>, c: Choice, answers: seq<bool>, s: Progress, turns: nat)
    requires turns > 0 && RestoreTurn(file, c, answers, s).Exit?
    ensures RestoreRun(file, c, answers, s, turns) == Some((RestoreTurn(file, c, answers, s).s, false))
  {
  }

  /** What the tool has done is what the loop over the whole records does; `all` if no record is cut. */
  ghost predicate Mirrors(out: Option<(Progress, bool)>, records: (Progress, bool), all: bool) {
    out.Some? && out.value.0.device == records.0.device && (all ==> out.value.1 == records.1)
  }

  lemma {:induction false} RunRecordsUnfold(rs: seq<Record>, m: nat, i: nat, c: Choice, answers: seq<bool>, s: Progress, t: Turn)
    requires i < m <= |rs| && t == RecordTurn(rs[i], Offset(rs, i + 1), c, answers, s)
    ensures RunRecords(rs[..m], i, c, answers, s) ==
            if t.More? then RunRecords(rs[..m], i + 1, c, answers, t.s) else (t.s, t.Stop?)
  {
    hide RecordTurn;
    OffsetOfPrefix(rs, m, i + 1);
    assert rs[..m][i] == rs[i];
  }

  /** From record `i` on, the loop over the bytes does what the loop over the whole records does. */
  lemma {:induction false} RunFrom(file: seq<byte>, rs: seq<Record>, m: nat, i: nat, c: Choice, answers: seq<bool>,
                                   s: Progress, turns: nat)
    requires CutLog(file, rs) && WholeRecords(file, rs, m) && i <= m && s.pos == Offset(rs, i)
    requires turns >= m - i + 2
    ensures Mirrors(RestoreRun(file, c, answers, s, turns), RunRecords(rs[..m], i, c, answers, s), m == |rs|)
    decreases m - i
  {
    hide RestoreTurn, RestoreRun, RunRecords, RecordTurn, CutLog, Offset;
    var t := RestoreTurn(file, c, answers, s);
    RunUnfold(file, c, answers, s, turns, t);
    if i < m {
      OffsetMonotone(rs, i + 1, m);
      TurnOnWhole(file, rs, i, c, answers, s);
      RunRecordsUnfold(rs, m, i, c, answers, s, RecordTurn(rs[i], Offset(rs, i + 1), c, answers, s));
      if t.More? {
        RunFrom(file, rs, m, i + 1, c, answers, t.s, turns - 1);
      } else if t.Exit? {
        RunEnds(file, c, answers, s, turns);
      }
    } else {
      NoRecordsLeft(rs, m, c, answers, s);
      if m == |rs| {
        TurnPastCut(file, rs, m, c, answers, s);
      } else {
        RunAtCut(file, rs, m, c, answers, s, turns);
      }
    }
  }

  lemma {:induction false} NoRecordsLeft(rs: seq<Record>, m: nat, c: Choice, answers: seq<bool>, s: Progress)
    requires m <= |rs|
    ensures RunRecords(rs[..m], m, c, answers, s) == (s, true)
  {
  }

  /**
   Restoring a log cut at any byte, under any options and answers, onto any device: the tool ends, and the
   device is what the loop over the wholly contained records makes of it.
   */
  lemma {:induction false} RestoreCutLog(file: seq<byte>, rs: seq<Record>, c: Choice, answers: seq<bool>, device: seq<byte>)
    returns (m: nat)
    requires CutLog(file, rs)
    ensures WholeRecords(file, rs, m) && (file == EncodeLog(rs) ==> m == |rs|)
    ensures Mirrors(RestoreRun(file, c, answers, Progress(0, device, 0, 0), |rs| + 2),
                    RunRecords(rs[..m], 0, c, answers, Progress(0, device, 0, 0)), file == EncodeLog(rs))
  {
    hide RestoreRun, EncodeLog, RunRecords;
    m := WholeRecordsExist(file, rs);
    RunFrom(file, rs, m, 0, c, answers, Progress(0, device, 0, 0), |rs| + 2);
  }

  /** If the confirmed whole records fit, these are replayed in order, and nothing else happens to the device. */
  lemma {:induction false} RestoreFittingLog(file: seq<byte>, rs: seq<Record>, m: nat, c: Choice, answers: seq<bool>, device: seq<byte>)
    requires CutLog(file, rs) && WholeRecords(file, rs, m)
    requires AllFit(Confirmed(rs[..m], 0, c, answers, 0), |device|)
    ensures var out := RestoreRun(file, c, answers, Progress(0, device, 0, 0), |rs| + 2);
            && out.Some?
            && out.value.0.device == Replay(device, Confirmed(rs[..m], 0, c, answers, 0))
            && (m == |rs| ==> out.value.1)
  {
    hide RestoreRun, EncodeLog, RunRecords, Confirmed, Replay;
    RunFrom(file, rs, m, 0, c, answers, Progress(0, device, 0, 0), |rs| + 2);
    ConfirmedAreReplayed(rs[..m], 0, c, answers, Progress(0, device, 0, 0));
  }

  lemma {:induction false} ConfirmedAll(rs: seq<Record>, i: nat, c: Choice, answers: seq<bool>, asked: nat)
    requires c.restoreAll && !c.ask && i <= |rs|
    ensures Confirmed(rs, i, c, answers, asked) == rs[i..]
    decreases |rs| - i
  {
    if i < |rs| {
      ConfirmedAll(rs, i + 1, c, answers, asked);
    }
  }

  /** `-a -c`: every wholly contained record is replayed, in log order. */
  lemma {:induction false} RestoreAllCutLog(file: seq<byte>, rs: seq<Record>, m: nat, only: u64, answers: seq<bool>, device: seq<byte>)
    requires CutLog(file, rs) && WholeRecords(file, rs, m) && AllFit(rs[..m], |device|)
    ensures var out := RestoreRun(file, Choice(true, only, false), answers, Progress(0, device, 0, 0), |rs| + 2);
            out.Some? && out.value.0.device == Replay(device, rs[..m]) && (m == |rs| ==> out.value.1)
  {
    hide RestoreRun, Replay, Confirmed, AllFit;
    var c := Choice(true, only, false);
    ConfirmedAll(rs[..m], 0, c, answers, 0);
    assert rs[..m][0..] == rs[..m];
    RestoreFittingLog(file, rs, m, c, answers, device);
  }
}
