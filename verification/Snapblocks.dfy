/**
 The `snapblocks` log: the record format, the appending writer of the kernel module and its
 absolute-offset scan (src/kernel/snapshot.c:252-427).
 */
module Snapblocks {
  import opened Bytes
  import opened Options

  const MAGIC: u64 := 0x5ade_5aad_5abe_5aef
  const HDR_SIZE: nat := 40
  const RAW: u64 := 0

  /** The mandatory header: five packed 64-bit words. */
  datatype Header = Header(magic: u64, blknr: u64, payldsiz: u64, payldType: u64, payldOff: u64)

  function EncodeHeader(h: Header): (s: seq<byte>)
    ensures |s| == HDR_SIZE
  {
    EncodeU64(h.magic) + EncodeU64(h.blknr) + EncodeU64(h.payldsiz) + EncodeU64(h.payldType) + EncodeU64(h.payldOff)
  }

  function DecodeHeader(s: seq<byte>): Header
    requires |s| == HDR_SIZE
  {
    Header(DecodeU64(s[0..8]), DecodeU64(s[8..16]), DecodeU64(s[16..24]), DecodeU64(s[24..32]), DecodeU64(s[32..40]))
  }

  lemma {:induction false} HeaderRoundTrip(h: Header)
    ensures DecodeHeader(EncodeHeader(h)) == h
  {
    var s := EncodeHeader(h);
    assert s[0..8] == EncodeU64(h.magic);
    assert s[8..16] == EncodeU64(h.blknr);
    assert s[16..24] == EncodeU64(h.payldsiz);
    assert s[24..32] == EncodeU64(h.payldType);
    assert s[32..40] == EncodeU64(h.payldOff);
  }

  /** One snapshotted block: an optional extended header of any length sits before the payload. */
  datatype RawRecord = Record(blknr: u64, kind: u64, ext: seq<byte>, payload: seq<byte>)

  /** File offsets are signed 64-bit, so a record that exists in a file is shorter than that. */
  type Record = r: RawRecord | HDR_SIZE + |r.ext| + |r.payload| < TWO63 witness Record(0, RAW, [], [])

  function HeaderOf(r: Record): Header {
    Header(MAGIC, r.blknr, |r.payload|, r.kind, HDR_SIZE + |r.ext|)
  }

  function RecordSize(r: Record): nat {
    HDR_SIZE + |r.ext| + |r.payload|
  }

  function EncodeRecord(r: Record): (s: seq<byte>)
    ensures |s| == RecordSize(r)
  {
    EncodeHeader(HeaderOf(r)) + r.ext + r.payload
  }

  lemma {:induction false} MagicBytes()
    ensures EncodeU64(MAGIC) == [0xef, 0x5a, 0xbe, 0x5a, 0xad, 0x5a, 0xde, 0x5a]
  {
    var x: nat := MAGIC;
    assert ToLE(0x5ade, 2) == [0xde, 0x5a];
    assert ToLE(0x5ade_5aad, 4) == [0xad, 0x5a, 0xde, 0x5a];
    assert ToLE(0x5ade_5aad_5abe, 6) == [0xbe, 0x5a, 0xad, 0x5a, 0xde, 0x5a];
    assert ToLE(x, 8) == [0xef, 0x5a, 0xbe, 0x5a, 0xad, 0x5a, 0xde, 0x5a];
  }

  lemma {:induction false} HeaderFields(h: Header)
    ensures var s := EncodeHeader(h);
            && s[0..8] == EncodeU64(h.magic) && s[8..16] == EncodeU64(h.blknr) && s[16..24] == EncodeU64(h.payldsiz)
            && s[24..32] == EncodeU64(h.payldType) && s[32..40] == EncodeU64(h.payldOff)
  {
    hide EncodeU64;
  }

  /** Field `x` is stored in the eight bytes of `s` from `at` on, least significant byte first. */
  ghost predicate FieldAt(s: seq<byte>, at: nat, x: nat) {
    at + 8 <= |s| &&
    var field := s[at..at + 8];
    forall i :: 0 <= i < 8 ==> field[i] == x / Pow256(i) % 256
  }

  lemma {:induction false} FieldInside(s: seq<byte>, at: nat, x: u64)
    requires at + 8 <= |s| && s[at..at + 8] == EncodeU64(x)
    ensures FieldAt(s, at, x)
  {
    hide EncodeU64, Pow256;
    BytesOfU64(x);
  }

  /** A record byte by byte: magic number, block number, payload size, type, payload offset, then the rest. */
  lemma {:induction false} RecordLayout(r: Record)
    ensures var s := EncodeRecord(r);
            && |s| == 40 + |r.ext| + |r.payload|
            && s[..8] == [0xef, 0x5a, 0xbe, 0x5a, 0xad, 0x5a, 0xde, 0x5a]
            && FieldAt(s, 8, r.blknr) && FieldAt(s, 16, |r.payload|) && FieldAt(s, 24, r.kind)
            && FieldAt(s, 32, 40 + |r.ext|)
            && s[40..40 + |r.ext|] == r.ext && s[40 + |r.ext|..] == r.payload
  {
    hide EncodeU64, FieldAt, EncodeHeader;
    var h, s := HeaderOf(r), EncodeRecord(r);
    var e := EncodeHeader(h);
    HeaderFields(h);
    MagicBytes();
    assert e <= s;
    SliceOfPrefix(e, s, 0, 8);
    SliceOfPrefix(e, s, 8, 16);
    SliceOfPrefix(e, s, 16, 24);
    SliceOfPrefix(e, s, 24, 32);
    SliceOfPrefix(e, s, 32, 40);
    assert s[0..8] == s[..8];
    FieldInside(s, 8, h.blknr);
    FieldInside(s, 16, h.payldsiz);
    FieldInside(s, 24, h.payldType);
    FieldInside(s, 32, h.payldOff);
  }

  function EncodeLog(rs: seq<Record>): seq<byte> {
    if rs == [] then [] else EncodeLog(rs[..|rs| - 1]) + EncodeRecord(rs[|rs| - 1])
  }

  /** Where record `i` starts. */
  function Offset(rs: seq<Record>, i: nat): nat
    requires i <= |rs|
  {
    if i == 0 then 0 else Offset(rs, i - 1) + RecordSize(rs[i - 1])
  }

  lemma {:induction false} OffsetMonotone(rs: seq<Record>, i: nat, j: nat)
    requires i <= j <= |rs|
    ensures Offset(rs, i) + HDR_SIZE * (j - i) <= Offset(rs, j)
    decreases j - i
  {
    if i < j {
      OffsetMonotone(rs, i, j - 1);
    }
  }

  lemma {:induction false} EncodeLogLength(rs: seq<Record>)
    ensures |EncodeLog(rs)| == Offset(rs, |rs|)
  {
    hide EncodeRecord;
    var n := |rs|;
    if n > 0 {
      EncodeLogLength(rs[..n - 1]);
      OffsetOfPrefix(rs, n - 1, n - 1);
    }
  }

  /** Every prefix of the record sequence encodes to a prefix of the file. */
  lemma {:induction false} EncodeLogPrefix(rs: seq<Record>, i: nat)
    requires i <= |rs|
    ensures |EncodeLog(rs[..i])| == Offset(rs, i) <= |EncodeLog(rs)| == Offset(rs, |rs|)
    ensures EncodeLog(rs[..i]) <= EncodeLog(rs)
    decreases |rs|
  {
    hide EncodeRecord, RecordSize;
    EncodeLogLength(rs);
    EncodeLogLength(rs[..i]);
    OffsetOfPrefix(rs, i, i);
    if i == |rs| {
      assert rs[..i] == rs;
    } else {
      var front := rs[..|rs| - 1];
      EncodeLogPrefix(front, i);
      assert front[..i] == rs[..i];
    }
  }

  lemma {:induction false} OffsetOfPrefix(rs: seq<Record>, n: nat, i: nat)
    requires i <= n <= |rs|
    ensures Offset(rs[..n], i) == Offset(rs, i)
  {
    if i > 0 { OffsetOfPrefix(rs, n, i - 1); }
  }

  /** The bytes of record `i` are found at its offset. */
  lemma {:induction false} RecordBytes(rs: seq<Record>, i: nat)
    requires i < |rs|
    ensures Offset(rs, i + 1) <= |EncodeLog(rs)|
    ensures EncodeLog(rs)[Offset(rs, i)..Offset(rs, i + 1)] == EncodeRecord(rs[i])
  {
    hide EncodeRecord;
    EncodeLogPrefix(rs, i);
    EncodeLogPrefix(rs, i + 1);
    assert rs[..i + 1][..i] == rs[..i];
    SliceOfPrefix(EncodeLog(rs[..i + 1]), EncodeLog(rs), Offset(rs, i), Offset(rs, i + 1));
  }

  // ---------------------------------------------------------------- the kernel reader

  /** `read_snapblock_mandatory_header`: a whole header with the right magic, or nothing. */
  function ReadHeader(file: seq<byte>, off: int): (h: Option<Header>)
    ensures h.Some? ==> 0 <= off && off + HDR_SIZE <= |file| && h.value.magic == MAGIC
  {
    if off < 0 || off + HDR_SIZE > |file| then None
    else
      var h := DecodeHeader(file[off..off + HDR_SIZE]);
      if h.magic != MAGIC then None else Some(h)
  }

  /** `foff += payld_off + payldsiz`: an unsigned 64-bit sum added to a signed offset. */
  function NextOffset(off: int, h: Header): int {
    ToS64(off + Wrap64(h.payldOff + h.payldsiz))
  }

  /** The offset of the `k`-th header probe of the scan, if the scan gets that far. */
  ghost function Hop(file: seq<byte>, k: nat): Option<int> {
    if k == 0 then Some(0)
    else match Hop(file, k - 1)
      case None => None
      case Some(off) =>
        match ReadHeader(file, off)
        case None => None
        case Some(h) => Some(NextOffset(off, h))
  }

  /** The header seen at the `k`-th probe. */
  ghost function Seen(file: seq<byte>, k: nat): Option<Header> {
    match Hop(file, k)
    case None => None
    case Some(off) => ReadHeader(file, off)
  }

  ghost predicate Found(file: seq<byte>, blknr: u64) {
    exists k: nat :: Seen(file, k).Some? && Seen(file, k).value.blknr == blknr
  }

  /** The scan for `blknr` ends at probe `k`: by a hit, or because no header is there. */
  ghost predicate StopsAt(file: seq<byte>, blknr: u64, k: nat) {
    Hop(file, k).Some? && (Seen(file, k).None? || Seen(file, k).value.blknr == blknr)
  }

  lemma {:induction false} HopDefined(file: seq<byte>, j: nat, k: nat)
    requires j <= k && Hop(file, k).Some?
    ensures Hop(file, j).Some?
    ensures j < k ==> Seen(file, j).Some?
    decreases k - j
  {
    hide ReadHeader, NextOffset;
    if j < k {
      HopDefined(file, j + 1, k);
    }
  }

  /** The first `k` probes all saw a header of another block. */
  ghost predicate Misses(file: seq<byte>, blknr: u64, k: nat) {
    forall j: nat :: j < k ==> Seen(file, j).Some? && Seen(file, j).value.blknr != blknr
  }

  lemma {:induction false} MissedAll(file: seq<byte>, blknr: u64, k: nat)
    requires Misses(file, blknr, k) && Hop(file, k).Some? && Seen(file, k).None?
    ensures !Found(file, blknr)
  {
    hide ReadHeader, NextOffset;
    forall j: nat | Seen(file, j).Some?
      ensures j < k
    {
      if k < j { HopDefined(file, k, j); }
    }
  }

  /** One turn of the scan: the probe after a miss is where the header says. */
  lemma {:induction false} MissMore(file: seq<byte>, blknr: u64, k: nat, last: nat, off: int, h: Header)
    requires Misses(file, blknr, k) && Hop(file, k) == Some(off) && ReadHeader(file, off) == Some(h)
    requires h.blknr != blknr && k <= last && StopsAt(file, blknr, last)
    ensures k < last && Misses(file, blknr, k + 1) && Hop(file, k + 1) == Some(NextOffset(off, h))
  {
    assert Seen(file, k) == Some(h);
  }

  /**
   `file_lookup`. On some files the loop spins (`ScanSpins`), so a finite scan, witnessed by `last`, is
   what the method needs; `AdvancingScanHalts` and `ScanHalts` provide it.
   */
  method FileLookup(blknr: u64, file: seq<byte>, ghost last: nat) returns (found: bool)
    requires StopsAt(file, blknr, last)
    ensures found <==> Found(file, blknr)
  {
    var foff := 0;
    ghost var k := 0;
    var hdr := ReadHeader(file, foff);
    while hdr.Some?
      invariant k <= last
      invariant Hop(file, k) == Some(foff) && hdr == ReadHeader(file, foff)
      invariant Misses(file, blknr, k)
      decreases last - k
    {
      if hdr.value.blknr == blknr {
        assert Seen(file, k) == hdr;
        return true;
      }
      MissMore(file, blknr, k, last, foff, hdr.value);
      foff := NextOffset(foff, hdr.value);
      k := k + 1;
      hdr := ReadHeader(file, foff);
    }
    MissedAll(file, blknr, k);
    return false;
  }

  // ---------------------------------------------------------------- when the scan ends

  /** What payload offset and size add up to. */
  function Advance(h: Header): u64 {
    Wrap64(h.payldOff + h.payldsiz)
  }

  /** The header at `off` leads forward: not to itself, and not round the 64-bit offsets to an earlier place. */
  predicate Advances(h: Header, off: int) {
    0 < Advance(h) < TWO64 - off
  }

  /** So does every header that the scan sees. */
  ghost predicate SeenAdvance(file: seq<byte>) {
    forall k: nat :: Seen(file, k).Some? ==> Advances(Seen(file, k).value, Hop(file, k).value)
  }

  /** It is enough that whatever reads as a header anywhere in the file does. */
  ghost predicate AllAdvance(file: seq<byte>) {
    forall off: nat :: ReadHeader(file, off).Some? ==> Advances(ReadHeader(file, off).value, off)
  }

  lemma {:induction false} AllAdvanceSeen(file: seq<byte>)
    requires AllAdvance(file)
    ensures SeenAdvance(file)
  {
    hide Hop, Advances, DecodeHeader;
    forall k: nat | Seen(file, k).Some?
      ensures Advances(Seen(file, k).value, Hop(file, k).value)
    {
      var off: nat := Hop(file, k).value;
      assert ReadHeader(file, off).Some?;
    }
  }

  lemma {:induction false} AdvancingHop(file: seq<byte>, k: nat)
    requires SeenAdvance(file) && |file| < TWO63 && Hop(file, k).Some?
    ensures Seen(file, k).Some? ==> k <= Hop(file, k).value
  {
    hide SeenAdvance, NextOffset, DecodeHeader;
    if k > 0 {
      AdvancingHop(file, k - 1);
      NextIsForward(file, k - 1);
    }
  }

  lemma {:induction false} NextIsForward(file: seq<byte>, k: nat)
    requires SeenAdvance(file) && |file| < TWO63 && Seen(file, k).Some?
    ensures var off := Hop(file, k).value;
            NextOffset(off, Seen(file, k).value) > off || NextOffset(off, Seen(file, k).value) < 0
  {
    hide DecodeHeader, Hop;
    assert Advances(Seen(file, k).value, Hop(file, k).value);
  }

  /** If every header it sees advances, the scan ends, whatever else the file holds. */
  lemma {:induction false} AdvancingScanHalts(file: seq<byte>, blknr: u64) returns (last: nat)
    requires SeenAdvance(file) && |file| < TWO63
    ensures last <= |file| && StopsAt(file, blknr, last)
  {
    hide SeenAdvance, NextOffset;
    last := 0;
    while !StopsAt(file, blknr, last)
      invariant last <= |file| && Hop(file, last).Some?
      decreases |file| - last
    {
      AdvancingHop(file, last);
      assert Hop(file, last + 1).Some?;
      last := last + 1;
    }
  }

  // ---------------------------------------------------------------- the scan of any file

  /** Among more than `n` places below `n` two are the same. */
  lemma {:induction false} Pigeonhole(places: seq<nat>, n: nat) returns (i: nat, j: nat)
    requires |places| > n && forall k :: 0 <= k < |places| ==> places[k] < n
    ensures i < j < |places| && places[i] == places[j]
    decreases n
  {
    var last := |places| - 1;
    assert places[last] < n;
    if k :| 0 <= k < last && places[k] == places[last] {
      return k, last;
    }
    var rest := seq(last, k requires 0 <= k < last => if places[k] == n - 1 then places[last] else places[k]);
    i, j := Pigeonhole(rest, n - 1);
  }

  /** Where the scan goes from an offset depends on nothing but the offset. */
  lemma {:induction false} HopsRepeat(file: seq<byte>, i: nat, j: nat, n: nat)
    requires Hop(file, i) == Hop(file, j)
    ensures Hop(file, i + n) == Hop(file, j + n)
  {
    hide ReadHeader, NextOffset;
    if n > 0 {
      HopsRepeat(file, i, j, n - 1);
    }
  }

  /** A scan that ends after more probes than the file has bytes has been at some offset twice, and so has ended earlier. */
  lemma {:induction false} StopsEarlier(file: seq<byte>, blknr: u64, last: nat) returns (k: nat)
    requires StopsAt(file, blknr, last) && last > |file|
    ensures k < last && StopsAt(file, blknr, k)
  {
    hide ReadHeader, NextOffset, Hop;
    var n := |file| + 1;
    forall k | 0 <= k < n
      ensures Seen(file, k).Some? && Hop(file, k).Some?
    {
      HopDefined(file, k, last);
    }
    forall k | 0 <= k < n
      ensures 0 <= Hop(file, k).value < |file|
    {
      HeaderInside(file, Hop(file, k).value);
    }
    var places: seq<nat> := seq(n, k requires 0 <= k < n => Hop(file, k).value);
    var i, j := Pigeonhole(places, |file|);
    HopsRepeat(file, i, j, last - j);
    k := i + (last - j);
  }

  lemma {:induction false} HeaderInside(file: seq<byte>, off: int)
    requires ReadHeader(file, off).Some?
    ensures 0 <= off < |file|
  {
  }

  /** For any file whatever: a scan that has not ended after one probe per byte and one more never ends. */
  lemma {:induction false} ScanEndsSoonOrNever(file: seq<byte>, blknr: u64)
    ensures (exists k: nat :: StopsAt(file, blknr, k)) <==> (exists k: nat :: k <= |file| && StopsAt(file, blknr, k))
  {
    hide StopsAt;
    if stop: nat :| StopsAt(file, blknr, stop) {
      var last: nat := stop;
      while last > |file|
        invariant StopsAt(file, blknr, last)
        decreases last
      {
        last := StopsEarlier(file, blknr, last);
      }
    }
  }

  lemma {:induction false} OnlyHeader(h: Header, off: int)
    requires h.magic == MAGIC
    ensures ReadHeader(EncodeHeader(h), off) == if off == 0 then Some(h) else None
  {
    hide EncodeHeader, DecodeHeader;
    HeaderRoundTrip(h);
    var s := EncodeHeader(h);
    assert s[0..HDR_SIZE] == s;
  }

  lemma {:induction false} SpinningHop(h: Header, blknr: u64, k: nat)
    requires h.magic == MAGIC && h.blknr != blknr && Advance(h) == 0
    ensures Hop(EncodeHeader(h), k) == Some(0) && !StopsAt(EncodeHeader(h), blknr, k)
  {
    hide ReadHeader, EncodeHeader;
    OnlyHeader(h, 0);
    if k > 0 {
      SpinningHop(h, blknr, k - 1);
    }
  }

  /** A single header is probed for ever if and only if it advances by 0 modulo 2^64 and is not the one sought. */
  lemma {:induction false} ScanSpins(h: Header, blknr: u64)
    requires h.magic == MAGIC
    ensures (forall k: nat :: !StopsAt(EncodeHeader(h), blknr, k)) <==> h.blknr != blknr && Advance(h) == 0
  {
    hide ReadHeader, EncodeHeader, Hop;
    OnlyHeader(h, 0);
    if h.blknr == blknr {
      SoughtFirst(h);
    } else if Advance(h) == 0 {
      forall k: nat
        ensures !StopsAt(EncodeHeader(h), blknr, k)
      {
        SpinningHop(h, blknr, k);
      }
    } else {
      OneHeaderAdvances(h);
      AllAdvanceSeen(EncodeHeader(h));
      var last := AdvancingScanHalts(EncodeHeader(h), blknr);
    }
  }

  lemma {:induction false} SoughtFirst(h: Header)
    requires h.magic == MAGIC
    ensures StopsAt(EncodeHeader(h), h.blknr, 0)
  {
    hide ReadHeader, EncodeHeader;
    OnlyHeader(h, 0);
  }

  lemma {:induction false} OneHeaderAdvances(h: Header)
    requires h.magic == MAGIC && Advance(h) != 0
    ensures AllAdvance(EncodeHeader(h))
  {
    hide ReadHeader, EncodeHeader;
    forall off: nat | ReadHeader(EncodeHeader(h), off).Some?
      ensures Advances(ReadHeader(EncodeHeader(h), off).value, off)
    {
      OnlyHeader(h, off);
    }
  }

  lemma {:induction false} ReadInLonger(file: seq<byte>, longer: seq<byte>, off: int)
    requires file <= longer && ReadHeader(file, off).Some?
    ensures ReadHeader(longer, off) == ReadHeader(file, off)
  {
    hide DecodeHeader;
    SliceOfPrefix(file, longer, off, off + HDR_SIZE);
  }

  /** What can be read in a file is read in every longer one; what is found stays found. */
  lemma {:induction false} HopInLonger(file: seq<byte>, longer: seq<byte>, k: nat)
    requires file <= longer && Hop(file, k).Some?
    ensures Hop(longer, k) == Hop(file, k)
    ensures Seen(file, k).Some? ==> Seen(longer, k) == Seen(file, k)
  {
    hide NextOffset, ReadHeader;
    if k > 0 {
      HopInLonger(file, longer, k - 1);
      ReadInLonger(file, longer, Hop(file, k - 1).value);
    }
    var off := Hop(file, k).value;
    if ReadHeader(file, off).Some? {
      ReadInLonger(file, longer, off);
    }
  }

  lemma {:induction false} FoundInLonger(file: seq<byte>, longer: seq<byte>, blknr: u64)
    requires file <= longer && Found(file, blknr)
    ensures Found(longer, blknr)
  {
    hide Hop, ReadHeader;
    var k: nat :| Seen(file, k).Some? && Seen(file, k).value.blknr == blknr;
    HopInLonger(file, longer, k);
  }

  // ---------------------------------------------------------------- scanning a cut log

  /** A file that is a well-formed log, possibly cut short. */
  ghost predicate CutLog(file: seq<byte>, rs: seq<Record>) {
    Offset(rs, |rs|) < TWO63 && file <= EncodeLog(rs)
  }

  lemma {:induction false} ReadHeaderBytes(file: seq<byte>, off: nat, h: Header)
    requires off + HDR_SIZE <= |file| && file[off..off + HDR_SIZE] == EncodeHeader(h) && h.magic == MAGIC
    ensures ReadHeader(file, off) == Some(h)
  {
    HeaderRoundTrip(h);
  }

  /** The part of record `i` between two of its own offsets, read from a cut log. */
  lemma {:induction false} PartInCutLog(file: seq<byte>, rs: seq<Record>, i: nat, lo: nat, hi: nat)
    requires file <= EncodeLog(rs) && i < |rs| && lo <= hi <= RecordSize(rs[i]) && Offset(rs, i) + hi <= |file|
    ensures file[Offset(rs, i) + lo..Offset(rs, i) + hi] == EncodeRecord(rs[i])[lo..hi]
  {
    hide EncodeLog, EncodeRecord;
    RecordBytes(rs, i);
    SliceOfPrefix(file, EncodeLog(rs), Offset(rs, i) + lo, Offset(rs, i) + hi);
    SliceOfSlice(EncodeLog(rs), Offset(rs, i), Offset(rs, i + 1), lo, hi);
  }

  lemma {:induction false} RecordParts(r: Record)
    ensures EncodeRecord(r)[0..HDR_SIZE] == EncodeHeader(HeaderOf(r))
    ensures EncodeRecord(r)[HDR_SIZE + |r.ext|..RecordSize(r)] == r.payload
  {
  }

  lemma {:induction false} HeaderInCutLog(file: seq<byte>, rs: seq<Record>, i: nat)
    requires CutLog(file, rs) && i <= |rs|
    ensures ReadHeader(file, Offset(rs, i)) ==
            if i < |rs| && Offset(rs, i) + HDR_SIZE <= |file| then Some(HeaderOf(rs[i])) else None
  {
    hide EncodeLog, EncodeRecord, EncodeHeader, DecodeHeader;
    if i < |rs| {
      if Offset(rs, i) + HDR_SIZE <= |file| {
        PartInCutLog(file, rs, i, 0, HDR_SIZE);
        RecordParts(rs[i]);
        ReadHeaderBytes(file, Offset(rs, i), HeaderOf(rs[i]));
      }
    } else {
      EncodeLogPrefix(rs, i);
    }
  }

  /** From record `i` the scan moves to record `i + 1`: no 64-bit sum wraps inside a file. */
  lemma {:induction false} NextInLog(rs: seq<Record>, i: nat)
    requires Offset(rs, |rs|) < TWO63 && i < |rs|
    ensures NextOffset(Offset(rs, i), HeaderOf(rs[i])) == Offset(rs, i + 1)
  {
    OffsetMonotone(rs, i + 1, |rs|);
  }

  /** Whether the scan reaches probe `k` of a log cut after `len` bytes. */
  ghost predicate Probed(rs: seq<Record>, len: nat, k: nat) {
    k == 0 || (k <= |rs| && Offset(rs, k - 1) + HDR_SIZE <= len)
  }

  lemma {:induction false} HopNext(file: seq<byte>, rs: seq<Record>, k: nat)
    requires CutLog(file, rs) && k <= |rs| && Hop(file, k) == Some(Offset(rs, k))
    ensures k < |rs| && Offset(rs, k) + HDR_SIZE <= |file| ==> Hop(file, k + 1) == Some(Offset(rs, k + 1))
    ensures !(k < |rs| && Offset(rs, k) + HDR_SIZE <= |file|) ==> Hop(file, k + 1) == None
  {
    hide EncodeLog, ReadHeader, NextOffset, HeaderOf;
    HeaderInCutLog(file, rs, k);
    if k < |rs| { NextInLog(rs, k); }
  }

  lemma {:induction false} ProbedStep(rs: seq<Record>, len: nat, k: nat)
    requires Probed(rs, len, k + 1)
    ensures k <= |rs| && Probed(rs, len, k)
  {
    assert k > 0 ==> Offset(rs, k) == Offset(rs, k - 1) + RecordSize(rs[k - 1]);
  }

  /** The scan of a cut log probes exactly the record offsets, in order, up to the cut. */
  lemma {:induction false} ScanOffsets(file: seq<byte>, rs: seq<Record>, k: nat)
    requires CutLog(file, rs)
    ensures Probed(rs, |file|, k) ==> Hop(file, k) == Some(Offset(rs, k))
    ensures !Probed(rs, |file|, k) ==> Hop(file, k) == None
  {
    hide CutLog, ReadHeader, NextOffset;
    if k > 0 {
      ScanOffsets(file, rs, k - 1);
      if Probed(rs, |file|, k - 1) {
        HopNext(file, rs, k - 1);
      } else if Probed(rs, |file|, k) {
        ProbedStep(rs, |file|, k - 1);
      }
    }
  }

  /** A record of the block has its header wholly within the first `len` bytes. */
  ghost predicate HeaderWithin(rs: seq<Record>, blknr: u64, len: nat) {
    exists i :: 0 <= i < |rs| && rs[i].blknr == blknr && Offset(rs, i) + HDR_SIZE <= len
  }

  /** A record of the block lies wholly within the file. */
  ghost predicate WhollyLogged(file: seq<byte>, rs: seq<Record>, blknr: u64) {
    exists i :: 0 <= i < |rs| && rs[i].blknr == blknr && Offset(rs, i + 1) <= |file|
  }

  lemma {:induction false} WhollyLoggedIsFound(file: seq<byte>, rs: seq<Record>, blknr: u64)
    requires CutLog(file, rs) && WhollyLogged(file, rs, blknr)
    ensures Found(file, blknr)
  {
    hide CutLog, Found;
    FoundInCutLog(file, rs, blknr);
  }

  /** The kernel's lookup finds exactly the blocks whose header lies wholly before the cut. */
  lemma {:induction false} FoundInCutLog(file: seq<byte>, rs: seq<Record>, blknr: u64)
    requires CutLog(file, rs)
    ensures Found(file, blknr) <==> HeaderWithin(rs, blknr, |file|)
  {
    hide CutLog, Hop, ReadHeader;
    if Found(file, blknr) {
      var k: nat :| Seen(file, k).Some? && Seen(file, k).value.blknr == blknr;
      ScanOffsets(file, rs, k);
      HeaderInCutLog(file, rs, k);
      assert rs[k].blknr == blknr;
    }
    if i :| 0 <= i < |rs| && rs[i].blknr == blknr && Offset(rs, i) + HDR_SIZE <= |file| {
      ScanOffsets(file, rs, i);
      HeaderInCutLog(file, rs, i);
      assert Seen(file, i).Some?;
    }
  }

  ghost predicate HasBlock(rs: seq<Record>, blknr: u64) {
    exists i :: 0 <= i < |rs| && rs[i].blknr == blknr
  }

  /** In a log that is not cut, the lookup finds exactly the blocks that have a record. */
  lemma {:induction false} FoundInWholeLog(rs: seq<Record>, blknr: u64)
    requires Offset(rs, |rs|) < TWO63
    ensures Found(EncodeLog(rs), blknr) <==> HasBlock(rs, blknr)
  {
    hide Found, EncodeLog;
    EncodeLogLength(rs);
    FoundInCutLog(EncodeLog(rs), rs, blknr);
    if i :| 0 <= i < |rs| && rs[i].blknr == blknr {
      OffsetMonotone(rs, i + 1, |rs|);
    }
  }

  /** Every scan of a cut log stops, after at most one probe per record and one more. */
  lemma {:induction false} ScanHaltsFrom(file: seq<byte>, rs: seq<Record>, blknr: u64, k: nat) returns (last: nat)
    requires CutLog(file, rs) && k <= |rs| && Hop(file, k).Some?
    ensures k <= last <= |rs| && StopsAt(file, blknr, last)
    decreases |rs| - k
  {
    hide CutLog, Hop, Offset, ReadHeader;
    if StopsAt(file, blknr, k) {
      last := k;
    } else {
      ScanOffsets(file, rs, k);
      ScanOffsets(file, rs, k + 1);
      HeaderInCutLog(file, rs, k);
      last := ScanHaltsFrom(file, rs, blknr, k + 1);
    }
  }

  lemma {:induction false} ScanHalts(file: seq<byte>, rs: seq<Record>, blknr: u64) returns (last: nat)
    requires CutLog(file, rs)
    ensures last <= |rs| && StopsAt(file, blknr, last)
  {
    last := ScanHaltsFrom(file, rs, blknr, 0);
  }

  // ---------------------------------------------------------------- the writer

  /** The open log file. `limit` is the room the host file system has for it. */
  class LogFile {
    var bytes: seq<byte>
    const limit: nat

    constructor (limit: nat)
      ensures bytes == [] && this.limit == limit
    {
      bytes := [];
      this.limit := limit;
    }

    /** `kernel_write` on an O_APPEND file: appends what fits and returns how much that was. */
    method KernelWrite(data: seq<byte>) returns (wrote: nat)
      requires |bytes| <= limit
      modifies this
      ensures wrote <= |data| && bytes == old(bytes) + data[..wrote]
      ensures |bytes| <= limit
      ensures wrote < |data| ==> |bytes| == limit
    {
      wrote := if |data| <= limit - |bytes| then |data| else limit - |bytes|;
      bytes := bytes + data[..wrote];
    }

    /** `write_snapblock`: header, extended header if any, payload; stops at the first short write. */
    method WriteSnapblock(hdr: seq<byte>, ext: seq<byte>, payload: seq<byte>) returns (ok: bool)
      requires |bytes| <= limit && |hdr| == HDR_SIZE
      modifies this
      ensures ok == (old(|bytes|) + |hdr| + |ext| + |payload| <= limit)
      ensures bytes == Truncate(old(bytes) + (hdr + ext + payload), limit)
    {
      hide Truncate;
      ghost var before := bytes;
      Associate(before, hdr, ext, payload);
      var wrote := KernelWrite(hdr);
      if wrote != HDR_SIZE {
        CutWrite(before, hdr, ext + payload, wrote, limit);
        return false;
      }
      if |ext| > 0 {
        wrote := KernelWrite(ext);
        if wrote != |ext| {
          CutWrite(before + hdr, ext, payload, wrote, limit);
          return false;
        }
      }
      assert bytes == before + hdr + ext;
      wrote := KernelWrite(payload);
      CutWrite(before + hdr + ext, payload, [], wrote, limit);
      return wrote == |payload|;
    }
  }

  lemma {:induction false} Associate(before: seq<byte>, hdr: seq<byte>, ext: seq<byte>, payload: seq<byte>)
    ensures hdr + (ext + payload) == hdr + ext + payload
    ensures before + hdr + (ext + payload) == before + (hdr + ext + payload)
    ensures before + hdr + ext + (payload + []) == before + (hdr + ext + payload)
  {
  }

  /** A write cut short at the limit leaves the whole intended contents, truncated there. */
  lemma {:induction false} CutWrite(before: seq<byte>, data: seq<byte>, more: seq<byte>, wrote: nat, limit: nat)
    requires wrote <= |data| && |before| + wrote <= limit
    requires wrote < |data| || more == []
    requires wrote < |data| ==> |before| + wrote == limit
    ensures before + data[..wrote] == Truncate(before + (data + more), limit)
  {
  }

  function Truncate(s: seq<byte>, limit: nat): (r: seq<byte>)
    ensures r <= s
  {
    if |s| <= limit then s else s[..limit]
  }
}
