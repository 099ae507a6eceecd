/**
 The single-file file system (demo/SINGLEFILE-FS/file.c) and the client that finishes a write by
 retrying (demo/SINGLEFILE-FS/user/user.c). Block 0 is the superblock, block 1 the inode, and the
 data of the only file starts at block 2.
 */
module SingleFile {
  import opened Bytes

  const BLOCK: nat := 4096
  /** `block_to_write` is an `int`. */
  const MAX_BLOCKS: nat := 0x8000_0000

  type Disk = seq<seq<byte>>

  ghost predicate IsDisk(disk: Disk) {
    2 <= |disk| < MAX_BLOCKS && forall b :: 0 <= b < |disk| ==> |disk[b]| == BLOCK
  }

  /** `max_file_size` in the superblock. */
  function MaxSize(superblock: seq<byte>): u64
    requires |superblock| == BLOCK
  {
    DecodeU64(superblock[40..48])
  }

  /** `file_size` in the inode block. */
  function InodeSize(inode: seq<byte>): u64
    requires |inode| == BLOCK
  {
    DecodeU64(inode[24..32])
  }

  /** What mkfs puts into the superblock of a device with `blocks` whole blocks. */
  function MaxFileSize(blocks: nat): nat
    requires blocks >= 2
  {
    (blocks - 2) * BLOCK
  }

  /** A mounted file system: block contents and the size in the in-memory inode agree. */
  ghost predicate Mounted(disk: Disk, size: nat) {
    && IsDisk(disk)
    && MaxSize(disk[0]) == MaxFileSize(|disk|)
    && size == InodeSize(disk[1]) <= MaxFileSize(|disk|)
  }

  // ---------------------------------------------------------------- a formatted image

  /** The superblock that mkfs writes; `junk` is what it leaves uninitialised. */
  function Superblock(blocks: nat, counts: seq<byte>, junk: seq<byte>): (s: seq<byte>)
    requires 2 <= blocks < MAX_BLOCKS && |counts| == 16 && |junk| == 4048
  {
    EncodeU64(1) + EncodeU64(0x4242_4242) + EncodeU64(4096) + counts + EncodeU64((blocks - 2) * 4096) + junk
  }

  /** The block of the inode: mode, number and an unused word in front of the size, then padding. */
  function InodeBlock(front: seq<byte>, size: u64, junk: seq<byte>): (s: seq<byte>)
    requires |front| == 24 && |junk| == 4064
  {
    front + EncodeU64(size) + junk
  }

  /** What is mounted right after mkfs: the body is the file, on any image with room for a data block. */
  lemma {:induction false} FormattedIsMounted(image: Disk, body: seq<byte>, counts: seq<byte>, front: seq<byte>,
                                              junk0: seq<byte>, junk1: seq<byte>)
    requires IsDisk(image) && |image| >= 3 && |body| <= 4096
    requires |counts| == 16 && |front| == 24 && |junk0| == 4048 && |junk1| == 4064
    ensures var disk := image[0 := Superblock(|image|, counts, junk0)][1 := InodeBlock(front, |body|, junk1)]
                             [2 := Splice(image[2], 0, body)];
            Mounted(disk, |body|) && Contents(disk, |body|) == body
  {
    hide EncodeU64, DecodeU64;
    var super, inode, data := Superblock(|image|, counts, junk0), InodeBlock(front, |body|, junk1), Splice(image[2], 0, body);
    var disk := image[0 := super][1 := inode][2 := data];
    assert super[40..48] == EncodeU64((|image| - 2) * 4096);
    assert inode[24..32] == EncodeU64(|body|);
    forall k | 0 <= k < |body|
      ensures Contents(disk, |body|)[k] == body[k]
    {
      SameBlock(2, 0, k);
      SpliceAt(image[2], 0, body, k);
    }
  }

  // ---------------------------------------------------------------- one write

  datatype Error = ENOMEM | EIO
  datatype Outcome = Wrote(n: nat) | Failed(e: Error)

  /** What the arithmetic of `onefilefs_write` decides: give up, or write `len` bytes at `at` of block `b`. */
  datatype Plan = GiveUp(o: Outcome) | InBlock(b: nat, at: nat, len: nat)

  function PlanWrite(off: nat, len: nat, size: nat, maxSize: nat, blocks: nat): Plan {
    if off > maxSize then GiveUp(Failed(ENOMEM))
    else if off > size then GiveUp(Wrote(0))
    else
      var fitting := if off + len > maxSize then maxSize - off else len;
      var at := off % BLOCK;
      var inBlock := if at + fitting > BLOCK then BLOCK - at else fitting;
      var b := off / BLOCK + 2;
      if b >= blocks then GiveUp(Failed(EIO)) else InBlock(b, at, inBlock)
  }

  /**
   A planned write stays inside one data block and is as long as block, data and device allow; with an
   offset inside the file it fails only right behind the last block.
   */
  lemma {:induction false} PlanStaysInside(off: nat, len: nat, size: nat, blocks: nat)
    requires blocks >= 2 && size <= MaxFileSize(blocks)
    ensures var p := PlanWrite(off, len, size, MaxFileSize(blocks), blocks);
            && (p.InBlock? <==> off <= size && off < MaxFileSize(blocks))
            && (p == GiveUp(Failed(EIO)) <==> off == size == MaxFileSize(blocks))
            && (p == GiveUp(Failed(ENOMEM)) <==> off > MaxFileSize(blocks))
            && (p == GiveUp(Wrote(0)) <==> size < off <= MaxFileSize(blocks))
            && (p.InBlock? ==>
                  && 2 <= p.b < blocks && p.at + p.len <= BLOCK && p.len <= len
                  && (p.b - 2) * BLOCK + p.at == off && off + p.len <= MaxFileSize(blocks)
                  && p.b == off / 4096 + 2 && p.at == off % 4096
                  && (len > 0 ==> p.len > 0)
                  && (p.len == len || p.at + p.len == BLOCK || off + p.len == MaxFileSize(blocks)))
  {
  }

  /** The file with `data` written at `off`, growing if `data` reaches past the end. */
  function WriteInto(file: seq<byte>, off: nat, data: seq<byte>): (r: seq<byte>)
    requires off <= |file|
    ensures |r| == if off + |data| > |file| then off + |data| else |file|
  {
    file[..off] + data + (if off + |data| < |file| then file[off + |data|..] else [])
  }

  lemma {:induction false} WriteIntoAt(file: seq<byte>, off: nat, data: seq<byte>, k: nat)
    requires off <= |file| && k < |WriteInto(file, off, data)|
    ensures WriteInto(file, off, data)[k] == if off <= k < off + |data| then data[k - off] else file[k]
  {
  }

  /** What `copy_from_user` leaves behind after `n` of `len` bytes: those, and zeros in place of the rest. */
  function Padded(buf: seq<byte>, n: nat, len: nat): (r: seq<byte>)
    requires n <= len && n <= |buf|
    ensures |r| == len && r[..n] == buf[..n]
    ensures forall k :: n <= k < len ==> r[k] == 0
  {
    buf[..n] + seq(len - n, _ => 0)
  }

  /** The file with `data` stored at `off`, of which the first `n` bytes count: no other byte makes it longer. */
  function StoreInto(file: seq<byte>, off: nat, data: seq<byte>, n: nat): (r: seq<byte>)
    requires off <= |file| && n <= |data|
    ensures |r| == if off + n > |file| then off + n else |file|
  {
    WriteInto(file, off, data)[..if off + n > |file| then off + n else |file|]
  }

  /** If all bytes count, that is a plain write. */
  lemma {:induction false} StoreAll(file: seq<byte>, off: nat, data: seq<byte>)
    requires off <= |file|
    ensures StoreInto(file, off, data, |data|) == WriteInto(file, off, data)
  {
  }

  /**
   A copy that stops after `n` of `len` bytes writes just these to the file if and only if the file holds
   nothing but zeros in the rest of the range; what else was there is lost.
   */
  lemma {:induction false} ShortCopyHarmless(file: seq<byte>, off: nat, buf: seq<byte>, n: nat, len: nat)
    requires off <= |file| && n <= len && n <= |buf|
    ensures StoreInto(file, off, Padded(buf, n, len), n) == WriteInto(file, off, buf[..n]) <==>
            forall k :: off + n <= k < off + len && k < |file| ==> file[k] == 0
  {
    hide WriteInto, Padded;
    var data := Padded(buf, n, len);
    var short, plain := StoreInto(file, off, data, n), WriteInto(file, off, buf[..n]);
    forall k | 0 <= k < |plain|
      ensures short[k] == (if off + n <= k < off + len then 0 else plain[k])
      ensures off + n <= k ==> plain[k] == file[k]
    {
      WriteIntoAt(file, off, data, k);
      WriteIntoAt(file, off, buf[..n], k);
      assert off <= k < off + n ==> data[..n][k - off] == buf[..n][k - off];
    }
  }

  lemma {:induction false} WriteIntoTwice(file: seq<byte>, off: nat, a: seq<byte>, b: seq<byte>)
    requires off <= |file|
    ensures WriteInto(WriteInto(file, off, a), off + |a|, b) == WriteInto(file, off, a + b)
  {
  }

  /** The file when the first `p` bytes of `data` have been written at `off`. */
  function SoFar(file: seq<byte>, off: nat, data: seq<byte>, p: nat): seq<byte>
    requires off <= |file| && p <= |data|
  {
    WriteInto(file, off, data[..p])
  }

  /** Writing the next `n` bytes behind the first `p` writes the first `p + n`. */
  lemma {:induction false} WriteMore(file: seq<byte>, off: nat, data: seq<byte>, p: nat, n: nat)
    requires off <= |file| && p + n <= |data|
    ensures off + p <= |SoFar(file, off, data, p)|
    ensures WriteInto(SoFar(file, off, data, p), off + p, data[p..][..n]) == SoFar(file, off, data, p + n)
  {
    WriteIntoTwice(file, off, data[..p], data[p..][..n]);
    assert data[..p] + data[p..][..n] == data[..p + n];
  }

  /** As much of the data as there is room for. */
  function Fitting(data: seq<byte>, room: nat): (r: seq<byte>)
    ensures |r| == (if |data| <= room then |data| else room) && r == data[..|r|]
  {
    if |data| <= room then data else data[..room]
  }

  lemma {:induction false} WriteNothing(file: seq<byte>, off: nat, data: seq<byte>)
    requires off <= |file|
    ensures WriteInto(file, off, data[..0]) == file
  {
  }

  /** Byte `k` of the file. */
  function ByteAt(disk: Disk, k: nat): byte
    requires k / BLOCK + 2 < |disk| && |disk[k / BLOCK + 2]| == BLOCK
  {
    disk[k / BLOCK + 2][k % BLOCK]
  }

  ghost function Contents(disk: Disk, size: nat): (file: seq<byte>)
    requires IsDisk(disk) && size <= MaxFileSize(|disk|)
    ensures |file| == size
    ensures forall k :: 0 <= k < size ==> k / BLOCK + 2 < |disk| && file[k] == ByteAt(disk, k)
  {
    seq(size, k requires 0 <= k < size => ByteAt(disk, k))
  }

  lemma {:induction false} SameBlock(b: nat, at: nat, k: nat)
    requires b >= 2 && at <= BLOCK
    ensures k / BLOCK + 2 == b ==> k == (b - 2) * BLOCK + k % BLOCK
    ensures (b - 2) * BLOCK <= k < (b - 2) * BLOCK + BLOCK ==> k / BLOCK + 2 == b
  {
  }

  /** The inode block with a new size. */
  function SetInodeSize(inode: seq<byte>, size: u64): (r: seq<byte>)
    requires |inode| == BLOCK
    ensures |r| == BLOCK && InodeSize(r) == size
  {
    Splice(inode, 24, EncodeU64(size))
  }

  /** The disk after `data` went to block `b` and, if the file then ends at `end`, the inode was updated. */
  function Written(disk: Disk, size: nat, b: nat, at: nat, data: seq<byte>, end: nat): (r: Disk)
    requires IsDisk(disk) && 2 <= b < |disk| && at + |data| <= BLOCK && end < TWO63
    ensures |r| == |disk|
  {
    var d := disk[b := Splice(disk[b], at, data)];
    if size < end then d[1 := SetInodeSize(disk[1], end)] else d
  }

  /**
   One write stores its bytes in the file, of which `n` count, and leaves superblock, inode and memory in
   agreement.
   */
  lemma {:induction false} WrittenIsSplice(disk: Disk, size: nat, off: nat, b: nat, at: nat, data: seq<byte>, n: nat)
    requires Mounted(disk, size) && off <= size && 2 <= b < |disk| && at + |data| <= BLOCK && n <= |data|
    requires (b - 2) * BLOCK + at == off && off + |data| <= MaxFileSize(|disk|)
    ensures var end := off + n;
            var size' := if size < end then end else size;
            var disk' := Written(disk, size, b, at, data, end);
            && Mounted(disk', size') && disk'[0] == disk[0]
            && Contents(disk', size') == StoreInto(Contents(disk, size), off, data, n)
  {
    hide MaxSize, InodeSize, SetInodeSize, WriteInto, Splice, Contents;
    var end := off + n;
    var size' := if size < end then end else size;
    var disk' := Written(disk, size, b, at, data, end);
    var before, after := Contents(disk, size), Contents(disk', size');
    var goal := StoreInto(before, off, data, n);
    forall k | 0 <= k < size'
      ensures after[k] == goal[k]
    {
      WriteIntoAt(before, off, data, k);
      WrittenByte(disk, size, off, b, at, data, end, k);
    }
  }

  lemma {:induction false} WrittenByte(disk: Disk, size: nat, off: nat, b: nat, at: nat, data: seq<byte>, end: nat, k: nat)
    requires IsDisk(disk) && 2 <= b < |disk| && at + |data| <= BLOCK && end < TWO63 && k / BLOCK + 2 < |disk|
    requires (b - 2) * BLOCK + at == off
    ensures var d := Written(disk, size, b, at, data, end);
            && |d[k / BLOCK + 2]| == BLOCK
            && ByteAt(d, k) == if off <= k < off + |data| then data[k - off] else ByteAt(disk, k)
  {
    hide Splice, SetInodeSize;
    SameBlock(b, at, k);
    if k / BLOCK + 2 == b {
      SpliceAt(disk[b], at, data, k % BLOCK);
    } else if off <= k < off + |data| {
      SameBlock(b, at, k);
    }
  }

  /** A range of the file inside one block is a range of that block. */
  lemma {:induction false} RangeInBlock(disk: Disk, size: nat, off: nat, n: nat)
    requires IsDisk(disk) && size <= MaxFileSize(|disk|) && off + n <= size && off < size && off % BLOCK + n <= BLOCK
    ensures off / BLOCK + 2 < |disk|
    ensures disk[off / BLOCK + 2][off % BLOCK..off % BLOCK + n] == Contents(disk, size)[off..off + n]
  {
    var b, at, file := off / BLOCK + 2, off % BLOCK, Contents(disk, size);
    var here, there := disk[b][at..at + n], file[off..off + n];
    forall i | 0 <= i < n
      ensures here[i] == there[i]
    {
      SameBlock(b, at, off + i);
    }
  }

  /** How much of a read of `len` bytes at `off` can be served: it ends with the file or with the block. */
  function Readable(off: nat, len: nat, size: nat): (n: nat)
    ensures n <= len && (n > 0 <==> off < size && len > 0)
    ensures n > 0 ==> off + n <= size && off / BLOCK == (off + n - 1) / BLOCK
    ensures n < len && off < size ==> off + n == size || (off + n) % BLOCK == 0
  {
    if off >= size then 0
    else
      var fitting := if off + len > size then size - off else len;
      if off % BLOCK + fitting > BLOCK then BLOCK - off % BLOCK else fitting
  }

  // ---------------------------------------------------------------- the mounted file system

  class OneFileFs {
    /** The blocks, as the buffer cache shows them. */
    const blocks: array<seq<byte>>
    /** `i_size` of the only file. */
    var size: nat

    ghost predicate Valid()
      reads this, blocks
    {
      Mounted(blocks[..], size)
    }

    ghost function File(): seq<byte>
      reads this, blocks
      requires Valid()
    {
      Contents(blocks[..], size)
    }

    constructor (blocks: array<seq<byte>>)
      requires IsDisk(blocks[..]) && MaxSize(blocks[0]) == MaxFileSize(blocks.Length)
      requires InodeSize(blocks[1]) <= MaxFileSize(blocks.Length)
      ensures Valid() && this.blocks == blocks && size == InodeSize(blocks[1])
    {
      this.blocks := blocks;
      size := InodeSize(blocks[1]);
    }

    /** The second half of a write: `data` to its block, then the inode block if the `n` bytes that count grew the file. */
    method PutBlock(b: nat, at: nat, data: seq<byte>, n: nat, off: nat) returns (off': nat)
      requires Valid() && off <= size && 2 <= b < blocks.Length && at + |data| <= BLOCK && n <= |data|
      requires (b - 2) * BLOCK + at == off && off + |data| <= MaxFileSize(blocks.Length)
      modifies this, blocks
      ensures Valid() && blocks[0] == old(blocks[0])
      ensures off' == off + n && File() == StoreInto(old(File()), off, data, n)
      ensures size == if old(size) < off' then off' else old(size)
      ensures blocks[..] == Written(old(blocks[..]), old(size), b, at, data, off')
    {
      hide Splice, SetInodeSize, StoreInto, Contents, MaxSize, InodeSize;
      ghost var disk, was := blocks[..], size;
      assert was <= MaxFileSize(|disk|) && disk[b] == blocks[b] && disk[1] == blocks[1];
      WrittenIsSplice(disk, was, off, b, at, data, n);
      off' := off + n;
      blocks[b] := Splice(blocks[b], at, data);
      assert blocks[..] == disk[b := Splice(disk[b], at, data)];
      if size < off' {
        size := off';
        blocks[1] := SetInodeSize(blocks[1], size);
        assert blocks[..] == disk[b := Splice(disk[b], at, data)][1 := SetInodeSize(disk[1], size)];
      }
    }

    /** The first half of a write: limits and block arithmetic. */
    method Decide(off: nat, wanted: nat) returns (p: Plan)
      requires Valid()
      ensures p == PlanWrite(off, wanted, size, MaxFileSize(blocks.Length), blocks.Length)
    {
      var maxSize := MaxSize(blocks[0]);
      assert blocks[..][0] == blocks[0];
      if off > maxSize {
        return GiveUp(Failed(ENOMEM));
      }
      if off > size {
        return GiveUp(Wrote(0));
      }
      var len := wanted;
      if off + len > maxSize {
        len := maxSize - off;
      }
      var at := off % BLOCK;
      if at + len > BLOCK {
        len := BLOCK - at;
      }
      var b := off / BLOCK + 2;
      if b >= blocks.Length {
        return GiveUp(Failed(EIO));
      }
      return InBlock(b, at, len);
    }

    /**
     `onefilefs_write` of `buf` at `off`; `fault` bytes at the end of the transfer cannot be copied
     from the caller, and zeros go to the block in their place. Returns the outcome and the new offset.
     */
    method Write(buf: seq<byte>, off: nat, fault: nat) returns (o: Outcome, off': nat)
      requires Valid()
      modifies this, blocks
      ensures Valid() && blocks[0] == old(blocks[0])
      ensures var p := PlanWrite(off, |buf|, old(size), MaxFileSize(blocks.Length), blocks.Length);
              match p
              case GiveUp(out) =>
                o == out && off' == off && size == old(size) && blocks[..] == old(blocks[..])
              case InBlock(b, at, len) =>
                var n := if fault <= len then len - fault else 0;
                && o == Wrote(n) && off' == off + n
                && off <= old(size) && n <= len <= |buf|
                && File() == StoreInto(old(File()), off, Padded(buf, n, len), n)
                && size == if old(size) < off' then off' else old(size)
    {
      hide Contents, StoreInto, Padded, Written, PlanWrite, MaxSize, InodeSize;
      PlanStaysInside(off, |buf|, size, blocks.Length);
      var p := Decide(off, |buf|);
      if p.GiveUp? {
        return p.o, off;
      }
      var ret := if fault <= p.len then fault else p.len;
      off' := PutBlock(p.b, p.at, Padded(buf, p.len - ret, p.len), p.len - ret, off);
      o := Wrote(p.len - ret);
    }

    /**
     `onefilefs_read`: the part of the asked range that lies in the file and in one block, less the
     `fault` bytes at its end that cannot be copied to the caller.
     */
    method Read(off: nat, len: nat, fault: nat) returns (buf: seq<byte>, off': nat)
      requires Valid()
      ensures var n := Readable(off, len, size);
              |buf| == (if fault <= n then n - fault else 0) && off' == off + |buf|
      ensures |buf| > 0 ==> off' <= size && buf == File()[off..off']
    {
      hide Contents, MaxSize, InodeSize;
      if off >= size || len == 0 {
        return [], off;
      }
      var n := if off + len > size then size - off else len;
      var at := off % BLOCK;
      if at + n > BLOCK {
        n := BLOCK - at;
      }
      var b := off / BLOCK + 2;
      var ret := if fault <= n then fault else n;
      RangeInBlock(blocks[..], size, off, n - ret);
      assert blocks[..][b] == blocks[b];
      buf := blocks[b][at..at + n - ret];
      off' := off + (n - ret);
    }

    /** The client's `write(fd, p, strlen(p))`: every byte can be copied. */
    method WriteCall(p: seq<byte>, pos: nat) returns (failed: bool, n: nat)
      requires Valid() && pos <= size
      modifies this, blocks
      ensures Valid() && blocks[0] == old(blocks[0])
      ensures failed <==> pos == MaxFileSize(blocks.Length)
      ensures n <= |p| && pos + n <= size <= MaxFileSize(blocks.Length)
      ensures if failed then n == 0 else p != [] ==> n > 0
      ensures File() == WriteInto(old(File()), pos, p[..n])
    {
      hide Contents, PlanWrite, MaxSize, InodeSize, WriteInto, StoreInto, Padded;
      PlanStaysInside(pos, |p|, size, blocks.Length);
      WriteNothing(File(), pos, p);
      ghost var file := File();
      var o, _ := Write(p, pos, 0);
      if o.Wrote? && pos < MaxFileSize(blocks.Length) {
        assert Padded(p, o.n, o.n)[..o.n] == Padded(p, o.n, o.n);
        StoreAll(file, pos, p[..o.n]);
      }
      failed := o.Failed?;
      n := if failed then 0 else o.n;
    }

    /** One `write` of the client's loop, behind the first `p` bytes of `data`. */
    method Redo(data: seq<byte>, off: nat, p: nat, ghost file: seq<byte>) returns (failed: bool, p': nat)
      requires Valid() && p <= |data| && off <= |file| && off + p <= size
      requires File() == SoFar(file, off, data, p)
      modifies this, blocks
      ensures Valid() && blocks[0] == old(blocks[0])
      ensures failed <==> off + p == MaxFileSize(blocks.Length)
      ensures p <= p' <= |data| && off + p' <= size <= MaxFileSize(blocks.Length)
      ensures !failed && p < |data| ==> p < p'
      ensures File() == SoFar(file, off, data, p')
    {
      hide Contents, WriteInto, SoFar, MaxSize, InodeSize;
      var n;
      failed, n := WriteCall(data[p..], off + p);
      WriteMore(file, off, data, p, n);
      p' := p + n;
    }

    /**
     The client: after the seek, `write` is repeated with the rest of the data until nothing is left
     or a call fails. The file ends up with all the data that fits below the maximum size.
     */
    method ClientWrite(data: seq<byte>, off: nat) returns (ok: bool)
      requires Valid() && off <= size
      modifies this, blocks
      ensures Valid() && blocks[0] == old(blocks[0])
      ensures ok <==> off < MaxFileSize(blocks.Length) && off + |data| <= MaxFileSize(blocks.Length)
      ensures var room := MaxFileSize(blocks.Length) - off;
              File() == WriteInto(old(File()), off, Fitting(data, room))
    {
      hide Contents, WriteInto, MaxSize, InodeSize;
      ghost var file, top := File(), MaxFileSize(blocks.Length);
      var p := 0;
      var more := true;
      ok := true;
      WriteNothing(file, off, data);
      while more
        invariant 0 <= p <= |data| && off + p <= size <= top
        invariant Valid() && blocks[0] == old(blocks[0])
        invariant File() == SoFar(file, off, data, p)
        invariant more ==> ok && (p == 0 || p < |data|)
        invariant !more && ok ==> p == |data| && off < top
        invariant !ok ==> !more && off + p == top && (p == 0 || p < |data|)
        decreases |data| - p, more
      {
        var failed;
        failed, p := Redo(data, off, p, file);
        ok := !failed;
        more := ok && p < |data|;
      }
      assert data[..p] == Fitting(data, top - off);
    }
  }
}
