/**
 One epoch of one device: writers inside `onefilefs_write` (demo/SINGLEFILE-FS/file.c:71-155), the
 probes that fire on their steps (src/kernel/fs-support/singlefilefs.c:174-310), the ordered
 workqueue, and the worker (src/kernel/snapshot.c:477-534), interleaved step by step.
 */
module Pipeline {
  import opened Bytes
  import opened Options
  import opened SingleFile
  import opened Worker
  import opened Slots

  /**
   Where a thread is inside its write. `end` is the file offset behind the bytes copied; `data` is what the
   copy puts into the buffer, the zeros for the bytes it fails to copy included.
   */
  datatype Pc =
    | Entered                                            // the entry probe has run
    | Locked                                             // the inode lock is taken
    | SuperRead                                          // the superblock has been read
    | DataRead(b: nat, at: nat, off: nat, data: seq<byte>, copied: nat)  // the data block has been read
    | DataChanged(b: nat, end: nat)                      // its buffer has been modified, in all of `data`
    | DataSent(end: nat)                                 // its buffer has been written
    | InodeRead(end: nat)                                // i_size is set, the inode block has been read
    | InodeChanged(end: nat)                             // its buffer has been modified
    | Finished                                           // nothing left but to unlock
    | Unlocked                                           // the inode lock is released
    | Faulted                                            // the read probe was given no buffer
  {
    predicate HoldsLock() {
      !Entered? && !Unlocked?
    }

    /** The block whose buffer differs from the disk, if any. */
    function Dirty(): Option<nat> {
      if DataChanged? then Some(b) else if InodeChanged? then Some(1) else None
    }

    /** The block whose write is being prepared, if any. */
    function Target(): Option<nat> {
      if DataRead? || DataChanged? then Some(b) else if InodeRead? || InodeChanged? then Some(1) else None
    }
  }

  /**
   `cache` is what the buffers show and `disk` what has been written; `size` is the in-memory inode
   size, `lock` the holder of the inode lock, `kept` the cache and the log of the worker. `file` is the
   file as its users see it: it changes in one go when a writer copies its data.
   */
  datatype State = State(
    cache: Disk, disk: Disk, size: nat, lock: Option<Key>,
    writers: map<Key, Pc>, slots: map<Key, Slot>, dead: set<Key>,
    queue: seq<Work>, kept: Kept, file: seq<byte>)

  datatype Step =
    | Enter(t: Key, junk: Slot)                // vfs_write is entered
    | Lock(t: Key)
    | ReadSuper(t: Key)
    | ReadData(t: Key, off: nat, buf: seq<byte>, copied: nat)
    | ChangeData(t: Key)
    | SendData(t: Key)
    | ReadInode(t: Key)
    | ChangeInode(t: Key)
    | SendInode(t: Key)
    | Unlock(t: Key)
    | Exit(t: Key)                             // vfs_write returns
    | Die(t: Key)                              // a thread ends, possibly without the return probe
    | Foreign(t: Key, slot: Option<Slot>)      // probes of a thread that is not writing here
    | Sweep(gone: set<Key>)                    // the periodic sweep removes slots of these dead threads
    | DoWork                                   // the worker takes the next item
    | Shrink(keys: set<u64>)                   // keys leave the cache

  /** The read probe of thread `t` after reading block `b`. */
  function Captured(s: State, t: Key, b: nat): map<Key, Slot>
    requires b < |s.cache| && b < TWO64
  {
    if t in s.slots then s.slots[t := Slot(s.cache[b], b)] else s.slots
  }

  /** What the read probe makes of a failed read: it looks into the buffer without asking whether there is one. */
  function NoBuffer(s: State, t: Key): Pc {
    if t in s.slots then Faulted else Finished
  }

  /** The write probe of thread `t` ahead of writing block `b`. */
  function Queued(s: State, t: Key, b: nat): seq<Work>
    requires b < TWO64
    requires t in s.slots ==> |s.slots[t].block| < 0x1_0000_0000
  {
    if t in s.slots then s.queue + [Work(b, s.slots[t].block)] else s.queue
  }

  /** What the write of `len` bytes at `off` comes to, from the superblock and the inode in memory. */
  function PlanOf(s: State, off: nat, len: nat): Plan
    requires IsDisk(s.cache)
  {
    PlanWrite(off, len, s.size, MaxSize(s.cache[0]), |s.cache|)
  }

  /** The types a step relies on. */
  ghost predicate Typed(s: State) {
    && IsDisk(s.cache) && IsDisk(s.disk) && |s.cache| == |s.disk|
    && s.size < TWO63
    && forall t :: t in s.writers ==> TypedPc(s, t)
  }

  ghost predicate TypedPc(s: State, t: Key)
    requires t in s.writers && IsDisk(s.cache)
  {
    var pc := s.writers[t];
    && (pc.DataRead? ==> 2 <= pc.b < |s.cache| && pc.at + |pc.data| <= BLOCK && pc.copied <= |pc.data|)
    && (pc.DataChanged? ==> 2 <= pc.b < |s.cache|)
    && (pc.Target().Some? && t in s.slots ==> |s.slots[t].block| == BLOCK)
  }

  ghost predicate Enabled(s: State, step: Step)
    requires Typed(s)
  {
    match step
    case Enter(t, _) => t !in s.writers && t !in s.dead && t !in s.slots
    case Lock(t) => t in s.writers && s.writers[t].Entered? && s.lock.None?
    case ReadSuper(t) => t in s.writers && s.writers[t].Locked?
    case ReadData(t, off, buf, copied) =>
      && t in s.writers && s.writers[t].SuperRead?
      && var p := PlanOf(s, off, |buf|);
         p.InBlock? ==> copied <= p.len <= |buf| && p.at + p.len <= BLOCK
    case ChangeData(t) => t in s.writers && s.writers[t].DataRead?
    case SendData(t) => t in s.writers && s.writers[t].DataChanged?
    case ReadInode(t) => t in s.writers && s.writers[t].DataSent?
    case ChangeInode(t) => t in s.writers && s.writers[t].InodeRead?
    case SendInode(t) => t in s.writers && s.writers[t].InodeChanged?
    case Unlock(t) => t in s.writers && s.writers[t].Finished?
    case Exit(t) => t in s.writers && s.writers[t].Unlocked?
    case Die(t) => t !in s.dead && (t in s.writers ==> s.writers[t].Entered? || s.writers[t].Unlocked?)
    case Foreign(t, _) => t !in s.writers && t !in s.dead
    case Sweep(gone) => gone <= s.dead
    case DoWork => s.queue != []
    case Shrink(_) => true
  }

  /** The state after a step; `max` is the capacity of the worker's cache. */
  ghost function Apply(s: State, step: Step, max: nat): State
    requires Typed(s) && Enabled(s, step)
  {
    match step
    case Enter(t, junk) => s.(writers := s.writers[t := Entered], slots := s.slots[t := junk])
    case Lock(t) => s.(writers := s.writers[t := Locked], lock := Some(t))
    case ReadSuper(t) => s.(writers := s.writers[t := SuperRead], slots := Captured(s, t, 0))
    case ReadData(t, off, buf, copied) =>
      (match PlanOf(s, off, |buf|)
       case GiveUp(o) => s.(writers := s.writers[t := if o == Failed(EIO) then NoBuffer(s, t) else Finished])
       case InBlock(b, at, len) =>
         s.(writers := s.writers[t := DataRead(b, at, off, Padded(buf, copied, len), copied)],
            slots := Captured(s, t, b)))
    case ChangeData(t) =>
      var pc := s.writers[t];
      s.(writers := s.writers[t := DataChanged(pc.b, pc.off + pc.copied)],
         cache := s.cache[pc.b := Splice(s.cache[pc.b], pc.at, pc.data)],
         file := if pc.off <= |s.file| then StoreInto(s.file, pc.off, pc.data, pc.copied) else s.file)
    case SendData(t) =>
      var pc := s.writers[t];
      s.(writers := s.writers[t := DataSent(pc.end)], queue := Queued(s, t, pc.b),
         disk := s.disk[pc.b := s.cache[pc.b]])
    case ReadInode(t) =>
      var end := s.writers[t].end;
      if s.size < end
      then s.(writers := s.writers[t := InodeRead(end)], size := end, slots := Captured(s, t, 1))
      else s.(writers := s.writers[t := Finished])
    case ChangeInode(t) =>
      s.(writers := s.writers[t := InodeChanged(s.writers[t].end)],
         cache := s.cache[1 := SetInodeSize(s.cache[1], s.size)])
    case SendInode(t) =>
      s.(writers := s.writers[t := Finished], queue := Queued(s, t, 1), disk := s.disk[1 := s.cache[1]])
    case Unlock(t) => s.(writers := s.writers[t := Unlocked], lock := None)
    case Exit(t) => s.(writers := s.writers - {t}, slots := s.slots - {t})
    case Die(t) => s.(writers := s.writers - {t}, dead := s.dead + {t})
    case Foreign(t, slot) => s.(slots := if slot.Some? then s.slots[t := slot.value] else s.slots - {t})
    case Sweep(gone) => s.(slots := s.slots - gone)
    case DoWork => s.(queue := s.queue[1..], kept := Process(s.kept, s.queue[0], max, CacheOnFailure))
    case Shrink(keys) => s.(kept := s.kept.(cached := Drop(s.kept.cached, keys)))
  }

  /** The first image of block `b` among `works`. */
  function FirstImage(works: seq<Work>, b: nat): Option<seq<byte>> {
    if works == [] then None
    else if works[0].blknr == b then Some(works[0].block)
    else FirstImage(works[1..], b)
  }

  // ---------------------------------------------------------------- the invariant

  /** The inode lock is held by exactly the writer that is past `inode_lock` and before `inode_unlock`. */
  ghost predicate LockInv(s: State) {
    && (s.lock.Some? ==> s.lock.value in s.writers)
    && forall t :: t in s.writers ==> (s.writers[t].HoldsLock() <==> s.lock == Some(t))
  }

  /** No thread inside a write is dead. */
  ghost predicate DeadInv(s: State) {
    s.dead !! s.writers.Keys
  }

  /** The block being modified by the lock holder, if any. */
  ghost function DirtyBlock(s: State): Option<nat> {
    if s.lock.Some? && s.lock.value in s.writers then s.writers[s.lock.value].Dirty() else None
  }

  /** Buffers and disk agree, outside the modify-to-write window of one block. */
  ghost predicate CacheInv(s: State)
    requires |s.cache| == |s.disk|
  {
    forall b :: 0 <= b < |s.disk| && DirtyBlock(s) != Some(b) ==> s.cache[b] == s.disk[b]
  }

  /** The slot of a writer about to write block `b` holds what the disk holds there. */
  ghost predicate SlotInv(s: State)
    requires |s.disk| < MAX_BLOCKS
  {
    forall t :: t in s.writers ==>
      && t in s.slots
      && var target := s.writers[t].Target();
         target.Some? ==>
           target.value < |s.disk| && s.slots[t] == Slot(s.disk[target.value], target.value)
  }

  /** The first image logged or queued of a block is its original; a block without image is unchanged. */
  ghost predicate OriginalsKept(works: seq<Work>, disk: Disk, disk0: Disk)
    requires |disk| == |disk0|
  {
    forall b :: 0 <= b < |disk0| ==> OriginalKept(works, disk, disk0, b)
  }

  ghost predicate OriginalKept(works: seq<Work>, disk: Disk, disk0: Disk, b: nat)
    requires b < |disk| == |disk0|
  {
    var image := FirstImage(works, b);
    if image.Some? then image.value == disk0[b] else disk[b] == disk0[b]
  }

  ghost predicate ImageInv(s: State, disk0: Disk)
    requires |s.disk| == |disk0|
  {
    OriginalsKept(s.kept.log + s.queue, s.disk, disk0)
  }

  ghost predicate IsImage(w: Work, blocks: nat) {
    w.blknr < blocks && |w.block| == BLOCK
  }

  /** The log has one image per block, and only logged blocks are cached. */
  ghost predicate LogInv(s: State) {
    && (forall w :: w in s.kept.log + s.queue ==> IsImage(w, |s.disk|))
    && DistinctWorks(s.kept.log)
    && (forall k :: k in s.kept.cached ==> Logs(s.kept.log, k))
  }

  /** The size in memory is the size on disk, outside the window in which the inode is updated. */
  ghost predicate SizeInv(s: State)
    requires IsDisk(s.cache) && IsDisk(s.disk)
  {
    && MaxSize(s.cache[0]) == MaxFileSize(|s.cache|)
    && s.size <= MaxFileSize(|s.cache|)
    && (forall t :: t in s.writers && s.writers[t].HoldsLock() ==> SizePc(s, s.writers[t]))
    && (s.lock.None? ==> s.size == InodeSize(s.disk[1]))
  }

  ghost predicate SizePc(s: State, pc: Pc)
    requires IsDisk(s.cache) && IsDisk(s.disk)
  {
    && (pc.DataRead? ==>
          && pc.off + |pc.data| <= MaxFileSize(|s.cache|) && pc.off <= s.size
          && (pc.b - 2) * BLOCK + pc.at == pc.off)
    && (pc.DataChanged? || pc.DataSent? ==> pc.end <= MaxFileSize(|s.cache|))
    && (pc.InodeRead? || pc.InodeChanged? ==> pc.end == s.size)
    && (pc.InodeChanged? ==> InodeSize(s.cache[1]) == s.size)
    && (!pc.InodeRead? && !pc.InodeChanged? ==> s.size == InodeSize(s.disk[1]))
  }

  ghost predicate Inv(s: State, disk0: Disk) {
    && IsDisk(disk0) && |s.disk| == |disk0|
    && Typed(s)
    && LockInv(s) && DeadInv(s) && CacheInv(s) && SlotInv(s) && ImageInv(s, disk0) && LogInv(s) && SizeInv(s)
  }

  /** The first mount: nothing queued, logged or cached, and no writer inside. */
  ghost predicate Init(s: State, disk0: Disk) {
    && Mounted(disk0, s.size) && s.cache == s.disk == disk0
    && s.lock.None? && s.writers == map[] && s.queue == [] && s.kept == Kept([], [])
    && s.file == Contents(disk0, s.size)
  }

  lemma {:induction false} InitInv(s: State, disk0: Disk)
    requires Init(s, disk0)
    ensures Inv(s, disk0)
  {
    hide MaxSize, InodeSize;
  }

  // ---------------------------------------------------------------- every step keeps the invariant

  lemma {:induction false} EnterKeeps(s: State, t: Key, junk: Slot, disk0: Disk, max: nat)
    requires Inv(s, disk0) && Enabled(s, Enter(t, junk))
    ensures Inv(Apply(s, Enter(t, junk), max), disk0)
  {
    hide MaxSize, InodeSize, OriginalsKept, Logs, Process, Drop, StoreInto, Padded, PlanWrite, Splice, SetInodeSize, FirstImage;
  }

  lemma {:induction false} LockKeeps(s: State, t: Key, disk0: Disk, max: nat)
    requires Inv(s, disk0) && Enabled(s, Lock(t))
    ensures Inv(Apply(s, Lock(t), max), disk0)
  {
    hide MaxSize, InodeSize, OriginalsKept, Logs;
  }

  lemma {:induction false} ReadSuperKeeps(s: State, t: Key, disk0: Disk, max: nat)
    requires Inv(s, disk0) && Enabled(s, ReadSuper(t))
    ensures Inv(Apply(s, ReadSuper(t), max), disk0)
  {
    hide MaxSize, InodeSize, OriginalsKept, Logs;
  }

  /** A writer that gives up changes nothing but its own place. */
  lemma {:induction false} GiveUpKeeps(s: State, t: Key, off: nat, buf: seq<byte>, copied: nat, disk0: Disk, max: nat)
    requires Inv(s, disk0) && Enabled(s, ReadData(t, off, buf, copied)) && PlanOf(s, off, |buf|).GiveUp?
    ensures Inv(Apply(s, ReadData(t, off, buf, copied), max), disk0)
  {
    hide MaxSize, InodeSize, OriginalsKept, Logs, PlanWrite, Process, Drop, StoreInto, Padded, Splice, SetInodeSize, FirstImage;
  }

  lemma {:induction false} CaptureKeeps(s: State, t: Key, off: nat, buf: seq<byte>, copied: nat, disk0: Disk, max: nat)
    requires Inv(s, disk0) && Enabled(s, ReadData(t, off, buf, copied)) && PlanOf(s, off, |buf|).InBlock?
    ensures Inv(Apply(s, ReadData(t, off, buf, copied), max), disk0)
  {
    hide MaxSize, InodeSize, OriginalsKept, Logs, PlanWrite, Process, Drop, StoreInto, Padded, Splice, SetInodeSize, FirstImage;
    PlanStaysInside(off, |buf|, s.size, |s.cache|);
  }

  lemma {:induction false} ReadDataKeeps(s: State, t: Key, off: nat, buf: seq<byte>, copied: nat, disk0: Disk, max: nat)
    requires Inv(s, disk0) && Enabled(s, ReadData(t, off, buf, copied))
    ensures Inv(Apply(s, ReadData(t, off, buf, copied), max), disk0)
  {
    hide Apply, PlanWrite, LockInv, CacheInv, SlotInv, ImageInv, LogInv, SizeInv;
    if PlanOf(s, off, |buf|).GiveUp? {
      GiveUpKeeps(s, t, off, buf, copied, disk0, max);
    } else {
      CaptureKeeps(s, t, off, buf, copied, disk0, max);
    }
  }

  lemma {:induction false} ChangeDataKeeps(s: State, t: Key, disk0: Disk, max: nat)
    requires Inv(s, disk0) && Enabled(s, ChangeData(t))
    ensures Inv(Apply(s, ChangeData(t), max), disk0)
  {
    hide MaxSize, InodeSize, OriginalsKept, Logs, Splice, StoreInto;
  }

  /** Taking over the new size opens the window in which memory and inode block differ. */
  lemma {:induction false} ReadInodeKeepsSize(s: State, t: Key, max: nat)
    requires Typed(s) && LockInv(s) && SizeInv(s) && Enabled(s, ReadInode(t))
    ensures SizeInv(Apply(s, ReadInode(t), max)) && LockInv(Apply(s, ReadInode(t), max))
    ensures Apply(s, ReadInode(t), max).size <= MaxFileSize(|s.cache|)
  {
    hide MaxSize, InodeSize, Captured;
    var pc := s.writers[t];
    assert SizePc(s, pc) && s.lock == Some(t);
  }

  lemma {:induction false} ReadInodeKeeps(s: State, t: Key, disk0: Disk, max: nat)
    requires Inv(s, disk0) && Enabled(s, ReadInode(t))
    ensures Inv(Apply(s, ReadInode(t), max), disk0)
  {
    hide MaxSize, InodeSize, OriginalsKept, Logs, SizeInv;
    ReadInodeKeepsSize(s, t, max);
  }

  lemma {:induction false} ChangeInodeKeeps(s: State, t: Key, disk0: Disk, max: nat)
    requires Inv(s, disk0) && Enabled(s, ChangeInode(t))
    ensures Inv(Apply(s, ChangeInode(t), max), disk0)
  {
    hide MaxSize, InodeSize, OriginalsKept, Logs, SetInodeSize;
  }

  lemma {:induction false} UnlockKeeps(s: State, t: Key, disk0: Disk, max: nat)
    requires Inv(s, disk0) && Enabled(s, Unlock(t))
    ensures Inv(Apply(s, Unlock(t), max), disk0)
  {
    hide MaxSize, InodeSize, OriginalsKept, Logs;
  }

  lemma {:induction false} ExitKeeps(s: State, t: Key, disk0: Disk, max: nat)
    requires Inv(s, disk0) && Enabled(s, Exit(t))
    ensures Inv(Apply(s, Exit(t), max), disk0)
  {
    hide MaxSize, InodeSize, OriginalsKept, Logs;
  }

  lemma {:induction false} DieKeeps(s: State, t: Key, disk0: Disk, max: nat)
    requires Inv(s, disk0) && Enabled(s, Die(t))
    ensures Inv(Apply(s, Die(t), max), disk0)
  {
    hide MaxSize, InodeSize, OriginalsKept, Logs;
  }

  lemma {:induction false} ForeignKeeps(s: State, t: Key, slot: Option<Slot>, disk0: Disk, max: nat)
    requires Inv(s, disk0) && Enabled(s, Foreign(t, slot))
    ensures Inv(Apply(s, Foreign(t, slot), max), disk0)
  {
    hide MaxSize, InodeSize, OriginalsKept, Logs;
  }

  lemma {:induction false} SweepKeeps(s: State, gone: set<Key>, disk0: Disk, max: nat)
    requires Inv(s, disk0) && Enabled(s, Sweep(gone))
    ensures Inv(Apply(s, Sweep(gone), max), disk0)
  {
    hide MaxSize, InodeSize, OriginalsKept, Logs;
  }

  lemma {:induction false} ShrinkKeeps(s: State, keys: set<u64>, disk0: Disk, max: nat)
    requires Inv(s, disk0) && Enabled(s, Shrink(keys))
    ensures Inv(Apply(s, Shrink(keys), max), disk0)
  {
    hide MaxSize, InodeSize, OriginalsKept, Logs, Drop;
    DropElements(s.kept.cached, keys);
  }

  lemma {:induction false} FirstImageAppend(works: seq<Work>, w: Work, b: nat)
    ensures FirstImage(works + [w], b) ==
            if FirstImage(works, b).Some? then FirstImage(works, b)
            else if w.blknr == b then Some(w.block) else None
  {
    if works == [] {
      assert works + [w] == [w];
    } else {
      FirstImageAppend(works[1..], w, b);
      assert (works + [w])[1..] == works[1..] + [w];
    }
  }

  /** Dropping a work whose block is imaged before changes no first image. */
  lemma {:induction false} FirstImageSkip(log: seq<Work>, w: Work, queue: seq<Work>, b: nat)
    requires Logs(log, w.blknr)
    ensures FirstImage(log + [w] + queue, b) == FirstImage(log + queue, b)
  {
    if log[0].blknr == w.blknr || |log| == 1 {
      assert log + [w] + queue == [log[0]] + (log[1..] + [w] + queue);
      assert log + queue == [log[0]] + (log[1..] + queue);
      if log[0].blknr != b {
        FirstImageOther(log[1..], w, queue, b);
      }
    } else {
      var i :| 0 <= i < |log| && log[i].blknr == w.blknr;
      assert log[1..][i - 1].blknr == w.blknr;
      FirstImageSkip(log[1..], w, queue, b);
      assert (log + [w] + queue)[1..] == log[1..] + [w] + queue;
      assert (log + queue)[1..] == log[1..] + queue;
    }
  }

  /** A work of another block never matters. */
  lemma {:induction false} FirstImageOther(log: seq<Work>, w: Work, queue: seq<Work>, b: nat)
    requires w.blknr != b
    ensures FirstImage(log + [w] + queue, b) == FirstImage(log + queue, b)
  {
    if log == [] {
      assert log + [w] + queue == [w] + queue && log + queue == queue;
    } else {
      FirstImageOther(log[1..], w, queue, b);
      assert (log + [w] + queue)[1..] == log[1..] + [w] + queue;
      assert (log + queue)[1..] == log[1..] + queue;
    }
  }

  /** Queueing the old contents of a block ahead of writing it keeps its original in front. */
  lemma {:induction false} SendKeepsImages(works: seq<Work>, w: Work, disk: Disk, disk': Disk, disk0: Disk)
    requires |disk| == |disk'| == |disk0| && w.blknr < |disk| && w.block == disk[w.blknr]
    requires OriginalsKept(works, disk, disk0)
    requires forall c :: 0 <= c < |disk| && c != w.blknr ==> disk'[c] == disk[c]
    ensures OriginalsKept(works + [w], disk', disk0)
  {
    hide FirstImage;
    forall c | 0 <= c < |disk0|
      ensures OriginalKept(works + [w], disk', disk0, c)
    {
      assert OriginalKept(works, disk, disk0, c);
      FirstImageAppend(works, w, c);
    }
  }

  lemma {:induction false} SendDataKeeps(s: State, t: Key, disk0: Disk, max: nat)
    requires Inv(s, disk0) && Enabled(s, SendData(t))
    ensures Inv(Apply(s, SendData(t), max), disk0)
  {
    hide MaxSize, InodeSize, OriginalsKept, Logs, Process, Drop, StoreInto, Padded, PlanWrite, Splice, SetInodeSize, FirstImage;
    var s' := Apply(s, SendData(t), max);
    var b := s.writers[t].b;
    var w := Work(b, s.slots[t].block);
    SendKeepsImages(s.kept.log + s.queue, w, s.disk, s'.disk, disk0);
    assert Typed(s') && LockInv(s') && CacheInv(s') && SlotInv(s');
    assert s.kept.log + s.queue + [w] == s'.kept.log + s'.queue;
  }

  /** With the inode block written, memory and disk agree on the size again. */
  lemma {:induction false} SendInodeKeepsSize(s: State, t: Key, max: nat)
    requires Typed(s) && LockInv(s) && SizeInv(s) && Enabled(s, SendInode(t))
    ensures SizeInv(Apply(s, SendInode(t), max)) && LockInv(Apply(s, SendInode(t), max))
  {
    hide MaxSize, InodeSize, Queued;
    assert SizePc(s, s.writers[t]) && s.lock == Some(t);
  }

  lemma {:induction false} SendInodeKeeps(s: State, t: Key, disk0: Disk, max: nat)
    requires Inv(s, disk0) && Enabled(s, SendInode(t))
    ensures Inv(Apply(s, SendInode(t), max), disk0)
  {
    hide MaxSize, InodeSize, OriginalsKept, Logs, Process, Drop, StoreInto, Padded, PlanWrite, Splice, SetInodeSize,
         FirstImage, SizeInv;
    SendInodeKeepsSize(s, t, max);
    var s' := Apply(s, SendInode(t), max);
    var w := Work(1, s.slots[t].block);
    SendKeepsImages(s.kept.log + s.queue, w, s.disk, s'.disk, disk0);
    assert s.kept.log + s.queue + [w] == s'.kept.log + s'.queue;
  }

  /** One work processed: the log keeps one image per block and covers the cache. */
  lemma {:induction false} ProcessKeepsLog(k: Kept, w: Work, max: nat)
    requires DistinctWorks(k.log) && forall b :: b in k.cached ==> Logs(k.log, b)
    ensures var k' := Process(k, w, max, CacheOnFailure);
            && DistinctWorks(k'.log) && (forall b :: b in k'.cached ==> Logs(k'.log, b))
            && k'.log == if Logs(k.log, w.blknr) then k.log else k.log + [w]
  {
    hide Process;
    ProcessLogs(k, w, max, CacheOnFailure);
  }

  lemma {:induction false} DoWorkKeeps(s: State, disk0: Disk, max: nat)
    requires Inv(s, disk0) && Enabled(s, DoWork)
    ensures Inv(Apply(s, DoWork, max), disk0)
  {
    hide MaxSize, InodeSize, FirstImage, Logs, Process;
    var s' := Apply(s, DoWork, max);
    var w, rest := s.queue[0], s.queue[1..];
    ProcessKeepsLog(s.kept, w, max);
    assert s.kept.log + s.queue == s.kept.log + [w] + rest;
    forall b | 0 <= b < |disk0|
      ensures OriginalKept(s'.kept.log + s'.queue, s'.disk, disk0, b)
    {
      assert OriginalKept(s.kept.log + s.queue, s.disk, disk0, b);
      if Logs(s.kept.log, w.blknr) {
        FirstImageSkip(s.kept.log, w, rest, b);
      }
    }
  }

  /** Whatever the step, the invariant holds afterwards. */
  lemma {:induction false} StepKeeps(s: State, step: Step, disk0: Disk, max: nat)
    requires Inv(s, disk0) && Enabled(s, step)
    ensures Inv(Apply(s, step, max), disk0)
  {
    hide Apply, Inv, Enabled;
    match step
    case Enter(t, junk) => EnterKeeps(s, t, junk, disk0, max);
    case Lock(t) => LockKeeps(s, t, disk0, max);
    case ReadSuper(t) => ReadSuperKeeps(s, t, disk0, max);
    case ReadData(t, off, buf, copied) => ReadDataKeeps(s, t, off, buf, copied, disk0, max);
    case ChangeData(t) => ChangeDataKeeps(s, t, disk0, max);
    case SendData(t) => SendDataKeeps(s, t, disk0, max);
    case ReadInode(t) => ReadInodeKeeps(s, t, disk0, max);
    case ChangeInode(t) => ChangeInodeKeeps(s, t, disk0, max);
    case SendInode(t) => SendInodeKeeps(s, t, disk0, max);
    case Unlock(t) => UnlockKeeps(s, t, disk0, max);
    case Exit(t) => ExitKeeps(s, t, disk0, max);
    case Die(t) => DieKeeps(s, t, disk0, max);
    case Foreign(t, slot) => ForeignKeeps(s, t, slot, disk0, max);
    case Sweep(gone) => SweepKeeps(s, gone, disk0, max);
    case DoWork => DoWorkKeeps(s, disk0, max);
    case Shrink(keys) => ShrinkKeeps(s, keys, disk0, max);
  }

  /** `s` is reached from a first mount of `disk0` by the steps of `run`. */
  ghost predicate Reached(s0: State, run: seq<Step>, s: State, disk0: Disk, max: nat)
    decreases |run|
  {
    if run == [] then Init(s, disk0) && s == s0
    else
      var step := run[|run| - 1];
      exists p :: Reached(s0, run[..|run| - 1], p, disk0, max) && Typed(p) && Enabled(p, step) && s == Apply(p, step, max)
  }

  lemma {:induction false} ReachedInv(s0: State, run: seq<Step>, s: State, disk0: Disk, max: nat)
    requires Reached(s0, run, s, disk0, max)
    ensures Inv(s, disk0)
    decreases |run|
  {
    hide Inv, Apply, Enabled, Typed;
    if run == [] {
      InitInv(s, disk0);
    } else {
      var step := run[|run| - 1];
      var p :| Reached(s0, run[..|run| - 1], p, disk0, max) && Typed(p) && Enabled(p, step) && s == Apply(p, step, max);
      ReachedInv(s0, run[..|run| - 1], p, disk0, max);
      StepKeeps(p, step, disk0, max);
    }
  }
}
