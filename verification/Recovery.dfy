/**
 The promise of the whole pipeline: whatever the writers, the worker and the cache do, replaying the
 drained log over the final device gives back the device of the first mount.
 */
module Recovery {
  import opened Bytes
  import opened Options
  import opened Snapblocks
  import opened Restore
  import opened RestoreEffect
  import opened SingleFile
  import opened Worker
  import opened Slots
  import opened Pipeline

  // ---------------------------------------------------------------- what every reachable state has

  /**
   In every reachable state each block is as it was at the first mount, or its original contents are
   the first image in the log and the queue. Buffers may be ahead of the disk only in the block that
   the holder of the inode lock is modifying.
   */
  lemma {:induction false} BeforeImages(s0: State, run: seq<Step>, s: State, disk0: Disk, max: nat, b: nat)
    requires Reached(s0, run, s, disk0, max) && b < |disk0|
    ensures |s.disk| == |s.cache| == |disk0|
    ensures s.disk[b] == disk0[b] || FirstImage(s.kept.log + s.queue, b) == Some(disk0[b])
    ensures s.cache[b] != s.disk[b] ==> s.lock.Some? && s.lock.value in s.writers
                                        && s.writers[s.lock.value].Dirty() == Some(b)
  {
    hide Reached, MaxSize, InodeSize, FirstImage, Logs;
    ReachedInv(s0, run, s, disk0, max);
    assert OriginalKept(s.kept.log + s.queue, s.disk, disk0, b);
  }

  /**
   Whenever a thread is about to write a block out, its slot holds the contents the disk still has
   there, for exactly that block; so that is what the next queue item carries.
   */
  lemma {:induction false} CaptureIsPreImage(s0: State, run: seq<Step>, s: State, disk0: Disk, max: nat, step: Step)
    requires Reached(s0, run, s, disk0, max) && (step.SendData? || step.SendInode?)
    requires Typed(s) && Enabled(s, step)
    ensures var b := if step.SendData? then s.writers[step.t].b else 1;
            && b < |s.disk| && b < TWO64
            && step.t in s.slots && s.slots[step.t] == Slot(s.disk[b], b)
            && |s.disk[b]| == BLOCK
            && Apply(s, step, max).queue == s.queue + [Work(b, s.disk[b])]
  {
    hide Reached, MaxSize, InodeSize, OriginalsKept, Logs;
    ReachedInv(s0, run, s, disk0, max);
  }

  predicate OwnStep(step: Step, t: Key) {
    !step.Sweep? && !step.DoWork? && !step.Shrink? && step.t == t
  }

  /**
   No step of anything but the thread itself changes or removes the slot of a writer: other threads have
   slots of their own, and the sweep only takes those of threads that are dead, which a writer is not.
   */
  lemma {:induction false} SlotsAreUndisturbed(s: State, step: Step, t: Key, disk0: Disk, max: nat)
    requires Inv(s, disk0) && Enabled(s, step) && t in s.writers
    requires !OwnStep(step, t)
    ensures t in s.slots && t in Apply(s, step, max).slots && t in Apply(s, step, max).writers
    ensures Apply(s, step, max).slots[t] == s.slots[t]
    ensures Apply(s, step, max).writers[t] == s.writers[t]
  {
    hide MaxSize, InodeSize, OriginalsKept, Logs, CacheInv, SizeInv;
  }

  /** `s'` is reached from `s` by the steps of `run`. */
  ghost predicate Continues(s: State, run: seq<Step>, s': State, max: nat)
    decreases |run|
  {
    if run == [] then s' == s
    else
      var step := run[|run| - 1];
      exists p :: Continues(s, run[..|run| - 1], p, max) && Typed(p) && Enabled(p, step) && s' == Apply(p, step, max)
  }

  /** So whatever happens between two steps of a writer, its slot is at the second what it was after the first. */
  lemma {:induction false} SlotSurvives(s: State, run: seq<Step>, s': State, t: Key, disk0: Disk, max: nat)
    requires Inv(s, disk0) && t in s.writers && Continues(s, run, s', max)
    requires forall i :: 0 <= i < |run| ==> !OwnStep(run[i], t)
    ensures Inv(s', disk0) && t in s'.writers && s'.writers[t] == s.writers[t]
    ensures t in s.slots && t in s'.slots && s'.slots[t] == s.slots[t]
    decreases |run|
  {
    hide Apply, Enabled, Typed, OwnStep, LockInv, DeadInv, CacheInv, SizeInv, LogInv, ImageInv;
    if run != [] {
      var front, step := run[..|run| - 1], run[|run| - 1];
      var p :| Continues(s, front, p, max) && Typed(p) && Enabled(p, step) && s' == Apply(p, step, max);
      assert forall i :: 0 <= i < |front| ==> front[i] == run[i];
      SlotSurvives(s, front, p, t, disk0, max);
      SlotsAreUndisturbed(p, step, t, disk0, max);
      StepKeeps(p, step, disk0, max);
    }
  }

  /** Every block that a writer reads goes to its slot, as the buffer shows it. */
  lemma {:induction false} ReadsAreCaptured(s0: State, run: seq<Step>, s: State, step: Step, disk0: Disk, max: nat)
    requires Reached(s0, run, s, disk0, max) && Typed(s) && Enabled(s, step)
    ensures step.ReadSuper? ==> Apply(s, step, max).slots == s.slots[step.t := Slot(s.cache[0], 0)]
    ensures step.ReadData? && step.off <= s.size && step.off < MaxFileSize(|s.disk|) ==>
              var b := step.off / 4096 + 2;
              b < |s.disk| && Apply(s, step, max).slots == s.slots[step.t := Slot(s.disk[b], b)]
    ensures step.ReadInode? && s.size < s.writers[step.t].end ==>
              Apply(s, step, max).slots == s.slots[step.t := Slot(s.disk[1], 1)]
  {
    hide Reached, MaxSize, InodeSize, OriginalsKept, Logs, LogInv, ImageInv, PlanWrite, Padded;
    ReachedInv(s0, run, s, disk0, max);
    if step.ReadData? {
      PlanStaysInside(step.off, |step.buf|, s.size, |s.cache|);
    }
  }

  /** A thread that returns from its write has no slot any more, and may write again. */
  lemma {:induction false} WritesAgain(s: State, t: Key, junk: Slot, disk0: Disk, max: nat)
    requires Inv(s, disk0) && Enabled(s, Step.Exit(t))
    ensures Typed(Apply(s, Step.Exit(t), max)) && Enabled(Apply(s, Step.Exit(t), max), Enter(t, junk))
    ensures forall k :: k != t ==> (k in Apply(s, Step.Exit(t), max).slots <==> k in s.slots)
  {
    hide MaxSize, InodeSize, OriginalsKept, Logs, LogInv, ImageInv, CacheInv, SizeInv;
    ExitKeeps(s, t, disk0, max);
  }

  // ---------------------------------------------------------------- writes are atomic

  /** The file the buffers show: ahead of the inode size while a write that grows it is under way. */
  ghost function SizeSeen(s: State): nat {
    if s.lock.Some? && s.lock.value in s.writers then
      var pc := s.writers[s.lock.value];
      if (pc.DataChanged? || pc.DataSent?) && s.size < pc.end then pc.end else s.size
    else s.size
  }

  ghost predicate FileInv(s: State)
    requires IsDisk(s.cache)
  {
    SizeSeen(s) <= MaxFileSize(|s.cache|) && s.file == Contents(s.cache, SizeSeen(s))
  }

  /** The inode block holds no file data. */
  lemma {:induction false} ContentsIgnoresInode(disk: Disk, disk': Disk, size: nat)
    requires IsDisk(disk) && IsDisk(disk') && |disk| == |disk'| && size <= MaxFileSize(|disk|)
    requires forall b :: 2 <= b < |disk| ==> disk'[b] == disk[b]
    ensures Contents(disk', size) == Contents(disk, size)
  {
    var f, g := Contents(disk, size), Contents(disk', size);
    assert forall k :: 0 <= k < size ==> f[k] == g[k];
  }

  /** The copy stores its bytes in the file in one go; how many count is what the write will return. */
  lemma {:induction false} ChangeDataIsAtomic(s: State, t: Key, disk0: Disk, max: nat)
    requires Inv(s, disk0) && Enabled(s, ChangeData(t)) && FileInv(s)
    ensures FileInv(Apply(s, ChangeData(t), max))
    ensures var pc := s.writers[t];
            pc.off <= |s.file| && Apply(s, ChangeData(t), max).file == StoreInto(s.file, pc.off, pc.data, pc.copied)
  {
    hide MaxSize, InodeSize, OriginalsKept, Logs, Splice, StoreInto, Contents, SetInodeSize;
    var pc, s' := s.writers[t], Apply(s, ChangeData(t), max);
    var end := pc.off + pc.copied;
    assert s.cache[1] == s.disk[1];
    WrittenIsSplice(s.cache, s.size, pc.off, pc.b, pc.at, pc.data, pc.copied);
    ContentsIgnoresInode(Written(s.cache, s.size, pc.b, pc.at, pc.data, end), s'.cache, SizeSeen(s'));
  }

  lemma {:induction false} ChangeInodeIsInvisible(s: State, t: Key, disk0: Disk, max: nat)
    requires Inv(s, disk0) && Enabled(s, ChangeInode(t)) && FileInv(s)
    ensures FileInv(Apply(s, ChangeInode(t), max))
  {
    hide MaxSize, InodeSize, OriginalsKept, Logs, Contents, SetInodeSize;
    ContentsIgnoresInode(s.cache, Apply(s, ChangeInode(t), max).cache, s.size);
  }

  /** All other steps change neither the file nor what the buffers show of it. */
  lemma {:induction false} OtherStepsAreInvisible(s: State, step: Step, disk0: Disk, max: nat)
    requires Inv(s, disk0) && Enabled(s, step) && FileInv(s) && !step.ChangeData? && !step.ChangeInode?
    ensures FileInv(Apply(s, step, max)) && Apply(s, step, max).file == s.file
  {
    hide MaxSize, InodeSize, OriginalsKept, Logs, CacheInv, SlotInv, LogInv, PlanWrite, Contents, Process, Drop, Padded;
  }

  lemma {:induction false} ReachedFile(s0: State, run: seq<Step>, s: State, disk0: Disk, max: nat)
    requires Reached(s0, run, s, disk0, max)
    ensures Inv(s, disk0) && FileInv(s)
    decreases |run|
  {
    hide Apply, Enabled, Inv, FileInv;
    ReachedInv(s0, run, s, disk0, max);
    if run == [] {
      InitFile(s, disk0);
    } else {
      var step := run[|run| - 1];
      var p :| Reached(s0, run[..|run| - 1], p, disk0, max) && Typed(p) && Enabled(p, step) && s == Apply(p, step, max);
      ReachedFile(s0, run[..|run| - 1], p, disk0, max);
      match step
      case ChangeData(t) => ChangeDataIsAtomic(p, t, disk0, max);
      case ChangeInode(t) => ChangeInodeIsInvisible(p, t, disk0, max);
      case _ => OtherStepsAreInvisible(p, step, disk0, max);
    }
  }

  lemma {:induction false} InitFile(s: State, disk0: Disk)
    requires Init(s, disk0)
    ensures FileInv(s)
  {
  }

  lemma {:induction false} UnlockedIsConsistent(s: State, disk0: Disk)
    requires Inv(s, disk0) && FileInv(s) && s.lock.None?
    ensures s.cache == s.disk && Mounted(s.disk, s.size) && Contents(s.disk, s.size) == s.file
  {
    hide MaxSize, InodeSize, OriginalsKept, Logs, Contents;
    assert forall b :: 0 <= b < |s.disk| ==> s.cache[b] == s.disk[b];
    assert s.cache == s.disk;
  }

  /**
   Whenever the inode is not locked, the disk is a consistent file system whose file is what the
   writes made of it one after the other, each in one go at its copy.
   */
  lemma {:induction false} DiskIsConsistent(s0: State, run: seq<Step>, s: State, disk0: Disk, max: nat)
    requires Reached(s0, run, s, disk0, max) && s.lock.None?
    ensures s.cache == s.disk && Mounted(s.disk, s.size) && Contents(s.disk, s.size) == s.file
  {
    hide Reached, Inv, FileInv, Contents;
    ReachedFile(s0, run, s, disk0, max);
    UnlockedIsConsistent(s, disk0);
  }

  // ---------------------------------------------------------------- one write, from its read to its unlock

  /** A write of `data` at `off`, of which `copied` bytes count, to the file `before`. */
  datatype Job = Job(before: seq<byte>, off: nat, data: seq<byte>, copied: nat) {
    ghost predicate Fits() {
      off <= |before| && copied <= |data|
    }

    function After(): seq<byte>
      requires off <= |before| && copied <= |data|
    {
      StoreInto(before, off, data, copied)
    }
  }

  /** Thread `t` holds the lock and is somewhere inside that write. */
  ghost predicate Doing(s: State, t: Key, j: Job)
    requires j.Fits()
  {
    && t in s.writers && s.lock == Some(t)
    && match s.writers[t]
       case DataRead(_, _, off, data, copied) =>
         off == j.off && data == j.data && copied == j.copied && s.file == j.before && s.size == |j.before|
       case DataChanged(_, end) => end == j.off + j.copied && s.file == j.After() && s.size == |j.before|
       case DataSent(end) => end == j.off + j.copied && s.file == j.After() && s.size == |j.before|
       case InodeRead(_) => s.file == j.After() && s.size == |j.After()|
       case InodeChanged(_) => s.file == j.After() && s.size == |j.After()|
       case Finished => s.file == j.After() && s.size == |j.After()|
       case _ => false
  }

  lemma {:induction false} DoingStep(s: State, step: Step, t: Key, j: Job, disk0: Disk, max: nat)
    requires Inv(s, disk0) && Enabled(s, step) && j.Fits() && Doing(s, t, j) && step != Unlock(t)
    ensures Doing(Apply(s, step, max), t, j)
  {
    hide MaxSize, InodeSize, OriginalsKept, Logs, CacheInv, SlotInv, LogInv, SizeInv, PlanWrite, Process, Drop, Padded,
         Splice, SetInodeSize, StoreInto;
  }

  lemma {:induction false} FileStep(s: State, step: Step, disk0: Disk, max: nat)
    requires Inv(s, disk0) && Enabled(s, step) && FileInv(s)
    ensures Inv(Apply(s, step, max), disk0) && FileInv(Apply(s, step, max))
  {
    hide Apply, Enabled, Inv, FileInv;
    StepKeeps(s, step, disk0, max);
    match step
    case ChangeData(t) => ChangeDataIsAtomic(s, t, disk0, max);
    case ChangeInode(t) => ChangeInodeIsInvisible(s, t, disk0, max);
    case _ => OtherStepsAreInvisible(s, step, disk0, max);
  }

  lemma {:induction false} DoingRun(s: State, run: seq<Step>, s': State, t: Key, j: Job, disk0: Disk, max: nat)
    requires Inv(s, disk0) && FileInv(s) && j.Fits() && Doing(s, t, j) && Continues(s, run, s', max)
    requires forall i :: 0 <= i < |run| ==> run[i] != Unlock(t)
    ensures Inv(s', disk0) && FileInv(s') && Doing(s', t, j)
    decreases |run|
  {
    hide Apply, Enabled, Typed, Doing, LockInv, DeadInv, CacheInv, SizeInv, SlotInv, LogInv, ImageInv;
    if run != [] {
      var front, step := run[..|run| - 1], run[|run| - 1];
      var p :| Continues(s, front, p, max) && Typed(p) && Enabled(p, step) && s' == Apply(p, step, max);
      assert forall i :: 0 <= i < |front| ==> front[i] == run[i];
      DoingRun(s, front, p, t, j, disk0, max);
      DoingStep(p, step, t, j, disk0, max);
      FileStep(p, step, disk0, max);
    }
  }

  /** The write that a call of `onefilefs_write` at `off` with `buf` is to do, `copied` bytes being copied. */
  function JobOf(s: State, off: nat, buf: seq<byte>, copied: nat): (j: Job)
    requires IsDisk(s.disk)
  {
    match PlanWrite(off, |buf|, s.size, MaxFileSize(|s.disk|), |s.disk|)
    case GiveUp(_) => Job(s.file, 0, [], 0)
    case InBlock(_, _, len) => if copied <= len <= |buf| then Job(s.file, off, Padded(buf, copied, len), copied) else Job(s.file, 0, [], 0)
  }

  /** Having read the data block, or given up, the thread is inside the write of its caller's bytes. */
  lemma {:induction false} ReadStartsJob(s: State, t: Key, off: nat, buf: seq<byte>, copied: nat, disk0: Disk, max: nat)
    requires Inv(s, disk0) && FileInv(s) && Enabled(s, ReadData(t, off, buf, copied))
    ensures s.file == Contents(s.disk, s.size) && |s.file| == s.size && Mounted(s.disk, s.size)
    ensures var p := PlanWrite(off, |buf|, s.size, MaxFileSize(|s.disk|), |s.disk|);
            && (p.InBlock? ==> copied <= p.len <= |buf| && off <= s.size)
            && JobOf(s, off, buf, copied).Fits()
            && (p != GiveUp(Failed(EIO)) ==> Doing(Apply(s, ReadData(t, off, buf, copied), max), t, JobOf(s, off, buf, copied)))
  {
    hide MaxSize, InodeSize, OriginalsKept, Logs, LogInv, ImageInv, PlanWrite, Padded, Contents, StoreInto;
    PlanStaysInside(off, |buf|, s.size, |s.cache|);
    assert s.cache == s.disk;
    StoreNothing(s.file);
  }

  lemma {:induction false} StoreNothing(file: seq<byte>)
    ensures StoreInto(file, 0, [], 0) == file
  {
  }

  /**
   A write in the middle of everything else is the write of a single thread: from the moment it reads the
   data block to the moment it unlocks the inode, the file on disk goes from what it was to that with the
   caller's bytes stored at the caller's offset, or, if the write gives up, stays what it was.
   */
  lemma {:induction false} WriteIsOneStore(s0: State, run: seq<Step>, s: State, disk0: Disk, max: nat,
                                           t: Key, off: nat, buf: seq<byte>, copied: nat, rest: seq<Step>, s': State)
    requires Reached(s0, run, s, disk0, max) && Typed(s) && Enabled(s, ReadData(t, off, buf, copied))
    requires Continues(Apply(s, ReadData(t, off, buf, copied), max), rest, s', max)
    requires (forall i :: 0 <= i < |rest| ==> rest[i] != Unlock(t)) && Typed(s') && Enabled(s', Unlock(t))
    ensures Mounted(s.disk, s.size)
    ensures var p := PlanWrite(off, |buf|, s.size, MaxFileSize(|s.disk|), |s.disk|);
            var u := Apply(s', Unlock(t), max);
            && u.lock.None? && Mounted(u.disk, u.size)
            && match p
               case GiveUp(_) => Contents(u.disk, u.size) == Contents(s.disk, s.size)
               case InBlock(_, _, len) =>
                 && off <= s.size && copied <= len <= |buf|
                 && Contents(u.disk, u.size) == StoreInto(Contents(s.disk, s.size), off, Padded(buf, copied, len), copied)
  {
    hide Reached, Continues, Inv, FileInv, Contents, StoreInto, Padded, PlanWrite, Mounted, Apply, Enabled, Doing;
    ReachedFile(s0, run, s, disk0, max);
    var step, j := ReadData(t, off, buf, copied), JobOf(s, off, buf, copied);
    ReadStartsJob(s, t, off, buf, copied, disk0, max);
    FileStep(s, step, disk0, max);
    StoreNothing(s.file);
    if PlanWrite(off, |buf|, s.size, MaxFileSize(|s.disk|), |s.disk|) == GiveUp(Failed(EIO)) {
      FaultedCannotUnlock(s, t, off, buf, copied, rest, s', disk0, max);
    } else {
      DoingRun(Apply(s, step, max), rest, s', t, j, disk0, max);
      UnlockEnds(s', t, j, disk0, max);
    }
  }

  // ---------------------------------------------------------------- the read probe without a buffer

  /** On an activated device a write faults, instead of failing, exactly at the end of a file of maximum size. */
  lemma {:induction false} FaultsAtTheEnd(s0: State, run: seq<Step>, s: State, disk0: Disk, max: nat,
                                          t: Key, off: nat, buf: seq<byte>, copied: nat)
    requires Reached(s0, run, s, disk0, max) && Typed(s) && Enabled(s, ReadData(t, off, buf, copied))
    ensures Apply(s, ReadData(t, off, buf, copied), max).writers[t].Faulted? <==> off == s.size == MaxFileSize(|s.cache|)
  {
    hide Reached, MaxSize, InodeSize, OriginalsKept, Logs, PlanWrite, Padded;
    ReachedInv(s0, run, s, disk0, max);
    PlanStaysInside(off, |buf|, s.size, |s.cache|);
  }

  lemma {:induction false} FaultedStays(s: State, step: Step, t: Key, disk0: Disk, max: nat)
    requires Inv(s, disk0) && Enabled(s, step) && t in s.writers && s.writers[t].Faulted?
    ensures var s' := Apply(s, step, max);
            && t in s'.writers && s'.writers[t].Faulted? && s'.lock == Some(t)
            && s'.disk == s.disk && s'.cache == s.cache && s'.size == s.size && s'.file == s.file
  {
    hide MaxSize, InodeSize, OriginalsKept, Logs, CacheInv, SizeInv, SlotInv, LogInv, PlanWrite, Padded, Process, Drop;
  }

  /** The faulting thread keeps the inode lock for good: nothing is ever written to the device again. */
  lemma {:induction false} NothingWrittenAfterFault(s: State, run: seq<Step>, s': State, t: Key, disk0: Disk, max: nat)
    requires Inv(s, disk0) && t in s.writers && s.writers[t].Faulted? && Continues(s, run, s', max)
    ensures Inv(s', disk0) && t in s'.writers && s'.writers[t].Faulted? && s'.lock == Some(t)
    ensures s'.disk == s.disk && s'.file == s.file
    decreases |run|
  {
    hide Apply, Enabled, Typed, LockInv, CacheInv, SizeInv, SlotInv, LogInv, ImageInv;
    if run == [] {
      FaultedHolds(s, t);
    } else {
      var step := run[|run| - 1];
      var p :| Continues(s, run[..|run| - 1], p, max) && Typed(p) && Enabled(p, step) && s' == Apply(p, step, max);
      NothingWrittenAfterFault(s, run[..|run| - 1], p, t, disk0, max);
      FaultedStays(p, step, t, disk0, max);
      StepKeeps(p, step, disk0, max);
    }
  }

  lemma {:induction false} FaultedCannotUnlock(s: State, t: Key, off: nat, buf: seq<byte>, copied: nat, rest: seq<Step>,
                                               s': State, disk0: Disk, max: nat)
    requires Inv(s, disk0) && Enabled(s, ReadData(t, off, buf, copied))
    requires PlanWrite(off, |buf|, s.size, MaxFileSize(|s.disk|), |s.disk|) == GiveUp(Failed(EIO))
    requires Continues(Apply(s, ReadData(t, off, buf, copied), max), rest, s', max) && Typed(s')
    ensures !Enabled(s', Unlock(t))
  {
    hide MaxSize, InodeSize, OriginalsKept, Logs, PlanWrite, Padded, Continues;
    StepKeeps(s, ReadData(t, off, buf, copied), disk0, max);
    NothingWrittenAfterFault(Apply(s, ReadData(t, off, buf, copied), max), rest, s', t, disk0, max);
  }

  lemma {:induction false} UnlockEnds(s: State, t: Key, j: Job, disk0: Disk, max: nat)
    requires Inv(s, disk0) && FileInv(s) && j.Fits() && Doing(s, t, j) && Enabled(s, Unlock(t))
    ensures var u := Apply(s, Unlock(t), max);
            u.lock.None? && Mounted(u.disk, u.size) && Contents(u.disk, u.size) == j.After()
  {
    hide Contents, StoreInto, MaxSize, InodeSize;
    var u := Apply(s, Unlock(t), max);
    FileStep(s, Unlock(t), disk0, max);
    UnlockedIsConsistent(u, disk0);
  }

  lemma {:induction false} FaultedHolds(s: State, t: Key)
    requires LockInv(s) && t in s.writers && s.writers[t].Faulted?
    ensures s.lock == Some(t)
  {
  }

  // ---------------------------------------------------------------- the device as bytes

  /** The device file: all blocks, one after the other. */
  function Flatten(disk: Disk): seq<byte> {
    if disk == [] then [] else Flatten(disk[..|disk| - 1]) + disk[|disk| - 1]
  }

  lemma {:induction false} FlattenLength(disk: Disk)
    requires forall b :: 0 <= b < |disk| ==> |disk[b]| == BLOCK
    ensures |Flatten(disk)| == |disk| * BLOCK
  {
    if disk != [] {
      FlattenLength(disk[..|disk| - 1]);
    }
  }

  lemma {:induction false} FlattenBlock(disk: Disk, b: nat)
    requires b < |disk| && forall c :: 0 <= c < |disk| ==> |disk[c]| == BLOCK
    ensures b * BLOCK + BLOCK <= |Flatten(disk)| && BlockAt(Flatten(disk), BLOCK, b) == disk[b]
  {
    var n := |disk| - 1;
    var front := disk[..n];
    FlattenLength(disk);
    FlattenLength(front);
    if b < n {
      FlattenBlock(front, b);
      SliceOfPrefix(Flatten(front), Flatten(disk), b * BLOCK, b * BLOCK + BLOCK);
    }
  }

  // ---------------------------------------------------------------- the size of the log

  function Below(n: nat): (blocks: set<nat>)
    ensures |blocks| == n
    ensures forall b: nat :: b in blocks <==> b < n
  {
    if n == 0 then {} else Below(n - 1) + {n - 1}
  }

  function BlocksOf(log: seq<Work>): set<nat> {
    if log == [] then {} else BlocksOf(log[..|log| - 1]) + {log[|log| - 1].blknr}
  }

  lemma {:induction false} DistinctCount(log: seq<Work>)
    requires DistinctWorks(log)
    ensures |BlocksOf(log)| == |log|
    ensures forall b: u64 :: b in BlocksOf(log) ==> Logs(log, b)
  {
    if log != [] {
      var front, w := log[..|log| - 1], log[|log| - 1];
      assert log == front + [w];
      DistinctCount(front);
      assert !Logs(front, w.blknr);
      forall b: u64 | b in BlocksOf(log)
        ensures Logs(log, b)
      {
        LogsSnoc(front, w, b);
      }
    }
  }

  lemma {:induction false} BlocksBelow(log: seq<Work>, n: nat)
    requires forall w :: w in log ==> IsImage(w, n)
    ensures BlocksOf(log) <= Below(n)
  {
    if log != [] {
      assert log[|log| - 1] in log;
      BlocksBelow(log[..|log| - 1], n);
    }
  }

  /** One record per block: the log is no longer than the device has blocks. */
  lemma {:induction false} LogIsShort(log: seq<Work>, n: nat)
    requires DistinctWorks(log) && forall w :: w in log ==> IsImage(w, n)
    ensures |log| <= n
  {
    DistinctCount(log);
    BlocksBelow(log, n);
    assert Below(n) == BlocksOf(log) + (Below(n) - BlocksOf(log));
  }

  lemma {:induction false} LogBytes(log: seq<Work>, n: nat, i: nat)
    requires i <= |log| && forall w :: w in log ==> IsImage(w, n)
    ensures Offset(RecordsOf(log), i) == i * (HDR_SIZE + BLOCK)
  {
    if i > 0 {
      LogBytes(log, n, i - 1);
      assert log[i - 1] in log;
    }
  }

  // ---------------------------------------------------------------- recovery

  lemma {:induction false} FirstImageInLog(log: seq<Work>, b: u64)
    ensures FirstImage(log, b) == None <==> !Logs(log, b)
    ensures FirstImage(log, b).Some? ==> exists w :: w in log && w.blknr == b && w.block == FirstImage(log, b).value
  {
    if log != [] {
      FirstImageInLog(log[1..], b);
      assert log == [log[0]] + log[1..];
      if Logs(log, b) && log[0].blknr != b {
        var i :| 0 <= i < |log| && log[i].blknr == b;
        assert log[1..][i - 1].blknr == b;
      }
      if Logs(log[1..], b) {
        var i :| 0 <= i < |log[1..]| && log[1..][i].blknr == b;
        assert log[i + 1].blknr == b;
      }
    }
  }

  /** The records of the log fit on the device. */
  lemma {:induction false} LogFitsDevice(log: seq<Work>, disk: Disk)
    requires IsDisk(disk) && forall w :: w in log ==> IsImage(w, |disk|)
    ensures RawBlocks(RecordsOf(log), BLOCK, |Flatten(disk)|)
  {
    FlattenLength(disk);
    forall r | r in RecordsOf(log)
      ensures RawBlock(r, BLOCK, |Flatten(disk)|)
    {
      var i :| 0 <= i < |log| && RecordsOf(log)[i] == r;
      assert log[i] in log;
      MulMonotone(r.blknr, |disk|, BLOCK);
    }
  }

  /** What the replay leaves in block `b`: its logged image, or what was there. */
  lemma {:induction false} ReplayedBlock(log: seq<Work>, disk: Disk, b: nat)
    requires IsDisk(disk) && b < |disk| && DistinctWorks(log) && forall w :: w in log ==> IsImage(w, |disk|)
    ensures b * BLOCK + BLOCK <= |Flatten(disk)|
    ensures BlockAt(Replay(Flatten(disk), RecordsOf(log)), BLOCK, b) ==
            if FirstImage(log, b).Some? then FirstImage(log, b).value else disk[b]
  {
    hide Replay, FirstImage;
    var rs := RecordsOf(log);
    LogFitsDevice(log, disk);
    FlattenBlock(disk, b);
    ReplayBlock(Flatten(disk), rs, BLOCK, b);
    FirstImageInLog(log, b);
    assert DistinctBlocks(rs);
    LastPayloadDistinct(rs, b);
    if Logs(log, b) {
      var w :| w in log && w.blknr == b && w.block == FirstImage(log, b).value;
      var i :| 0 <= i < |log| && log[i] == w;
      assert rs[i] in rs && rs[i].blknr == b;
    } else {
      assert forall i :: 0 <= i < |rs| ==> rs[i].blknr == log[i].blknr != b;
      assert LastPayload(rs, b).None?;
    }
  }

  lemma {:induction false} ReplayGivesOriginal(log: seq<Work>, disk: Disk, disk0: Disk)
    requires IsDisk(disk) && IsDisk(disk0) && |disk| == |disk0| && DistinctWorks(log)
    requires forall w :: w in log ==> IsImage(w, |disk|)
    requires OriginalsKept(log, disk, disk0)
    ensures Replay(Flatten(disk), RecordsOf(log)) == Flatten(disk0)
  {
    hide Replay, FirstImage, Flatten;
    var d := Replay(Flatten(disk), RecordsOf(log));
    FlattenLength(disk);
    FlattenLength(disk0);
    forall b: nat | b * BLOCK + BLOCK <= |d|
      ensures BlockAt(d, BLOCK, b) == BlockAt(Flatten(disk0), BLOCK, b)
    {
      assert b < |disk|;
      ReplayedBlock(log, disk, b);
      FlattenBlock(disk0, b);
      assert OriginalKept(log, disk, disk0, b);
    }
    SameBlocks(d, Flatten(disk0), BLOCK, |disk0|);
  }

  // ---------------------------------------------------------------- the bytes the worker writes

  /** What a step does to the cache and the log file of the worker, with `limit` bytes of room for the log. */
  ghost function StoreAfter(q: Store, s: State, step: Step, max: nat, limit: nat): Store
    requires Typed(s) && Enabled(s, step)
  {
    match step
    case DoWork => Snap(q, s.queue[0], max, limit, CacheOnFailure)
    case Shrink(keys) => q.(cached := Drop(q.cached, keys))
    case _ => q
  }

  /** As `Reached`, together with the cache and the file that the worker comes to have. */
  ghost predicate ReachedWith(s0: State, run: seq<Step>, s: State, store: Store, disk0: Disk, max: nat, limit: nat)
    decreases |run|
  {
    if run == [] then Init(s, disk0) && s == s0 && store == Store([], [])
    else
      var step := run[|run| - 1];
      exists p, q :: ReachedWith(s0, run[..|run| - 1], p, q, disk0, max, limit) && Typed(p) && Enabled(p, step)
                     && s == Apply(p, step, max) && store == StoreAfter(q, p, step, max, limit)
  }

  /** Every run writes some file: nothing about the room restricts what may happen. */
  lemma {:induction false} WritesSomeFile(s0: State, run: seq<Step>, s: State, disk0: Disk, max: nat, limit: nat)
    returns (store: Store)
    requires Reached(s0, run, s, disk0, max)
    ensures ReachedWith(s0, run, s, store, disk0, max, limit)
    decreases |run|
  {
    hide Apply, Enabled, Typed, StoreAfter, Init;
    if run == [] {
      store := Store([], []);
    } else {
      var step := run[|run| - 1];
      var p :| Reached(s0, run[..|run| - 1], p, disk0, max) && Typed(p) && Enabled(p, step) && s == Apply(p, step, max);
      var q := WritesSomeFile(s0, run[..|run| - 1], p, disk0, max, limit);
      store := StoreAfter(q, p, step, max, limit);
    }
  }

  /** The log file holds what the worker has logged, and only logged blocks are cached. */
  ghost predicate StoreInv(store: Store, rs: seq<Record>, log: seq<Work>, limit: nat) {
    Follows(store.file, rs, log, limit) && forall k :: k in store.cached ==> Logs(log, k)
  }

  lemma {:induction false} StepStore(s: State, step: Step, q: Store, rs: seq<Record>, disk0: Disk, max: nat, limit: nat)
    returns (rs': seq<Record>)
    requires Inv(s, disk0) && Enabled(s, step) && StoreInv(q, rs, s.kept.log, limit)
    ensures StoreInv(StoreAfter(q, s, step, max, limit), rs', Apply(s, step, max).kept.log, limit)
  {
    hide MaxSize, InodeSize, OriginalsKept, Logs, CacheInv, SizeInv, SlotInv, LockInv, PlanWrite, Padded, Process, Drop, Snap, Follows;
    rs' := rs;
    if step.DoWork? {
      ProcessLogs(s.kept, s.queue[0], max, CacheOnFailure);
      rs' := SnapFollows(q, rs, s.kept.log, s.queue[0], max, limit, CacheOnFailure);
    } else if step.Shrink? {
      DropElements(q.cached, step.keys);
    }
  }

  /** In every run, and with any room for it, the log file is the encoded log of the worker, cut where the room ends. */
  lemma {:induction false} FileFollowsLog(s0: State, run: seq<Step>, s: State, store: Store, disk0: Disk, max: nat, limit: nat)
    returns (rs: seq<Record>)
    requires ReachedWith(s0, run, s, store, disk0, max, limit) && limit < MAX_LOG
    ensures Reached(s0, run, s, disk0, max)
    ensures StoreInv(store, rs, s.kept.log, limit)
    ensures store.file == Truncate(EncodeLog(RecordsOf(s.kept.log)), limit)
    decreases |run|
  {
    hide Apply, Enabled, Inv, Typed, StoreAfter, Follows, EncodeLog, Truncate;
    if run == [] {
      rs := [];
      EmptyFollows(limit);
    } else {
      var step := run[|run| - 1];
      var p, q :| ReachedWith(s0, run[..|run| - 1], p, q, disk0, max, limit) && Typed(p) && Enabled(p, step)
                  && s == Apply(p, step, max) && store == StoreAfter(q, p, step, max, limit);
      rs := FileFollowsLog(s0, run[..|run| - 1], p, q, disk0, max, limit);
      ReachedInv(s0, run[..|run| - 1], p, disk0, max);
      rs := StepStore(p, step, q, rs, disk0, max, limit);
    }
    FollowsIsTruncated(store.file, rs, s.kept.log, limit);
  }

  // ---------------------------------------------------------------- recovery

  /** How many records of blocks fit into `limit` bytes. */
  function RecordsIn(limit: nat): nat {
    limit / (HDR_SIZE + BLOCK)
  }

  /** The records of a log that are wholly in its file, when there is room for `limit` bytes. */
  function Fitted(log: seq<Work>, limit: nat): (fitted: seq<Work>)
    ensures fitted <= log
  {
    if |log| <= RecordsIn(limit) then log else log[..RecordsIn(limit)]
  }

  lemma {:induction false} FittedIsWhole(log: seq<Work>, n: nat, limit: nat)
    requires forall w :: w in log ==> IsImage(w, n)
    ensures WholeRecords(Truncate(EncodeLog(RecordsOf(log)), limit), RecordsOf(log), |Fitted(log, limit)|)
  {
    hide EncodeLog, Offset;
    var rs, m := RecordsOf(log), |Fitted(log, limit)|;
    EncodeLogLength(rs);
    LogBytes(log, n, |log|);
    LogBytes(log, n, m);
    if m < |log| {
      LogBytes(log, n, m + 1);
    }
    Quotient(limit, HDR_SIZE + BLOCK, m, |log|);
  }

  lemma {:induction false} Quotient(limit: nat, size: nat, m: nat, n: nat)
    requires size > 0 && m == (if n <= limit / size then n else limit / size)
    ensures m * size <= limit && m * size <= n * size
    ensures m < n ==> limit < (m + 1) * size <= n * size
  {
    if m < n {
      MulMonotone(m, n, size);
    }
  }

  /** Restoring the log file over the device ends, and replays exactly the records that fitted wholly. */
  lemma {:induction false} RestoresStored(s: State, store: Store, rs: seq<Record>, disk0: Disk,
                                          limit: nat, only: u64, answers: seq<bool>)
    requires Inv(s, disk0) && StoreInv(store, rs, s.kept.log, limit)
    ensures forall w :: w in s.kept.log ==> IsImage(w, |s.disk|)
    ensures var out := RestoreRun(store.file, Choice(true, only, false), answers, Progress(0, Flatten(s.disk), 0, 0),
                                  |s.kept.log| + 2);
            && out.Some?
            && out.value.0.device == Replay(Flatten(s.disk), RecordsOf(Fitted(s.kept.log, limit)))
            && (|s.disk| <= RecordsIn(limit) ==> out.value.1 && Fitted(s.kept.log, limit) == s.kept.log)
  {
    hide RestoreRun, EncodeLog, Replay, Flatten, MaxSize, InodeSize, Offset, OriginalsKept, Truncate, LockInv, CacheInv,
         SlotInv, SizeInv, DeadInv, Logs, Follows;
    var log, fitted, all := s.kept.log, Fitted(s.kept.log, limit), RecordsOf(s.kept.log);
    FollowsIsTruncated(store.file, rs, log, limit);
    LogIsShort(log, |s.disk|);
    LogBytes(log, |s.disk|, |log|);
    FittedIsWhole(log, |s.disk|, limit);
    assert RecordsOf(fitted) == all[..|fitted|];
    FittedFits(fitted, s.disk);
    TruncatedIsCut(all, limit);
    RestoreAllCutLog(store.file, all, |fitted|, only, answers, Flatten(s.disk));
  }

  lemma {:induction false} TruncatedIsCut(rs: seq<Record>, limit: nat)
    requires Offset(rs, |rs|) < TWO63
    ensures CutLog(Truncate(EncodeLog(rs), limit), rs)
  {
  }

  lemma {:induction false} FittedFits(log: seq<Work>, disk: Disk)
    requires IsDisk(disk) && forall w :: w in log ==> IsImage(w, |disk|)
    ensures AllFit(RecordsOf(log), |Flatten(disk)|)
  {
    hide Flatten;
    FlattenLength(disk);
    LogFitsDevice(log, disk);
    assert forall r :: r in RecordsOf(log) ==> RawBlock(r, BLOCK, |Flatten(disk)|);
  }

  lemma {:induction false} RecoversStored(s: State, store: Store, rs: seq<Record>, disk0: Disk,
                                          limit: nat, only: u64, answers: seq<bool>)
    requires Inv(s, disk0) && StoreInv(store, rs, s.kept.log, limit) && s.queue == []
    requires |disk0| * (HDR_SIZE + BLOCK) <= limit
    ensures var out := RestoreRun(store.file, Choice(true, only, false), answers, Progress(0, Flatten(s.disk), 0, 0),
                                  |s.kept.log| + 2);
            out.Some? && out.value.1 && out.value.0.device == Flatten(disk0)
  {
    hide RestoreRun, EncodeLog, Replay, Flatten, MaxSize, InodeSize, OriginalsKept, LockInv, CacheInv, SlotInv, SizeInv,
         DeadInv, Logs, StoreInv;
    RestoresStored(s, store, rs, disk0, limit, only, answers);
    assert s.kept.log + s.queue == s.kept.log;
    ReplayGivesOriginal(s.kept.log, s.disk, disk0);
  }

  /**
   The promise of the module: if the log has room for a record of every block of the device, then for every
   run of an epoch, once the queue is drained, the tool ends with success and the device is, byte for byte,
   as it was at the first mount.
   */
  lemma {:induction false} RecoversFirstMount(s0: State, run: seq<Step>, s: State, store: Store, disk0: Disk, max: nat,
                                              limit: nat, only: u64, answers: seq<bool>)
    requires ReachedWith(s0, run, s, store, disk0, max, limit) && s.queue == []
    requires |disk0| * (HDR_SIZE + BLOCK) <= limit < MAX_LOG
    ensures var out := RestoreRun(store.file, Choice(true, only, false), answers, Progress(0, Flatten(s.disk), 0, 0),
                                  |s.kept.log| + 2);
            out.Some? && out.value.1 && out.value.0.device == Flatten(disk0)
  {
    hide ReachedWith, Reached, RestoreRun, Flatten, Inv, StoreInv;
    var rs := FileFollowsLog(s0, run, s, store, disk0, max, limit);
    ReachedInv(s0, run, s, disk0, max);
    RecoversStored(s, store, rs, disk0, limit, only, answers);
  }

  /** Block by block, with less room: a block whose record fitted is recovered, every other one stays as it is. */
  lemma {:induction false} RecoversBlock(s0: State, run: seq<Step>, s: State, store: Store, disk0: Disk, max: nat,
                                         limit: nat, only: u64, answers: seq<bool>, b: nat)
    requires ReachedWith(s0, run, s, store, disk0, max, limit) && s.queue == [] && limit < MAX_LOG && b < |disk0|
    ensures |s.disk| == |disk0| && b * BLOCK + BLOCK <= |disk0| * BLOCK
    ensures var out := RestoreRun(store.file, Choice(true, only, false), answers, Progress(0, Flatten(s.disk), 0, 0),
                                  |s.kept.log| + 2);
            && out.Some? && |out.value.0.device| == |disk0| * BLOCK
            && BlockAt(out.value.0.device, BLOCK, b) ==
               if FirstImage(Fitted(s.kept.log, limit), b).Some? then disk0[b] else s.disk[b]
  {
    hide ReachedWith, Reached, RestoreRun, EncodeLog, Replay, Flatten, MaxSize, InodeSize, LockInv, CacheInv, SlotInv,
         SizeInv, DeadInv, Logs, StoreInv, Truncate, FirstImage;
    var rs := FileFollowsLog(s0, run, s, store, disk0, max, limit);
    ReachedInv(s0, run, s, disk0, max);
    RestoresStored(s, store, rs, disk0, limit, only, answers);
    var log, fitted := s.kept.log, Fitted(s.kept.log, limit);
    assert log + s.queue == log;
    ReplayedBlock(fitted, s.disk, b);
    FlattenLength(s.disk);
    assert OriginalKept(log, s.disk, disk0, b);
    if FirstImage(fitted, b).Some? {
      FirstImageOfPrefix(fitted, log, b);
    }
  }

  /** So the device is recovered if and only if every block that has changed has its record wholly in the log. */
  lemma {:induction false} RecoversExactly(s0: State, run: seq<Step>, s: State, store: Store, disk0: Disk, max: nat,
                                           limit: nat, only: u64, answers: seq<bool>)
    requires ReachedWith(s0, run, s, store, disk0, max, limit) && s.queue == [] && limit < MAX_LOG
    ensures |s.disk| == |disk0|
    ensures var out := RestoreRun(store.file, Choice(true, only, false), answers, Progress(0, Flatten(s.disk), 0, 0),
                                  |s.kept.log| + 2);
            && out.Some?
            && (out.value.0.device == Flatten(disk0) <==>
                  forall b :: 0 <= b < |disk0| && s.disk[b] != disk0[b] ==> FirstImage(Fitted(s.kept.log, limit), b).Some?)
  {
    hide ReachedWith, Reached, RestoreRun, EncodeLog, Replay, Flatten, MaxSize, InodeSize, LockInv, CacheInv, SlotInv,
         SizeInv, DeadInv, Logs, StoreInv, Truncate, FirstImage, OriginalsKept, Fitted;
    var rs := FileFollowsLog(s0, run, s, store, disk0, max, limit);
    ReachedInv(s0, run, s, disk0, max);
    RecoversBlock(s0, run, s, store, disk0, max, limit, only, answers, 0);
    var d := RestoreRun(store.file, Choice(true, only, false), answers, Progress(0, Flatten(s.disk), 0, 0),
                        |s.kept.log| + 2).value.0.device;
    FlattenLength(disk0);
    forall b: nat | b < |disk0|
      ensures b * BLOCK + BLOCK <= |d|
      ensures BlockAt(d, BLOCK, b) == if FirstImage(Fitted(s.kept.log, limit), b).Some? then disk0[b] else s.disk[b]
      ensures BlockAt(Flatten(disk0), BLOCK, b) == disk0[b]
    {
      RecoversBlock(s0, run, s, store, disk0, max, limit, only, answers, b);
      FlattenBlock(disk0, b);
    }
    if forall b :: 0 <= b < |disk0| && s.disk[b] != disk0[b] ==> FirstImage(Fitted(s.kept.log, limit), b).Some? {
      SameBlocks(d, Flatten(disk0), BLOCK, |disk0|);
    }
  }

  lemma {:induction false} FirstImageOfPrefix(front: seq<Work>, log: seq<Work>, b: nat)
    requires front <= log && FirstImage(front, b).Some?
    ensures FirstImage(log, b) == FirstImage(front, b)
  {
    if front[0].blknr != b {
      FirstImageOfPrefix(front[1..], log[1..], b);
    }
  }

  // ---------------------------------------------------------------- a stray read between the probes

  /**
   Thread `t` has read some other block between its read probe and its write probe, for a page fault, say,
   so that its slot holds `slot` when it writes.
   */
  function StrayRead(s: State, t: Key, slot: Slot): State {
    s.(slots := s.slots[t := slot])
  }

  /** The block that the step writes out. */
  function Sent(s: State, step: Step): nat
    requires Typed(s) && Enabled(s, step) && (step.SendData? || step.SendInode?)
  {
    if step.SendData? then s.writers[step.t].b else 1
  }

  /** The first mount as the log then tells it: the stray block counts for `b`, unless `b` has an image already. */
  function Mistaken(works: seq<Work>, disk0: Disk, b: nat, block: seq<byte>): (d: Disk)
    requires b < |disk0|
    ensures |d| == |disk0|
  {
    if FirstImage(works, b).Some? then disk0 else disk0[b := block]
  }

  lemma {:induction false} ForeignImage(works: seq<Work>, w: Work, disk: Disk, disk': Disk, disk0: Disk)
    requires |disk| == |disk'| == |disk0| && w.blknr < |disk| && OriginalsKept(works, disk, disk0)
    requires forall c :: 0 <= c < |disk| && c != w.blknr ==> disk'[c] == disk[c]
    ensures OriginalsKept(works + [w], disk', Mistaken(works, disk0, w.blknr, w.block))
    ensures OriginalsKept(works + [w], disk', disk0) <==>
            w.block == disk[w.blknr] || FirstImage(works, w.blknr).Some?
  {
    hide FirstImage;
    var disk1 := Mistaken(works, disk0, w.blknr, w.block);
    forall c | 0 <= c < |disk0|
      ensures OriginalKept(works + [w], disk', disk1, c)
      ensures c != w.blknr ==> OriginalKept(works + [w], disk', disk0, c)
    {
      assert OriginalKept(works, disk, disk0, c);
      FirstImageAppend(works, w, c);
    }
    FirstImageAppend(works, w, w.blknr);
    assert OriginalKept(works, disk, disk0, w.blknr);
    assert OriginalKept(works + [w], disk', disk0, w.blknr) <==>
           w.block == disk[w.blknr] || FirstImage(works, w.blknr).Some?;
  }

  /** A write after a stray read is a step like any other, but for what it queues. */
  lemma {:induction false} StraySend(s: State, step: Step, slot: Slot, disk0: Disk, max: nat)
    requires Inv(s, disk0) && Enabled(s, step) && (step.SendData? || step.SendInode?) && |slot.block| == BLOCK
    ensures Sent(s, step) < |s.disk| == |disk0| && Sent(s, step) < TWO64
    ensures var r := StrayRead(s, step.t, slot);
            && Typed(r) && Enabled(r, step)
            && Apply(r, step, max) ==
               Apply(s, step, max).(slots := r.slots, queue := s.queue + [Work(Sent(s, step), slot.block)])
    ensures var disk' := Apply(s, step, max).disk;
            |disk'| == |s.disk| && forall c :: 0 <= c < |s.disk| && c != Sent(s, step) ==> disk'[c] == s.disk[c]
  {
    hide MaxSize, InodeSize, OriginalsKept, Logs, CacheInv, SizeInv;
  }

  lemma {:induction false} NoTargetAfterSend(s: State, step: Step, disk0: Disk, max: nat)
    requires Inv(s, disk0) && Enabled(s, step) && (step.SendData? || step.SendInode?)
    ensures step.t in Apply(s, step, max).writers && Apply(s, step, max).writers[step.t].Target().None?
  {
    hide MaxSize, InodeSize, OriginalsKept, Logs, CacheInv, SizeInv;
  }

  /** What such a slot does to the rest of the invariant once its thread prepares no write: nothing. */
  lemma {:induction false} OtherSlotOtherQueue(u: State, t: Key, slot: Slot, queue: seq<Work>, disk0: Disk, disk1: Disk)
    requires Inv(u, disk0) && t in u.writers && u.writers[t].Target().None?
    requires IsDisk(disk1) && |disk1| == |disk0|
    requires (forall w :: w in queue ==> IsImage(w, |u.disk|)) && OriginalsKept(u.kept.log + queue, u.disk, disk1)
    ensures Inv(u.(slots := u.slots[t := slot], queue := queue), disk1)
  {
    hide MaxSize, InodeSize, OriginalsKept, Logs;
  }

  /**
   The original is lost exactly if the block has no image yet and the stray block differs from it; whatever
   happens, the machine goes on as if the first mount had been the mistaken one.
   */
  lemma {:induction false} StrayReadExactly(s: State, step: Step, slot: Slot, disk0: Disk, max: nat)
    requires Inv(s, disk0) && Enabled(s, step) && (step.SendData? || step.SendInode?) && |slot.block| == BLOCK
    ensures Sent(s, step) < |s.disk| == |disk0|
    ensures Typed(StrayRead(s, step.t, slot)) && Enabled(StrayRead(s, step.t, slot), step)
    ensures var sent := Apply(StrayRead(s, step.t, slot), step, max);
            var works, b := s.kept.log + s.queue, Sent(s, step);
            && |sent.disk| == |disk0|
            && (ImageInv(sent, disk0) <==> slot.block == s.disk[b] || FirstImage(works, b).Some?)
            && Inv(sent, Mistaken(works, disk0, b, slot.block))
  {
    hide MaxSize, InodeSize, FirstImage, Logs, Typed, LockInv, DeadInv, CacheInv, SlotInv, SizeInv, Enabled, Apply,
         OriginalsKept, Sent;
    StraySend(s, step, slot, disk0, max);
    NoTargetAfterSend(s, step, disk0, max);
    StepKeeps(s, step, disk0, max);
    SendLeavesLog(s, step, max);
    var u, b := Apply(s, step, max), Sent(s, step);
    var w := Work(b, slot.block);
    ForeignImage(s.kept.log + s.queue, w, s.disk, u.disk, disk0);
    assert s.kept.log + s.queue + [w] == s.kept.log + (s.queue + [w]);
    OtherSlotOtherQueue(u, step.t, slot, s.queue + [w], disk0, Mistaken(s.kept.log + s.queue, disk0, b, slot.block));
  }

  lemma {:induction false} SendLeavesLog(s: State, step: Step, max: nat)
    requires Typed(s) && Enabled(s, step) && (step.SendData? || step.SendInode?)
    ensures Apply(s, step, max).kept == s.kept && Apply(s, step, max).slots == s.slots
  {
  }

  /** As `Continues`, together with the cache and the file of the worker. */
  ghost predicate ContinuesWith(s: State, q: Store, run: seq<Step>, s': State, q': Store, max: nat, limit: nat)
    decreases |run|
  {
    if run == [] then s' == s && q' == q
    else
      var step := run[|run| - 1];
      exists p, o :: ContinuesWith(s, q, run[..|run| - 1], p, o, max, limit) && Typed(p) && Enabled(p, step)
                     && s' == Apply(p, step, max) && q' == StoreAfter(o, p, step, max, limit)
  }

  lemma {:induction false} ContinuesKeeps(s: State, q: Store, rs: seq<Record>, run: seq<Step>, s': State, q': Store,
                                          disk0: Disk, max: nat, limit: nat)
    returns (rs': seq<Record>)
    requires Inv(s, disk0) && StoreInv(q, rs, s.kept.log, limit) && ContinuesWith(s, q, run, s', q', max, limit)
    ensures Inv(s', disk0) && StoreInv(q', rs', s'.kept.log, limit)
    decreases |run|
  {
    hide Apply, Enabled, Inv, Typed, StoreAfter, StoreInv;
    rs' := rs;
    if run != [] {
      var step := run[|run| - 1];
      var p, o :| ContinuesWith(s, q, run[..|run| - 1], p, o, max, limit) && Typed(p) && Enabled(p, step)
                  && s' == Apply(p, step, max) && q' == StoreAfter(o, p, step, max, limit);
      rs' := ContinuesKeeps(s, q, rs, run[..|run| - 1], p, o, disk0, max, limit);
      StepKeeps(p, step, disk0, max);
      rs' := StepStore(p, step, o, rs', disk0, max, limit);
    }
  }

  /** Whatever first mount a state keeps the originals of is what recovery gives, now or later. */
  lemma {:induction false} RecoversFrom(s: State, q: Store, rs: seq<Record>, run: seq<Step>, s': State, q': Store,
                                        disk0: Disk, max: nat, limit: nat, only: u64, answers: seq<bool>)
    requires Inv(s, disk0) && StoreInv(q, rs, s.kept.log, limit) && ContinuesWith(s, q, run, s', q', max, limit)
    requires s'.queue == [] && |disk0| * (HDR_SIZE + BLOCK) <= limit
    ensures var out := RestoreRun(q'.file, Choice(true, only, false), answers, Progress(0, Flatten(s'.disk), 0, 0),
                                  |s'.kept.log| + 2);
            out.Some? && out.value.1 && out.value.0.device == Flatten(disk0)
  {
    hide RestoreRun, Flatten, Inv, StoreInv, ContinuesWith;
    var rs' := ContinuesKeeps(s, q, rs, run, s', q', disk0, max, limit);
    RecoversStored(s', q', rs', disk0, limit, only, answers);
  }

  lemma {:induction false} FlattenInjective(d: Disk, e: Disk)
    requires IsDisk(d) && IsDisk(e) && |d| == |e|
    ensures Flatten(d) == Flatten(e) <==> d == e
  {
    hide Flatten;
    if Flatten(d) == Flatten(e) {
      forall b | 0 <= b < |d|
        ensures d[b] == e[b]
      {
        FlattenBlock(d, b);
        FlattenBlock(e, b);
      }
    }
  }

  /**
   In a run with one stray read, and with anything before and after it, recovery writes the stray block
   where the original belongs if the block had no image yet; the first mount is recovered if and only if it
   had one or the stray block is what the disk held.
   */
  lemma {:induction false} StrayReadRecovers(s0: State, run: seq<Step>, s: State, store: Store, disk0: Disk, max: nat,
                                             limit: nat, step: Step, slot: Slot,
                                             rest: seq<Step>, s': State, store': Store, only: u64, answers: seq<bool>)
    requires ReachedWith(s0, run, s, store, disk0, max, limit) && |disk0| * (HDR_SIZE + BLOCK) <= limit < MAX_LOG
    requires Typed(s) && Enabled(s, step) && (step.SendData? || step.SendInode?) && |slot.block| == BLOCK
    requires Typed(StrayRead(s, step.t, slot)) && Enabled(StrayRead(s, step.t, slot), step)
    requires ContinuesWith(Apply(StrayRead(s, step.t, slot), step, max), store, rest, s', store', max, limit)
    requires s'.queue == []
    ensures Sent(s, step) < |s.disk| == |disk0|
    ensures var out := RestoreRun(store'.file, Choice(true, only, false), answers, Progress(0, Flatten(s'.disk), 0, 0),
                                  |s'.kept.log| + 2);
            var works, b := s.kept.log + s.queue, Sent(s, step);
            && out.Some? && out.value.1
            && out.value.0.device == Flatten(Mistaken(works, disk0, b, slot.block))
            && (out.value.0.device == Flatten(disk0) <==> slot.block == s.disk[b] || FirstImage(works, b).Some?)
  {
    hide ReachedWith, ContinuesWith, RestoreRun, Flatten, Inv, StoreInv, Apply, Enabled, Typed, ImageInv, Sent, FirstImage,
         Mistaken;
    var rs := FileFollowsLog(s0, run, s, store, disk0, max, limit);
    ReachedInv(s0, run, s, disk0, max);
    StrayReadExactly(s, step, slot, disk0, max);
    SendLeavesLog(StrayRead(s, step.t, slot), step, max);
    var sent, b := Apply(StrayRead(s, step.t, slot), step, max), Sent(s, step);
    var disk1 := Mistaken(s.kept.log + s.queue, disk0, b, slot.block);
    RecoversFrom(sent, store, rs, rest, s', store', disk1, max, limit, only, answers);
    InvDisk(s, disk0);
    InvDisk(sent, disk1);
    FlattenInjective(disk1, disk0);
    MistakenExactly(s, disk0, b, slot.block);
  }

  lemma {:induction false} MistakenExactly(s: State, disk0: Disk, b: nat, block: seq<byte>)
    requires Inv(s, disk0) && b < |disk0|
    ensures |s.disk| == |disk0|
    ensures Mistaken(s.kept.log + s.queue, disk0, b, block) == disk0 <==>
            block == s.disk[b] || FirstImage(s.kept.log + s.queue, b).Some?
  {
    hide FirstImage;
    if FirstImage(s.kept.log + s.queue, b).None? {
      UnimagedIsOriginal(s, disk0, b);
      assert disk0[b := block][b] == block;
    }
  }

  lemma {:induction false} InvDisk(s: State, disk0: Disk)
    requires Inv(s, disk0)
    ensures IsDisk(disk0) && |s.disk| == |disk0|
  {
  }

  lemma {:induction false} UnimagedIsOriginal(s: State, disk0: Disk, b: nat)
    requires Inv(s, disk0) && b < |disk0| && FirstImage(s.kept.log + s.queue, b).None?
    ensures s.disk[b] == disk0[b]
  {
    hide FirstImage;
    assert OriginalKept(s.kept.log + s.queue, s.disk, disk0, b);
  }

  // ---------------------------------------------------------------- draining the queue

  /** From every reachable state the worker can drain the queue, and the device stays as it is. */
  lemma {:induction false} QueueDrains(s0: State, run: seq<Step>, s: State, disk0: Disk, max: nat)
    returns (run': seq<Step>, s': State)
    requires Reached(s0, run, s, disk0, max)
    ensures Reached(s0, run', s', disk0, max) && s'.queue == [] && s'.disk == s.disk
    decreases |s.queue|
  {
    hide Apply, Inv;
    if s.queue == [] {
      run', s' := run, s;
    } else {
      var next := run + [DoWork];
      assert next[..|run|] == run;
      ReachedInv(s0, run, s, disk0, max);
      assert Typed(s) by { InvTyped(s, disk0); }
      var p := Apply(s, DoWork, max);
      assert Reached(s0, next, p, disk0, max);
      DoWorkShortens(s, max);
      run', s' := QueueDrains(s0, next, p, disk0, max);
    }
  }

  lemma {:induction false} InvTyped(s: State, disk0: Disk)
    requires Inv(s, disk0)
    ensures Typed(s)
  {
  }

  lemma {:induction false} DoWorkShortens(s: State, max: nat)
    requires Typed(s) && s.queue != []
    ensures |Apply(s, DoWork, max).queue| < |s.queue| && Apply(s, DoWork, max).disk == s.disk
  {
  }
}
