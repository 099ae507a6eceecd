/**
 The step machine's slots are those of the real table: whatever a step does to them, the probes that fire
 on it do to the chains (src/kernel/fs-support/singlefilefs.c:100-310).
 */
module Probes {
  import opened Bytes
  import opened Options
  import opened SingleFile
  import opened Worker
  import opened Slots
  import opened Pipeline

  /** The table finds for every thread what `slots` has for it. */
  ghost predicate Represents(table: SlotTable, slots: map<Key, Slot>)
    requires table.Valid()
    reads table, table.buckets
  {
    forall k :: table.Find(k) == if k in slots then Some(slots[k]) else None
  }

  /** What the read probe gets to see: the block read, or that there is none. */
  function BlockRead(s: State, step: Step): Option<Slot>
    requires Typed(s) && (step.ReadSuper? || step.ReadData? || step.ReadInode?)
  {
    match step
    case ReadSuper(_) => Some(Slot(s.cache[0], 0))
    case ReadInode(_) => Some(Slot(s.cache[1], 1))
    case ReadData(_, off, buf, _) =>
      (match PlanOf(s, off, |buf|)
       case GiveUp(_) => None
       case InBlock(b, _, _) => Some(Slot(s.cache[b], b)))
  }

  /** Whether the step calls `sb_bread` at all: writes that give up for lack of space do not get that far. */
  predicate Reads(s: State, step: Step)
    requires Typed(s)
  {
    match step
    case ReadSuper(_) => true
    case ReadInode(t) => t in s.writers && s.writers[t].DataSent? && s.size < s.writers[t].end
    case ReadData(_, off, buf, _) => PlanOf(s, off, |buf|).InBlock? || PlanOf(s, off, |buf|) == GiveUp(Failed(EIO))
    case _ => false
  }

  /** The read probe of a write that is about to change a data block, or finds that there is none. */
  method OnReadData(table: SlotTable, s: State, step: Step, ghost max: nat) returns (faulted: bool)
    requires table.Valid() && Typed(s) && Enabled(s, step) && step.ReadData? && Represents(table, s.slots)
    modifies table.buckets
    ensures table.Valid() && Represents(table, Apply(s, step, max).slots)
    ensures faulted <==> Apply(s, step, max).writers[step.t].Faulted?
  {
    hide MaxSize, Padded, StoreInto, Splice, SetInodeSize;
    faulted := false;
    if Reads(s, step) {
      faulted := table.OnBread(step.t, BlockRead(s, step));
    }
  }

  /** The read probes of the superblock and of the inode. */
  method OnReadMeta(table: SlotTable, s: State, step: Step, ghost max: nat)
    requires table.Valid() && Typed(s) && Enabled(s, step) && (step.ReadSuper? || step.ReadInode?)
    requires Represents(table, s.slots)
    modifies table.buckets
    ensures table.Valid() && Represents(table, Apply(s, step, max).slots)
  {
    hide MaxSize, TypedPc;
    if Reads(s, step) {
      var _ := table.OnBread(step.t, BlockRead(s, step));
    }
  }

  /** The probes of any step but the sweep, on the table. */
  method OnStep(table: SlotTable, s: State, step: Step, ghost max: nat) returns (faulted: bool)
    requires table.Valid() && Typed(s) && Enabled(s, step) && !step.Sweep? && Represents(table, s.slots)
    modifies table.buckets
    ensures table.Valid() && Represents(table, Apply(s, step, max).slots)
    ensures faulted <==> step.ReadData? && Apply(s, step, max).writers[step.t].Faulted?
  {
    hide PlanWrite, MaxSize, Padded, StoreInto, Splice, SetInodeSize, TypedPc;
    faulted := false;
    match step {
      case Enter(t, junk) => table.OnWriteEntry(t, junk);
      case Exit(t) => table.OnWriteExit(t);
      case Foreign(t, slot) =>
        if slot.None? {
          table.OnWriteExit(t);
        } else if t in s.slots {
          var _ := table.OnBread(t, slot);
        } else {
          table.OnWriteEntry(t, slot.value);
        }
      case ReadSuper(_) => OnReadMeta(table, s, step, max);
      case ReadInode(_) => OnReadMeta(table, s, step, max);
      case ReadData(_, _, _, _) => faulted := OnReadData(table, s, step, max);
      case _ =>
    }
  }

  /** What the write probe hands to the snapshot service: what the step queues. */
  method OnSend(table: SlotTable, s: State, step: Step, ghost max: nat) returns (item: Option<seq<byte>>)
    requires table.Valid() && Typed(s) && Enabled(s, step) && Represents(table, s.slots)
    requires step.SendData? || step.SendInode?
    ensures Apply(s, step, max).queue ==
            if item.None? then s.queue
            else s.queue + [Work(if step.SendData? then s.writers[step.t].b else 1, item.value)]
  {
    var slot := table.OnWriteDirty(step.t);
    item := if slot.None? then None else Some(slot.value.block);
  }

  /**
   The periodic sweep, its liveness test being right about the threads that have a slot: what it unlinks are
   slots of dead threads, so it is a sweep step, and live threads keep theirs.
   */
  method OnSweep(table: SlotTable, s: State, live: set<Key>, ghost max: nat) returns (ghost gone: set<Key>)
    requires table.Valid() && Typed(s) && Represents(table, s.slots)
    requires forall t :: t in s.slots ==> (t in live <==> t !in s.dead)
    modifies table`nextBktnr, table.buckets
    ensures gone == set t | t in s.slots && t in s.dead &&
              old(table.nextBktnr) <= table.hash(t) < SweepEnd(old(table.nextBktnr), table.buckets.Length)
    ensures Enabled(s, Sweep(gone))
    ensures table.Valid() && Represents(table, Apply(s, Sweep(gone), max).slots)
    ensures table.nextBktnr == NextCursor(old(table.nextBktnr), table.buckets.Length, AddEnd)
  {
    gone := set t | t in s.slots && t in s.dead &&
              table.nextBktnr <= table.hash(t) < SweepEnd(table.nextBktnr, table.buckets.Length);
    table.PeriodicSweep(live);
  }
}
