/**
 The registered devices (src/kernel/devices.c): `struct object_data` as an object, and the machine of
 all devices with the worklist of deferred teardowns, up to the module's exit.
 */
module Devices {
  import opened Options
  import opened Epochs

  // ---------------------------------------------------------------- one device as an object

  class EpochData {
    const id: nat
    var nCurrentlyMounted: int

    constructor (id: nat)
      ensures this.id == id && nCurrentlyMounted == 0
    {
      this.id := id;
      nCurrentlyMounted := 0;
    }
  }

  /** `struct object_data` between two steps, no request and no item being half way. */
  class ObjectData {
    var wqIsDestroyed: bool
    var e: EpochData?
    var wq: seq<Item>
    var created: nat
    ghost var accepted: seq<Item>
    ghost var done: seq<Item>
    ghost var teardown: Teardown
    ghost var destroyed: seq<nat>

    ghost function Now(): Obj
      reads this, e
    {
      Obj(wqIsDestroyed, if e == null then None else Some(Epoch(e.id, e.nCurrentlyMounted)), created, map[],
          wq, None, accepted, done, teardown, destroyed)
    }

    constructor ()
      ensures Now() == FRESH
    {
      wqIsDestroyed, e, wq, created := false, null, [], 0;
      accepted, done, teardown, destroyed := [], [], NoTeardown, [];
    }

    method QueueWork(item: Item)
      modifies this`wq, this`accepted
      ensures Now() == Accept(old(Now()), item)
    {
      wq := wq + [item];
      accepted := accepted + [item];
    }

    /** `__epoch_event_cb_count_mount` */
    method OnMount()
      modifies this, e
      ensures Now() == CountMount(old(Now()))
      ensures old(e) != null ==> e == old(e)
      ensures old(e) == null ==> fresh(e)
    {
      if e == null {
        e := new EpochData(created);
        created := created + 1;
      }
      e.nCurrentlyMounted := e.nCurrentlyMounted + 1;
    }

    /** `__epoch_event_cb_count_umount` */
    method OnUmount()
      modifies this, e
      ensures Now() == CountUmount(old(Now()))
    {
      if e == null {
        return;
      }
      e.nCurrentlyMounted := e.nCurrentlyMounted - 1;
      if e.nCurrentlyMounted < 0 {
        e.nCurrentlyMounted := 0;
      } else if e.nCurrentlyMounted == 0 {
        if !wqIsDestroyed {
          var saved := e;
          e := null;
          QueueWork(Cleanup(saved.id));
        }
      }
    }

    /** `bdsnap_make_snapshot` without interruption. */
    method MakeSnapshot(t: nat) returns (queued: bool)
      modifies this`wq, this`accepted
      ensures queued <==> old(Now()).e.Some? && !wqIsDestroyed
      ensures Now() == if queued then CommitSnapshot(AskSnapshot(old(Now()), t), t) else old(Now())
    {
      if e == null || wqIsDestroyed {
        return false;
      }
      QueueWork(Snapshot(e.id));
      assert map[t := e.id] - {t} == map[];
      return true;
    }

    /** The worker runs the next item; `cleanup_epoch_work` destroys an epoch. */
    method RunNext()
      requires wq != []
      modifies this`wq, this`done, this`destroyed
      ensures Enabled(old(Now()), StartItem) && Enabled(After(old(Now()), StartItem), FinishItem)
      ensures Now() == After(After(old(Now()), StartItem), FinishItem)
    {
      var item := wq[0];
      wq := wq[1..];
      done := done + [item];
      if item.Cleanup? {
        destroyed := destroyed + [item.e];
      }
    }

    /** `cleanup_object_data` under its two locks: what the teardown gets is no longer reachable here. */
    method CleanupObjectData() returns (last: Option<nat>)
      requires !wqIsDestroyed
      modifies this`wqIsDestroyed, this`e, this`teardown
      ensures Now() == Detach(old(Now())) && teardown == Scheduled(last)
    {
      last := if e == null then None else Some(e.id);
      wqIsDestroyed := true;
      e := null;
      teardown := Scheduled(last);
    }

    /** `__do_waddw`: flush, destroy the workqueue, destroy the epoch taken over. */
    method WaitAndDestroy(last: Option<nat>)
      requires Inv(Now()) && teardown == Scheduled(last)
      modifies this`wq, this`done, this`destroyed, this`teardown
      ensures Inv(Now()) && teardown == TornDown && wq == []
      ensures done == old(accepted) == accepted
      ensures last.Some? ==> last.value in destroyed
    {
      hide Inv;
      EventKeeps(Now(), BeginFlush);
      teardown := Flushing(last);
      while wq != []
        invariant Inv(Now()) && teardown == Flushing(last) && accepted == old(accepted)
        decreases |wq|
      {
        EventKeeps(Now(), StartItem);
        EventKeeps(After(Now(), StartItem), FinishItem);
        RunNext();
      }
      EventKeeps(Now(), EndFlush);
      teardown := QueueDestroyed(last);
      EventKeeps(Now(), DestroyLast);
      ghost var before := destroyed;
      destroyed := DestroyEpoch(destroyed, last);
      teardown := TornDown;
      InvHistory(Now());
      if last.Some? {
        assert destroyed[|before|] == last.value;
      }
    }
  }

  lemma {:induction false} InvHistory(o: Obj)
    requires Inv(o) && o.queue == [] && o.running.None?
    ensures o.done == o.accepted
  {
  }

  // ---------------------------------------------------------------- the worklist of teardowns

  /** The nodes whose work is still pending or running, and those whose work is over. */
  function Busy(nodes: seq<nat>, over: set<nat>): seq<nat> {
    if nodes == [] then []
    else if nodes[0] in over then Busy(nodes[1..], over)
    else [nodes[0]] + Busy(nodes[1..], over)
  }

  function Over(nodes: seq<nat>, over: set<nat>): seq<nat> {
    if nodes == [] then []
    else if nodes[0] in over then [nodes[0]] + Over(nodes[1..], over)
    else Over(nodes[1..], over)
  }

  lemma {:induction false} BusyOrOver(nodes: seq<nat>, over: set<nat>)
    ensures multiset(Busy(nodes, over)) + multiset(Over(nodes, over)) == multiset(nodes)
    ensures forall n :: n in Over(nodes, over) ==> n in over
    ensures forall n :: n in Busy(nodes, over) ==> n !in over
  {
    if nodes != [] {
      BusyOrOver(nodes[1..], over);
      assert nodes == [nodes[0]] + nodes[1..];
    }
  }

  /** Adding a node and sweeping loses no node and invents none. */
  lemma {:induction false} SweepCounts(nodes: seq<nat>, node: nat, over: set<nat>, n: nat)
    ensures multiset(Busy(nodes + [node], over))[n] + multiset(Over(nodes + [node], over))[n]
         == multiset(nodes)[n] + (if n == node then 1 else 0)
    ensures forall m :: m in Over(nodes + [node], over) ==> m in over
  {
    BusyOrOver(nodes + [node], over);
    assert multiset(nodes + [node]) == multiset(nodes) + multiset{node};
    var both := multiset(Busy(nodes + [node], over)) + multiset(Over(nodes + [node], over));
    assert both[n] == multiset(nodes + [node])[n];
  }

  class Worklist {
    var nodes: seq<nat>

    /** `list_add_tail`, then the pass that frees every node whose work is not busy. */
    method AddAndSweep(node: nat, over: set<nat>) returns (freed: seq<nat>)
      modifies this
      ensures nodes == Busy(old(nodes) + [node], over) && freed == Over(old(nodes) + [node], over)
    {
      hide Busy, Over;
      nodes := nodes + [node];
      ghost var all := nodes;
      freed := [];
      var i := 0;
      while i < |nodes|
        invariant 0 <= i <= |nodes|
        invariant nodes[..i] + Busy(nodes[i..], over) == Busy(all, over)
        invariant freed + Over(nodes[i..], over) == Over(all, over)
        decreases |nodes| - i
      {
        SweepOne(nodes, i, over);
        var rest := nodes[i + 1..];
        if nodes[i] in over {
          freed := freed + [nodes[i]];
          nodes := nodes[..i] + rest;
          assert nodes[i..] == rest;
        } else {
          assert nodes[..i + 1] == nodes[..i] + [nodes[i]];
          i := i + 1;
        }
      }
      assert nodes[..i] == nodes && nodes[i..] == [];
      SweepNone(over);
    }
  }

  lemma {:induction false} SweepOne(nodes: seq<nat>, i: nat, over: set<nat>)
    requires i < |nodes|
    ensures Busy(nodes[i..], over) == (if nodes[i] in over then [] else [nodes[i]]) + Busy(nodes[i + 1..], over)
    ensures Over(nodes[i..], over) == (if nodes[i] in over then [nodes[i]] else []) + Over(nodes[i + 1..], over)
  {
    assert nodes[i..][1..] == nodes[i + 1..];
  }

  lemma {:induction false} SweepNone(over: set<nat>)
    ensures Busy([], over) == [] && Over([], over) == []
  {
  }

  // ---------------------------------------------------------------- all devices

  /**
   Devices by number; `table` are those in the hash tables, `unlisted` those whose clean-up has not
   reached the worklist yet, `freed` the worklist nodes freed so far.
   */
  datatype System = System(
    objs: map<nat, Obj>, table: set<nat>, unlisted: set<nat>, worklist: seq<nat>, freed: seq<nat>, open: bool)

  datatype SysEvent =
    | Register(id: nat)               // register_device
    | Local(id: nat, ev: Event)       // any event of one device but its deactivation
    | Remove(id: nat)                 // out of the table, and cleanup_object_data under the locks
    | ListNode(id: nat)               // the rest of cleanup_object_data
    | BeginExit                       // probes are gone; destroy_devices closes the gate
    | JoinNode                        // flush_work on the first node, which is then freed

  /** The probes and mount callbacks are unregistered before `destroy_devices`. */
  predicate FromOutside(ev: Event) {
    ev.Mount? || ev.Umount? || ev.Ask? || ev.Commit?
  }

  /** The devices whose teardown is over. */
  function TornDownSet(s: System): set<nat> {
    set id | id in s.objs && s.objs[id].teardown.TornDown?
  }

  ghost predicate SysEnabled(s: System, ev: SysEvent) {
    match ev
    case Register(id) => s.open && id !in s.objs
    case Local(id, e) =>
      id in s.objs && Enabled(s.objs[id], e) && !e.Deactivate? && (FromOutside(e) ==> s.open)
    case Remove(id) => id in s.table && id in s.objs && Enabled(s.objs[id], Deactivate)
    case ListNode(id) => id in s.unlisted
    case BeginExit => s.open && s.unlisted == {} && forall id :: id in s.objs ==> s.objs[id].requests == map[]
    case JoinNode =>
      && !s.open && s.table == {} && s.unlisted == {} && s.worklist != []
      && s.worklist[0] in TornDownSet(s)
  }

  ghost function SysAfter(s: System, ev: SysEvent): System
    requires SysEnabled(s, ev)
  {
    match ev
    case Register(id) => s.(objs := s.objs[id := FRESH], table := s.table + {id})
    case Local(id, e) => s.(objs := s.objs[id := After(s.objs[id], e)])
    case Remove(id) =>
      s.(objs := s.objs[id := Detach(s.objs[id])], table := s.table - {id}, unlisted := s.unlisted + {id})
    case ListNode(id) =>
      s.(unlisted := s.unlisted - {id}, worklist := Busy(s.worklist + [id], TornDownSet(s)),
         freed := s.freed + Over(s.worklist + [id], TornDownSet(s)))
    case BeginExit => s.(open := false)
    case JoinNode => s.(worklist := s.worklist[1..], freed := s.freed + [s.worklist[0]])
  }

  /** Each deactivated device has one node: not listed yet, listed, or freed once its teardown is over. */
  ghost predicate NodesInv(s: System) {
    && (forall id :: id in s.objs ==> (s.objs[id].wqIsDestroyed <==> id !in s.table))
    && s.table <= s.objs.Keys && s.unlisted <= s.objs.Keys
    && (forall id :: NodeCount(s, id) == if id in s.objs && id !in s.table then 1 else 0)
    && (forall id :: id in s.freed ==> id in TornDownSet(s))
  }

  ghost function NodeCount(s: System, id: nat): nat {
    (if id in s.unlisted then 1 else 0) + multiset(s.worklist)[id] + multiset(s.freed)[id]
  }

  ghost predicate SysInv(s: System) {
    NodesInv(s) && forall id :: id in s.objs ==> Inv(s.objs[id])
  }

  ghost predicate SysInit(s: System) {
    s == System(map[], {}, {}, [], [], true)
  }

  lemma {:induction false} LocalKeepsNodes(o: Obj, ev: Event)
    requires Enabled(o, ev) && !ev.Deactivate?
    ensures After(o, ev).wqIsDestroyed == o.wqIsDestroyed
    ensures o.teardown.TornDown? ==> After(o, ev).teardown.TornDown?
  {
  }

  lemma {:induction false} LocalKeeps(s: System, id: nat, e: Event)
    requires SysInv(s) && SysEnabled(s, Local(id, e))
    ensures SysInv(SysAfter(s, Local(id, e)))
  {
    hide Inv, After, Enabled;
    EventKeeps(s.objs[id], e);
    LocalKeepsNodes(s.objs[id], e);
    var s' := SysAfter(s, Local(id, e));
    assert TornDownSet(s) <= TornDownSet(s');
    assert forall n :: n in s'.objs ==> s'.objs[n].wqIsDestroyed == s.objs[n].wqIsDestroyed;
    forall n
      ensures NodeCount(s', n) == NodeCount(s, n)
    {
    }
  }

  lemma {:induction false} RegisterKeeps(s: System, id: nat)
    requires SysInv(s) && SysEnabled(s, Register(id))
    ensures SysInv(SysAfter(s, Register(id)))
  {
    hide Inv;
    FreshInv();
    var s' := SysAfter(s, Register(id));
    forall n
      ensures NodeCount(s', n) == NodeCount(s, n)
    {
    }
    assert NodeCount(s, id) == 0;
  }

  lemma {:induction false} ProtocolHolds(o: Obj)
    requires Inv(o)
    ensures Protocol(o)
  {
  }

  lemma {:induction false} RemoveKeeps(s: System, id: nat)
    requires SysInv(s) && SysEnabled(s, Remove(id))
    ensures SysInv(SysAfter(s, Remove(id)))
  {
    hide Inv;
    EventKeeps(s.objs[id], Deactivate);
    var s' := SysAfter(s, Remove(id));
    assert !s.objs[id].teardown.TornDown? by { ProtocolHolds(s.objs[id]); }
    assert TornDownSet(s) <= TornDownSet(s');
    assert NodeCount(s, id) == 0;
    forall n
      ensures NodeCount(s', n) == NodeCount(s, n) + (if n == id then 1 else 0)
    {
    }
    assert id !in s.freed;
  }

  lemma {:induction false} ListNodeKeeps(s: System, id: nat)
    requires SysInv(s) && SysEnabled(s, ListNode(id))
    ensures SysInv(SysAfter(s, ListNode(id)))
  {
    hide Inv, Busy, Over;
    var s', over := SysAfter(s, ListNode(id)), TornDownSet(s);
    forall n
      ensures NodeCount(s', n) == NodeCount(s, n)
    {
      SweepCounts(s.worklist, id, over, n);
    }
    SweepCounts(s.worklist, id, over, id);
  }

  /** Listing a node leaves no finished one on the worklist, and frees exactly those that were. */
  lemma {:induction false} ListedAreBusy(s: System, id: nat)
    requires SysEnabled(s, ListNode(id))
    ensures var s' := SysAfter(s, ListNode(id));
            && (forall n :: n in s'.worklist <==> (n in s.worklist || n == id) && n !in TornDownSet(s))
            && (forall n :: n in s'.freed <==> n in s.freed || ((n in s.worklist || n == id) && n in TornDownSet(s)))
  {
    hide Busy, Over, TornDownSet;
    var nodes, over := s.worklist + [id], TornDownSet(s);
    BusyOrOver(nodes, over);
    BusyMembers(nodes, over);
    assert nodes[|s.worklist|] == id;
  }

  lemma {:induction false} BusyMembers(nodes: seq<nat>, over: set<nat>)
    ensures forall n :: n in Busy(nodes, over) <==> n in nodes && n !in over
    ensures forall n :: n in Over(nodes, over) <==> n in nodes && n in over
  {
    if nodes != [] {
      BusyMembers(nodes[1..], over);
      assert nodes == [nodes[0]] + nodes[1..];
    }
  }

  lemma {:induction false} JoinNodeKeeps(s: System)
    requires SysInv(s) && SysEnabled(s, JoinNode)
    ensures SysInv(SysAfter(s, JoinNode))
  {
    hide Inv;
    var s' := SysAfter(s, JoinNode);
    assert s.worklist == [s.worklist[0]] + s.worklist[1..];
    forall n
      ensures NodeCount(s', n) == NodeCount(s, n)
    {
    }
  }

  lemma {:induction false} SysEventKeeps(s: System, ev: SysEvent)
    requires SysInv(s) && SysEnabled(s, ev)
    ensures SysInv(SysAfter(s, ev))
  {
    hide Inv, NodesInv;
    match ev
    case Register(id) => RegisterKeeps(s, id);
    case Local(id, e) => LocalKeeps(s, id, e);
    case Remove(id) => RemoveKeeps(s, id);
    case ListNode(id) => ListNodeKeeps(s, id);
    case BeginExit => BeginExitKeeps(s);
    case JoinNode => JoinNodeKeeps(s);
  }

  lemma {:induction false} BeginExitKeeps(s: System)
    requires SysInv(s) && SysEnabled(s, BeginExit)
    ensures SysInv(SysAfter(s, BeginExit))
  {
    hide Inv;
    var s' := SysAfter(s, BeginExit);
    forall n
      ensures NodeCount(s', n) == NodeCount(s, n)
    {
    }
  }

  ghost predicate SysReached(run: seq<SysEvent>, s: System) {
    if run == [] then SysInit(s)
    else
      var ev := run[|run| - 1];
      exists p :: SysReached(run[..|run| - 1], p) && SysEnabled(p, ev) && s == SysAfter(p, ev)
  }

  /** The events of device `id` in a run of the whole system. */
  function EventsOf(run: seq<SysEvent>, id: nat): seq<Event> {
    if run == [] then []
    else
      var front, ev := EventsOf(run[..|run| - 1], id), run[|run| - 1];
      if ev.Local? && ev.id == id then front + [ev.ev]
      else if ev.Remove? && ev.id == id then front + [Deactivate]
      else front
  }

  lemma {:induction false} ReachedSnoc(run: seq<Event>, p: Obj, ev: Event)
    requires Epochs.Reached(run, p) && Enabled(p, ev)
    ensures Epochs.Reached(run + [ev], After(p, ev))
  {
    var all := run + [ev];
    assert all[..|all| - 1] == run && all[|all| - 1] == ev;
  }

  /** Every device of the system lives through a run of its own. */
  lemma {:induction false} SysReachedInv(run: seq<SysEvent>, s: System)
    requires SysReached(run, s)
    ensures SysInv(s)
    ensures forall id :: id !in s.objs ==> EventsOf(run, id) == []
    ensures forall id :: id in s.objs ==> Epochs.Reached(EventsOf(run, id), s.objs[id])
  {
    hide SysInv, Epochs.Reached, After, Enabled;
    if run == [] {
      InitSysInv(s);
    } else {
      var front, ev := run[..|run| - 1], run[|run| - 1];
      var p :| SysReached(front, p) && SysEnabled(p, ev) && s == SysAfter(p, ev);
      SysReachedInv(front, p);
      SysEventKeeps(p, ev);
      FreshReached();
      forall id | id in s.objs
        ensures Epochs.Reached(EventsOf(run, id), s.objs[id])
      {
        if ev.Local? && ev.id == id {
          ReachedSnoc(EventsOf(front, id), p.objs[id], ev.ev);
        } else if ev.Remove? && ev.id == id {
          DeactivateIsDetach(p.objs[id]);
          ReachedSnoc(EventsOf(front, id), p.objs[id], Deactivate);
        }
      }
    }
  }

  lemma {:induction false} DeactivateIsDetach(o: Obj)
    requires Enabled(o, Deactivate)
    ensures After(o, Deactivate) == Detach(o)
  {
  }

  lemma {:induction false} FreshReached()
    ensures Epochs.Reached([], FRESH)
  {
  }

  lemma {:induction false} InitSysInv(s: System)
    requires SysInit(s)
    ensures SysInv(s)
  {
  }

  /** `destroy_devices` has gone through both tables and through the whole worklist. */
  ghost predicate ExitDone(s: System) {
    !s.open && s.table == {} && s.unlisted == {} && s.worklist == []
  }

  // ---------------------------------------------------------------- late mounts

  ghost predicate LateMount(events: seq<Event>) {
    exists i, j :: 0 <= i < j < |events| && events[i].Deactivate? && events[j].Mount?
  }

  lemma {:induction false} LateMountSnoc(front: seq<Event>, ev: Event)
    ensures LateMount(front + [ev]) <==> LateMount(front) || (ev.Mount? && Deactivate in front)
  {
    var events := front + [ev];
    assert forall i :: 0 <= i < |front| ==> events[i] == front[i];
    if i, j :| 0 <= i < j < |events| && events[i].Deactivate? && events[j].Mount? {
      assert front[i].Deactivate? && front[i] in front;
      assert j < |front| ==> front[j].Mount?;
    }
    if ev.Mount? && Deactivate in front {
      var i :| 0 <= i < |front| && front[i] == Deactivate;
      assert events[i].Deactivate? && events[|front|].Mount?;
    }
  }

  /** A deactivated device has an epoch again if and only if a mount event followed the deactivation. */
  lemma {:induction false} LeftoverIffLateMount(events: seq<Event>, o: Obj)
    requires Epochs.Reached(events, o)
    ensures o.wqIsDestroyed <==> Deactivate in events
    ensures o.wqIsDestroyed ==> (o.e.Some? <==> LateMount(events))
    ensures LateMount(events) ==> o.wqIsDestroyed
  {
    hide LateMount, After, Enabled;
    if events == [] {
      NoMount();
    } else {
      var front, ev := events[..|events| - 1], events[|events| - 1];
      var p :| Epochs.Reached(front, p) && Enabled(p, ev) && o == After(p, ev);
      assert events == front + [ev];
      LeftoverIffLateMount(front, p);
      LateMountSnoc(front, ev);
      LeftoverStep(p, ev);
    }
  }

  lemma {:induction false} LeftoverStep(o: Obj, ev: Event)
    requires Enabled(o, ev)
    ensures After(o, ev).wqIsDestroyed <==> o.wqIsDestroyed || ev.Deactivate?
    ensures o.wqIsDestroyed ==> (After(o, ev).e.Some? <==> o.e.Some? || ev.Mount?)
    ensures ev.Deactivate? ==> !o.wqIsDestroyed && After(o, ev).e.None?
  {
  }

  lemma {:induction false} NoMount()
    ensures !LateMount([])
  {
  }

  lemma {:induction false} LateMountStates()
    ensures var mounted := CountMount(Detach(FRESH));
            && Enabled(FRESH, Deactivate) && Enabled(Detach(FRESH), Mount) && Enabled(mounted, BeginFlush)
            && Enabled(After(mounted, BeginFlush), EndFlush)
            && Enabled(After(After(mounted, BeginFlush), EndFlush), DestroyLast)
            && After(FRESH, Deactivate) == Detach(FRESH) && After(Detach(FRESH), Mount) == mounted
            && var torn := After(After(After(mounted, BeginFlush), EndFlush), DestroyLast);
               torn.teardown.TornDown? && torn.created == 1 && torn.destroyed == []
  {
  }

  /** The shortest such run: the epoch of the late mount outlives the teardown. */
  lemma {:induction false} LateMountLeak()
    ensures var mounted := CountMount(Detach(FRESH));
            && Enabled(FRESH, Deactivate) && Enabled(Detach(FRESH), Mount) && Enabled(mounted, BeginFlush)
            && Enabled(After(mounted, BeginFlush), EndFlush)
            && Enabled(After(After(mounted, BeginFlush), EndFlush), DestroyLast)
    ensures var mounted := CountMount(Detach(FRESH));
            var torn := After(After(After(mounted, BeginFlush), EndFlush), DestroyLast);
            && torn.teardown.TornDown? && torn.created == 1 && torn.destroyed == []
            && Epochs.Reached([Deactivate, Mount, BeginFlush, EndFlush, DestroyLast], torn)
  {
    hide Epochs.Reached, After, Enabled, CountMount, Detach;
    var mounted := CountMount(Detach(FRESH));
    LateMountStates();
    FreshReached();
    ReachedSnoc([], FRESH, Deactivate);
    assert [] + [Deactivate] == [Deactivate];
    ReachedSnoc([Deactivate], Detach(FRESH), Mount);
    assert [Deactivate] + [Mount] == [Deactivate, Mount];
    ReachedSnoc([Deactivate, Mount], mounted, BeginFlush);
    assert [Deactivate, Mount] + [BeginFlush] == [Deactivate, Mount, BeginFlush];
    ReachedSnoc([Deactivate, Mount, BeginFlush], After(mounted, BeginFlush), EndFlush);
    assert [Deactivate, Mount, BeginFlush] + [EndFlush] == [Deactivate, Mount, BeginFlush, EndFlush];
    ReachedSnoc([Deactivate, Mount, BeginFlush, EndFlush], After(After(mounted, BeginFlush), EndFlush), DestroyLast);
    assert [Deactivate, Mount, BeginFlush, EndFlush] + [DestroyLast] == [Deactivate, Mount, BeginFlush, EndFlush, DestroyLast];
  }

  // ---------------------------------------------------------------- the exit

  /**
   When the module's exit is done, every device ever registered has had its teardown flushed and
   finished, its node freed exactly once, every item of its queue run in order, and no epoch destroyed
   twice; all its epochs are destroyed if and only if no mount event came after its deactivation.
   */
  lemma {:induction false} ExitDestroysEverything(run: seq<SysEvent>, s: System, id: nat)
    requires SysReached(run, s) && ExitDone(s) && id in s.objs
    ensures s.objs[id].teardown.TornDown? && multiset(s.freed)[id] == 1
    ensures s.objs[id].done == s.objs[id].accepted && s.objs[id].queue == []
    ensures forall i, j :: 0 <= i < j < |s.objs[id].destroyed| ==> s.objs[id].destroyed[i] != s.objs[id].destroyed[j]
    ensures (forall x :: 0 <= x < s.objs[id].created ==> x in s.objs[id].destroyed) <==> !LateMount(EventsOf(run, id))
    ensures |s.objs[id].destroyed| == s.objs[id].created - (if LateMount(EventsOf(run, id)) then 1 else 0)
  {
    hide Epochs.Reached, Inv, SysReached, LateMount;
    SysReachedInv(run, s);
    assert NodeCount(s, id) == 1;
    assert id in s.freed;
    var o, events := s.objs[id], EventsOf(run, id);
    FlushCoversAll(events, o);
    TornDownDestroysAll(events, o);
    ReachedInv(events, o);
    DistinctDestroyed(o);
    LeftoverIffLateMount(events, o);
  }

  /** No request is under way any more. */
  ghost predicate Quiet(s: System) {
    forall id :: id in s.objs ==> s.objs[id].requests == map[]
  }

  lemma {:induction false} ClosedIsQuiet(run: seq<SysEvent>, s: System)
    requires SysReached(run, s) && !s.open
    ensures Quiet(s)
  {
    if run == [] {
      assert false;
    } else {
      var front, ev := run[..|run| - 1], run[|run| - 1];
      var p :| SysReached(front, p) && SysEnabled(p, ev) && s == SysAfter(p, ev);
      if !p.open {
        ClosedIsQuiet(front, p);
      }
    }
  }

  /** What a teardown still has to go through. */
  function Remaining(o: Obj): nat {
    2 * |o.queue| + (if o.running.Some? then 1 else 0)
    + match o.teardown
      case Scheduled(_) => 3
      case Flushing(_) => 2
      case QueueDestroyed(_) => 1
      case _ => 0
  }

  /** The next event of a teardown that is under way. */
  function NextOf(o: Obj): Event {
    match o.teardown
    case Scheduled(_) => BeginFlush
    case Flushing(_) => if o.running.Some? then FinishItem else if o.queue != [] then StartItem else EndFlush
    case _ => DestroyLast
  }

  lemma {:induction false} TeardownGoesOn(o: Obj)
    requires o.wqIsDestroyed && Inv(o) && !o.teardown.TornDown?
    ensures Enabled(o, NextOf(o)) && !NextOf(o).Deactivate? && !FromOutside(NextOf(o))
    ensures Remaining(After(o, NextOf(o))) < Remaining(o)
  {
    hide Separate, Covered;
  }

  function HeadRemaining(s: System): nat {
    if s.worklist != [] && s.worklist[0] in s.objs then Remaining(s.objs[s.worklist[0]]) else 0
  }

  /** Fewer devices in the table, or else fewer nodes to list, to join, or less to do for the first one. */
  ghost predicate Closer(s: System, s': System) {
    || |s'.table| < |s.table|
    || (s'.table == s.table && |s'.unlisted| < |s.unlisted|)
    || (s'.table == s.table && s'.unlisted == s.unlisted && |s'.worklist| < |s.worklist|)
    || (s'.table == s.table && s'.unlisted == s.unlisted && s'.worklist == s.worklist
        && HeadRemaining(s') < HeadRemaining(s))
  }

  lemma {:induction false} RemoveCloser(s: System, id: nat)
    requires SysInv(s) && Quiet(s) && id in s.table
    ensures SysEnabled(s, Remove(id)) && SysAfter(s, Remove(id)).open == s.open && Closer(s, SysAfter(s, Remove(id)))
  {
    hide Inv, HeadRemaining, NodeCount, TornDownSet;
    assert !s.objs[id].wqIsDestroyed;
  }

  lemma {:induction false} ListCloser(s: System, id: nat)
    requires id in s.unlisted
    ensures SysEnabled(s, ListNode(id)) && SysAfter(s, ListNode(id)).open == s.open && Closer(s, SysAfter(s, ListNode(id)))
  {
    hide HeadRemaining, Busy, Over, TornDownSet;
  }

  lemma {:induction false} JoinCloser(s: System)
    requires SysInv(s) && Quiet(s) && !s.open && s.table == {} && s.unlisted == {} && s.worklist != []
    ensures s.worklist[0] in s.objs && s.objs[s.worklist[0]].wqIsDestroyed && Inv(s.objs[s.worklist[0]])
    ensures s.objs[s.worklist[0]].teardown.TornDown? ==>
              SysEnabled(s, JoinNode) && Closer(s, SysAfter(s, JoinNode)) && !SysAfter(s, JoinNode).open
  {
    hide Inv, HeadRemaining;
    assert NodeCount(s, s.worklist[0]) >= 1;
  }

  lemma {:induction false} LocalCloser(s: System, id: nat)
    requires !s.open && s.worklist != [] && s.worklist[0] == id && id in s.objs
    requires s.objs[id].wqIsDestroyed && Inv(s.objs[id]) && !s.objs[id].teardown.TornDown?
    ensures var ev := Local(id, NextOf(s.objs[id]));
            SysEnabled(s, ev) && !SysAfter(s, ev).open && Closer(s, SysAfter(s, ev))
  {
    hide Inv, Remaining, NextOf, After, Enabled;
    TeardownGoesOn(s.objs[id]);
  }

  /** As long as the exit is not done, some event brings it closer, and nobody has to wait for anything outside. */
  lemma {:induction false} ExitStep(s: System) returns (ev: SysEvent)
    requires SysInv(s) && Quiet(s) && !s.open && !ExitDone(s)
    ensures SysEnabled(s, ev) && !SysAfter(s, ev).open && Closer(s, SysAfter(s, ev))
  {
    hide SysInv, Inv, Closer, SysEnabled, SysAfter;
    if s.table != {} {
      var id :| id in s.table;
      ev := Remove(id);
      RemoveCloser(s, id);
    } else if s.unlisted != {} {
      var id :| id in s.unlisted;
      ev := ListNode(id);
      ListCloser(s, id);
    } else {
      var id := s.worklist[0];
      JoinCloser(s);
      if s.objs[id].teardown.TornDown? {
        ev := JoinNode;
      } else {
        ev := Local(id, NextOf(s.objs[id]));
        LocalCloser(s, id);
      }
    }
  }

  lemma {:induction false} SysReachedSnoc(run: seq<SysEvent>, p: System, ev: SysEvent)
    requires SysReached(run, p) && SysEnabled(p, ev)
    ensures SysReached(run + [ev], SysAfter(p, ev))
  {
    hide SysEnabled, SysAfter;
    var all := run + [ev];
    assert all[..|all| - 1] == run && all[|all| - 1] == ev;
  }

  /** From every state after the start of the exit, the exit can be completed. */
  lemma {:induction false} ExitCompletes(run: seq<SysEvent>, s: System) returns (run': seq<SysEvent>, s': System)
    requires SysReached(run, s) && !s.open
    ensures SysReached(run', s') && ExitDone(s') && run <= run'
    decreases |s.table|, |s.unlisted|, |s.worklist|, HeadRemaining(s)
  {
    hide SysInv, SysEnabled, SysAfter, Quiet, HeadRemaining;
    if ExitDone(s) {
      run', s' := run, s;
    } else {
      SysReachedInv(run, s);
      ClosedIsQuiet(run, s);
      var ev := ExitStep(s);
      var next, p := run + [ev], SysAfter(s, ev);
      SysReachedSnoc(run, s, ev);
      run', s' := ExitCompletes(next, p);
    }
  }
}
