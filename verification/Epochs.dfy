/**
 The lifetime of epochs and of a device's workqueue (src/kernel/mounts.c:21-131,
 src/kernel/devices.c:84-168, src/kernel/snapshot.c:542-633): mounts, umounts, snapshot requests,
 deactivation and the two ways an epoch is destroyed, interleaved at the granularity of the locks.
 */
module Epochs {
  import opened Options

  /** The current epoch: the how-manieth of its device, and `n_currently_mounted`. */
  datatype Epoch = Epoch(id: nat, mounted: int)

  /** An item of the ordered workqueue, with the epoch it points into. */
  datatype Item = Snapshot(e: nat) | Cleanup(e: nat)

  /** The deferred teardown that a deactivation schedules, with the epoch it took over. */
  datatype Teardown =
    | NoTeardown
    | Scheduled(last: Option<nat>)
    | Flushing(last: Option<nat>)
    | QueueDestroyed(last: Option<nat>)
    | TornDown

  /**
   `struct object_data` and what is under way for it. `requests` are the threads inside
   `queue_snapshot_work`, holding the read side of `wq_destroy_lock`, with the epoch they have read;
   `accepted` and `done` are the history of the workqueue, `destroyed` that of `destroy_an_epoch`.
   */
  datatype Obj = Obj(
    wqIsDestroyed: bool, e: Option<Epoch>, created: nat,
    requests: map<nat, nat>,
    queue: seq<Item>, running: Option<Item>,
    accepted: seq<Item>, done: seq<Item>,
    teardown: Teardown, destroyed: seq<nat>)

  const FRESH: Obj := Obj(false, None, 0, map[], [], None, [], [], NoTeardown, [])

  datatype Event =
    | Mount | Umount                   // counted under general_lock
    | Ask(t: nat)                      // bdsnap_make_snapshot up to reading the epoch
    | Commit(t: nat)                   // its queue_work, and the read lock is released
    | StartItem | FinishItem           // the worker
    | Deactivate                       // cleanup_object_data under its locks
    | BeginFlush | EndFlush            // the teardown: flush_workqueue, destroy_workqueue
    | DestroyLast                      // the teardown: destroy_an_epoch

  /** `queue_work` on the device's workqueue. */
  function Accept(o: Obj, item: Item): Obj {
    o.(queue := o.queue + [item], accepted := o.accepted + [item])
  }

  /** `__epoch_event_cb_count_mount` */
  function CountMount(o: Obj): Obj {
    if o.e.None? then o.(e := Some(Epoch(o.created, 1)), created := o.created + 1)
    else o.(e := Some(o.e.value.(mounted := o.e.value.mounted + 1)))
  }

  /** `__epoch_event_cb_count_umount` */
  function CountUmount(o: Obj): Obj {
    if o.e.None? then o
    else
      var n := o.e.value.mounted - 1;
      if n < 0 then o.(e := Some(o.e.value.(mounted := 0)))
      else if n == 0 && !o.wqIsDestroyed then Accept(o.(e := None), Cleanup(o.e.value.id))
      else o.(e := Some(o.e.value.(mounted := n)))
  }

  /** `bdsnap_make_snapshot`: refused when there is no epoch or the workqueue is going away. */
  function AskSnapshot(o: Obj, t: nat): Obj {
    if o.e.None? || o.wqIsDestroyed then o else o.(requests := o.requests[t := o.e.value.id])
  }

  function CommitSnapshot(o: Obj, t: nat): Obj
    requires t in o.requests
  {
    Accept(o.(requests := o.requests - {t}), Snapshot(o.requests[t]))
  }

  /** `cleanup_object_data` up to the release of its locks. */
  function Detach(o: Obj): Obj {
    o.(wqIsDestroyed := true, e := None,
       teardown := Scheduled(if o.e.Some? then Some(o.e.value.id) else None))
  }

  /** `destroy_an_epoch` of a pointer that may be NULL. */
  function DestroyEpoch(destroyed: seq<nat>, e: Option<nat>): seq<nat> {
    if e.Some? then destroyed + [e.value] else destroyed
  }

  /** Dropping the counter to 0 means the file system is not busy: no request is under way. */
  ghost predicate LastUmount(o: Obj) {
    o.e.Some? && o.e.value.mounted == 1 && !o.wqIsDestroyed
  }

  ghost predicate Enabled(o: Obj, ev: Event) {
    match ev
    case Mount => true
    case Umount => LastUmount(o) ==> o.requests == map[]
    case Ask(t) => t !in o.requests
    case Commit(t) => t in o.requests
    case StartItem => o.running.None? && o.queue != []
    case FinishItem => o.running.Some?
    case Deactivate => !o.wqIsDestroyed && o.requests == map[]
    case BeginFlush => o.teardown.Scheduled?
    case EndFlush => o.teardown.Flushing? && o.queue == [] && o.running.None?
    case DestroyLast => o.teardown.QueueDestroyed?
  }

  function After(o: Obj, ev: Event): Obj
    requires Enabled(o, ev)
  {
    match ev
    case Mount => CountMount(o)
    case Umount => CountUmount(o)
    case Ask(t) => AskSnapshot(o, t)
    case Commit(t) => CommitSnapshot(o, t)
    case StartItem => o.(running := Some(o.queue[0]), queue := o.queue[1..])
    case FinishItem =>
      var item := o.running.value;
      o.(running := None, done := o.done + [item],
         destroyed := if item.Cleanup? then o.destroyed + [item.e] else o.destroyed)
    case Deactivate => Detach(o)
    case BeginFlush => o.(teardown := Flushing(o.teardown.last))
    case EndFlush => o.(teardown := QueueDestroyed(o.teardown.last))
    case DestroyLast => o.(teardown := TornDown, destroyed := DestroyEpoch(o.destroyed, o.teardown.last))
  }

  // ---------------------------------------------------------------- the invariant

  /** What the workqueue still has to do, the item being run included. */
  function Pending(o: Obj): seq<Item> {
    (if o.running.Some? then [o.running.value] else []) + o.queue
  }

  /** Items of an epoch come in order of epochs, and its cleanup comes last. */
  ghost predicate Ordered(items: seq<Item>) {
    forall i, j :: 0 <= i < j < |items| ==>
      items[i].e <= items[j].e && (items[i].Cleanup? ==> items[i].e < items[j].e)
  }

  /** All items are about epochs up to `x`, and `x` is not being cleaned up. */
  ghost predicate Before(items: seq<Item>, x: nat) {
    forall i :: 0 <= i < |items| ==> items[i].e <= x && (items[i].Cleanup? ==> items[i].e < x)
  }

  /** The epoch held by a pending teardown. */
  function Held(o: Obj): Option<nat> {
    if o.teardown.NoTeardown? || o.teardown.TornDown? then None else o.teardown.last
  }

  ghost predicate Queued(items: seq<Item>, x: nat) {
    exists i :: 0 <= i < |items| && items[i] == Cleanup(x)
  }

  /** Where epochs can be: current, queued for cleanup, held by a teardown, or destroyed. */
  datatype Places = Places(current: Option<nat>, items: seq<Item>, held: Option<nat>, destroyed: seq<nat>)

  function PlacesOf(o: Obj): Places {
    Places(if o.e.Some? then Some(o.e.value.id) else None, Pending(o), Held(o), o.destroyed)
  }

  ghost predicate Placed(p: Places, x: nat) {
    p.current == Some(x) || Queued(p.items, x) || p.held == Some(x) || x in p.destroyed
  }

  /** Every epoch created so far is somewhere. */
  ghost predicate Covered(p: Places, created: nat) {
    forall x :: 0 <= x < created ==> Placed(p, x)
  }

  /** Destroyed epochs are older than anything queued, held or current. */
  ghost predicate Gone(p: Places, d: nat) {
    p.current != Some(d) && p.held != Some(d) && forall i :: 0 <= i < |p.items| ==> d < p.items[i].e
  }

  /** No epoch is in two places, and the places are in order of age. */
  ghost predicate Separate(p: Places, created: nat) {
    && Ordered(p.items)
    && (forall i :: 0 <= i < |p.items| ==> p.items[i].e < created)
    && (p.current.Some? ==> p.current.value == created - 1 && Before(p.items, p.current.value))
    && (p.held.Some? ==>
          && p.held.value < created && Before(p.items, p.held.value)
          && (p.current.Some? ==> p.held.value < p.current.value))
    && (forall i, j :: 0 <= i < j < |p.destroyed| ==> p.destroyed[i] != p.destroyed[j])
    && (forall i :: 0 <= i < |p.destroyed| ==> p.destroyed[i] < created && Gone(p, p.destroyed[i]))
  }

  /** The counter, the requests, the history of the queue and the teardown fit together. */
  ghost predicate Protocol(o: Obj) {
    && o.accepted == o.done + Pending(o)
    && (o.e.Some? ==> o.e.value.mounted >= (if o.wqIsDestroyed then 0 else 1))
    && (o.requests != map[] ==> !o.wqIsDestroyed)
    && (forall t :: t in o.requests ==> o.e.Some? && o.requests[t] == o.e.value.id)
    && (o.wqIsDestroyed <==> !o.teardown.NoTeardown?)
    && (o.teardown.QueueDestroyed? || o.teardown.TornDown? ==> Pending(o) == [])
  }

  ghost predicate Inv(o: Obj) {
    Separate(PlacesOf(o), o.created) && Covered(PlacesOf(o), o.created) && Protocol(o)
  }

  lemma {:induction false} FreshInv()
    ensures Inv(FRESH)
  {
  }

  lemma {:induction false} QueuedSnoc(items: seq<Item>, item: Item, x: nat)
    ensures Queued(items + [item], x) <==> Queued(items, x) || item == Cleanup(x)
  {
    var all := items + [item];
    assert all[|items|] == item;
    assert forall i :: 0 <= i < |items| ==> all[i] == items[i];
  }

  lemma {:induction false} QueuedTail(items: seq<Item>, x: nat)
    requires items != []
    ensures Queued(items, x) <==> Queued(items[1..], x) || items[0] == Cleanup(x)
  {
    assert items == [items[0]] + items[1..];
    assert forall i :: 0 <= i < |items[1..]| ==> items[1..][i] == items[i + 1];
    assert forall i :: 1 <= i < |items| ==> items[1..][i - 1] == items[i];
  }

  // ---------------------------------------------------------------- moves between the places

  /** A new epoch becomes current. */
  lemma {:induction false} Born(p: Places, created: nat)
    requires Separate(p, created) && Covered(p, created) && p.current.None?
    ensures Separate(p.(current := Some(created)), created + 1)
    ensures Covered(p.(current := Some(created)), created + 1)
  {
    forall x | 0 <= x < created
      ensures Placed(p.(current := Some(created)), x)
    {
      assert Placed(p, x);
    }
    forall i | 0 <= i < |p.destroyed|
      ensures Gone(p.(current := Some(created)), p.destroyed[i])
    {
      assert Gone(p, p.destroyed[i]);
    }
  }

  /** The current epoch is queued for cleanup. */
  lemma {:induction false} Retired(p: Places, created: nat, x: nat)
    requires Separate(p, created) && Covered(p, created) && p.current == Some(x) && p.held.None?
    ensures Separate(p.(current := None, items := p.items + [Cleanup(x)]), created)
    ensures Covered(p.(current := None, items := p.items + [Cleanup(x)]), created)
  {
    var q := p.(current := None, items := p.items + [Cleanup(x)]);
    forall y | 0 <= y < created
      ensures Placed(q, y)
    {
      assert Placed(p, y);
      QueuedSnoc(p.items, Cleanup(x), y);
    }
    forall i | 0 <= i < |p.destroyed|
      ensures Gone(q, p.destroyed[i])
    {
      assert Gone(p, p.destroyed[i]);
    }
  }

  /** A snapshot item of the current epoch is queued. */
  lemma {:induction false} Requested(p: Places, created: nat, x: nat)
    requires Separate(p, created) && Covered(p, created) && p.current == Some(x) && p.held.None?
    ensures Separate(p.(items := p.items + [Snapshot(x)]), created)
    ensures Covered(p.(items := p.items + [Snapshot(x)]), created)
  {
    var q := p.(items := p.items + [Snapshot(x)]);
    forall y | 0 <= y < created
      ensures Placed(q, y)
    {
      assert Placed(p, y);
      QueuedSnoc(p.items, Snapshot(x), y);
    }
    forall i | 0 <= i < |p.destroyed|
      ensures Gone(q, p.destroyed[i])
    {
      assert Gone(p, p.destroyed[i]);
    }
  }

  /** The first item is done; a cleanup destroys its epoch. */
  lemma {:induction false} Completed(p: Places, created: nat)
    requires Separate(p, created) && Covered(p, created) && p.items != []
    ensures var q := p.(items := p.items[1..],
                        destroyed := if p.items[0].Cleanup? then p.destroyed + [p.items[0].e] else p.destroyed);
            Separate(q, created) && Covered(q, created)
  {
    var first, rest := p.items[0], p.items[1..];
    var q := p.(items := rest, destroyed := if first.Cleanup? then p.destroyed + [first.e] else p.destroyed);
    assert forall i :: 0 <= i < |rest| ==> rest[i] == p.items[i + 1];
    forall y | 0 <= y < created
      ensures Placed(q, y)
    {
      assert Placed(p, y);
      QueuedTail(p.items, y);
      assert first == Cleanup(y) ==> q.destroyed[|p.destroyed|] == y;
      assert p.destroyed == q.destroyed[..|p.destroyed|];
    }
    forall i | 0 <= i < |p.destroyed|
      ensures Gone(q, p.destroyed[i]) && (first.Cleanup? ==> p.destroyed[i] != first.e)
    {
      assert Gone(p, p.destroyed[i]);
      assert p.destroyed[i] < p.items[0].e;
    }
    if first.Cleanup? {
      assert Gone(q, first.e);
    }
  }

  /** A deactivation takes the current epoch, if any, over. */
  lemma {:induction false} TakenOver(p: Places, created: nat)
    requires Separate(p, created) && Covered(p, created) && p.held.None?
    ensures Separate(p.(current := None, held := p.current), created)
    ensures Covered(p.(current := None, held := p.current), created)
  {
    var q := p.(current := None, held := p.current);
    forall y | 0 <= y < created
      ensures Placed(q, y)
    {
      assert Placed(p, y);
    }
    forall i | 0 <= i < |p.destroyed|
      ensures Gone(q, p.destroyed[i])
    {
      assert Gone(p, p.destroyed[i]);
    }
  }

  /** A teardown, its flush done, destroys what it holds. */
  lemma {:induction false} Disposed(p: Places, created: nat)
    requires Separate(p, created) && Covered(p, created) && p.items == []
    ensures Separate(p.(held := None, destroyed := DestroyEpoch(p.destroyed, p.held)), created)
    ensures Covered(p.(held := None, destroyed := DestroyEpoch(p.destroyed, p.held)), created)
  {
    var q := p.(held := None, destroyed := DestroyEpoch(p.destroyed, p.held));
    forall y | 0 <= y < created
      ensures Placed(q, y)
    {
      assert Placed(p, y);
      assert p.held == Some(y) ==> q.destroyed[|p.destroyed|] == y;
      assert p.destroyed == q.destroyed[..|p.destroyed|];
    }
    forall i | 0 <= i < |p.destroyed|
      ensures Gone(q, p.destroyed[i]) && p.held != Some(p.destroyed[i])
    {
      assert Gone(p, p.destroyed[i]);
    }
  }

  // ---------------------------------------------------------------- every event keeps the invariant

  lemma {:induction false} CountMountKeeps(o: Obj)
    requires Inv(o)
    ensures Inv(CountMount(o))
  {
    hide Separate, Covered;
    if o.e.None? {
      Born(PlacesOf(o), o.created);
      assert PlacesOf(CountMount(o)) == PlacesOf(o).(current := Some(o.created));
    } else {
      assert PlacesOf(CountMount(o)) == PlacesOf(o);
    }
  }

  lemma {:induction false} CountUmountKeeps(o: Obj)
    requires Inv(o) && Enabled(o, Umount)
    ensures Inv(CountUmount(o))
  {
    hide Separate, Covered;
    if LastUmount(o) {
      var x := o.e.value.id;
      Retired(PlacesOf(o), o.created, x);
      assert Pending(CountUmount(o)) == Pending(o) + [Cleanup(x)];
      assert o.accepted + [Cleanup(x)] == o.done + (Pending(o) + [Cleanup(x)]);
      assert PlacesOf(CountUmount(o)) == PlacesOf(o).(current := None, items := Pending(o) + [Cleanup(x)]);
    } else {
      assert PlacesOf(CountUmount(o)) == PlacesOf(o);
    }
  }

  lemma {:induction false} AskKeeps(o: Obj, t: nat)
    requires Inv(o)
    ensures Inv(AskSnapshot(o, t))
  {
    hide Separate, Covered;
    assert PlacesOf(AskSnapshot(o, t)) == PlacesOf(o);
  }

  lemma {:induction false} CommitKeeps(o: Obj, t: nat)
    requires Inv(o) && t in o.requests
    ensures Inv(CommitSnapshot(o, t))
  {
    hide Separate, Covered;
    var x := o.requests[t];
    assert x == o.e.value.id;
    Requested(PlacesOf(o), o.created, x);
    assert Pending(CommitSnapshot(o, t)) == Pending(o) + [Snapshot(x)];
    assert o.accepted + [Snapshot(x)] == o.done + (Pending(o) + [Snapshot(x)]);
    assert PlacesOf(CommitSnapshot(o, t)) == PlacesOf(o).(items := Pending(o) + [Snapshot(x)]);
  }

  lemma {:induction false} StartKeeps(o: Obj)
    requires Inv(o) && Enabled(o, StartItem)
    ensures Inv(After(o, StartItem))
  {
    hide Separate, Covered;
    assert o.queue == [o.queue[0]] + o.queue[1..];
    assert Pending(After(o, StartItem)) == Pending(o);
    assert PlacesOf(After(o, StartItem)) == PlacesOf(o);
  }

  lemma {:induction false} FinishedPending(o: Obj)
    requires Enabled(o, FinishItem)
    ensures Pending(o) != [] && Pending(o)[0] == o.running.value
    ensures Pending(After(o, FinishItem)) == Pending(o)[1..]
  {
    assert Pending(o) == [o.running.value] + o.queue;
  }

  lemma {:induction false} MoveFirst(done: seq<Item>, items: seq<Item>)
    requires items != []
    ensures done + [items[0]] + items[1..] == done + items
  {
  }

  lemma {:induction false} FinishKeeps(o: Obj)
    requires Inv(o) && Enabled(o, FinishItem)
    ensures Inv(After(o, FinishItem))
  {
    hide Separate, Covered, Pending;
    FinishedPending(o);
    MoveFirst(o.done, Pending(o));
    Completed(PlacesOf(o), o.created);
  }

  lemma {:induction false} TeardownKeeps(o: Obj, ev: Event)
    requires Inv(o) && Enabled(o, ev)
    requires ev.Deactivate? || ev.BeginFlush? || ev.EndFlush? || ev.DestroyLast?
    ensures Inv(After(o, ev))
  {
    hide Separate, Covered;
    var o' := After(o, ev);
    assert Pending(o') == Pending(o);
    if ev.Deactivate? {
      TakenOver(PlacesOf(o), o.created);
      assert PlacesOf(o') == PlacesOf(o).(current := None, held := PlacesOf(o).current);
    } else if ev.DestroyLast? {
      Disposed(PlacesOf(o), o.created);
      assert PlacesOf(o') == PlacesOf(o).(held := None, destroyed := DestroyEpoch(o.destroyed, Held(o)));
    } else {
      assert PlacesOf(o') == PlacesOf(o);
    }
  }

  lemma {:induction false} EventKeeps(o: Obj, ev: Event)
    requires Inv(o) && Enabled(o, ev)
    ensures Inv(After(o, ev))
  {
    hide Inv;
    match ev
    case Mount => CountMountKeeps(o);
    case Umount => CountUmountKeeps(o);
    case Ask(t) => AskKeeps(o, t);
    case Commit(t) => CommitKeeps(o, t);
    case StartItem => StartKeeps(o);
    case FinishItem => FinishKeeps(o);
    case Deactivate => TeardownKeeps(o, ev);
    case BeginFlush => TeardownKeeps(o, ev);
    case EndFlush => TeardownKeeps(o, ev);
    case DestroyLast => TeardownKeeps(o, ev);
  }

  /** `o` is reached from registration by the events of `run`. */
  ghost predicate Reached(run: seq<Event>, o: Obj) {
    if run == [] then o == FRESH
    else
      var ev := run[|run| - 1];
      exists p :: Reached(run[..|run| - 1], p) && Enabled(p, ev) && o == After(p, ev)
  }

  lemma {:induction false} ReachedInv(run: seq<Event>, o: Obj)
    requires Reached(run, o)
    ensures Inv(o)
  {
    hide Inv, After, Enabled;
    if run == [] {
      FreshInv();
    } else {
      var ev := run[|run| - 1];
      var p :| Reached(run[..|run| - 1], p) && Enabled(p, ev) && o == After(p, ev);
      ReachedInv(run[..|run| - 1], p);
      EventKeeps(p, ev);
    }
  }

  // ---------------------------------------------------------------- the promises

  /** No snapshot item, waiting or running, ever points into a destroyed epoch. */
  lemma {:induction false} NoUseAfterDestroy(run: seq<Event>, o: Obj, i: nat)
    requires Reached(run, o) && i < |Pending(o)|
    ensures Pending(o)[i].e < o.created && Pending(o)[i].e !in o.destroyed
  {
    ReachedInv(run, o);
    forall j | 0 <= j < |o.destroyed|
      ensures o.destroyed[j] != Pending(o)[i].e
    {
      assert Gone(PlacesOf(o), o.destroyed[j]);
    }
  }

  /** Every epoch created is in exactly one place, and destroyed at most once. */
  lemma {:induction false} ExactlyOnePlace(run: seq<Event>, o: Obj, x: nat)
    requires Reached(run, o) && x < o.created
    ensures var current := o.e.Some? && o.e.value.id == x;
            var queued := Queued(Pending(o), x);
            var held := Held(o) == Some(x);
            var destroyed := x in o.destroyed;
            && (current || queued || held || destroyed)
            && !(current && queued) && !(current && held) && !(current && destroyed)
            && !(queued && held) && !(queued && destroyed) && !(held && destroyed)
    ensures forall i, j :: 0 <= i < j < |Pending(o)| ==> Pending(o)[i] != Cleanup(x) || Pending(o)[j] != Cleanup(x)
    ensures forall i, j :: 0 <= i < j < |o.destroyed| ==> o.destroyed[i] != o.destroyed[j]
  {
    ReachedInv(run, o);
    var p := PlacesOf(o);
    assert Placed(p, x);
    if x in o.destroyed {
      var i :| 0 <= i < |o.destroyed| && o.destroyed[i] == x;
      assert Gone(p, o.destroyed[i]);
    }
  }

  /** Once a teardown is due, no event puts anything on the workqueue. */
  lemma {:induction false} NothingQueuedAfterTeardown(run: seq<Event>, o: Obj, ev: Event)
    requires Reached(run, o) && Enabled(o, ev) && !o.teardown.NoTeardown?
    ensures After(o, ev).accepted == o.accepted && !After(o, ev).teardown.NoTeardown?
    ensures Pending(After(o, ev)) == Pending(o) || (Pending(o) != [] && Pending(After(o, ev)) == Pending(o)[1..])
  {
    hide Separate, Covered;
    ReachedInv(run, o);
    if ev.StartItem? {
      assert o.queue == [o.queue[0]] + o.queue[1..];
    } else if ev.FinishItem? {
      assert Pending(o)[1..] == o.queue;
    }
  }

  /** Items run in the order they were accepted; the flush of a teardown waits for every one of them. */
  lemma {:induction false} FlushCoversAll(run: seq<Event>, o: Obj)
    requires Reached(run, o)
    ensures o.done <= o.accepted
    ensures o.teardown.QueueDestroyed? || o.teardown.TornDown? ==> o.done == o.accepted && o.queue == []
  {
    ReachedInv(run, o);
  }

  /** What has been accepted is in order of epochs, up to the current one. */
  ghost predicate History(o: Obj) {
    && Ordered(o.accepted)
    && (forall i :: 0 <= i < |o.accepted| ==> o.accepted[i].e < o.created)
    && (o.e.Some? ==> o.e.value.id == o.created - 1 && Before(o.accepted, o.e.value.id))
  }

  lemma {:induction false} AcceptKeepsOrder(items: seq<Item>, item: Item)
    requires Ordered(items) && Before(items, item.e)
    ensures Ordered(items + [item])
    ensures item.Snapshot? ==> Before(items + [item], item.e)
  {
  }

  lemma {:induction false} HistoryStep(o: Obj, ev: Event)
    requires Protocol(o) && History(o) && Enabled(o, ev)
    ensures History(After(o, ev))
  {
    hide Pending;
    if ev.Commit? {
      AcceptKeepsOrder(o.accepted, Snapshot(o.requests[ev.t]));
    } else if ev.Umount? && LastUmount(o) {
      AcceptKeepsOrder(o.accepted, Cleanup(o.e.value.id));
    }
  }

  /**
   Over the whole history of the queue, items come in order of epochs: no item of an epoch, and no
   second cleanup, was ever accepted behind its cleanup.
   */
  lemma {:induction false} HistoryOrdered(run: seq<Event>, o: Obj)
    requires Reached(run, o)
    ensures History(o)
  {
    hide Separate, Covered, History, After, Enabled;
    if run == [] {
      FreshHistory();
    } else {
      var front, ev := run[..|run| - 1], run[|run| - 1];
      var p :| Reached(front, p) && Enabled(p, ev) && o == After(p, ev);
      HistoryOrdered(front, p);
      ReachedInv(front, p);
      HistoryStep(p, ev);
    }
  }

  lemma {:induction false} FreshHistory()
    ensures History(FRESH)
  {
  }

  /** After the teardown all epochs are destroyed, except one that a late mount may have created. */
  lemma {:induction false} TornDownDestroysAll(run: seq<Event>, o: Obj)
    requires Reached(run, o) && o.teardown.TornDown?
    ensures (forall x :: 0 <= x < o.created ==> x in o.destroyed) <==> o.e.None?
    ensures |o.destroyed| == o.created - (if o.e.Some? then 1 else 0)
  {
    hide Inv, Queued;
    ReachedInv(run, o);
    TornDownIsEmpty(o);
    forall x: nat
      ensures x in o.destroyed <==> x < o.created && !(o.e.Some? && o.e.value.id == x)
    {
      if x < o.created {
        ExactlyOnePlace(run, o, x);
      }
      if x in o.destroyed {
        DestroyedIsGone(o, x);
      }
    }
    DistinctDestroyed(o);
    if o.e.Some? {
      assert o.e.value.id !in o.destroyed;
    }
    CountDistinct(o.destroyed, o.created - (if o.e.Some? then 1 else 0));
  }

  lemma {:induction false} DestroyedIsGone(o: Obj, d: nat)
    requires Inv(o) && d in o.destroyed
    ensures d < o.created && Gone(PlacesOf(o), d)
  {
    var i :| 0 <= i < |o.destroyed| && o.destroyed[i] == d;
    assert Gone(PlacesOf(o), o.destroyed[i]);
  }

  lemma {:induction false} TornDownIsEmpty(o: Obj)
    requires Inv(o) && o.teardown.TornDown?
    ensures forall x :: !Queued(Pending(o), x)
    ensures o.e.Some? ==> o.e.value.id == o.created - 1
  {
  }

  lemma {:induction false} DistinctDestroyed(o: Obj)
    requires Inv(o)
    ensures forall i, j :: 0 <= i < j < |o.destroyed| ==> o.destroyed[i] != o.destroyed[j]
  {
  }

  lemma {:induction false} HasFirst(s: seq<nat>)
    requires |s| > 0
    ensures exists x: nat :: x in s
  {
    assert s[0] in s;
  }

  /** Taking one place out of a sequence without repetitions takes out just that element. */
  lemma {:induction false} TakeOut(s: seq<nat>, i: nat)
    requires i < |s| && forall j, k :: 0 <= j < k < |s| ==> s[j] != s[k]
    ensures var rest := s[..i] + s[i + 1..];
            && (forall j, k :: 0 <= j < k < |rest| ==> rest[j] != rest[k])
            && forall x: nat :: x in rest <==> x in s && x != s[i]
  {
    var rest := s[..i] + s[i + 1..];
    assert s == s[..i] + [s[i]] + s[i + 1..];
    assert forall j :: 0 <= j < |rest| ==> rest[j] == s[if j < i then j else j + 1];
  }

  lemma {:induction false} CountDistinct(s: seq<nat>, n: nat)
    requires forall i, j :: 0 <= i < j < |s| ==> s[i] != s[j]
    requires forall x: nat :: x in s <==> x < n
    ensures |s| == n
  {
    if n == 0 {
      if |s| > 0 {
        HasFirst(s);
        assert false;
      }
    } else {
      var last: nat := n - 1;
      assert last in s;
      var i :| 0 <= i < |s| && s[i] == last;
      TakeOut(s, i);
      CountDistinct(s[..i] + s[i + 1..], n - 1);
    }
  }

  // ---------------------------------------------------------------- why an umount must not be busy

  /**
   With a request under way, an umount is harmless just if it is not the last one: otherwise the
   request ends up behind the cleanup of its own epoch.
   */
  lemma {:induction false} BusyUmountSafe(run: seq<Event>, o: Obj, t: nat)
    requires Reached(run, o) && t in o.requests
    ensures o.e.Some? && t in CountUmount(o).requests
    ensures Ordered(Pending(CommitSnapshot(CountUmount(o), t))) <==> o.e.value.mounted > 1
  {
    ReachedInv(run, o);
    var x, items := o.requests[t], Pending(o);
    var late := Pending(CommitSnapshot(CountUmount(o), t));
    if o.e.value.mounted == 1 {
      assert late == items + [Cleanup(x), Snapshot(x)];
      assert late[|items|].Cleanup? && late[|items| + 1].e == x;
    } else {
      assert late == items + [Snapshot(x)];
    }
  }

  /** The run that shows it: the request is served from an epoch that is already destroyed. */
  lemma {:induction false} BusyUmountUsesDestroyedEpoch()
    ensures var asked := AskSnapshot(CountMount(FRESH), 0);
            var late := CommitSnapshot(CountUmount(asked), 0);
            && Enabled(late, StartItem)
            && Enabled(After(late, StartItem), FinishItem)
            && Enabled(After(After(late, StartItem), FinishItem), StartItem)
    ensures var asked := AskSnapshot(CountMount(FRESH), 0);
            var late := CommitSnapshot(CountUmount(asked), 0);
            var used := After(After(After(late, StartItem), FinishItem), StartItem);
            used.running == Some(Snapshot(0)) && 0 in used.destroyed
  {
    var asked := AskSnapshot(CountMount(FRESH), 0);
    assert CommitSnapshot(CountUmount(asked), 0).queue == [Cleanup(0), Snapshot(0)];
  }

  // ---------------------------------------------------------------- the mount counter

  function Delta(ev: Event): int {
    if ev.Mount? then 1 else if ev.Umount? then -1 else 0
  }

  /** Mounts minus umounts. */
  function Sum(run: seq<Event>): int {
    if run == [] then 0 else Sum(run[..|run| - 1]) + Delta(run[|run| - 1])
  }

  /** The least that sum has been, the empty prefix included. */
  function Least(run: seq<Event>): int {
    if run == [] then 0
    else
      var before := Least(run[..|run| - 1]);
      if Sum(run) < before then Sum(run) else before
  }

  /** How often that sum, taken above its least value so far, has risen from 0 to 1. */
  function Rises(run: seq<Event>): nat {
    if run == [] then 0
    else
      var front := run[..|run| - 1];
      Rises(front) + (if run[|run| - 1].Mount? && Sum(front) == Least(front) then 1 else 0)
  }

  /**
   Before a deactivation, and whatever else happens in between, the counter is the running sum above
   its least value so far, and a new epoch starts exactly where it rises from 0 to 1.
   */
  lemma {:induction false} MountCounter(run: seq<Event>, o: Obj)
    requires Reached(run, o) && !o.wqIsDestroyed
    ensures (if o.e.Some? then o.e.value.mounted else 0) == Sum(run) - Least(run)
    ensures o.e.Some? <==> Sum(run) > Least(run)
    ensures o.created == Rises(run)
  {
    if run != [] {
      var front, ev := run[..|run| - 1], run[|run| - 1];
      var p :| Reached(front, p) && Enabled(p, ev) && o == After(p, ev);
      MountCounter(front, p);
      ReachedInv(front, p);
    }
  }
}
