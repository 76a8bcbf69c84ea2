/**
 Informer events and the garbage collector, interleaved freely, seen from one cluster and one of the
 kinds that the collector reaches.  The informer's store changes first and its events are delivered to the
 persisting handler later, one by one; the collector reads the store in one step and marks rows in another.
 */
module CollectorProtocol {
  import opened ObjectTable
  import opened Uuid
  import opened Wrappers

  datatype Event = UpsertEvent(uid: Uuid, payload: Payload) | DeleteEvent(uid: Uuid)

  datatype System = System(rows: Rows, store: set<Uuid>, queue: seq<Event>, listing: Option<set<Uuid>>)

  /** The cluster and kind under observation. */
  datatype Scope = Scope(cluster: int, kind: string)

  datatype Action =
    /** The object is created or updated, or resynchronised. */
    | Present(uid: Uuid, payload: Payload)
    /** The object is deleted and the informer saw it go. */
    | Gone(uid: Uuid)
    /** The informer missed the deletion: its handler is given a tombstone without a UID and rejects it. */
    | GoneUnseen(uid: Uuid)
    /** The handler takes the next event; its write may fail, in which case the event is dropped. */
    | Deliver(now: int, written: bool)
    /** The collector lists the store. */
    | List
    /** The collector marks the rows that its list leaves out; the statement may fail. */
    | Mark(now: int, written: bool)
    /** Another cluster's process, or a handler or collector of another kind. */
    | Foreign(op: Op)

  predicate Enabled(sc: Scope, s: System, a: Action) {
    match a
    case Present(_, _) => true
    case Gone(u) => u in s.store
    case GoneUnseen(u) => u in s.store
    case Deliver(_, _) => s.queue != []
    case List => s.listing.None?
    case Mark(_, _) => s.listing.Some?
    case Foreign(op) => !op.Delete? ==> op.cluster != sc.cluster || op.kind != sc.kind
  }

  function Handle(sc: Scope, rows: Rows, e: Event, now: int): Rows {
    match e
    case UpsertEvent(u, p) => Do(rows, Op.Upsert(sc.cluster, sc.kind, u, p))
    case DeleteEvent(u) => Do(rows, Op.Delete(sc.cluster, u, now))
  }

  function Step(sc: Scope, s: System, a: Action): System
    requires Enabled(sc, s, a)
  {
    match a
    case Present(u, p) => s.(store := s.store + {u}, queue := s.queue + [UpsertEvent(u, p)])
    case Gone(u) => s.(store := s.store - {u}, queue := s.queue + [DeleteEvent(u)])
    case GoneUnseen(u) => s.(store := s.store - {u})
    case Deliver(now, written) =>
      s.(queue := s.queue[1..], rows := if written then Handle(sc, s.rows, s.queue[0], now) else s.rows)
    case List => s.(listing := Some(s.store))
    case Mark(now, written) =>
      s.(listing := None,
         rows := if written then Do(s.rows, Op.Collect(sc.cluster, sc.kind, s.listing.value, now)) else s.rows)
    case Foreign(op) => s.(rows := Do(s.rows, op))
  }

  /** The actions can be taken one after the other. */
  predicate Possible(sc: Scope, s: System, acts: seq<Action>)
    decreases |acts|, 0
  {
    acts == [] ||
    (Possible(sc, s, acts[..|acts| - 1]) && Enabled(sc, After(sc, s, acts[..|acts| - 1]), acts[|acts| - 1]))
  }

  function After(sc: Scope, s: System, acts: seq<Action>): System
    requires Possible(sc, s, acts)
    decreases |acts|, 1
  {
    if acts == [] then s else Step(sc, After(sc, s, acts[..|acts| - 1]), acts[|acts| - 1])
  }

  // ---------- safety of the marking step ----------

  /** The collector marks a row if and only if it is active, in scope and was missing from the listed store. */
  lemma MarksOnlyUnlisted(sc: Scope, s: System, now: int, u: Uuid)
    requires Enabled(sc, s, Mark(now, true)) && Active(s.rows, u)
    ensures !Active(Step(sc, s, Mark(now, true)).rows, u) <==>
      ActiveOf(s.rows, u, sc.cluster, sc.kind) && u !in s.listing.value
  {
    MarkedBy(s.rows, Op.Collect(sc.cluster, sc.kind, s.listing.value, now), u);
  }

  lemma {:induction false} MarkedForever(sc: Scope, s: System, acts: seq<Action>, u: Uuid)
    requires Possible(sc, s, acts) && u in s.rows && s.rows[u].deletedAt.Some?
    ensures u in After(sc, s, acts).rows && After(sc, s, acts).rows[u].deletedAt == s.rows[u].deletedAt
  {
    if acts == [] {
    } else {
      MarkedForever(sc, s, acts[..|acts| - 1], u);
    }
  }

  /**
   An object created between the list and the mark is marked deleted although it lives, and no later step
   ever brings its row back.
   */
  lemma ObjectCreatedDuringPassIsLost(sc: Scope, s: System, u: Uuid, p: Payload, now: int)
    requires s.listing.None? && s.queue == [] && u !in s.store && u !in s.rows
    ensures
      var acts := [List, Present(u, p), Deliver(now, true), Mark(now, true)];
      && Possible(sc, s, acts)
      && u in After(sc, s, acts).store && After(sc, s, acts).queue == []
      && forall later :: Possible(sc, After(sc, s, acts), later) ==>
        !Active(After(sc, After(sc, s, acts), later).rows, u)
  {
    var acts := [List, Present(u, p), Deliver(now, true), Mark(now, true)];
    var s3 := Step(sc, Step(sc, Step(sc, s, List), Present(u, p)), Deliver(now, true));
    FourSteps(sc, s, List, Present(u, p), Deliver(now, true), Mark(now, true));
    MarksOnlyUnlisted(sc, s3, now, u);
    var lost := Step(sc, s3, Mark(now, true));
    forall later | Possible(sc, lost, later) ensures !Active(After(sc, lost, later).rows, u) {
      MarkedForever(sc, lost, later, u);
    }
  }

  lemma FourSteps(sc: Scope, s: System, a: Action, b: Action, c: Action, d: Action)
    requires Enabled(sc, s, a) && Enabled(sc, Step(sc, s, a), b) && Enabled(sc, Step(sc, Step(sc, s, a), b), c)
    requires Enabled(sc, Step(sc, Step(sc, Step(sc, s, a), b), c), d)
    ensures Possible(sc, s, [a, b, c, d])
    ensures After(sc, s, [a, b, c, d]) == Step(sc, Step(sc, Step(sc, Step(sc, s, a), b), c), d)
  {
    hide *;
    assert [a, b, c] + [d] == [a, b, c, d] && [a, b] + [c] == [a, b, c] && [a] + [b] == [a, b] && [] + [a] == [a];
    NoStep(sc, s);
    NextStep(sc, s, [], a);
    NextStep(sc, s, [a], b);
    NextStep(sc, s, [a, b], c);
    NextStep(sc, s, [a, b, c], d);
  }

  lemma NoStep(sc: Scope, s: System)
    ensures Possible(sc, s, []) && After(sc, s, []) == s
  {
  }

  lemma NextStep(sc: Scope, s: System, acts: seq<Action>, a: Action)
    requires Possible(sc, s, acts) && Enabled(sc, After(sc, s, acts), a)
    ensures Possible(sc, s, acts + [a]) && After(sc, s, acts + [a]) == Step(sc, After(sc, s, acts), a)
  {
    assert (acts + [a])[..|acts|] == acts;
  }

  // ---------- what a pass settles ----------

  /** No deletion escapes the handler: neither unseen by the informer nor dropped by a failed write. */
  predicate Lossless(s: System, a: Action) {
    !a.GoneUnseen? && (a.Deliver? && !a.written && s.queue != [] ==> s.queue[0].UpsertEvent?)
  }

  ghost predicate AllLossless(sc: Scope, s: System, acts: seq<Action>)
    requires Possible(sc, s, acts)
  {
    acts == [] ||
    (AllLossless(sc, s, acts[..|acts| - 1]) && Lossless(After(sc, s, acts[..|acts| - 1]), acts[|acts| - 1]))
  }

  /** The object lives, or its deletion is on its way to the handler. */
  ghost predicate Accounted(s: System, u: Uuid) { u in s.store || DeleteEvent(u) in s.queue }

  /** A queued upsert of an object that is gone is followed by its deletion. */
  ghost predicate Ordered(s: System) {
    forall i :: 0 <= i < |s.queue| && s.queue[i].UpsertEvent? ==>
      s.queue[i].uid in s.store || DeleteEvent(s.queue[i].uid) in s.queue[i + 1..]
  }

  /** The active rows in scope, of those the collector spares, are all accounted for. */
  ghost predicate SparedAccounted(sc: Scope, s: System, spared: set<Uuid>) {
    forall u :: u in spared && ActiveOf(s.rows, u, sc.cluster, sc.kind) ==> Accounted(s, u)
  }

  /** All active rows in scope are accounted for. */
  ghost predicate Settled(sc: Scope, s: System) {
    forall u :: ActiveOf(s.rows, u, sc.cluster, sc.kind) ==> Accounted(s, u)
  }

  lemma OrderedStep(sc: Scope, s: System, a: Action)
    requires Enabled(sc, s, a) && Lossless(s, a) && Ordered(s)
    ensures Ordered(Step(sc, s, a))
  {
    var s' := Step(sc, s, a);
    forall i | 0 <= i < |s'.queue| && s'.queue[i].UpsertEvent?
      ensures s'.queue[i].uid in s'.store || DeleteEvent(s'.queue[i].uid) in s'.queue[i + 1..]
    {
      if a.Deliver? {
        assert s'.queue[i] == s.queue[i + 1] && s'.queue[i + 1..] == s.queue[i + 1 + 1..];
      } else if a.Present? || a.Gone? {
        if i < |s.queue| {
          assert s'.queue[i] == s.queue[i];
          assert s'.queue[i + 1..] == s.queue[i + 1..] + [s'.queue[|s.queue|]];
        }
      } else {
        assert s'.queue[i] == s.queue[i];
      }
    }
  }

  /** One object stays accounted for, unless its deletion reaches the table. */
  lemma AccountedStep(sc: Scope, s: System, a: Action, u: Uuid)
    requires Enabled(sc, s, a) && Lossless(s, a) && Ordered(s)
    requires ActiveOf(s.rows, u, sc.cluster, sc.kind) ==> Accounted(s, u)
    ensures ActiveOf(Step(sc, s, a).rows, u, sc.cluster, sc.kind) ==> Accounted(Step(sc, s, a), u)
  {
    var s' := Step(sc, s, a);
    match a
    case Deliver(_, _) =>
      assert s.queue == [s.queue[0]] + s.queue[1..];
      if s.queue[0].UpsertEvent? && s.queue[0].uid == u {
        assert u in s.store || DeleteEvent(u) in s.queue[1..];
      }
    case Foreign(op) =>
      if u in s.rows {
        MarkedBy(s.rows, op, u);
      }
    case Mark(now, written) =>
      if u in s.rows {
        MarkedBy(s.rows, Op.Collect(sc.cluster, sc.kind, s.listing.value, now), u);
      }
    case Present(_, _) =>
    case Gone(_) =>
    case GoneUnseen(_) =>
    case List =>
  }

  lemma {:induction false} OrderedRun(sc: Scope, s: System, acts: seq<Action>)
    requires Possible(sc, s, acts) && AllLossless(sc, s, acts) && Ordered(s)
    ensures Ordered(After(sc, s, acts))
  {
    if acts == [] {
    } else {
      var front := acts[..|acts| - 1];
      OrderedRun(sc, s, front);
      OrderedStep(sc, After(sc, s, front), acts[|acts| - 1]);
    }
  }

  /** Along a lossless run the accounted rows of any fixed set of objects stay accounted for. */
  lemma {:induction false} SparedRun(sc: Scope, s: System, acts: seq<Action>, spared: set<Uuid>)
    requires Possible(sc, s, acts) && AllLossless(sc, s, acts) && Ordered(s) && SparedAccounted(sc, s, spared)
    ensures SparedAccounted(sc, After(sc, s, acts), spared)
  {
    if acts == [] {
    } else {
      var front, a := acts[..|acts| - 1], acts[|acts| - 1];
      OrderedRun(sc, s, front);
      SparedRun(sc, s, front, spared);
      forall u | u in spared && ActiveOf(After(sc, s, acts).rows, u, sc.cluster, sc.kind)
        ensures Accounted(After(sc, s, acts), u)
      {
        AccountedStep(sc, After(sc, s, front), a, u);
      }
    }
  }

  lemma {:induction false} SettledRun(sc: Scope, s: System, acts: seq<Action>)
    requires Possible(sc, s, acts) && AllLossless(sc, s, acts) && Ordered(s) && Settled(sc, s)
    ensures Settled(sc, After(sc, s, acts))
  {
    if acts == [] {
    } else {
      var front, a := acts[..|acts| - 1], acts[|acts| - 1];
      OrderedRun(sc, s, front);
      SettledRun(sc, s, front);
      forall u | ActiveOf(After(sc, s, acts).rows, u, sc.cluster, sc.kind)
        ensures Accounted(After(sc, s, acts), u)
      {
        AccountedStep(sc, After(sc, s, front), a, u);
      }
    }
  }

  /**
   Whatever the table held before, a pass that lists the store while its queued events are in order (as when
   the queue has drained), and that no lost deletion accompanies, settles the scope for good: after it, every
   active row belongs to a living object or has its deletion queued, and with an empty queue the active rows
   are a subset of the store.
   */
  lemma PassSettles(sc: Scope, s: System, during: seq<Action>, now: int, later: seq<Action>)
    requires Ordered(s) && Enabled(sc, s, List)
    requires Possible(sc, Step(sc, s, List), during) && AllLossless(sc, Step(sc, s, List), during)
    requires After(sc, Step(sc, s, List), during).listing == Some(s.store)
    requires
      var marked := Step(sc, After(sc, Step(sc, s, List), during), Mark(now, true));
      Possible(sc, marked, later) && AllLossless(sc, marked, later)
    ensures
      var final := After(sc, Step(sc, After(sc, Step(sc, s, List), during), Mark(now, true)), later);
      && Settled(sc, final)
      && (final.queue == [] ==> forall u :: ActiveOf(final.rows, u, sc.cluster, sc.kind) ==> u in final.store)
  {
    var listed := Step(sc, s, List);
    OrderedRun(sc, listed, during);
    SparedRun(sc, listed, during, s.store);
    var before := After(sc, listed, during);
    var marked := Step(sc, before, Mark(now, true));
    forall u | ActiveOf(marked.rows, u, sc.cluster, sc.kind) ensures Accounted(marked, u) {
      MarksOnlyUnlisted(sc, before, now, u);
    }
    OrderedStep(sc, before, Mark(now, true));
    SettledRun(sc, marked, later);
  }

  /** A deletion that was missed leaves the row active, with nothing on its way, until a pass lists the store. */
  lemma UnseenDeletionWaits(sc: Scope, s: System, u: Uuid, now: int)
    requires s.listing.None? && s.queue == [] && u in s.store && ActiveOf(s.rows, u, sc.cluster, sc.kind)
    ensures
      var gone := Step(sc, s, GoneUnseen(u));
      && u !in gone.store && gone.queue == [] && ActiveOf(gone.rows, u, sc.cluster, sc.kind)
      && !Active(Step(sc, Step(sc, gone, List), Mark(now, true)).rows, u)
  {
    var gone := Step(sc, s, GoneUnseen(u));
    MarksOnlyUnlisted(sc, Step(sc, gone, List), now, u);
  }

  /** A failed write of the handler loses its event, and one of the collector its list; neither touches a row. */
  lemma FailedWritesLoseEvents(sc: Scope, s: System, now: int)
    ensures s.queue != [] ==> Step(sc, s, Deliver(now, false)) == s.(queue := s.queue[1..])
    ensures s.listing.Some? ==> Step(sc, s, Mark(now, false)) == s.(listing := None)
  {
  }

  /** Another cluster that stores the same object takes its row over, out of the reach of this cluster's passes. */
  lemma RowTakenOver(sc: Scope, s: System, cluster: int, u: Uuid, p: Payload, now: int)
    requires cluster != sc.cluster && s.listing.None?
    ensures
      var op := Op.Upsert(cluster, sc.kind, u, p);
      && Enabled(sc, s, Foreign(op))
      && var taken := Step(sc, s, Foreign(op));
      && u in taken.rows && taken.rows[u].cluster == cluster && taken.rows[u].payload == p
      && Step(sc, Step(sc, taken, List), Mark(now, true)).rows[u] == taken.rows[u]
  {
    var taken := Step(sc, s, Foreign(Op.Upsert(cluster, sc.kind, u, p)));
    var op := Op.Collect(sc.cluster, sc.kind, taken.store, now);
    MarkedBy(taken.rows, op, u);
    OthersUntouched(taken.rows, op, u);
  }

  // ---------- living objects keep their rows ----------

  /** The object's row is in scope, be it marked or not. */
  predicate Written(sc: Scope, s: System, u: Uuid) {
    u in s.rows && s.rows[u].cluster == sc.cluster && s.rows[u].kind == sc.kind
  }

  /** The object, if it lives, has its row in scope or is on its way to the handler. */
  ghost predicate Recorded(sc: Scope, s: System, u: Uuid) {
    u in s.store ==> Written(sc, s, u) || exists p: Payload :: UpsertEvent(u, p) in s.queue
  }

  /** The step neither drops an upsert of the object nor lets another cluster or kind take its row. */
  predicate Faithful(s: System, a: Action, u: Uuid) {
    && (a.Deliver? && !a.written && s.queue != [] ==> s.queue[0].DeleteEvent? || s.queue[0].uid != u)
    && (a.Foreign? && a.op.Upsert? ==> a.op.uid != u)
  }

  ghost predicate AllFaithful(sc: Scope, s: System, acts: seq<Action>, u: Uuid)
    requires Possible(sc, s, acts)
  {
    acts == [] ||
    var front := acts[..|acts| - 1];
    AllFaithful(sc, s, front, u) && Faithful(After(sc, s, front), acts[|acts| - 1], u)
  }

  lemma WrittenStep(sc: Scope, s: System, a: Action, u: Uuid)
    requires Enabled(sc, s, a) && Faithful(s, a, u) && Written(sc, s, u)
    ensures Written(sc, Step(sc, s, a), u)
  {
    match a
    case Mark(now, written) =>
      assert u in s.rows;
    case _ =>
  }

  lemma RecordedStep(sc: Scope, s: System, a: Action, u: Uuid)
    requires Enabled(sc, s, a) && Faithful(s, a, u) && Recorded(sc, s, u)
    ensures Recorded(sc, Step(sc, s, a), u)
  {
    var s' := Step(sc, s, a);
    if Written(sc, s, u) {
      WrittenStep(sc, s, a, u);
    } else if a.Present? && a.uid == u {
      assert s'.queue[|s.queue|] == UpsertEvent(u, a.payload);
    } else if u in s'.store {
      var p: Payload :| UpsertEvent(u, p) in s.queue;
      if a.Deliver? {
        assert s.queue == [s.queue[0]] + s'.queue;
        if s.queue[0] == UpsertEvent(u, p) {
          assert Written(sc, s', u);
        }
      } else {
        assert UpsertEvent(u, p) in s'.queue;
      }
    }
  }

  lemma {:induction false} RecordedRun(sc: Scope, s: System, acts: seq<Action>, u: Uuid)
    requires Possible(sc, s, acts) && AllFaithful(sc, s, acts, u) && Recorded(sc, s, u)
    ensures Recorded(sc, After(sc, s, acts), u)
  {
    if acts == [] {
    } else {
      var front := acts[..|acts| - 1];
      RecordedRun(sc, s, front, u);
      RecordedStep(sc, After(sc, s, front), acts[|acts| - 1], u);
    }
  }

  /**
   Once the queue has drained, a living object has its row in scope, and the row is active if and only if it was
   never marked.
   */
  lemma LivingHaveRows(sc: Scope, s: System, acts: seq<Action>, u: Uuid)
    requires Possible(sc, s, acts) && AllFaithful(sc, s, acts, u) && Recorded(sc, s, u)
    ensures
      var final := After(sc, s, acts);
      final.queue == [] && u in final.store ==>
        && u in final.rows
        && (ActiveOf(final.rows, u, sc.cluster, sc.kind) <==> final.rows[u].deletedAt.None?)
  {
    RecordedRun(sc, s, acts, u);
  }

  /** The payload of the latest change of the object that is still queued. */
  function LastQueued(queue: seq<Event>, u: Uuid): Option<Payload> {
    if queue == [] then None
    else
      var e := queue[|queue| - 1];
      if e.UpsertEvent? && e.uid == u then Some(e.payload) else LastQueued(queue[..|queue| - 1], u)
  }

  /** The payload with which the object was last created or updated in the run. */
  function LatestPayload(acts: seq<Action>, u: Uuid): Option<Payload> {
    if acts == [] then None
    else
      var a := acts[|acts| - 1];
      if a.Present? && a.uid == u then Some(a.payload) else LatestPayload(acts[..|acts| - 1], u)
  }

  /** The payload is the latest one queued or, with none queued, the one in the row. */
  ghost predicate Carries(sc: Scope, s: System, u: Uuid, p: Payload) {
    match LastQueued(s.queue, u)
    case Some(q) => q == p
    case None => Written(sc, s, u) && s.rows[u].payload == p
  }

  lemma {:induction false} Dequeued(queue: seq<Event>, u: Uuid)
    requires queue != []
    ensures
      var first, rest := queue[0], LastQueued(queue[1..], u);
      LastQueued(queue, u) ==
        if rest.Some? then rest else if first.UpsertEvent? && first.uid == u then Some(first.payload) else None
  {
    if |queue| == 1 {
      assert queue[..0] == [];
    } else {
      var n := |queue| - 1;
      Dequeued(queue[..n], u);
      assert queue[1..][..n - 1] == queue[..n][1..];
    }
  }

  lemma Enqueued(queue: seq<Event>, e: Event, u: Uuid)
    ensures LastQueued(queue + [e], u) ==
      if e.UpsertEvent? && e.uid == u then Some(e.payload) else LastQueued(queue, u)
  {
    assert (queue + [e])[..|queue|] == queue;
  }

  lemma CarriesStep(sc: Scope, s: System, a: Action, u: Uuid, p: Payload)
    requires Enabled(sc, s, a) && Faithful(s, a, u)
    requires Carries(sc, s, u, p) || (a.Present? && a.uid == u)
    ensures Carries(sc, Step(sc, s, a), u, if a.Present? && a.uid == u then a.payload else p)
  {
    match a
    case Present(v, q) => Enqueued(s.queue, UpsertEvent(v, q), u);
    case Gone(v) => Enqueued(s.queue, DeleteEvent(v), u);
    case Deliver(_, _) => Dequeued(s.queue, u);
    case Mark(_, _) =>
    case Foreign(op) =>
      if u in s.rows {
        OthersUntouched(s.rows, op, u);
        MarkedBy(s.rows, op, u);
      }
    case GoneUnseen(_) =>
    case List =>
  }

  lemma {:induction false} CarriesRun(sc: Scope, s: System, acts: seq<Action>, u: Uuid)
    requires Possible(sc, s, acts) && AllFaithful(sc, s, acts, u) && LatestPayload(acts, u).Some?
    ensures Carries(sc, After(sc, s, acts), u, LatestPayload(acts, u).value)
  {
    var front, a := acts[..|acts| - 1], acts[|acts| - 1];
    if a.Present? && a.uid == u {
      CarriesStep(sc, After(sc, s, front), a, u, a.payload);
    } else {
      CarriesRun(sc, s, front, u);
      CarriesStep(sc, After(sc, s, front), a, u, LatestPayload(front, u).value);
    }
  }

  /**
   Whatever the table held before, once the queue has drained the row of an object that was created or updated in
   the run is in scope and has exactly the fields of its latest state.
   */
  lemma RowsAreLatest(sc: Scope, s: System, acts: seq<Action>, u: Uuid)
    requires Possible(sc, s, acts) && AllFaithful(sc, s, acts, u) && LatestPayload(acts, u).Some?
    ensures
      var final := After(sc, s, acts);
      final.queue == [] ==>
        && u in final.rows
        && final.rows[u].cluster == sc.cluster && final.rows[u].kind == sc.kind
        && final.rows[u].payload == LatestPayload(acts, u).value
  {
    CarriesRun(sc, s, acts, u);
  }

  lemma {:induction false} CreatedSince(sc: Scope, s: System, acts: seq<Action>, u: Uuid) returns (i: nat, p: Payload)
    requires Possible(sc, s, acts) && u !in s.store && u in After(sc, s, acts).store
    ensures i < |acts| && acts[i] == Present(u, p)
  {
    var n := |acts| - 1;
    if u in After(sc, s, acts[..n]).store {
      i, p := CreatedSince(sc, s, acts[..n], u);
    } else {
      i, p := n, acts[n].payload;
    }
  }

  lemma {:induction false} ListingStays(sc: Scope, s: System, acts: seq<Action>)
    requires Possible(sc, s, acts) && s.listing.Some?
    requires forall i :: 0 <= i < |acts| ==> !acts[i].Mark?
    ensures After(sc, s, acts).listing == s.listing
  {
    if acts == [] {
    } else {
      ListingStays(sc, s, acts[..|acts| - 1]);
    }
  }

  /**
   A pass marks a living object if and only if its row is active and in scope and the object was not in the store
   when that was listed; it was then created while the pass was under way.
   */
  lemma LivingVictimIsNew(sc: Scope, s: System, during: seq<Action>, now: int, u: Uuid)
    requires Enabled(sc, s, List) && Possible(sc, Step(sc, s, List), during)
    requires forall i :: 0 <= i < |during| ==> !during[i].Mark?
    requires
      var before := After(sc, Step(sc, s, List), during);
      u in before.store && Active(before.rows, u)
    ensures
      var before := After(sc, Step(sc, s, List), during);
      && Enabled(sc, before, Mark(now, true))
      && (!Active(Step(sc, before, Mark(now, true)).rows, u) <==>
            ActiveOf(before.rows, u, sc.cluster, sc.kind) && u !in s.store)
      && (u !in s.store ==> exists i, p :: 0 <= i < |during| && during[i] == Present(u, p))
  {
    var listed := Step(sc, s, List);
    ListingStays(sc, listed, during);
    MarksOnlyUnlisted(sc, After(sc, listed, during), now, u);
    if u !in s.store {
      var i, p := CreatedSince(sc, listed, during, u);
    }
  }
}
