/**
 The table `object`: one row for each Kubernetes object ever seen, the upsert that informer events
 cause, and the two deletions that mark rows instead of removing them.
 */
module ObjectTable {
  import opened Uuid
  import opened Wrappers

  /** The fields an upsert carries besides cluster and kind. */
  datatype Payload = Payload(namespace: string, name: string, data: string)

  datatype ObjectRow = ObjectRow(cluster: int, kind: string, payload: Payload, deletedAt: Option<int>)

  type Rows = map<Uuid, ObjectRow>

  predicate Active(rows: Rows, u: Uuid) { u in rows && rows[u].deletedAt.None? }

  /** The active row `u` is of the given cluster and kind. */
  predicate ActiveOf(rows: Rows, u: Uuid, cluster: int, kind: string) {
    Active(rows, u) && rows[u].cluster == cluster && rows[u].kind == kind
  }

  /** `insert … on conflict (uid) do update`: the update leaves `deleted_at` alone. */
  function Upserted(rows: Rows, cluster: int, kind: string, u: Uuid, p: Payload): Rows {
    rows[u := ObjectRow(cluster, kind, p, if u in rows then rows[u].deletedAt else None)]
  }

  /** `DeleteObject`. */
  function Deleted(rows: Rows, cluster: int, u: Uuid, now: int): Rows {
    if Active(rows, u) && rows[u].cluster == cluster then rows[u := rows[u].(deletedAt := Some(now))] else rows
  }

  /** The rows that `DeleteObjects` picks: active, of the cluster and kind, and not to be ignored. */
  function Victims(rows: Rows, cluster: int, kind: string, ignore: set<Uuid>): set<Uuid> {
    set u | u in rows && ActiveOf(rows, u, cluster, kind) && u !in ignore
  }

  /** `DeleteObjects`. */
  function Collected(rows: Rows, cluster: int, kind: string, ignore: set<Uuid>, now: int): Rows {
    map u | u in rows ::
      if u in Victims(rows, cluster, kind, ignore) then rows[u].(deletedAt := Some(now)) else rows[u]
  }

  function ActiveRows(rows: Rows): set<Uuid> { set u | u in rows && Active(rows, u) }

  /** The count returned by a collection is the drop in active rows, and no row is lost or revived. */
  lemma CollectionCount(rows: Rows, cluster: int, kind: string, ignore: set<Uuid>, now: int)
    ensures
      var after := Collected(rows, cluster, kind, ignore, now);
      && |Victims(rows, cluster, kind, ignore)| == |ActiveRows(rows)| - |ActiveRows(after)|
      && ActiveRows(after) == ActiveRows(rows) - Victims(rows, cluster, kind, ignore)
      && after.Keys == rows.Keys
  {
    var after := Collected(rows, cluster, kind, ignore, now);
    var victims := Victims(rows, cluster, kind, ignore);
    assert victims <= ActiveRows(rows);
    assert ActiveRows(after) == ActiveRows(rows) - victims;
  }

  /** Repeating a collection with the same list marks nothing more, whenever it runs. */
  lemma CollectionIdempotent(rows: Rows, cluster: int, kind: string, ignore: set<Uuid>, now: int, later: int)
    ensures
      var after := Collected(rows, cluster, kind, ignore, now);
      Victims(after, cluster, kind, ignore) == {} && Collected(after, cluster, kind, ignore, later) == after
  {
    var after := Collected(rows, cluster, kind, ignore, now);
    assert Victims(after, cluster, kind, ignore) == {};
  }

  // ---------- every run of the three operations, by any number of clusters ----------

  datatype Op =
    | Upsert(cluster: int, kind: string, uid: Uuid, payload: Payload)
    | Delete(cluster: int, uid: Uuid, now: int)
    | Collect(cluster: int, kind: string, ignore: set<Uuid>, now: int)

  function Do(rows: Rows, op: Op): Rows {
    match op
    case Upsert(c, k, u, p) => Upserted(rows, c, k, u, p)
    case Delete(c, u, now) => Deleted(rows, c, u, now)
    case Collect(c, k, ignore, now) => Collected(rows, c, k, ignore, now)
  }

  function Run(rows: Rows, ops: seq<Op>): Rows {
    if ops == [] then rows else Do(Run(rows, ops[..|ops| - 1]), ops[|ops| - 1])
  }

  /** Rows are never dropped, and the first deletion time of a row is final. */
  lemma {:induction false} DeletionIsFinal(rows: Rows, ops: seq<Op>, u: Uuid)
    requires u in rows
    ensures u in Run(rows, ops)
    ensures rows[u].deletedAt.Some? ==> Run(rows, ops)[u].deletedAt == rows[u].deletedAt
  {
    if ops == [] {
    } else {
      DeletionIsFinal(rows, ops[..|ops| - 1], u);
    }
  }

  /** A single operation marks a row only for the row's own cluster, and only if it names or does not spare it. */
  lemma MarkedBy(rows: Rows, op: Op, u: Uuid)
    requires u in rows
    ensures Active(rows, u) && !Active(Do(rows, op), u) <==>
      && Active(rows, u)
      && !op.Upsert?
      && op.cluster == rows[u].cluster
      && (op.Delete? ==> op.uid == u)
      && (op.Collect? ==> op.kind == rows[u].kind && u !in op.ignore)
    ensures !Active(Do(rows, op), u) ==> Active(rows, u) ==> Do(rows, op)[u] == rows[u].(deletedAt := Some(op.now))
    ensures !op.Upsert? && Active(Do(rows, op), u) ==> Do(rows, op)[u] == rows[u]
  {
    match op
    case Upsert(_, _, _, _) =>
    case Delete(_, _, _) =>
    case Collect(c, k, ignore, now) =>
      assert u in Victims(rows, c, k, ignore) <==> ActiveOf(rows, u, c, k) && u !in ignore;
  }

  /** An operation adds no row but the one it upserts, and leaves a row that it neither upserts nor marks as it is. */
  lemma OthersUntouched(rows: Rows, op: Op, u: Uuid)
    ensures u in Do(rows, op) <==> u in rows || (op.Upsert? && op.uid == u)
    ensures u in rows && !(op.Upsert? && op.uid == u) && (Active(rows, u) ==> Active(Do(rows, op), u)) ==>
      Do(rows, op)[u] == rows[u]
  {
    if u in rows {
      MarkedBy(rows, op, u);
    }
  }

  /** An upsert of a marked object refreshes its row but leaves it marked: the object stays out of the active rows. */
  lemma UpsertDoesNotRevive(rows: Rows, cluster: int, kind: string, u: Uuid, p: Payload)
    ensures Active(Upserted(rows, cluster, kind, u, p), u) <==> !(u in rows && rows[u].deletedAt.Some?)
    ensures
      var row := Upserted(rows, cluster, kind, u, p)[u];
      row.cluster == cluster && row.kind == kind && row.payload == p
  {
  }
}
