/** The hourly garbage collector: which kinds it lists, and what one pass does to the object table. */
module Collector {
  import opened ObjectTable
  import opened Queries
  import opened Uuid
  import opened Wrappers

  /** The kinds whose informers write rows. */
  const PERSISTED: set<string> := {
    "Pod", "Node", "PersistentVolume", "PersistentVolumeClaim", "ReplicaSet", "Deployment",
    "DaemonSet", "StatefulSet", "Job", "CronJob"
  }

  /** The kinds the collector passes to the database, in order; node rows are asked for as "Nodes". */
  const COLLECTED: seq<string> := [
    "Pod", "Nodes", "PersistentVolume", "PersistentVolumeClaim", "ReplicaSet", "Deployment", "Job", "CronJob"
  ]

  /** The kinds for which a pass can mark rows. */
  const EFFECTIVE: set<string> := {
    "Pod", "PersistentVolume", "PersistentVolumeClaim", "ReplicaSet", "Deployment", "Job", "CronJob"
  }

  lemma EffectiveKinds(kind: string)
    ensures kind in PERSISTED && kind in COLLECTED <==> kind in EFFECTIVE
    ensures kind in PERSISTED - EFFECTIVE <==> kind in {"Node", "DaemonSet", "StatefulSet"}
  {
    assert |"Nodes"| == 5 && |"Node"| == 4;
  }

  /** What the collector finds for one kind: the UIDs listed, the time of its statement and whether that succeeds. */
  datatype Listing = Listing(uids: seq<Text>, now: int, written: bool)

  /**
   `deleteObjects`: spares the objects whose UID parses, and marks the other active rows of the kind; a failing
   statement marks none and yields no count.
   */
  method DeleteObjects(queries: Queries, kind: string, objectsToIgnore: seq<Text>, now: int, written: bool)
    returns (count: Option<nat>)
    modifies queries`objects
    ensures count.Some? == written
    ensures written ==>
      && queries.objects == Do(old(queries.objects), Op.Collect(queries.clusterID, kind, Spared(objectsToIgnore), now))
      && count.value == |ActiveRows(old(queries.objects))| - |ActiveRows(queries.objects)|
    ensures !written ==> queries.objects == old(queries.objects)
  {
    var uids: seq<Uuid> := [];
    var i := 0;
    while i < |objectsToIgnore|
      invariant 0 <= i <= |objectsToIgnore|
      invariant queries.objects == old(queries.objects)
      invariant SetOf(uids) == Spared(objectsToIgnore[..i])
    {
      var uid, valid := ParsePGUUID(objectsToIgnore[i]);
      assert objectsToIgnore[..i + 1] == objectsToIgnore[..i] + [objectsToIgnore[i]];
      SparedStep(objectsToIgnore[..i], objectsToIgnore[i]);
      if valid {
        uids := uids + [uid];
      }
      i := i + 1;
    }
    assert objectsToIgnore[..i] == objectsToIgnore;
    if !written {
      return None;
    }
    var updated := queries.DeleteObjects(kind, uids, now);
    count := Some(updated);
  }

  /** The rows protected by a list of UID texts. */
  function Spared(texts: seq<Text>): set<Uuid> {
    set t | t in texts && Parse(t).Some? :: Parse(t).value
  }

  lemma SparedStep(texts: seq<Text>, t: Text)
    ensures Spared(texts + [t]) == Spared(texts) + if Parse(t).Some? then {Parse(t).value} else {}
  {
    forall u ensures u in Spared(texts + [t]) <==> u in Spared(texts) || Parse(t) == Some(u) {
      if u in Spared(texts) {
        var s :| s in texts && Parse(s) == Some(u);
        assert s in texts + [t];
      }
      if Parse(t) == Some(u) {
        assert t in texts + [t];
      }
    }
  }

  /** One pass over the collected kinds; a kind is skipped when its listing fails or its statement does. */
  function Pass(rows: Rows, cluster: int, lists: map<string, Listing>, kinds: seq<string>): Rows {
    if kinds == [] then rows
    else
      var before, kind := Pass(rows, cluster, lists, kinds[..|kinds| - 1]), kinds[|kinds| - 1];
      if kind in lists && lists[kind].written then
        Do(before, Op.Collect(cluster, kind, Spared(lists[kind].uids), lists[kind].now))
      else before
  }

  /** `CollectGarbage`; errors of one kind are logged and do not stop the pass. */
  method CollectGarbage(queries: Queries, lists: map<string, Listing>)
    modifies queries`objects
    ensures queries.objects == Pass(old(queries.objects), queries.clusterID, lists, COLLECTED)
  {
    var i := 0;
    while i < |COLLECTED|
      invariant 0 <= i <= |COLLECTED|
      invariant queries.objects == Pass(old(queries.objects), queries.clusterID, lists, COLLECTED[..i])
    {
      assert COLLECTED[..i + 1][..i] == COLLECTED[..i];
      if COLLECTED[i] in lists {
        var list := lists[COLLECTED[i]];
        var count := DeleteObjects(queries, COLLECTED[i], list.uids, list.now, list.written);
      }
      i := i + 1;
    }
    assert COLLECTED[..i] == COLLECTED;
  }

  /** A pass marks a row exactly when its kind was listed without it, and the statement succeeded. */
  lemma {:induction false} PassMarks(
    rows: Rows, cluster: int, lists: map<string, Listing>, kinds: seq<string>, u: Uuid)
    ensures u in Pass(rows, cluster, lists, kinds) <==> u in rows
    ensures u in rows ==>
      var row := rows[u];
      var marked :=
        && row.deletedAt.None? && row.cluster == cluster && row.kind in kinds
        && row.kind in lists && lists[row.kind].written && u !in Spared(lists[row.kind].uids);
      Pass(rows, cluster, lists, kinds)[u] ==
        if marked then row.(deletedAt := Some(lists[row.kind].now)) else row
  {
    if kinds == [] {
    } else {
      var n := |kinds| - 1;
      PassMarks(rows, cluster, lists, kinds[..n], u);
      assert kinds == kinds[..n] + [kinds[n]];
      var before := Pass(rows, cluster, lists, kinds[..n]);
      if u in rows && kinds[n] in lists {
        assert u in Victims(before, cluster, kinds[n], Spared(lists[kinds[n]].uids)) <==>
          ActiveOf(before, u, cluster, kinds[n]) && u !in Spared(lists[kinds[n]].uids);
      }
    }
  }

  /** A row of a persisted kind can be marked by some pass if and only if its kind is an effective one. */
  lemma CollectableKinds(rows: Rows, u: Uuid)
    requires Active(rows, u) && rows[u].kind in PERSISTED
    ensures (exists lists :: !Active(Pass(rows, rows[u].cluster, lists, COLLECTED), u)) <==>
      rows[u].kind in EFFECTIVE
  {
    var kind, cluster := rows[u].kind, rows[u].cluster;
    EffectiveKinds(kind);
    if kind in EFFECTIVE {
      var lists: map<string, Listing> := map[kind := Listing([], 0, true)];
      PassMarks(rows, cluster, lists, COLLECTED, u);
      assert !Active(Pass(rows, cluster, lists, COLLECTED), u);
    } else {
      forall lists ensures Active(Pass(rows, cluster, lists, COLLECTED), u) {
        PassMarks(rows, cluster, lists, COLLECTED, u);
      }
    }
  }
}
