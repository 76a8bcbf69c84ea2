/** The database operations of one pgkube process, which all act for the process's own cluster. */
module Queries {
  import opened ObjectTable
  import opened UsageTable
  import opened Uuid
  import opened Wrappers

  /** The arguments of one usage upsert; callers leave the cluster to be filled in. */
  datatype UsageParams = UsageParams(clusterID: int, podUid: Uuid, timestamp: int, value: real)

  /** The batch records that a list of arguments becomes. */
  function Records(m: Metric, cluster: int, arg: seq<UsageParams>): (ws: seq<Write>)
    ensures |ws| == |arg|
    ensures forall i :: 0 <= i < |arg| ==>
      ws[i] == Write(cluster, m, Key(arg[i].podUid, arg[i].timestamp), arg[i].value)
  {
    seq(|arg|, i requires 0 <= i < |arg| => Write(cluster, m, Key(arg[i].podUid, arg[i].timestamp), arg[i].value))
  }

  function SetOf(uids: seq<Uuid>): set<Uuid> { set u | u in uids }

  class Queries {
    const clusterID: int
    var usage: Table
    var objects: Rows

    /** Every usage record committed so far, oldest first. */
    ghost var log: seq<Write>

    ghost predicate Valid() reads this { usage == Apply(map[], log) }

    /** Opens a database that earlier processes may have filled, with the records `before`. */
    constructor (clusterID: int, usage: Table, objects: Rows, ghost before: seq<Write>)
      requires usage == Apply(map[], before)
      ensures Valid() && this.clusterID == clusterID
      ensures this.usage == usage && this.objects == objects && log == before
    {
      this.clusterID := clusterID;
      this.usage, this.objects, log := usage, objects, before;
    }

    /** Sends a batch; the database commits all of its records or, when it fails, none. */
    method ExecBatch(data: seq<Write>, committed: bool) returns (ok: bool)
      requires Valid()
      modifies this
      ensures Valid() && ok == committed && objects == old(objects)
      ensures log == if committed then old(log) + data else old(log)
    {
      ok := committed;
      if committed {
        var i := 0;
        while i < |data|
          invariant 0 <= i <= |data|
          invariant objects == old(objects) && log == old(log)
          invariant usage == Apply(old(usage), data[..i])
        {
          usage := UsageTable.Upsert(usage, data[i]);
          assert data[..i + 1][..i] == data[..i];
          i := i + 1;
        }
        assert data[..|data|] == data;
        ApplyConcat(map[], log, data);
        log := log + data;
      }
    }

    method UpsertPodUsedCPU(arg: seq<UsageParams>, committed: bool) returns (ok: bool)
      requires Valid()
      modifies this
      ensures Valid() && ok == committed && objects == old(objects)
      ensures log == if committed then old(log) + Records(Cpu, clusterID, arg) else old(log)
    {
      var stamped := Stamp(arg);
      var data := seq(|stamped|, i requires 0 <= i < |stamped| =>
        Write(stamped[i].clusterID, Cpu, Key(stamped[i].podUid, stamped[i].timestamp), stamped[i].value));
      assert data == Records(Cpu, clusterID, arg);
      ok := ExecBatch(data, committed);
    }

    method UpsertPodUsedMemory(arg: seq<UsageParams>, committed: bool) returns (ok: bool)
      requires Valid()
      modifies this
      ensures Valid() && ok == committed && objects == old(objects)
      ensures log == if committed then old(log) + Records(Memory, clusterID, arg) else old(log)
    {
      var stamped := Stamp(arg);
      var data := seq(|stamped|, i requires 0 <= i < |stamped| =>
        Write(stamped[i].clusterID, Memory, Key(stamped[i].podUid, stamped[i].timestamp), stamped[i].value));
      assert data == Records(Memory, clusterID, arg);
      ok := ExecBatch(data, committed);
    }

    /** Overwrites the cluster of every argument, whatever the caller left there. */
    method Stamp(arg: seq<UsageParams>) returns (stamped: seq<UsageParams>)
      ensures |stamped| == |arg|
      ensures forall i :: 0 <= i < |arg| ==> stamped[i] == arg[i].(clusterID := clusterID)
    {
      stamped := arg;
      var i := 0;
      while i < |arg|
        invariant 0 <= i <= |arg| == |stamped|
        invariant forall j :: 0 <= j < |arg| ==>
          stamped[j] == if j < i then arg[j].(clusterID := clusterID) else arg[j]
      {
        stamped := stamped[i := stamped[i].(clusterID := clusterID)];
        i := i + 1;
      }
    }

    method UpsertObject(kind: string, uid: Uuid, payload: Payload)
      modifies this`objects
      ensures objects == Do(old(objects), Op.Upsert(clusterID, kind, uid, payload))
    {
      var deletedAt := if uid in objects then objects[uid].deletedAt else None;
      objects := objects[uid := ObjectRow(clusterID, kind, payload, deletedAt)];
    }

    method DeleteObject(uid: Uuid, now: int)
      modifies this`objects
      ensures objects == Do(old(objects), Op.Delete(clusterID, uid, now))
    {
      if uid in objects && objects[uid].deletedAt.None? && objects[uid].cluster == clusterID {
        objects := objects[uid := objects[uid].(deletedAt := Some(now))];
      }
    }

    /** Marks the active rows of the kind whose uid is not in the list, and reports how many they were. */
    method DeleteObjects(kind: string, ignoreUids: seq<Uuid>, now: int) returns (count: nat)
      modifies this`objects
      ensures objects == Do(old(objects), Op.Collect(clusterID, kind, SetOf(ignoreUids), now))
      ensures count == |ActiveRows(old(objects))| - |ActiveRows(objects)|
    {
      var ignore := SetOf(ignoreUids);
      var updated := set u | u in objects
        && objects[u].cluster == clusterID && u !in ignore && objects[u].deletedAt.None? && objects[u].kind == kind;
      assert updated == Victims(objects, clusterID, kind, ignore);
      CollectionCount(objects, clusterID, kind, ignore, now);
      objects := map u | u in objects :: if u in updated then objects[u].(deletedAt := Some(now)) else objects[u];
      count := |updated|;
    }

    method ActiveObjectCount() returns (count: nat)
      ensures count == |ActiveRows(objects)|
    {
      count := |set u | u in objects && objects[u].deletedAt.None?|;
      assert (set u | u in objects && objects[u].deletedAt.None?) == ActiveRows(objects);
    }
  }
}
