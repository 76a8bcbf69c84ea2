/** The informer handler that writes the objects of one kind to the database. */
module PersistObjectHandler {
  import opened CollectorProtocol
  import opened ObjectTable
  import opened Queries
  import opened Uuid
  import opened Wrappers

  /** What an informer passes to a handler: an object, or for a missed deletion a tombstone without a UID. */
  datatype Notice = Known(uid: Uuid, payload: Payload) | Tombstone

  class PersistObjectHandler {
    const queries: Queries
    const kind: string

    constructor (queries: Queries, kind: string)
      ensures this.queries == queries && this.kind == kind
    {
      this.queries := queries;
      this.kind := kind;
    }

    /** The rows after the write, if it succeeded; errors are logged and leave the rows as they were. */
    ghost function Written(rows: Rows, e: Event, now: int, ok: bool): Rows {
      if ok then Handle(Scope(queries.clusterID, kind), rows, e, now) else rows
    }

    /** The object's row has the object's own fields, and every other row is as before. */
    ghost predicate Stores(before: Rows, after: Rows, uid: Uuid, payload: Payload) {
      && uid in after
      && after[uid].payload == payload && after[uid].kind == kind && after[uid].cluster == queries.clusterID
      && after[uid].deletedAt == (if uid in before then before[uid].deletedAt else None)
      && after.Keys == before.Keys + {uid}
      && forall u :: u in before && u != uid ==> after[u] == before[u]
    }

    method OnAdd(obj: Notice, written: bool)
      modifies queries`objects
      ensures obj.Known? && written ==> Stores(old(queries.objects), queries.objects, obj.uid, obj.payload)
      ensures obj.Known? ==>
        queries.objects == Written(old(queries.objects), UpsertEvent(obj.uid, obj.payload), 0, written)
      ensures obj.Tombstone? ==> queries.objects == old(queries.objects)
    {
      Upsert(obj, written);
    }

    method OnUpdate(oldObj: Notice, newObj: Notice, written: bool)
      modifies queries`objects
      ensures newObj.Known? && written ==> Stores(old(queries.objects), queries.objects, newObj.uid, newObj.payload)
      ensures newObj.Known? ==>
        queries.objects == Written(old(queries.objects), UpsertEvent(newObj.uid, newObj.payload), 0, written)
      ensures newObj.Tombstone? ==> queries.objects == old(queries.objects)
    {
      Upsert(newObj, written);
    }

    /** An active row of the handler's cluster is marked now; everything else is as before. */
    method OnDelete(obj: Notice, now: int, written: bool)
      modifies queries`objects
      ensures queries.objects.Keys == old(queries.objects).Keys
      ensures forall u :: u in queries.objects ==>
        var row := old(queries.objects)[u];
        var marked :=
          obj.Known? && obj.uid == u && written && row.deletedAt.None? && row.cluster == queries.clusterID;
        queries.objects[u] == if marked then row.(deletedAt := Some(now)) else row
      ensures obj.Known? ==> queries.objects == Written(old(queries.objects), DeleteEvent(obj.uid), now, written)
      ensures obj.Tombstone? ==> queries.objects == old(queries.objects)
    {
      if obj.Tombstone? {
        return;
      }
      if written {
        queries.DeleteObject(obj.uid, now);
      }
    }

    method Upsert(obj: Notice, written: bool)
      modifies queries`objects
      ensures obj.Known? && written ==> Stores(old(queries.objects), queries.objects, obj.uid, obj.payload)
      ensures obj.Known? ==>
        queries.objects == Written(old(queries.objects), UpsertEvent(obj.uid, obj.payload), 0, written)
      ensures obj.Tombstone? ==> queries.objects == old(queries.objects)
    {
      if obj.Known? && written {
        queries.UpsertObject(kind, obj.uid, obj.payload);
      }
    }
  }
}
