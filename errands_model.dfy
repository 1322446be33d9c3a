/**
 * ErrandsModel: the list of errands as the app shows it, kept in step with
 * the CloudKit private database by an optimistic local overlay.
 *
 * The CloudKit calls themselves (save, delete, query) are not modelled; what
 * their completion handlers do to the model is, with the result handed in as
 * arguments.  The two notification closures (`onChange`, `onError`) are
 * modelled by ghost fields that record what has been posted to them.
 */
module Errands {

  import opened Wrappers
  import opened Reconciliation

  /** The error a CloudKit operation completes with; all kinds are handled alike. */
  datatype CloudError = CloudError(description: string)

  /**
   * Collects the record ids of `s` into a set, as the reconciliation does
   * for the snapshot and for the surviving inserts.
   */
  method CollectIds(s: seq<Errand>) returns (ids: set<RecordId>)
    ensures ids == Ids(s)
  {
    ids := {};
    for i := 0 to |s|
      invariant ids == Ids(s[..i])
    {
      assert s[..i + 1] == s[..i] + [s[i]];
      IdsAppend(s[..i], [s[i]]);
      assert Ids([s[i]]) == {s[i].id};
      ids := ids + {s[i].id};
    }
    assert s[..|s|] == s;
  }

  /**
   * What is left of `s` after `removeAll` drops every errand whose id is in
   * `ids`; the surviving errands keep their order.
   */
  method RemoveAll(s: seq<Errand>, ids: set<RecordId>) returns (kept: seq<Errand>)
    ensures kept == Without(s, ids)
  {
    kept := [];
    for i := 0 to |s|
      invariant kept == Without(s[..i], ids)
    {
      WithoutSnoc(s, i, ids);
      if s[i].id !in ids {
        kept := kept + [s[i]];
      }
    }
    assert s[..|s|] == s;
  }

  class ErrandsModel {

    /** The visible list; every assignment to it posts one change notification. */
    var errands: seq<Errand>
    /** The snapshot last fetched from the database. */
    var records: seq<Errand>
    /** Errands saved locally and not yet seen in a snapshot. */
    var insertedObjects: seq<Errand>
    /** Ids of errands deleted locally (tombstones). */
    var deletedObjectIds: set<RecordId>

    /** How many change notifications (`onChange`) have been posted. */
    ghost var changeNotifications: nat
    /** The errors posted to `onError`, in order. */
    ghost var reportedErrors: seq<CloudError>

    /** The overlay and the visible list together. */
    ghost function Overlay(): Reconciled
      reads this
    {
      Reconciled(insertedObjects, deletedObjectIds, errands)
    }

    /**
     * The state is settled: it is what one more reconciliation of the
     * current snapshot and overlay would produce.
     */
    ghost predicate Settled()
      reads this
    {
      Reconcile(records, insertedObjects, deletedObjectIds) == Overlay()
    }

    /**
     * The class invariant: the state is settled, and no two pending inserts
     * share an id (each comes from a freshly created record).
     */
    ghost predicate Valid()
      reads this
    {
      Settled() && UniqueIds(insertedObjects)
    }

    /**
     * What a valid state promises: no visible errand is tombstoned, no
     * pending insert is already in the snapshot, every tombstone is for an
     * id in the snapshot or in a pending insert, and with unique snapshot
     * ids no id is visible twice.
     */
    lemma ValidInvariants()
      requires Valid()
      ensures forall e :: e in errands ==> e.id !in deletedObjectIds
      ensures forall e :: e in insertedObjects ==> e.id !in Ids(records)
      ensures deletedObjectIds <= Ids(records) + Ids(insertedObjects)
      ensures UniqueIds(records) ==> UniqueIds(errands)
    {
      if UniqueIds(records) {
        ReconcileUniqueIds(records, insertedObjects, deletedObjectIds);
      }
    }

    constructor ()
      ensures Valid()
      ensures errands == [] && records == [] && insertedObjects == [] && deletedObjectIds == {}
      ensures changeNotifications == 0 && reportedErrors == []
    {
      errands, records, insertedObjects, deletedObjectIds := [], [], [], {};
      changeNotifications, reportedErrors := 0, [];
      assert Ids([]) == {};
    }

    /** Assigns the visible list; its `didSet` posts one change notification. */
    method SetErrands(value: seq<Errand>)
      modifies this
      ensures errands == value
      ensures changeNotifications == old(changeNotifications) + 1
      ensures records == old(records) && insertedObjects == old(insertedObjects)
      ensures deletedObjectIds == old(deletedObjectIds) && reportedErrors == old(reportedErrors)
    {
      errands := value;
      changeNotifications := changeNotifications + 1;
    }

    /** Posts `error` to the error notification. */
    method Handle(error: CloudError)
      modifies this
      ensures reportedErrors == old(reportedErrors) + [error]
      ensures changeNotifications == old(changeNotifications)
      ensures records == old(records) && Overlay() == old(Overlay())
    {
      reportedErrors := reportedErrors + [error];
    }

    /**
     * Reconciles the snapshot with the overlay.  The result is a settled
     * state; from a settled state nothing but the notification count
     * changes.  Unique ids in the inserts stay unique, and with unique ids
     * in the snapshot no id is visible twice.
     */
    method UpdateErrands()
      modifies this
      ensures Overlay() == Reconcile(old(records), old(insertedObjects), old(deletedObjectIds))
      ensures records == old(records)
      ensures Settled()
      ensures UniqueIds(old(insertedObjects)) ==> Valid()
      ensures UniqueIds(records) && UniqueIds(old(insertedObjects)) ==> UniqueIds(errands)
      ensures old(Settled()) ==> Overlay() == old(Overlay())
      ensures changeNotifications == old(changeNotifications) + 1
      ensures reportedErrors == old(reportedErrors)
    {
      var knownIds := CollectIds(records);
      // confirmed inserts leave the overlay
      insertedObjects := RemoveAll(insertedObjects, knownIds);
      var pendingIds := CollectIds(insertedObjects);
      knownIds := knownIds + pendingIds;
      // tombstones for ids known nowhere are dropped
      deletedObjectIds := deletedObjectIds * knownIds;
      var visible := records;
      visible := visible + insertedObjects;
      visible := RemoveAll(visible, deletedObjectIds);
      SetErrands(visible);
      ReconcileIdempotent(records, old(insertedObjects), old(deletedObjectIds));
      if UniqueIds(old(insertedObjects)) {
        WithoutUniqueIds(old(insertedObjects), Ids(records));
        if UniqueIds(records) {
          ReconcileUniqueIds(records, old(insertedObjects), old(deletedObjectIds));
        }
      }
    }

    /**
     * Adds an errand with the given name.  The new record's id is generated
     * on the client and is fresh.  The errand joins the overlay at once,
     * whatever the outcome of the save (see OnWriteCompleted), and becomes
     * the last visible errand.
     */
    method AddErrand(name: string, id: RecordId)
      requires Valid()
      requires id !in Ids(records) && id !in Ids(insertedObjects)
      modifies this
      ensures Valid()
      ensures records == old(records)
      ensures insertedObjects == old(insertedObjects) + [Errand(id, name)]
      ensures deletedObjectIds == old(deletedObjectIds)
      ensures errands == old(errands) + [Errand(id, name)]
      ensures changeNotifications == old(changeNotifications) + 1
      ensures reportedErrors == old(reportedErrors)
    {
      var errand := Errand(id, name);
      ReconcileAfterInsert(records, insertedObjects, deletedObjectIds, errands, errand);
      UniqueIdsSnoc(insertedObjects, errand);
      insertedObjects := insertedObjects + [errand];
      UpdateErrands();
    }

    /**
     * Deletes the errand at `index` of the visible list.  Its id joins the
     * tombstones at once, whatever the outcome of the delete, and every
     * errand with that id leaves the visible list.
     */
    method Delete(index: int)
      requires Valid()
      requires 0 <= index < |errands|
      modifies this
      ensures Valid()
      ensures records == old(records) && insertedObjects == old(insertedObjects)
      ensures deletedObjectIds == old(deletedObjectIds) + {old(errands)[index].id}
      ensures errands == Without(old(errands), {old(errands)[index].id})
      ensures forall e :: e in errands ==> e.id != old(errands)[index].id
      ensures UniqueIds(old(errands)) ==> errands == old(errands)[..index] + old(errands)[index + 1..]
      ensures changeNotifications == old(changeNotifications) + 1
      ensures reportedErrors == old(reportedErrors)
    {
      var recordId := errands[index].id;
      if UniqueIds(errands) {
        WithoutOnlyThat(errands, index);
      }
      ReconcileAfterDelete(records, insertedObjects, deletedObjectIds, errands, index);
      deletedObjectIds := deletedObjectIds + {recordId};
      UpdateErrands();
    }

    /**
     * The completion of a save or a delete: a failure is reported and
     * nothing is rolled back; a success changes nothing.
     */
    method OnWriteCompleted(error: Option<CloudError>)
      modifies this
      ensures records == old(records) && Overlay() == old(Overlay())
      ensures changeNotifications == old(changeNotifications)
      ensures reportedErrors == old(reportedErrors) + (if error.Some? then [error.value] else [])
    {
      if error.Some? {
        Handle(error.value);
      }
    }

    /**
     * The completion of the query for all errands.  With a result and no
     * error the result becomes the snapshot and is reconciled; otherwise
     * the error is reported and the state is left as it was.  The query
     * must hand over an error when it hands over no result.
     */
    method OnRefreshCompleted(fetched: Option<seq<Errand>>, error: Option<CloudError>)
      requires Valid()
      requires fetched.None? ==> error.Some?
      modifies this
      ensures Valid()
      ensures fetched.Some? && error.None? ==>
        && records == fetched.value
        && Overlay() == Reconcile(fetched.value, old(insertedObjects), old(deletedObjectIds))
        && changeNotifications == old(changeNotifications) + 1
        && reportedErrors == old(reportedErrors)
      ensures !(fetched.Some? && error.None?) ==>
        && records == old(records)
        && Overlay() == old(Overlay())
        && changeNotifications == old(changeNotifications)
        && reportedErrors == old(reportedErrors) + [error.value]
    {
      if fetched.None? || error.Some? {
        Handle(error.value);
        return;
      }
      records := fetched.value;
      UpdateErrands();
    }
  }
}
