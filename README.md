# Errands: optimistic local/remote reconciliation

"Errands" is a one-screen iOS to-do list. It keeps its list in the user's CloudKit
private database. Its `ErrandsModel` class shows edits optimistically. That means the
visible list reflects an add or a delete at once, before the database has confirmed it.
The model keeps three pieces of state:

- `records`: the snapshot last fetched by the query for all errands;
- `insertedObjects`: errands saved locally that no snapshot has shown yet;
- `deletedObjectIds`: ids of errands deleted locally (tombstones).

From these, `updateErrands` builds the visible list `errands`. It works in five steps:

1. Collect the snapshot's ids.
2. Drop the inserts the snapshot has confirmed.
3. Add the surviving inserts' ids to the known ids.
4. Cut the tombstones down to the known ids.
5. Show the snapshot followed by the surviving inserts, minus every tombstoned errand.

Each assignment to `errands` posts one change notification.

The project has three files:

- `reconciliation.dfy` (module `Reconciliation`) gives the reconciliation as a pure
  function `Reconcile` over values. It proves the properties of `Reconcile`: the
  surviving inserts, how tombstones are collected, the order and contents of the
  visible list, idempotence, unique ids, and the effect of an add or a delete on a
  reconciled state.
- `errands_model.dfy` (module `Errands`) models `ErrandsModel` as a class with the
  Swift fields. `UpdateErrands` follows the Swift steps through loop-based
  `CollectIds` and `RemoveAll`, and is proved to compute `Reconcile`. The class has
  these members:
  - the constructor (`init`);
  - `SetErrands`, the `didSet` of `errands`;
  - `Handle`, for `handle(error:)`;
  - `UpdateErrands`, `AddErrand` and `Delete`;
  - `OnWriteCompleted` and `OnRefreshCompleted`, the bodies of the CloudKit completion
    handlers;
  - the lemma `ValidInvariants`.

  `Valid()` is the class invariant. It has two parts. `Settled()` says the state equals
  one more reconciliation of itself. The other part says no two pending inserts share
  an id. The constructor, `AddErrand`, `Delete` and `OnRefreshCompleted` require or
  establish `Valid()` and keep it. `Handle` and `OnWriteCompleted` leave the snapshot
  and the overlay untouched. `UpdateErrands` always ends settled, and keeps unique
  insert ids. `SetErrands` is the one method that can break `Valid()`: it assigns the
  visible list and nothing else. Only `UpdateErrands` calls it. Ghost fields count the
  change notifications and record the posted errors.
- `wrappers.dfy` holds `Option`, for the optional arguments of the completion handlers.

Errands are values `Errand(id, name)`. A `RecordId` is the record name of a `CKRecordID`.

Two facts about the code shape the model:

- `insertedObjects` is an array (line 47), so the visible list shows the pending
  inserts in insertion order.
- The comment at line 98 says a tombstone is dropped once storage stops returning its
  id. The code does more than that comment says. It first adds the surviving inserts'
  ids to the known ids (line 96), then keeps every tombstone whose id is known
  (line 99). So a tombstone also stays while a surviving insert carries its id.
  Suppose an errand is added and then deleted before any snapshot shows it. Its
  insert and its tombstone then both stay through every such refresh, and the errand
  stays hidden (`UnconfirmedDeletedInsertPersists`).

## Model

| member | source | states |
|---|---|---|
| `Reconciliation.Without` | Errands/ErrandsTableViewController.swift:104-106 | an errand is in the filtered list iff it is in the input and its id is not among the removed ids; the result is no longer than the input |
| `Reconciliation.WithoutAppend` | Errands/ErrandsTableViewController.swift:101-106 | filtering the concatenation of two lists is the concatenation of the two filtered lists |
| `Reconciliation.WithoutSubsequence` | Errands/ErrandsTableViewController.swift:93-95 | `removeAll` keeps the surviving errands in their original relative order |
| `Reconciliation.WithoutNoop` | Errands/ErrandsTableViewController.swift:93-95 | filtering leaves a list unchanged exactly when none of its ids is removed (both directions) |
| `Reconciliation.WithoutMultiplicity` | Errands/ErrandsTableViewController.swift:104-106 | filtering keeps every copy of an errand whose id is not removed and drops every copy of one whose id is; the count of copies of every other errand is unchanged |
| `Reconciliation.WithoutTwice` | Errands/ErrandsTableViewController.swift:104-106 | filtering by one id set and then another is filtering once by their union |
| `Reconciliation.Reconcile` | Errands/ErrandsTableViewController.swift:88-108 | no visible errand carries a tombstoned id; no surviving insert carries a snapshot id; the new tombstones are a subset of the old ones and of the snapshot ids together with the surviving inserts' ids |
| `Reconciliation.ReconcileInserted` | Errands/ErrandsTableViewController.swift:90-95 | an insert survives iff its id is not in the snapshot, and the survivors keep their relative order |
| `Reconciliation.ReconcileDeleted` | Errands/ErrandsTableViewController.swift:96-99 | a tombstone survives iff it was there before and its id is in the snapshot or in a surviving insert; tombstones for ids seen nowhere are dropped |
| `Reconciliation.ReconcileVisible` | Errands/ErrandsTableViewController.swift:101-106 | the visible list is the snapshot's untombstoned errands followed by the surviving inserts' untombstoned errands; an errand is visible iff it is in the snapshot or a surviving insert and not tombstoned; the visible list is an ordered subsequence of snapshot then inserts |
| `Reconciliation.ReconcileIdempotent` | Errands/ErrandsTableViewController.swift:88-111 | reconciling the result again, with nothing changed, returns the same inserts, tombstones and visible list |
| `Reconciliation.ReconcileUniqueIds` | Errands/ErrandsTableViewController.swift:90-106 | with unique ids in the snapshot and the inserts, no id appears twice among the surviving inserts or the visible list, so a confirmed insert is not shown twice |
| `Reconciliation.UnconfirmedDeletedInsertPersists` | Errands/ErrandsTableViewController.swift:93-99 | an insert that is tombstoned and absent from the snapshot keeps its insert and its tombstone, and stays hidden |
| `Reconciliation.UniqueIdsSnoc` | Errands/ErrandsTableViewController.swift:64 | appending an errand with a new id to a list with unique ids keeps the ids unique |
| `Reconciliation.ReconcileAfterInsert` | Errands/ErrandsTableViewController.swift:64-65 | from a reconciled state, appending an errand with a fresh id and reconciling makes it the last insert and the last visible errand; the tombstones stay unchanged |
| `Reconciliation.ReconcileAfterDelete` | Errands/ErrandsTableViewController.swift:78-79 | from a reconciled state, tombstoning the id of a visible errand and reconciling keeps that tombstone, leaves the inserts alone and removes that id from the visible list |
| `Reconciliation.WithoutOnlyThat` | Errands/ErrandsTableViewController.swift:69-80 | in a list with unique ids, removing the id at a position removes exactly the errand at that position |
| `Reconciliation.ConvergenceExample` | Errands/ErrandsTableViewController.swift:88-108 | snapshot [A, B], insert C and tombstone B reconcile to visible [A, C] |
| `Reconciliation.OptimisticInsertExample` | Errands/ErrandsTableViewController.swift:90-106 | a pending "Milk" stays visible after a snapshot without it; a snapshot with it shows it once and clears the insert |
| `Reconciliation.DeleteFirstExample` | Errands/ErrandsTableViewController.swift:69-80 | from the settled state showing ["Milk", "Eggs"], tombstoning the id found at index 0 leaves ["Eggs"] visible at once |
| `Errands.CollectIds` | Errands/ErrandsTableViewController.swift:90 | the loop collects exactly the ids of the list |
| `Errands.RemoveAll` | Errands/ErrandsTableViewController.swift:93-95 | the loop leaves exactly the filtered list `Without(s, ids)` |
| `Errands.ErrandsModel.ValidInvariants` | Errands/ErrandsTableViewController.swift:46-48 | in a valid state no visible errand is tombstoned, no insert is in the snapshot, every tombstone is a known id, and with unique snapshot ids no id is visible twice |
| `Errands.ErrandsModel.constructor` | Errands/ErrandsTableViewController.swift:46-51 | a new model is empty, valid and has posted nothing |
| `Errands.ErrandsModel.SetErrands` | Errands/ErrandsTableViewController.swift:34-40 | assigning the visible list posts exactly one change notification and changes nothing else |
| `Errands.ErrandsModel.Handle` | Errands/ErrandsTableViewController.swift:82-86 | an error is posted once to the error notification; the model state is unchanged |
| `Errands.ErrandsModel.UpdateErrands` | Errands/ErrandsTableViewController.swift:88-111 | the new inserts, tombstones and visible list are `Reconcile` of the old state; the snapshot is kept; the result is settled; unique insert ids stay unique, and with unique snapshot ids too no id is visible twice; from a settled state nothing changes (idempotence); exactly one change notification |
| `Errands.ErrandsModel.AddErrand` | Errands/ErrandsTableViewController.swift:53-67 | given a fresh id, the new errand is appended to the inserts and to the visible list, and the inserts' ids stay unique; snapshot and tombstones are unchanged; one change notification |
| `Errands.ErrandsModel.Delete` | Errands/ErrandsTableViewController.swift:69-80 | for an index into the visible list, its id joins the tombstones, every errand with that id leaves the visible list, and with unique ids exactly that errand is removed; snapshot and inserts are unchanged; one change notification |
| `Errands.ErrandsModel.OnWriteCompleted` | Errands/ErrandsTableViewController.swift:57-62 | a failed save (or delete, same closure at 71-76) posts its error and rolls nothing back; a success changes nothing |
| `Errands.ErrandsModel.OnRefreshCompleted` | Errands/ErrandsTableViewController.swift:117-126 | on success the snapshot becomes exactly the fetched list and is reconciled with one change notification; on failure the state is untouched, no reconciliation runs and the error is posted |

## Left out

- The CloudKit calls `database.save`, `database.delete(withRecordID:)` and `database.perform` (lines 57, 71, 117) are network I/O through a library. Only their completion handlers are modelled, with the outcome passed in as arguments. `refresh()` itself only issues the query (lines 113-117), so it has no member of its own.
- The id of a new errand comes from `CKRecord(recordType:)` (line 16). Its freshness is library behaviour, so `AddErrand` takes the id as an argument and requires it to be new.
- `ReconcileUniqueIds`, and the unique-ids clauses of `UpdateErrands`, `ValidInvariants` and `Delete`, are conditional on the snapshot's record ids being unique. That is database behaviour the code does not show, so the class invariant does not include it.
- `OnRefreshCompleted` requires an error whenever no result is handed over. The Swift code force-unwraps `error!` in that branch and would trap otherwise.
- Dispatch through `OperationQueue.main` (lines 36-38, 44, 83-85) is scheduling, and is not modelled. Notifications are counted when they are posted. The `onChange` and `onError` closures are not modelled either, nor is the case where they are nil.
- Overlapping in-flight refreshes, and completions that interleave with adds and deletes, are concurrency the code makes no promise about. Each completion is modelled as one atomic step.
- `Errand` is modelled as a plain value, not as a wrapper around a shared `CKRecord` reference (lines 9-26), so aliasing through the record is not modelled. The same goes for the forced cast `as! String` of the name (line 21).
- `debugPrint` (line 110) is output only.
- `ErrandsTableViewController` (lines 132-202) is UIKit glue: lifecycle, alerts, table data source and refresh control. The empty-name check at line 168 is input filtering in the UI.
