# Record-array manager and attribute merge overlay, in Dafny

This project models two parts of ember-data's record store and proves their
properties.

**The record-array manager** (`RecordArrayManager.Manager`) keeps the store's
record arrays up to date:

- a *live* array per model name, holding "all records of this type";
- a list of *adapter-populated* arrays, holding query results.

`recordDidChange` queues changed record identifiers into a pending bucket per
model name. Each identifier is queued at most once until it is flushed, and the
first entry of a bucket asks the run loop for a flush. `_flush` drains every
bucket:

- every identifier of a batch may be queued again;
- the type's live array gains the identifiers that pass the inclusion predicate
  and loses those that fail it;
- a failing identifier is removed from *every* array through the reverse index
  (`recordArraysForIdentifier`), query arrays included.

`liveRecordArrayFor` either synchronises the registered live array or creates
it. Arrays are created, registered and unregistered through the manager.
`destroy`/`willDestroy` shut it down.

The manager is a class whose fields are the source's fields:

- `_liveRecordArrays`, `_pendingIdentifiers` and `_adapterPopulatedRecordArrays`;
- the module-level `pendingForIdentifier` set and the `RecordArraysCache` weak map.

Record arrays are objects in the source. Here each one is a handle into a
table the manager owns, so `===` on arrays is `==` on handles. The loops that
only compute values run as module-level methods over values, proved against
specification functions (`FlushedTable`, `FlushedEntry`, `AppendUnseen`,
`MarkDestroyed`). The class methods state their new state through those
functions. Every operation with `Valid()` in its contract keeps these
invariants, and every one with `ArraysValid()` keeps all but the first:

- **`PendingWellFormed`** — each bucket holds identifiers of its own type, all of them
  queued, none twice;
- the live array of a model name is a plain array of that name;
- the query list holds adapter-populated arrays;
- **`Consistent`** — the reverse index names exactly the arrays whose content
  holds an identifier.

**The attribute merge overlay** is the per-record state that the merge tests
drive. It has three layers:

- the canonical attributes;
- the attributes of a save in flight;
- the local edits, plus a validity flag.

A reader sees the local value, else the in-flight one, else the canonical one.

The record cache that implements this overlay is not part of this model.
`MergeOverlay` states a rule set under which the seven tests hold, as functions
on a `RecordData` value, with lemmas about them. `MergeRecord.Record` is the
mutable record, specified by those functions. `MergeTests` writes each test as
a sequence of calls on a `Record` whose postcondition is the test's assertions.

Modules: `Wrappers` (Option, Result), `Seqs` (sequence helpers), `Records`
(identifiers, the store as the manager reads it, the inclusion predicate),
`RecordArrays` (arrays, the table, the reverse index, what a flush does to
them), `RecordArrayManager`, `MergeOverlay`, `MergeRecord`, `MergeTests`.

## Model

| member | source | states |
|---|---|---|
| Records.ShouldIncludeInRecordArrays | packages/store/addon/-private/system/record-array-manager.ts:77-85 | an identifier is included only if the store has an internal model for it (`peek` is not null), and that model is not hidden |
| Records.IncludedOf | packages/store/addon/-private/system/record-array-manager.ts:239-251 | the result holds exactly the identifiers of the list that pass the predicate, and is no longer than the list |
| Records.Admitted | packages/store/addon/-private/system/record-array-manager.ts:445-455 | what a live array gains from a batch: an identifier is in it iff it is in the batch, passes the predicate and is not already in the array; nothing appears twice |
| Records.AdmittedAvoidsExcluded | packages/store/addon/-private/system/record-array-manager.ts:450-468 | removing the batch's excluded identifiers after appending the admitted ones takes none of the admitted ones out |
| RecordArrayManager.RemoveFromArray | packages/store/addon/-private/system/record-array-manager.ts:426-435 | reports true iff the item is in the list; if so, exactly its first occurrence is spliced out, otherwise the list is unchanged |
| RecordArrayManager.RemoveFromEach | packages/store/addon/-private/system/record-array-manager.ts:506-513 | taking the identifier out of each array its reverse-index entry names leaves no array holding it, and changes nothing else |
| RecordArrayManager.AssociateBatch | packages/store/addon/-private/system/record-array-manager.ts:442-461 | the loop of `updateLiveRecordArray`: the identifiers to add are exactly the admitted ones, in batch order and once each; the identifiers to remove are exactly the excluded ones; the live array joins the reverse-index entry of each included identifier and leaves that of each excluded one |
| RecordArrayManager.UpdateContent | packages/store/addon/-private/system/record-array-manager.ts:463-468 | appending the admitted identifiers and then removing the excluded ones, each only when there is something to do, yields the flushed content of the live array |
| RecordArrayManager.AssociateUnseen | packages/store/addon/-private/system/record-array-manager.ts:185-194 | the identifiers collected are exactly those of the visible list the array does not hold yet, once each, in list order; the array joins the reverse-index entry of every listed identifier |
| RecordArrayManager.VisibleIdentifiersByType | packages/store/addon/-private/system/record-array-manager.ts:239-251 | the type's model-map identifiers that pass the predicate, in map order |
| RecordArrayManager.DestroyLive | packages/store/addon/-private/system/record-array-manager.ts:413 | every registered live array is destroyed and no other array changes |
| RecordArrayManager.DestroyEach | packages/store/addon/-private/system/record-array-manager.ts:414 | every array of the query list is destroyed and no other array changes |
| RecordArrayManager.PendingInStep | packages/store/addon/-private/system/record-array-manager.ts:153-155 | flushing one more bucket adds exactly its identifiers to those let go of, and exactly its excluded identifiers to those dropped |
| RecordArrayManager.BucketDeleted | packages/store/addon/-private/system/record-array-manager.ts:182-183 | deleting a flushed bucket keeps every remaining bucket duplicate-free, of its own type, and with all its identifiers still queued |
| RecordArrayManager.FlushedUpToNothing | packages/store/addon/-private/system/record-array-manager.ts:149-152 | before any bucket has been flushed, the arrays and the reverse index are as they started |
| RecordArrayManager.OtherFlushStep | packages/store/addon/-private/system/record-array-manager.ts:143-146 | an array that is no type's live array, after one more bucket, has lost exactly the excluded identifiers of all buckets flushed so far |
| RecordArrayManager.LiveFlushStep | packages/store/addon/-private/system/record-array-manager.ts:136-146 | a type's live array, after one more bucket, holds its original members minus every excluded identifier so far, plus the included identifiers of its own bucket once that bucket has been flushed |
| RecordArrayManager.TableFlushStep | packages/store/addon/-private/system/record-array-manager.ts:153-155 | flushing one more bucket carries the whole table from "these buckets flushed" to "these and one more flushed", in any order |
| RecordArrayManager.IndexFlushStep | packages/store/addon/-private/system/record-array-manager.ts:153-155 | the same step for the reverse index: each identifier's entry is the flushed entry of its own type's bucket once that bucket is done, and unchanged before |
| RecordArrayManager.BatchPrefixStep | packages/store/addon/-private/system/record-array-manager.ts:445-461 | one more identifier of a batch extends the admitted list iff it passes the predicate and is new, and extends the excluded set iff it fails the predicate |
| RecordArrayManager.BatchIndexStep | packages/store/addon/-private/system/record-array-manager.ts:448-460 | one more identifier of a batch changes only its own reverse-index entry, by adding or removing the live array |
| RecordArrayManager.AssociateStep | packages/store/addon/-private/system/record-array-manager.ts:189-193 | one more identifier of the visible list changes only its own reverse-index entry, which gains the array |
| RecordArrayManager.Manager.constructor | packages/store/addon/-private/system/record-array-manager.ts:99-106 | a new manager is neither destroying nor destroyed, and has no live arrays, buckets, query arrays, index entries or queued identifiers |
| RecordArrayManager.Manager.RecordDidChange | packages/store/addon/-private/system/record-array-manager.ts:380-410 | nothing changes when the manager is destroying or destroyed, or when the identifier is already queued; otherwise the identifier is queued and appended to its type's bucket, and exactly one flush is requested iff the bucket was empty; buckets never hold duplicates |
| RecordArrayManager.Manager.AssociateWithRecordArray | packages/store/addon/-private/system/record-array-manager.ts:367-374 | the array joins the reverse-index entry of every given identifier and of no other |
| RecordArrayManager.Manager.CreateRecordArray | packages/store/addon/-private/system/record-array-manager.ts:262-281 | a fresh loaded plain array holding exactly the given identifiers, each of them recorded in the reverse index; no registry change |
| RecordArrayManager.Manager.CreateAdapterPopulatedRecordArray | packages/store/addon/-private/system/record-array-manager.ts:292-334 | a fresh query array, appended to the query list; with identifiers it is loaded, holds them and is indexed for them; without, it is empty, unloaded and indexed for nothing |
| RecordArrayManager.Manager.UnregisterRecordArray | packages/store/addon/-private/system/record-array-manager.ts:344-359 | if the array is in the query list, its first occurrence is removed and the live registry is unchanged; otherwise the live entry of its model name is deleted only when it is this array; nothing else changes |
| RecordArrayManager.Manager.UpdateLiveRecordArray | packages/store/addon/-private/system/record-array-manager.ts:437-469 | the live array gets its flushed content and no other array changes; for each batch identifier, the array is in its reverse-index entry iff the identifier passes the predicate; the index stays consistent |
| RecordArrayManager.Manager.RemoveFromAll | packages/store/addon/-private/system/record-array-manager.ts:506-516 | the identifier leaves every array, and its reverse-index entry becomes empty; the index stays consistent |
| RecordArrayManager.Manager.RemoveFromAdapterPopulatedRecordArrays | packages/store/addon/-private/system/record-array-manager.ts:500-504 | every identifier of the list leaves every array, and its reverse-index entry is emptied; other entries are unchanged |
| RecordArrayManager.Manager.DequeueBatch | packages/store/addon/-private/system/record-array-manager.ts:122-134 | every identifier of the batch is let go of (may be queued again), and the identifiers collected for removal are exactly those failing the predicate |
| RecordArrayManager.Manager.FlushPendingIdentifiersForModelName | packages/store/addon/-private/system/record-array-manager.ts:118-147 | nothing happens once destroying or destroyed; otherwise the batch is let go of, the table becomes the flushed table (live array of the type updated, excluded identifiers gone from every array) and each reverse-index entry becomes the flushed entry |
| RecordArrayManager.Manager.Flush | packages/store/addon/-private/system/record-array-manager.ts:149-156 | leaves no pending bucket; unless destroying, every queued identifier of every bucket is let go of, and the table and index are the result of flushing every former bucket once, whatever the order |
| RecordArrayManager.Manager.SyncLiveRecordArray | packages/store/addon/-private/system/record-array-manager.ts:158-199 | does nothing without a pending bucket, or with an empty bucket and as many model-map identifiers as array members; otherwise flushes and deletes the bucket, then appends each visible identifier not yet in the array, after which every visible identifier is in the array and indexed to it |
| RecordArrayManager.Manager.FlushAndDeleteBucket | packages/store/addon/-private/system/record-array-manager.ts:182-183 | the type's bucket is flushed as by the flush of one model name and then deleted; the pending state stays well formed |
| RecordArrayManager.Manager.AppendVisible | packages/store/addon/-private/system/record-array-manager.ts:185-198 | the array gains exactly the visible identifiers it did not hold, in map order, and the reverse index records them; afterwards every visible identifier is in the array |
| RecordArrayManager.Manager.LiveRecordArrayFor | packages/store/addon/-private/system/record-array-manager.ts:217-237 | returns the registered live array of the type when there is one, and leaves the state its synchronisation leaves: nothing changes without a pending bucket or with an empty bucket and a matching length; otherwise the bucket is flushed and deleted, the array gains the visible identifiers it lacked, and every visible identifier is in it and indexed to it. Without a registered array, registers a fresh plain array holding exactly the type's visible identifiers in map order, each indexed to it |
| RecordArrayManager.Manager.Destroy | packages/store/addon/-private/system/record-array-manager.ts:418-423 | the manager is destroying and `willDestroy` has been requested |
| RecordArrayManager.Manager.WillDestroy | packages/store/addon/-private/system/record-array-manager.ts:412-416 | every live and every query array is destroyed, no content changes, and the manager is destroyed |
| RecordArrays.MarkDestroyedTwice | packages/store/addon/-private/system/record-array-manager.ts:413-414 | destroying the live arrays and then the query arrays is destroying both sets at once |
| RecordArrays.MarkDestroyedConsistent | packages/store/addon/-private/system/record-array-manager.ts:412-416 | destroying arrays keeps the reverse index exact |
| RecordArrays.StripAllNothing | packages/store/addon/-private/system/record-array-manager.ts:144-146 | removing identifiers that no array holds changes no array |
| RecordArrays.StripAllTwice | packages/store/addon/-private/system/record-array-manager.ts:500-504 | removing one identifier after others is removing all of them at once |
| RecordArrays.StripOneConsistent | packages/store/addon/-private/system/record-array-manager.ts:506-516 | removing an identifier from every array and clearing its entry keeps the reverse index exact |
| RecordArrays.BatchConsistent | packages/store/addon/-private/system/record-array-manager.ts:437-469 | updating the live array for a batch keeps the reverse index exact |
| RecordArrays.NewArrayConsistent | packages/store/addon/-private/system/record-array-manager.ts:262-281 | a new array whose members are indexed keeps the reverse index exact |
| RecordArrays.AppendUnseenHolds | packages/store/addon/-private/system/record-array-manager.ts:185-198 | after the append, the array holds every identifier of the visible list |
| RecordArrays.AppendConsistent | packages/store/addon/-private/system/record-array-manager.ts:185-198 | appending the identifiers the array lacks, and indexing the whole list to it, keeps the reverse index exact |
| RecordArrays.FlushedEntrySplit | packages/store/addon/-private/system/record-array-manager.ts:136-146 | updating the live array's index entries and then clearing the excluded identifiers' entries gives the flushed entry |
| RecordArrays.FlushedContentAvoidsExcluded | packages/store/addon/-private/system/record-array-manager.ts:130-146 | after a flush no array holds an excluded identifier of the batch |
| RecordArrays.FlushedContentSplit | packages/store/addon/-private/system/record-array-manager.ts:136-146 | for one array, the live-array update followed by the removal of the excluded identifiers is the flush |
| RecordArrays.LiveUpdatedIsUpdate | packages/store/addon/-private/system/record-array-manager.ts:136-141 | the live-array step changes the live array of the type alone, or nothing when there is none |
| RecordArrays.FlushedTableSplit | packages/store/addon/-private/system/record-array-manager.ts:136-146 | for the whole table, the live-array update followed by the removal of the excluded identifiers is the flush |
| RecordArrays.FlushedMembers | packages/store/addon/-private/system/record-array-manager.ts:130-146 | as a set, a flushed array holds its members minus the excluded identifiers, plus, for the live array, all included identifiers of the batch |
| RecordArrays.FlushedContentElsewhere | packages/store/addon/-private/system/record-array-manager.ts:143-146 | away from the live array, a flush only removes the excluded identifiers |
| RecordArrays.FlushNeverGrowsOthers | packages/store/addon/-private/system/record-array-manager.ts:143-146 | a flush never adds a member to an array other than the type's live array, nor makes it longer |
| RecordArrays.FlushNeverGrowsQueries | packages/store/addon/-private/system/record-array-manager.ts:143-146 | a flush never adds a member to an adapter-populated array |
| RecordArrays.FlushedLiveMembership | packages/store/addon/-private/system/record-array-manager.ts:437-469 | after a flush the live array holds a batch identifier iff it passes the predicate, and a duplicate-free array stays duplicate-free |
| MergeOverlay.Snapshot | tests/main/tests/unit/model/merge-test.js:53-54 | the adapter is handed every attribute that has a visible value, with that value |
| MergeOverlay.EditWins | tests/main/tests/unit/model/merge-test.js:71-79 | an edit is visible at once, changes no other attribute, and makes the record dirty |
| MergeOverlay.PushUnderneath | tests/main/tests/unit/model/merge-test.js:124-138 | after a push, an attribute with a local or in-flight value keeps it, and any other attribute in the payload shows the pushed value; dirtiness and validity do not change |
| MergeOverlay.SaveKeepsVisible | tests/main/tests/unit/model/merge-test.js:37-39 | starting a save changes no visible value, the local edits become the in-flight attributes, and the record is dirty; a second `save()` while one is in flight is refused (a modelling choice, see Left out) |
| MergeOverlay.LaterEditsStayLocal | tests/main/tests/unit/model/merge-test.js:71-84 | an edit made while a save is in flight does not change what the save commits or gives back, only the local layer |
| MergeOverlay.CommitUnderLocal | tests/main/tests/unit/model/merge-test.js:140-144 | after a successful save, a local edit still wins; any other attribute shows the response's value, else the committed one; the record is clean iff there are no local edits, given that success also makes it valid (a modelling choice, see Left out) |
| MergeOverlay.RejectionKeepsVisible | tests/main/tests/unit/model/merge-test.js:202-211 | a rejected save changes no visible value; an invalid error makes the record invalid and therefore dirty |
| MergeOverlay.SaveThenReject | tests/main/tests/unit/model/merge-test.js:202-210 | a save that is rejected with no further edit gives back the record as it was, except that an invalid error makes it invalid |
| MergeOverlay.SaveThenCommit | tests/main/tests/unit/model/merge-test.js:53-56 | a save that succeeds with an empty response and no further edit changes no visible value and leaves the record clean |
| MergeRecord.Record.Loaded | tests/main/tests/unit/model/merge-test.js:62-70 | a pushed record: its canonical attributes are the payload; it is clean and valid |
| MergeRecord.Record.Created | tests/main/tests/unit/model/merge-test.js:36 | a created record: its attributes are local edits |
| MergeRecord.Record.Get | tests/main/tests/unit/model/merge-test.js:75-83 | a local edit is what `person.name` shows; otherwise an in-flight value shadows the committed one; an attribute has a value iff some layer holds it |
| MergeRecord.Record.Dirty | tests/main/tests/unit/model/merge-test.js:158-160 | local edits make the record dirty, and so do a save in flight and an invalid state; with neither, it is dirty iff it has local edits |
| MergeRecord.Record.Push | tests/main/tests/unit/model/merge-test.js:126-135 | the record becomes the pushed state of the overlay |
| MergeRecord.Record.Set | tests/main/tests/unit/model/merge-test.js:71 | the record becomes the edited state of the overlay |
| MergeRecord.Record.Save | tests/main/tests/unit/model/merge-test.js:73 | refused, with nothing changed, while a save is in flight; otherwise returns the snapshot the adapter sees and puts the local edits in flight |
| MergeRecord.Record.SaveSucceeded | tests/main/tests/unit/model/merge-test.js:140-144 | the record becomes the committed state of the overlay |
| MergeRecord.Record.SaveRejected | tests/main/tests/unit/model/merge-test.js:181-207 | the record becomes the rejected state of the overlay |
| MergeRecord.Record.Reload | tests/main/tests/unit/model/merge-test.js:279 | a reload's response is pushed like any other data |
| MergeTests.ChangesWhileInFlight | tests/main/tests/unit/model/merge-test.js:25-47 | the name reads "Tom Dale" right after `save()`; after the save succeeds the record is dirty and shows the edit "Thomas Dale" |
| MergeTests.SnapshotAtSaveTime | tests/main/tests/unit/model/merge-test.js:49-85 | the adapter sees "Thomas Dale"; the later edit "Tomasz Dale" is visible at once and, after success, still visible and dirty |
| MergeTests.PushWhileInFlight | tests/main/tests/unit/model/merge-test.js:87-145 | after the push the name keeps the local "Tomasz Dale" and the city reads "PDX"; after success the record is dirty, the name is still "Tomasz Dale" and the city is the response's "Portland" |
| MergeTests.PushOntoDirty | tests/main/tests/unit/model/merge-test.js:147-178 | before and after the push the record is dirty and shows "Tomasz Dale"; the city goes from "San Francisco" to "Portland" |
| MergeTests.PushOntoInvalid | tests/main/tests/unit/model/merge-test.js:180-228 | after the rejection the record is invalid and dirty, showing "Brondan McLoughlin" and "Boston"; after the push it is still invalid and dirty, keeps the name and shows "Prague" |
| MergeTests.SaveWithoutChanges | tests/main/tests/unit/model/merge-test.js:230-253 | after saving an unedited record, the name is the response's "Thomas Dale" |
| MergeTests.ReloadDirty | tests/main/tests/unit/model/merge-test.js:255-284 | after reloading a dirty record, it is still dirty, keeps the local "Tomasz Dale" and shows the reloaded city "Portland" |

## Left out

- Run loop: `emberBackburner.schedule` (lines 409 and 422) is not modelled as
  deferred execution. The manager counts requested flushes (`scheduledFlushes`)
  and flags a requested `willDestroy`. `Flush` and `WillDestroy` are then called
  explicitly.
- Legacy-compatibility paths are left out: `getIdentifier`'s unwrapping of
  internal models, `peekIMCache`, `IMDematerializing`, and
  `_pushInternalModels`/`_removeInternalModels`. The flag that removes them is
  taken as set, and identifiers as already stable.
- `RecordArraysCache` is a weak map, and `pendingForIdentifier` is shared by
  every manager of the module. Here both are fields of one manager. Garbage
  collection and sharing between managers are not modelled.
- `recordArraysForIdentifier` creates an empty set on first use. Here a missing
  entry reads as the empty set (`ArraysOf`), and only writes create entries.
- The store's internals (`internalModelFactoryFor`, `peek`,
  `isHiddenFromRecordArrays`, `modelMapFor`) become a `Store` value. It holds a
  hidden flag per cached identifier and an identifier list per model name, and
  is passed to each operation that reads it. `modelMapFor(...).length` is the
  length of that list.
- Record arrays are not modelled beyond their model name, kind, query, content,
  loaded and destroyed flags. Left out are `_pushIdentifiers` (an append),
  `_removeIdentifiers` (a removal of the given identifiers, with `Without`),
  `destroy` (sets the flag), the `store`/`manager` back references, and
  `meta`/`links`.
- RecordArrayManager.Manager.CreateAdapterPopulatedRecordArray: with identifiers
  but no payload, the source throws when it reads `payload!.meta` and
  `payload!.links` (lines 315-316). The model has no payload and accepts that
  call, because meta and links are not modelled.
- `_didUpdateAll` (lines 201-206) only sets the observable `isUpdating` flag,
  and `getRecordArraysForIdentifier` (lines 114-116) is the reverse-index
  lookup `Manager.RecordArraysFor`. Neither carries a contract of its own.
- RecordArrayManager.Manager.Flush: `for ... in` visits the model names in insertion order. The
  model picks them in any order and proves the result for every order. The flush
  of one model name touches only that type's identifiers, whose buckets are
  disjoint, so the membership result (`TableFlushedUpTo`) is the same. The order
  in which a live array receives its members is stated only as a set there.
- The `typeof modelName === 'string'` assertions are left out: the types make
  them hold.
- The overlay rules are the ones the seven tests need, not the record cache's
  implementation, which is not part of this model. Six rules are modelling
  choices that the tests do not force:
  - `save()` moves the local edits into the in-flight layer;
  - a second `save()` while one is in flight is refused (`SaveStarted`);
  - a save in flight and an invalid state each count as dirty
    (`HasDirtyAttributes`), beside local edits;
  - a successful save makes the record valid again (`SaveSucceeded`);
  - a push or an edit equal to the underlying value does not remove the local
    entry;
  - a successful save commits the in-flight attributes and then the response.
- Rollback, deletion, relationships, errors per field and the `id` assignment
  of a create-save are left out: no test in the merge suite asserts them.
- The tests' adapters, serializers, promises and timers are replaced by
  direct calls: `SaveSucceeded(response)`, and `SaveRejected(true)` for an
  `InvalidError`.
