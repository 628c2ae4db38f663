/**
 * The record-array manager: a change scheduler that batches changed identifiers
 * per model name, and the bookkeeping that keeps the live ("all records of a
 * type") arrays and the adapter-populated (query) arrays consistent with the
 * store. The run loop is not modelled: where the source schedules `_flush` or
 * `willDestroy`, the manager counts or flags the request, and `Flush` and
 * `WillDestroy` are called explicitly.
 */
module RecordArrayManager {
  import opened Wrappers
  import opened Seqs
  import opened Records
  import opened RecordArrays

  /** The bucket of a model name in a pending map, empty when there is none. */
  function Bucket(pending: map<ModelName, seq<Identifier>>, m: ModelName): seq<Identifier> {
    if m in pending then pending[m] else []
  }

  /** The identifiers in the buckets of `pending` whose model names are in `names`. */
  ghost function PendingIn(pending: map<ModelName, seq<Identifier>>, names: set<ModelName>): set<Identifier> {
    set m, i | m in names && m in pending && i in pending[m] :: i
  }

  /** The identifiers of those buckets that fail the inclusion predicate. */
  ghost function DroppedIn(store: Store, pending: map<ModelName, seq<Identifier>>, names: set<ModelName>): set<Identifier> {
    set i | i in PendingIn(pending, names) && !ShouldIncludeInRecordArrays(store, i)
  }

  /** Flushing one more bucket adds its identifiers to those already flushed. */
  lemma PendingInStep(store: Store, pending: map<ModelName, seq<Identifier>>, names: set<ModelName>, m: ModelName)
    requires m in pending
    ensures PendingIn(pending, names + {m}) == PendingIn(pending, names) + Members(pending[m])
    ensures DroppedIn(store, pending, names + {m}) == DroppedIn(store, pending, names) + ExcludedSet(store, pending[m])
  {
    assert forall i :: i in pending[m] ==> i in PendingIn(pending, names + {m});
  }

  /** Each bucket holds identifiers of its own type, all of them queued, none twice. */
  ghost predicate PendingOk(pending: map<ModelName, seq<Identifier>>, queued: set<Identifier>) {
    && (forall m, i :: m in pending && i in pending[m] ==> i.modelName == m && i in queued)
    && (forall m :: m in pending ==> NoDup(pending[m]))
  }

  /**
   * Deleting a bucket keeps the pending state well formed, whether or not its
   * identifiers have been let go of.
   */
  lemma BucketDeleted(pending: map<ModelName, seq<Identifier>>, queued: set<Identifier>, m: ModelName, released: set<Identifier>)
    requires PendingOk(pending, queued) && m in pending
    requires forall i :: i in released ==> i.modelName == m
    ensures PendingOk(pending - {m}, queued - released)
  {
  }

  /** The live array registered for a model name, if any. */
  function LiveIn(live: map<ModelName, ArrayRef>, m: ModelName): Option<ArrayRef> {
    if m in live then Some(live[m]) else None
  }

  /** Every identifier in a bucket is of the bucket's model name. */
  ghost predicate BucketsTyped(pending: map<ModelName, seq<Identifier>>) {
    forall m, i :: m in pending && i in pending[m] ==> i.modelName == m
  }

  /** No two model names share a live array. */
  ghost predicate LiveInjective(live: map<ModelName, ArrayRef>) {
    forall m, m' :: m in live && m' in live && m != m' ==> live[m] != live[m']
  }

  /**
   * The table once the buckets of `done` have been flushed, starting from `table0`:
   * other arrays have lost the excluded identifiers of those buckets, and the
   * live array of each flushed type has also gained its bucket's included ones.
   */
  ghost predicate TableFlushedUpTo(store: Store, pending: map<ModelName, seq<Identifier>>, done: set<ModelName>,
                                   live: map<ModelName, ArrayRef>, table0: Table, table: Table)
  {
    && table.Keys == table0.Keys
    && (forall b :: b in table && b !in live.Values ==>
          table[b].content == Without(table0[b].content, DroppedIn(store, pending, done)))
    && (forall m :: m in live && live[m] in table ==>
          Members(table[live[m]].content) ==
            (Members(table0[live[m]].content) - DroppedIn(store, pending, done))
            + (if m in done then IncludedSet(store, Bucket(pending, m)) else {}))
  }

  /** The reverse index once the buckets of `done` have been flushed, starting from `index0`. */
  ghost predicate IndexFlushedUpTo(store: Store, pending: map<ModelName, seq<Identifier>>, done: set<ModelName>,
                                   live: map<ModelName, ArrayRef>, index0: Index, index: Index)
  {
    forall i :: ArraysOf(index, i) ==
      (if i in PendingIn(pending, done)
       then FlushedEntry(store, Bucket(pending, i.modelName), LiveIn(live, i.modelName), i, ArraysOf(index0, i))
       else ArraysOf(index0, i))
  }

  /** Before any bucket is flushed, the table and the reverse index are as they started. */
  lemma FlushedUpToNothing(store: Store, pending: map<ModelName, seq<Identifier>>, live: map<ModelName, ArrayRef>,
                           table: Table, index: Index)
    ensures TableFlushedUpTo(store, pending, {}, live, table, table)
    ensures IndexFlushedUpTo(store, pending, {}, live, index, index)
  {
    assert DroppedIn(store, pending, {}) == {};
    forall b | b in table
      ensures Without(table[b].content, {}) == table[b].content
    {
      WithoutNothing(table[b].content, {});
    }
  }

  /** Flushing one more bucket, for an array that is no type's live array. */
  lemma OtherFlushStep(store: Store, pending: map<ModelName, seq<Identifier>>, done: set<ModelName>,
                       content0: seq<Identifier>, content: seq<Identifier>, m: ModelName)
    requires m in pending
    requires content == Without(content0, DroppedIn(store, pending, done))
    ensures FlushedContent(store, pending[m], content, false) == Without(content0, DroppedIn(store, pending, done + {m}))
  {
    PendingInStep(store, pending, done, m);
    FlushedContentElsewhere(store, pending[m], content);
    WithoutTwice(content0, DroppedIn(store, pending, done), ExcludedSet(store, pending[m]));
  }

  /** Flushing one more bucket, for the live array of the type `k`. */
  lemma LiveFlushStep(store: Store, pending: map<ModelName, seq<Identifier>>, done: set<ModelName>,
                      content0: seq<Identifier>, content: seq<Identifier>, m: ModelName, k: ModelName)
    requires m in pending && m !in done
    requires Members(content) == (Members(content0) - DroppedIn(store, pending, done))
                                 + (if k in done then IncludedSet(store, Bucket(pending, k)) else {})
    ensures Members(FlushedContent(store, pending[m], content, k == m)) ==
      (Members(content0) - DroppedIn(store, pending, done + {m}))
      + (if k in done + {m} then IncludedSet(store, Bucket(pending, k)) else {})
  {
    PendingInStep(store, pending, done, m);
    FlushedMembers(store, pending[m], content, k == m);
  }

  /** Flushing one more bucket carries the table from `done` to `done + {m}`. */
  lemma {:induction false} TableFlushStep(store: Store, pending: map<ModelName, seq<Identifier>>, done: set<ModelName>,
                                          live: map<ModelName, ArrayRef>, table0: Table, table: Table, m: ModelName)
    requires m in pending && m !in done
    requires LiveInjective(live)
    requires TableFlushedUpTo(store, pending, done, live, table0, table)
    ensures TableFlushedUpTo(store, pending, done + {m}, live, table0, FlushedTable(store, pending[m], table, LiveIn(live, m)))
  {
    var table' := FlushedTable(store, pending[m], table, LiveIn(live, m));
    forall b | b in table' && b !in live.Values
      ensures table'[b].content == Without(table0[b].content, DroppedIn(store, pending, done + {m}))
    {
      OtherFlushStep(store, pending, done, table0[b].content, table[b].content, m);
    }
    forall k | k in live && live[k] in table'
      ensures Members(table'[live[k]].content) ==
        (Members(table0[live[k]].content) - DroppedIn(store, pending, done + {m}))
        + (if k in done + {m} then IncludedSet(store, Bucket(pending, k)) else {})
    {
      assert (LiveIn(live, m) == Some(live[k])) == (k == m);
      LiveFlushStep(store, pending, done, table0[live[k]].content, table[live[k]].content, m, k);
    }
  }

  /** Flushing one more bucket carries the reverse index from `done` to `done + {m}`. */
  lemma {:induction false} IndexFlushStep(store: Store, pending: map<ModelName, seq<Identifier>>, done: set<ModelName>,
                                          live: map<ModelName, ArrayRef>, index0: Index, index: Index, index': Index, m: ModelName)
    requires m in pending && m !in done
    requires BucketsTyped(pending)
    requires IndexFlushedUpTo(store, pending, done, live, index0, index)
    requires forall i :: ArraysOf(index', i) == FlushedEntry(store, pending[m], LiveIn(live, m), i, ArraysOf(index, i))
    ensures IndexFlushedUpTo(store, pending, done + {m}, live, index0, index')
  {
    PendingInStep(store, pending, done, m);
    forall i
      ensures ArraysOf(index', i) ==
        (if i in PendingIn(pending, done + {m})
         then FlushedEntry(store, Bucket(pending, i.modelName), LiveIn(live, i.modelName), i, ArraysOf(index0, i))
         else ArraysOf(index0, i))
    {
      assert ArraysOf(index', i) == FlushedEntry(store, pending[m], LiveIn(live, m), i, ArraysOf(index, i));
      if i in PendingIn(pending, done) {
        var m' :| m' in done && m' in pending && i in pending[m'];
        assert i !in pending[m];
      }
    }
  }

  /**
   * `removeFromArray`: takes out the first occurrence of `item`, reporting whether
   * there was one (`indexOf` followed by `splice`).
   */
  method RemoveFromArray(s: seq<ArrayRef>, item: ArrayRef) returns (r: seq<ArrayRef>, removed: bool)
    ensures removed <==> item in s
    ensures !removed ==> r == s
    ensures removed ==> exists k :: 0 <= k < |s| && s[k] == item && item !in s[..k] && r == s[..k] + s[k + 1..]
  {
    var index := 0;
    while index < |s| && s[index] != item
      invariant 0 <= index <= |s|
      invariant item !in s[..index]
    {
      index := index + 1;
    }
    if index < |s| {
      r, removed := s[..index] + s[index + 1..], true;
    } else {
      assert s[..index] == s;
      r, removed := s, false;
    }
  }

  /**
   * The `forEach` of `removeFromAll`: `i` leaves each array of `targets`. Since
   * `targets` is the reverse-index entry of `i`, no other array holds it.
   */
  method RemoveFromEach(table: Table, targets: set<ArrayRef>, i: Identifier) returns (r: Table)
    requires targets <= table.Keys
    requires forall b :: b in table && b !in targets ==> i !in table[b].content
    ensures r == StripAll(table, {i})
  {
    r := table;
    var remaining := targets;
    while remaining != {}
      invariant remaining <= targets
      invariant r.Keys == table.Keys
      invariant forall b :: b in r ==> r[b] == table[b].(content :=
        if b in targets - remaining then Without(table[b].content, {i}) else table[b].content)
      decreases remaining
    {
      var b :| b in remaining;
      r := r[b := r[b].(content := Without(r[b].content, {i}))];  // `_removeIdentifiers`
      remaining := remaining - {b};
    }
    forall b | b in table && b !in targets
      ensures Without(table[b].content, {i}) == table[b].content
    {
      WithoutNothing(table[b].content, {i});
    }
  }

  /** One more identifier of a batch: how the admitted and excluded identifiers grow. */
  lemma BatchPrefixStep(store: Store, ids: seq<Identifier>, j: nat, present: set<Identifier>)
    requires j < |ids|
    ensures Admitted(store, ids[..j + 1], present) ==
      (var earlier := Admitted(store, ids[..j], present);
       if ShouldIncludeInRecordArrays(store, ids[j]) && ids[j] !in present && ids[j] !in earlier then earlier + [ids[j]]
       else earlier)
    ensures ExcludedSet(store, ids[..j + 1]) ==
      ExcludedSet(store, ids[..j]) + (if ShouldIncludeInRecordArrays(store, ids[j]) then {} else {ids[j]})
  {
    assert ids[..j + 1][..j] == ids[..j];
    assert forall y :: y in ids[..j + 1] <==> y in ids[..j] || y == ids[j];
  }

  /** One more identifier of a batch: the reverse index after it. */
  lemma BatchIndexStep(store: Store, a: ArrayRef, done: seq<Identifier>, x: Identifier, index0: Index, index: Index, index': Index)
    requires forall i :: ArraysOf(index, i) == AfterBatchStep(store, a, done, i, ArraysOf(index0, i))
    requires ArraysOf(index', x) == AfterBatchStep(store, a, [x], x, ArraysOf(index, x))
    requires forall i :: i != x ==> ArraysOf(index', i) == ArraysOf(index, i)
    ensures forall i :: ArraysOf(index', i) == AfterBatchStep(store, a, done + [x], i, ArraysOf(index0, i))
  {
    assert forall i :: i in done + [x] <==> i in done || i == x;
  }

  /**
   * The loop of `updateLiveRecordArray`, on the reverse index: associates `a` with
   * the batch's included identifiers, dissociates it from the excluded ones, and
   * collects what to append to and what to remove from `a`, whose members are
   * `present`.
   */
  method AssociateBatch(store: Store, index: Index, present: set<Identifier>, a: ArrayRef, ids: seq<Identifier>)
    returns (index': Index, identifiersToAdd: seq<Identifier>, identifiersToRemove: seq<Identifier>)
    requires forall i :: a in ArraysOf(index, i) <==> i in present
    ensures identifiersToAdd == Admitted(store, ids, present)
    ensures Members(identifiersToRemove) == ExcludedSet(store, ids)
    ensures forall i :: ArraysOf(index', i) == AfterBatchStep(store, a, ids, i, ArraysOf(index, i))
  {
    index', identifiersToAdd, identifiersToRemove := index, [], [];
    var j := 0;
    while j < |ids|
      invariant 0 <= j <= |ids|
      invariant identifiersToAdd == Admitted(store, ids[..j], present)
      invariant Members(identifiersToRemove) == ExcludedSet(store, ids[..j])
      invariant forall i :: ArraysOf(index', i) == AfterBatchStep(store, a, ids[..j], i, ArraysOf(index, i))
    {
      var identifier := ids[j];
      var shouldInclude := ShouldIncludeInRecordArrays(store, identifier);
      var recordArrays := ArraysOf(index', identifier);
      ghost var removedBefore, indexBefore := identifiersToRemove, index';
      BatchPrefixStep(store, ids, j, present);
      assert shouldInclude ==> (a in recordArrays <==> identifier in present || identifier in identifiersToAdd);
      if shouldInclude {
        if a !in recordArrays {
          identifiersToAdd := identifiersToAdd + [identifier];
          index' := index'[identifier := recordArrays + {a}];
        }
      }
      if !shouldInclude {
        identifiersToRemove := identifiersToRemove + [identifier];
        index' := index'[identifier := recordArrays - {a}];
      }
      assert Members(identifiersToRemove) == Members(removedBefore) + (if shouldInclude then {} else {identifier});
      BatchIndexStep(store, a, ids[..j], identifier, index, indexBefore, index');
      assert ids[..j + 1] == ids[..j] + [identifier];
      j := j + 1;
    }
    assert ids[..j] == ids;
  }

  /**
   * What `updateLiveRecordArray` does to the content of the live array: append
   * the admitted identifiers (`_pushIdentifiers`), then take out the excluded
   * ones (`_removeIdentifiers`), each step only when there is something to do.
   */
  method UpdateContent(store: Store, ids: seq<Identifier>, content: seq<Identifier>,
                       identifiersToAdd: seq<Identifier>, identifiersToRemove: seq<Identifier>)
    returns (r: seq<Identifier>)
    requires identifiersToAdd == Admitted(store, ids, Members(content))
    requires Members(identifiersToRemove) == ExcludedSet(store, ids)
    ensures r == FlushedContent(store, ids, content, true)
  {
    r := content;
    if |identifiersToAdd| > 0 {
      r := r + identifiersToAdd;
    }
    if |identifiersToRemove| > 0 {
      r := Without(r, Members(identifiersToRemove));
    }
    WithoutConcat(content, identifiersToAdd, ExcludedSet(store, ids));
    AdmittedAvoidsExcluded(store, ids, Members(content), ids);
    if |identifiersToRemove| == 0 {
      WithoutNothing(content, ExcludedSet(store, ids));
    }
  }

  /** One more identifier associated with `a`: the reverse index after it. */
  lemma AssociateStep(a: ArrayRef, done: seq<Identifier>, x: Identifier, index0: Index, index: Index, index': Index)
    requires forall i :: ArraysOf(index, i) == ArraysOf(index0, i) + (if i in done then {a} else {})
    requires ArraysOf(index', x) == ArraysOf(index, x) + {a}
    requires forall i :: i != x ==> ArraysOf(index', i) == ArraysOf(index, i)
    ensures forall i :: ArraysOf(index', i) == ArraysOf(index0, i) + (if i in done + [x] then {a} else {})
  {
    assert forall i :: i in done + [x] <==> i in done || i == x;
  }

  /**
   * The loop of `_syncLiveRecordArray`, on the reverse index: associates `a`,
   * whose members are `present`, with every identifier of the list and collects
   * those it was not yet associated with.
   */
  method AssociateUnseen(index: Index, present: set<Identifier>, a: ArrayRef, identifiers: seq<Identifier>)
    returns (index': Index, modelsToAdd: seq<Identifier>)
    requires forall i :: a in ArraysOf(index, i) <==> i in present
    ensures modelsToAdd == Unseen(identifiers, present)
    ensures forall i :: ArraysOf(index', i) == ArraysOf(index, i) + (if i in identifiers then {a} else {})
  {
    index', modelsToAdd := index, [];
    var k := 0;
    while k < |identifiers|
      invariant 0 <= k <= |identifiers|
      invariant modelsToAdd == Unseen(identifiers[..k], present)
      invariant forall i :: ArraysOf(index', i) == ArraysOf(index, i) + (if i in identifiers[..k] then {a} else {})
    {
      var identifier := identifiers[k];
      var recordArrays := ArraysOf(index', identifier);
      ghost var indexBefore := index';
      UnseenPrefixStep(identifiers, k, present);
      assert a in recordArrays <==> identifier in present || identifier in modelsToAdd;
      if a !in recordArrays {
        index' := index'[identifier := recordArrays + {a}];
        modelsToAdd := modelsToAdd + [identifier];
        AssociateStep(a, identifiers[..k], identifier, index, indexBefore, index');
      } else {
        assert recordArrays + {a} == recordArrays;
        AssociateStep(a, identifiers[..k], identifier, index, indexBefore, index');
      }
      assert identifiers[..k + 1] == identifiers[..k] + [identifier];
      k := k + 1;
    }
    assert identifiers[..k] == identifiers;
  }

  /**
   * `_visibleIdentifiersByType`: the identifiers of the type's model map that
   * pass the predicate, in map order.
   */
  method VisibleIdentifiersByType(store: Store, modelName: ModelName) returns (visible: seq<Identifier>)
    ensures visible == IncludedOf(store, RecordIdentifiers(store, modelName))
  {
    var all := RecordIdentifiers(store, modelName);
    visible := [];
    var i := 0;
    while i < |all|
      invariant 0 <= i <= |all|
      invariant visible == IncludedOf(store, all[..i])
    {
      var identifier := all[i];
      var shouldInclude := ShouldIncludeInRecordArrays(store, identifier);
      if shouldInclude {
        visible := visible + [identifier];
      }
      assert all[..i + 1][..i] == all[..i];
      i := i + 1;
    }
    assert all[..i] == all;
  }

  /** The first loop of `willDestroy`: destroy the live array of every model name. */
  method DestroyLive(table: Table, live: map<ModelName, ArrayRef>) returns (r: Table)
    requires live.Values <= table.Keys
    ensures r == MarkDestroyed(table, live.Values)
  {
    r := table;
    var modelNames := live.Keys;
    ghost var destroyed: set<ArrayRef> := {};
    while modelNames != {}
      invariant modelNames <= live.Keys
      invariant forall m :: m in live && m !in modelNames ==> live[m] in destroyed
      invariant destroyed <= live.Values
      invariant r == MarkDestroyed(table, destroyed)
      decreases modelNames
    {
      var modelName :| modelName in modelNames;
      var b := live[modelName];
      r := r[b := r[b].(isDestroyed := true)];  // `destroy()`
      destroyed := destroyed + {b};
      modelNames := modelNames - {modelName};
    }
    assert destroyed == live.Values;
  }

  /** The second loop of `willDestroy`: destroy every array of the list. */
  method DestroyEach(table: Table, handles: seq<ArrayRef>) returns (r: Table)
    requires forall k :: 0 <= k < |handles| ==> handles[k] in table
    ensures r == MarkDestroyed(table, Members(handles))
  {
    r := table;
    for k := 0 to |handles|
      invariant r == MarkDestroyed(table, Members(handles[..k]))
    {
      var b := handles[k];
      r := r[b := r[b].(isDestroyed := true)];  // `destroy()`
      assert Members(handles[..k + 1]) == Members(handles[..k]) + {b};
    }
    assert handles[..|handles|] == handles;
  }

  class Manager {
    var isDestroying: bool
    var isDestroyed: bool
    /** One live array per model name. */
    var liveRecordArrays: map<ModelName, ArrayRef>
    /** The changed identifiers not yet flushed, bucketed by model name. */
    var pendingIdentifiers: map<ModelName, seq<Identifier>>
    var adapterPopulatedRecordArrays: seq<ArrayRef>
    /** The reverse index (a WeakMap in the source). */
    var recordArraysCache: Index
    /** The identifiers currently queued (module-global in the source, shared by all managers). */
    var pendingForIdentifier: set<Identifier>
    /** Every record array this manager has created, by handle. */
    var arrays: Table
    var nextRef: ArrayRef
    /** How many times `_flush` has been handed to the run loop. */
    var scheduledFlushes: nat
    /** Whether `willDestroy` has been handed to the run loop. */
    var willDestroyScheduled: bool

    /** `recordArraysForIdentifier`: the arrays an identifier has been put into. */
    function RecordArraysFor(i: Identifier): set<ArrayRef>
      reads this`recordArraysCache
    {
      ArraysOf(recordArraysCache, i)
    }

    /** The pending bucket of a model name, empty when there is none. */
    function PendingFor(m: ModelName): seq<Identifier>
      reads this`pendingIdentifiers
    {
      Bucket(pendingIdentifiers, m)
    }

    /** The live array registered for a model name, if any. */
    function LiveFor(m: ModelName): Option<ArrayRef>
      reads this`liveRecordArrays
    {
      LiveIn(liveRecordArrays, m)
    }

    /** Each bucket holds identifiers of its own type, all queued, none twice. */
    ghost predicate PendingWellFormed()
      reads this`pendingIdentifiers, this`pendingForIdentifier
    {
      PendingOk(pendingIdentifiers, pendingForIdentifier)
    }

    /**
     * Every registered array exists, the live array of a model name is a plain
     * array of that model name, the query list holds adapter-populated arrays, and
     * the reverse index agrees with the array contents.
     */
    ghost predicate ArraysValid()
      reads this`arrays, this`nextRef, this`liveRecordArrays, this`adapterPopulatedRecordArrays, this`recordArraysCache
    {
      && (forall a :: a in arrays ==> a < nextRef)
      && (forall m :: m in liveRecordArrays ==>
            liveRecordArrays[m] in arrays && arrays[liveRecordArrays[m]].modelName == m && arrays[liveRecordArrays[m]].kind == Plain)
      && (forall k :: 0 <= k < |adapterPopulatedRecordArrays| ==>
            adapterPopulatedRecordArrays[k] in arrays && arrays[adapterPopulatedRecordArrays[k]].kind.AdapterPopulated?)
      && Consistent(recordArraysCache, arrays)
    }

    ghost predicate Valid()
      reads this
    {
      ArraysValid() && PendingWellFormed()
    }

    constructor ()
      ensures Valid()
      ensures !isDestroying && !isDestroyed && !willDestroyScheduled
      ensures liveRecordArrays == map[] && pendingIdentifiers == map[] && adapterPopulatedRecordArrays == []
      ensures recordArraysCache == map[] && pendingForIdentifier == {} && arrays == map[]
      ensures scheduledFlushes == 0
    {
      isDestroying, isDestroyed := false, false;
      liveRecordArrays, pendingIdentifiers, adapterPopulatedRecordArrays := map[], map[], [];
      recordArraysCache, pendingForIdentifier := map[], {};
      arrays, nextRef := map[], 0;
      scheduledFlushes, willDestroyScheduled := 0, false;
    }

    /**
     * `recordDidChange`: queue a changed identifier into its type's bucket, at most
     * once until it is flushed, and ask for a flush when the bucket was empty.
     */
    method RecordDidChange(i: Identifier)
      requires Valid()
      modifies this`pendingIdentifiers, this`pendingForIdentifier, this`scheduledFlushes
      ensures Valid()
      ensures old(isDestroying || isDestroyed) || i in old(pendingForIdentifier) ==>
        pendingIdentifiers == old(pendingIdentifiers) && pendingForIdentifier == old(pendingForIdentifier)
        && scheduledFlushes == old(scheduledFlushes)
      ensures !old(isDestroying || isDestroyed) && i !in old(pendingForIdentifier) ==>
        && pendingForIdentifier == old(pendingForIdentifier) + {i}
        && pendingIdentifiers == old(pendingIdentifiers)[i.modelName := old(PendingFor(i.modelName)) + [i]]
        && scheduledFlushes == old(scheduledFlushes) + (if old(PendingFor(i.modelName)) == [] then 1 else 0)
    {
      if isDestroying || isDestroyed {
        return;
      }
      var modelName := i.modelName;
      if i in pendingForIdentifier {
        return;
      }
      pendingForIdentifier := pendingForIdentifier + {i};
      var models := PendingFor(modelName) + [i];
      pendingIdentifiers := pendingIdentifiers[modelName := models];
      if |models| != 1 {
        return;
      }
      scheduledFlushes := scheduledFlushes + 1;
    }

    /**
     * `_associateWithRecordArray`: record `a` in the reverse index of every identifier
     * of `ids`.
     */
    method AssociateWithRecordArray(ids: seq<Identifier>, a: ArrayRef)
      modifies this`recordArraysCache
      ensures forall i :: ArraysOf(recordArraysCache, i) == old(ArraysOf(recordArraysCache, i)) + (if i in ids then {a} else {})
    {
      var k := 0;
      while k < |ids|
        invariant 0 <= k <= |ids|
        invariant forall i :: ArraysOf(recordArraysCache, i) == old(ArraysOf(recordArraysCache, i)) + (if i in ids[..k] then {a} else {})
      {
        var identifier := ids[k];
        recordArraysCache := recordArraysCache[identifier := ArraysOf(recordArraysCache, identifier) + {a}];
        assert ids[..k + 1] == ids[..k] + [identifier];
        k := k + 1;
      }
      assert ids[..k] == ids;
    }

    /**
     * `createRecordArray`: a new plain array of `modelName` holding `ids`, each of
     * them associated with it. The array is not registered as live here.
     */
    method CreateRecordArray(modelName: ModelName, ids: seq<Identifier>) returns (a: ArrayRef)
      requires Valid()
      modifies this`arrays, this`nextRef, this`recordArraysCache
      ensures Valid()
      ensures a !in old(arrays)
      ensures arrays == old(arrays)[a := RecordArray(modelName, Plain, ids, true, false)]
      ensures forall i :: ArraysOf(recordArraysCache, i) == old(ArraysOf(recordArraysCache, i)) + (if i in ids then {a} else {})
    {
      a := nextRef;
      nextRef := nextRef + 1;
      arrays := arrays[a := RecordArray(modelName, Plain, ids, true, false)];
      AssociateWithRecordArray(ids, a);
      NewArrayConsistent(old(recordArraysCache), recordArraysCache, old(arrays), a, arrays[a]);
    }

    /**
     * `createAdapterPopulatedRecordArray`: a new query array, loaded with `ids` and
     * associated with them when the query has answered, empty and not loaded
     * otherwise; it joins the adapter-populated list.
     */
    method CreateAdapterPopulatedRecordArray(modelName: ModelName, query: Option<Query>, ids: Option<seq<Identifier>>)
      returns (a: ArrayRef)
      requires Valid()
      modifies this`arrays, this`nextRef, this`recordArraysCache, this`adapterPopulatedRecordArrays
      ensures Valid()
      ensures a !in old(arrays)
      ensures arrays == old(arrays)[a := RecordArray(modelName, AdapterPopulated(query), ids.GetOr([]), ids.Some?, false)]
      ensures adapterPopulatedRecordArrays == old(adapterPopulatedRecordArrays) + [a]
      ensures forall i :: ArraysOf(recordArraysCache, i) == old(ArraysOf(recordArraysCache, i)) + (if ids.Some? && i in ids.value then {a} else {})
    {
      a := nextRef;
      nextRef := nextRef + 1;
      if ids.Some? {
        arrays := arrays[a := RecordArray(modelName, AdapterPopulated(query), ids.value, true, false)];
        AssociateWithRecordArray(ids.value, a);
      } else {
        arrays := arrays[a := RecordArray(modelName, AdapterPopulated(query), [], false, false)];
      }
      NewArrayConsistent(old(recordArraysCache), recordArraysCache, old(arrays), a, arrays[a]);
      adapterPopulatedRecordArrays := adapterPopulatedRecordArrays + [a];
    }

    /**
     * `unregisterRecordArray`: drop the first occurrence of `a` from the query list;
     * failing that, forget the live entry of its model name if `a` is that entry.
     */
    method UnregisterRecordArray(a: ArrayRef)
      requires Valid() && a in arrays
      modifies this`adapterPopulatedRecordArrays, this`liveRecordArrays
      ensures Valid()
      ensures a in old(adapterPopulatedRecordArrays) ==>
        liveRecordArrays == old(liveRecordArrays)
        && exists k :: 0 <= k < |old(adapterPopulatedRecordArrays)| && old(adapterPopulatedRecordArrays)[k] == a
             && a !in old(adapterPopulatedRecordArrays)[..k]
             && adapterPopulatedRecordArrays == old(adapterPopulatedRecordArrays)[..k] + old(adapterPopulatedRecordArrays)[k + 1..]
      ensures a !in old(adapterPopulatedRecordArrays) ==>
        adapterPopulatedRecordArrays == old(adapterPopulatedRecordArrays)
        && liveRecordArrays ==
             (var m := arrays[a].modelName;
              if m in old(liveRecordArrays) && old(liveRecordArrays)[m] == a then old(liveRecordArrays) - {m}
              else old(liveRecordArrays))
    {
      var modelName := arrays[a].modelName;
      var remaining, removedFromAdapterPopulated := RemoveFromArray(adapterPopulatedRecordArrays, a);
      adapterPopulatedRecordArrays := remaining;
      if !removedFromAdapterPopulated {
        if modelName in liveRecordArrays && liveRecordArrays[modelName] == a {
          liveRecordArrays := liveRecordArrays - {modelName};
        }
      } else {
        forall k | 0 <= k < |adapterPopulatedRecordArrays|
          ensures adapterPopulatedRecordArrays[k] in arrays
        {
          assert adapterPopulatedRecordArrays[k] in old(adapterPopulatedRecordArrays);
        }
      }
    }
    /**
     * `updateLiveRecordArray`: bring the live array `a` up to date for a batch.
     * Identifiers that pass the predicate and are not yet associated with `a` are
     * appended once each, in batch order; those that fail it leave `a`.
     */
    method UpdateLiveRecordArray(store: Store, a: ArrayRef, ids: seq<Identifier>)
      requires ArraysValid() && a in arrays
      modifies this`recordArraysCache, this`arrays
      ensures ArraysValid()
      ensures arrays == old(arrays)[a := old(arrays[a]).(content := FlushedContent(store, ids, old(arrays[a].content), true))]
      ensures forall i :: ArraysOf(recordArraysCache, i) == AfterBatchStep(store, a, ids, i, old(ArraysOf(recordArraysCache, i)))
      ensures forall i :: i in ids ==> (a in ArraysOf(recordArraysCache, i) <==> ShouldIncludeInRecordArrays(store, i))
    {
      var content := arrays[a].content;
      assert forall i :: a in ArraysOf(recordArraysCache, i) <==> i in Members(content);
      var index, identifiersToAdd, identifiersToRemove := AssociateBatch(store, recordArraysCache, Members(content), a, ids);
      content := UpdateContent(store, ids, content, identifiersToAdd, identifiersToRemove);
      BatchConsistent(store, recordArraysCache, index, arrays, a, ids);
      recordArraysCache := index;
      arrays := arrays[a := arrays[a].(content := content)];
    }

    /**
     * `removeFromAll`: take `i` out of every array its reverse-index entry names,
     * then clear that entry.
     */
    method RemoveFromAll(i: Identifier)
      requires ArraysValid()
      modifies this`recordArraysCache, this`arrays
      ensures ArraysValid()
      ensures arrays == StripAll(old(arrays), {i})
      ensures recordArraysCache == old(recordArraysCache)[i := {}]
    {
      var recordArrays := RecordArraysFor(i);
      var table := RemoveFromEach(arrays, recordArrays, i);
      StripOneConsistent(recordArraysCache, arrays, i);
      arrays := table;
      recordArraysCache := recordArraysCache[i := {}];  // `recordArrays.clear()`
    }

    /**
     * `removeFromAdapterPopulatedRecordArrays`: `removeFromAll` for each identifier of
     * the batch.
     */
    method RemoveFromAdapterPopulatedRecordArrays(ids: seq<Identifier>)
      requires ArraysValid()
      modifies this`recordArraysCache, this`arrays
      ensures ArraysValid()
      ensures arrays == StripAll(old(arrays), Members(ids))
      ensures forall j :: ArraysOf(recordArraysCache, j) == if j in ids then {} else old(ArraysOf(recordArraysCache, j))
    {
      var k := 0;
      assert Members(ids[..k]) == {};
      StripAllNothing(arrays, {});
      while k < |ids|
        invariant 0 <= k <= |ids|
        invariant ArraysValid()
        invariant arrays == StripAll(old(arrays), Members(ids[..k]))
        invariant forall j :: ArraysOf(recordArraysCache, j) == if j in ids[..k] then {} else old(ArraysOf(recordArraysCache, j))
      {
        RemoveFromAll(ids[k]);
        assert forall j :: j in ids[..k + 1] <==> j in ids[..k] || j == ids[k];
        assert Members(ids[..k + 1]) == Members(ids[..k]) + {ids[k]};
        StripAllTwice(old(arrays), Members(ids[..k]), {ids[k]});
        k := k + 1;
      }
      assert ids[..k] == ids;
    }

    /**
     * `_flushPendingIdentifiersForModelName`: nothing once the manager is being
     * destroyed; otherwise each identifier of the batch may be queued again, the
     * live array of `modelName` (if any) is updated, and the excluded identifiers
     * are removed from every array that holds them.
     */
    method FlushPendingIdentifiersForModelName(store: Store, modelName: ModelName, ids: seq<Identifier>)
      requires ArraysValid()
      modifies this`pendingForIdentifier, this`recordArraysCache, this`arrays
      ensures ArraysValid()
      ensures old(isDestroying || isDestroyed) ==>
        pendingForIdentifier == old(pendingForIdentifier) && recordArraysCache == old(recordArraysCache) && arrays == old(arrays)
      ensures !old(isDestroying || isDestroyed) ==>
        && pendingForIdentifier == old(pendingForIdentifier) - Members(ids)
        && arrays == FlushedTable(store, ids, old(arrays), LiveIn(liveRecordArrays, modelName))
        && forall i :: ArraysOf(recordArraysCache, i) == FlushedEntry(store, ids, LiveIn(liveRecordArrays, modelName), i, old(ArraysOf(recordArraysCache, i)))
    {
      if isDestroying || isDestroyed {
        return;
      }
      var identifiersToRemove := DequeueBatch(store, ids);
      var liveArray := LiveFor(modelName);
      LiveUpdatedIsUpdate(store, ids, arrays, liveArray);
      if liveArray.Some? {
        UpdateLiveRecordArray(store, liveArray.value, ids);
      }
      ghost var index := recordArraysCache;
      assert arrays == LiveUpdated(store, ids, old(arrays), liveArray);
      ghost var updated := arrays;
      if |identifiersToRemove| > 0 {
        RemoveFromAdapterPopulatedRecordArrays(identifiersToRemove);
      } else {
        assert ExcludedSet(store, ids) == {};
        StripAllNothing(arrays, {});
      }
      assert arrays == StripAll(updated, ExcludedSet(store, ids));
      assert forall j :: ArraysOf(recordArraysCache, j) == if j in ExcludedSet(store, ids) then {} else ArraysOf(index, j);
      FlushedTableSplit(store, ids, old(arrays), liveArray);
      forall i
        ensures ArraysOf(recordArraysCache, i) == FlushedEntry(store, ids, liveArray, i, old(ArraysOf(recordArraysCache, i)))
      {
        FlushedEntrySplit(store, ids, liveArray, i, old(ArraysOf(recordArraysCache, i)), ArraysOf(index, i), ArraysOf(recordArraysCache, i));
      }
    }

    /**
     * The loop of `_flushPendingIdentifiersForModelName`: lets every identifier of
     * the batch be queued again and collects those that fail the predicate.
     */
    method DequeueBatch(store: Store, ids: seq<Identifier>) returns (identifiersToRemove: seq<Identifier>)
      modifies this`pendingForIdentifier
      ensures pendingForIdentifier == old(pendingForIdentifier) - Members(ids)
      ensures Members(identifiersToRemove) == ExcludedSet(store, ids)
    {
      identifiersToRemove := [];
      var j := 0;
      while j < |ids|
        invariant 0 <= j <= |ids|
        invariant pendingForIdentifier == old(pendingForIdentifier) - Members(ids[..j])
        invariant Members(identifiersToRemove) == ExcludedSet(store, ids[..j])
      {
        var identifier := ids[j];
        pendingForIdentifier := pendingForIdentifier - {identifier};
        var isIncluded := ShouldIncludeInRecordArrays(store, identifier);
        ghost var removedBefore := identifiersToRemove;
        if !isIncluded {
          identifiersToRemove := identifiersToRemove + [identifier];
        }
        assert forall y :: y in ids[..j + 1] <==> y in ids[..j] || y == identifier;
        assert Members(ids[..j + 1]) == Members(ids[..j]) + {identifier};
        assert Members(identifiersToRemove) == Members(removedBefore) + (if isIncluded then {} else {identifier});
        assert ExcludedSet(store, ids[..j + 1]) == ExcludedSet(store, ids[..j]) + (if isIncluded then {} else {identifier});
        j := j + 1;
      }
      assert ids[..j] == ids;
    }

    /**
     * `_flush`: take the whole pending map, leave an empty one, and flush each of
     * its buckets once (in some order of model names).
     */
    method Flush(store: Store)
      requires Valid()
      modifies this`pendingIdentifiers, this`pendingForIdentifier, this`recordArraysCache, this`arrays
      ensures Valid()
      ensures pendingIdentifiers == map[]
      ensures old(isDestroying || isDestroyed) ==>
        pendingForIdentifier == old(pendingForIdentifier) && recordArraysCache == old(recordArraysCache) && arrays == old(arrays)
      ensures !old(isDestroying || isDestroyed) ==>
        && pendingForIdentifier == old(pendingForIdentifier) - PendingIn(old(pendingIdentifiers), old(pendingIdentifiers).Keys)
        && TableFlushedUpTo(store, old(pendingIdentifiers), old(pendingIdentifiers).Keys, liveRecordArrays, old(arrays), arrays)
        && IndexFlushedUpTo(store, old(pendingIdentifiers), old(pendingIdentifiers).Keys, liveRecordArrays, old(recordArraysCache), recordArraysCache)
    {
      var pending := pendingIdentifiers;
      pendingIdentifiers := map[];
      ghost var destroying := isDestroying || isDestroyed;
      var modelNames := pending.Keys;
      ghost var done: set<ModelName> := {};
      ghost var live := liveRecordArrays;
      assert BucketsTyped(pending);
      assert LiveInjective(live);
      FlushedUpToNothing(store, pending, live, arrays, recordArraysCache);
      while modelNames != {}
        invariant modelNames + done == pending.Keys && modelNames !! done
        invariant ArraysValid()
        invariant pendingIdentifiers == map[] && liveRecordArrays == live
        invariant destroying ==>
          pendingForIdentifier == old(pendingForIdentifier) && recordArraysCache == old(recordArraysCache) && arrays == old(arrays)
        invariant !destroying ==> pendingForIdentifier == old(pendingForIdentifier) - PendingIn(pending, done)
        invariant !destroying ==> TableFlushedUpTo(store, pending, done, live, old(arrays), arrays)
        invariant !destroying ==> IndexFlushedUpTo(store, pending, done, live, old(recordArraysCache), recordArraysCache)
        decreases modelNames
      {
        var modelName :| modelName in modelNames;
        ghost var table, index := arrays, recordArraysCache;
        FlushPendingIdentifiersForModelName(store, modelName, pending[modelName]);
        if !destroying {
          assert arrays == FlushedTable(store, pending[modelName], table, LiveIn(live, modelName));
          PendingInStep(store, pending, done, modelName);
          TableFlushStep(store, pending, done, live, old(arrays), table, modelName);
          assert TableFlushedUpTo(store, pending, done + {modelName}, live, old(arrays), arrays);
          IndexFlushStep(store, pending, done, live, old(recordArraysCache), index, recordArraysCache, modelName);
        }
        modelNames := modelNames - {modelName};
        done := done + {modelName};
      }
    }

    /**
     * `_syncLiveRecordArray`: nothing when the type has no pending bucket, or when
     * the bucket is empty and the model map is as long as the array. Otherwise the
     * bucket is flushed and deleted, and every visible identifier the array does
     * not hold yet is appended to it.
     */
    method SyncLiveRecordArray(store: Store, a: ArrayRef, modelName: ModelName)
      requires Valid() && a in arrays
      modifies this`pendingIdentifiers, this`pendingForIdentifier, this`recordArraysCache, this`arrays
      ensures Valid()
      ensures old(modelName !in pendingIdentifiers
                  || (pendingIdentifiers[modelName] == [] && |RecordIdentifiers(store, modelName)| == |arrays[a].content|)) ==>
        && pendingIdentifiers == old(pendingIdentifiers) && pendingForIdentifier == old(pendingForIdentifier)
        && recordArraysCache == old(recordArraysCache) && arrays == old(arrays)
      ensures old(modelName in pendingIdentifiers
                  && (pendingIdentifiers[modelName] != [] || |RecordIdentifiers(store, modelName)| != |arrays[a].content|)) ==>
        && pendingIdentifiers == old(pendingIdentifiers) - {modelName}
        && pendingForIdentifier == old(pendingForIdentifier) - (if old(isDestroying || isDestroyed) then {} else Members(old(PendingFor(modelName))))
        && arrays == AppendUnseen(if old(isDestroying || isDestroyed) then old(arrays)
                                  else FlushedTable(store, old(PendingFor(modelName)), old(arrays), LiveFor(modelName)),
                                  a, IncludedOf(store, RecordIdentifiers(store, modelName)))
        && forall i :: i in RecordIdentifiers(store, modelName) && ShouldIncludeInRecordArrays(store, i) ==>
             i in arrays[a].content && a in ArraysOf(recordArraysCache, i)
    {
      if modelName !in pendingIdentifiers {
        return;
      }
      var pending := pendingIdentifiers[modelName];
      var hasNoPotentialDeletions := |pending| == 0;
      var hasNoInsertionsOrRemovals := |RecordIdentifiers(store, modelName)| == |arrays[a].content|;
      if hasNoPotentialDeletions && hasNoInsertionsOrRemovals {
        return;
      }
      FlushAndDeleteBucket(store, modelName);
      AppendVisible(store, a, modelName);
    }

    /**
     * The first half of `_syncLiveRecordArray`: flush the type's pending bucket,
     * then delete it.
     */
    method FlushAndDeleteBucket(store: Store, modelName: ModelName)
      requires Valid() && modelName in pendingIdentifiers
      modifies this`pendingIdentifiers, this`pendingForIdentifier, this`recordArraysCache, this`arrays
      ensures Valid()
      ensures pendingIdentifiers == old(pendingIdentifiers) - {modelName}
      ensures pendingForIdentifier == old(pendingForIdentifier) - (if isDestroying || isDestroyed then {} else Members(old(pendingIdentifiers[modelName])))
      ensures arrays == if isDestroying || isDestroyed then old(arrays) else FlushedTable(store, old(pendingIdentifiers[modelName]), old(arrays), LiveFor(modelName))
    {
      var pending := pendingIdentifiers[modelName];
      assert forall i :: i in pending ==> i.modelName == modelName;
      FlushPendingIdentifiersForModelName(store, modelName, pending);
      ghost var released := if isDestroying || isDestroyed then {} else Members(pending);
      assert pendingForIdentifier == old(pendingForIdentifier) - released;
      BucketDeleted(pendingIdentifiers, old(pendingForIdentifier), modelName, released);
      pendingIdentifiers := pendingIdentifiers - {modelName};
    }

    /**
     * The second half of `_syncLiveRecordArray`: every visible identifier of the
     * type that the array is not associated with yet is associated with it and
     * appended to it, once, in map order.
     */
    method AppendVisible(store: Store, a: ArrayRef, modelName: ModelName)
      requires ArraysValid() && a in arrays
      modifies this`recordArraysCache, this`arrays
      ensures ArraysValid()
      ensures arrays == AppendUnseen(old(arrays), a, IncludedOf(store, RecordIdentifiers(store, modelName)))
      ensures forall i ::
        ArraysOf(recordArraysCache, i) ==
          old(ArraysOf(recordArraysCache, i)) + (if i in RecordIdentifiers(store, modelName) && ShouldIncludeInRecordArrays(store, i) then {a} else {})
      ensures forall i :: i in RecordIdentifiers(store, modelName) && ShouldIncludeInRecordArrays(store, i) ==>
        i in arrays[a].content && a in ArraysOf(recordArraysCache, i)
    {
      var identifiers := VisibleIdentifiersByType(store, modelName);
      assert forall i :: a in ArraysOf(recordArraysCache, i) <==> i in Members(arrays[a].content);
      var index, modelsToAdd := AssociateUnseen(recordArraysCache, Members(arrays[a].content), a, identifiers);
      AppendConsistent(recordArraysCache, index, arrays, a, identifiers);
      AppendUnseenHolds(arrays, a, identifiers);
      recordArraysCache := index;
      if |modelsToAdd| > 0 {
        arrays := arrays[a := arrays[a].(content := arrays[a].content + modelsToAdd)];  // `_pushIdentifiers`
      } else {
        assert arrays[a].content + modelsToAdd == arrays[a].content;
      }
    }

    /**
     * `liveRecordArrayFor`: the registered live array of the type, synchronised;
     * when there is none, a new plain array of the visible identifiers, registered
     * as the type's live array.
     */
    method LiveRecordArrayFor(store: Store, modelName: ModelName) returns (a: ArrayRef)
      requires Valid()
      modifies this`pendingIdentifiers, this`pendingForIdentifier, this`recordArraysCache, this`arrays
      modifies this`nextRef, this`liveRecordArrays
      ensures Valid()
      ensures liveRecordArrays == old(liveRecordArrays)[modelName := a]
      ensures a in arrays && arrays[a].modelName == modelName
      ensures modelName in old(liveRecordArrays) ==> a == old(liveRecordArrays[modelName])
      ensures modelName !in old(liveRecordArrays) ==>
        && a !in old(arrays)
        && arrays == old(arrays)[a := RecordArray(modelName, Plain, IncludedOf(store, RecordIdentifiers(store, modelName)), true, false)]
        && pendingIdentifiers == old(pendingIdentifiers) && pendingForIdentifier == old(pendingForIdentifier)
        && forall i :: ArraysOf(recordArraysCache, i) ==
             old(ArraysOf(recordArraysCache, i)) + (if i in RecordIdentifiers(store, modelName) && ShouldIncludeInRecordArrays(store, i) then {a} else {})
      ensures modelName in old(liveRecordArrays) && old(modelName !in pendingIdentifiers
                  || (pendingIdentifiers[modelName] == [] && |RecordIdentifiers(store, modelName)| == |arrays[liveRecordArrays[modelName]].content|)) ==>
        && pendingIdentifiers == old(pendingIdentifiers) && pendingForIdentifier == old(pendingForIdentifier)
        && recordArraysCache == old(recordArraysCache) && arrays == old(arrays)
      ensures modelName in old(liveRecordArrays) && old(modelName in pendingIdentifiers
                  && (pendingIdentifiers[modelName] != [] || |RecordIdentifiers(store, modelName)| != |arrays[liveRecordArrays[modelName]].content|)) ==>
        && pendingIdentifiers == old(pendingIdentifiers) - {modelName}
        && pendingForIdentifier == old(pendingForIdentifier) - (if old(isDestroying || isDestroyed) then {} else Members(old(PendingFor(modelName))))
        && arrays == AppendUnseen(if old(isDestroying || isDestroyed) then old(arrays)
                                  else FlushedTable(store, old(PendingFor(modelName)), old(arrays), Some(a)),
                                  a, IncludedOf(store, RecordIdentifiers(store, modelName)))
        && forall i :: i in RecordIdentifiers(store, modelName) && ShouldIncludeInRecordArrays(store, i) ==>
             i in arrays[a].content && a in ArraysOf(recordArraysCache, i)
    {
      if modelName in liveRecordArrays {
        a := liveRecordArrays[modelName];
        SyncLiveRecordArray(store, a, modelName);
      } else {
        var identifiers := VisibleIdentifiersByType(store, modelName);
        a := CreateRecordArray(modelName, identifiers);
        liveRecordArrays := liveRecordArrays[modelName := a];
      }
    }

    /** `destroy`: stop queueing and ask the run loop for `willDestroy`. */
    method Destroy()
      modifies this`isDestroying, this`willDestroyScheduled
      ensures isDestroying && willDestroyScheduled
    {
      isDestroying := true;
      willDestroyScheduled := true;
    }

    /** `willDestroy`: destroy every registered array, then the manager. */
    method WillDestroy()
      requires Valid()
      modifies this`arrays, this`isDestroyed
      ensures Valid()
      ensures isDestroyed
      ensures arrays == MarkDestroyed(old(arrays), liveRecordArrays.Values + Members(adapterPopulatedRecordArrays))
    {
      var table := DestroyLive(arrays, liveRecordArrays);
      table := DestroyEach(table, adapterPopulatedRecordArrays);
      MarkDestroyedTwice(arrays, liveRecordArrays.Values, Members(adapterPopulatedRecordArrays));
      MarkDestroyedConsistent(recordArraysCache, arrays, liveRecordArrays.Values + Members(adapterPopulatedRecordArrays));
      arrays := table;
      isDestroyed := true;
    }
  }
}
