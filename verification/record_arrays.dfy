/**
 * Record arrays as values: the table of arrays a manager owns, the reverse index
 * from identifiers to arrays, and what one flushed batch does to both.
 *
 * Record arrays are objects in the source; here each is named by a handle
 * (`ArrayRef`) into a table, so that `===` on arrays is `==` on handles and the
 * reverse index maps identifiers to sets of handles.
 */
module RecordArrays {
  import opened Wrappers
  import opened Seqs
  import opened Records

  type ArrayRef = nat
  type Query = map<string, string>

  /** A plain record array (`createRecordArray`) or an adapter-populated one. */
  datatype ArrayKind = Plain | AdapterPopulated(query: Option<Query>)

  /** The state of one record array that the manager reads and changes. */
  datatype RecordArray = RecordArray(
    modelName: ModelName,
    kind: ArrayKind,
    content: seq<Identifier>,
    isLoaded: bool,
    isDestroyed: bool)

  /** The reverse index (`RecordArraysCache`). */
  type Index = map<Identifier, set<ArrayRef>>

  /** Every record array, by handle. */
  type Table = map<ArrayRef, RecordArray>

  /** `recordArraysForIdentifier`: an identifier without an entry belongs to no array. */
  function ArraysOf(index: Index, i: Identifier): set<ArrayRef> {
    if i in index then index[i] else {}
  }

  /** The reverse index names exactly the arrays whose content holds the identifier. */
  ghost predicate Consistent(index: Index, table: Table) {
    forall i: Identifier, a: ArrayRef :: a in ArraysOf(index, i) <==> a in table && i in table[a].content
  }

  /** The reverse-index entry of `i` once the live array `a` has been updated for `ids`. */
  function AfterBatchStep(store: Store, a: ArrayRef, ids: seq<Identifier>, i: Identifier, before: set<ArrayRef>): set<ArrayRef> {
    if i !in ids then before
    else if ShouldIncludeInRecordArrays(store, i) then before + {a}
    else before - {a}
  }

  /**
   * The content an array has once a batch has been flushed: the excluded
   * identifiers of the batch are gone, and only the live array of the batch's
   * model name gains the included identifiers it did not hold yet.
   */
  ghost function FlushedContent(store: Store, ids: seq<Identifier>, content: seq<Identifier>, isLive: bool): seq<Identifier> {
    Without(content, ExcludedSet(store, ids)) + (if isLive then Admitted(store, ids, Members(content)) else [])
  }

  /** Every array of the table with the identifiers of `drop` taken out. */
  ghost function StripAll(table: Table, drop: set<Identifier>): (r: Table)
    ensures r.Keys == table.Keys
  {
    map b | b in table :: table[b].(content := Without(table[b].content, drop))
  }

  /** The whole table once a batch has been flushed, `live` being the live array of its model name. */
  ghost function FlushedTable(store: Store, ids: seq<Identifier>, table: Table, live: Option<ArrayRef>): (r: Table)
    ensures r.Keys == table.Keys
  {
    map b | b in table :: table[b].(content := FlushedContent(store, ids, table[b].content, live == Some(b)))
  }

  /** The reverse-index entry of `i` once a batch has been flushed. */
  function FlushedEntry(store: Store, ids: seq<Identifier>, live: Option<ArrayRef>, i: Identifier, before: set<ArrayRef>): set<ArrayRef> {
    if i !in ids then before
    else if !ShouldIncludeInRecordArrays(store, i) then {}
    else if live.Some? then before + {live.value}
    else before
  }

  /** The table once every identifier of `ids` that `a` does not hold yet has been appended to it. */
  ghost function AppendUnseen(table: Table, a: ArrayRef, ids: seq<Identifier>): (r: Table)
    requires a in table
    ensures r.Keys == table.Keys
  {
    table[a := table[a].(content := table[a].content + Unseen(ids, Members(table[a].content)))]
  }

  /** The table with the arrays of `targets` destroyed; no content changes. */
  ghost function MarkDestroyed(table: Table, targets: set<ArrayRef>): (r: Table)
    ensures r.Keys == table.Keys
  {
    map b | b in table :: if b in targets then table[b].(isDestroyed := true) else table[b]
  }

  lemma MarkDestroyedTwice(table: Table, first: set<ArrayRef>, second: set<ArrayRef>)
    ensures MarkDestroyed(MarkDestroyed(table, first), second) == MarkDestroyed(table, first + second)
  {
  }

  /** Destroying arrays leaves the reverse index exact, since no content changes. */
  lemma MarkDestroyedConsistent(index: Index, table: Table, targets: set<ArrayRef>)
    requires Consistent(index, table)
    ensures Consistent(index, MarkDestroyed(table, targets))
  {
    var table' := MarkDestroyed(table, targets);
    assert forall b :: b in table' ==> table'[b].content == table[b].content;
  }

  lemma StripAllNothing(table: Table, drop: set<Identifier>)
    requires forall b, x :: b in table && x in table[b].content ==> x !in drop
    ensures StripAll(table, drop) == table
  {
    forall b | b in table
      ensures Without(table[b].content, drop) == table[b].content
    {
      WithoutNothing(table[b].content, drop);
    }
  }

  lemma StripAllTwice(table: Table, first: set<Identifier>, second: set<Identifier>)
    ensures StripAll(StripAll(table, first), second) == StripAll(table, first + second)
  {
    forall b | b in table
      ensures Without(Without(table[b].content, first), second) == Without(table[b].content, first + second)
    {
      WithoutTwice(table[b].content, first, second);
    }
  }

  /** `removeFromAll` keeps the reverse index exact: the identifier is gone from every array and from the index. */
  lemma {:induction false} StripOneConsistent(index: Index, table: Table, i: Identifier)
    requires Consistent(index, table)
    ensures Consistent(index[i := {}], StripAll(table, {i}))
  {
    var index' := index[i := {}];
    var table' := StripAll(table, {i});
    forall j: Identifier, a: ArrayRef
      ensures a in ArraysOf(index', j) <==> a in table' && j in table'[a].content
    {
      assert ArraysOf(index', j) == if j == i then {} else ArraysOf(index, j);
      if a in table {
        assert table'[a].content == Without(table[a].content, {i});
      }
    }
  }

  /** `updateLiveRecordArray` keeps the reverse index exact. */
  lemma {:induction false} BatchConsistent(store: Store, index: Index, index': Index, table: Table, a: ArrayRef, ids: seq<Identifier>)
    requires Consistent(index, table) && a in table
    requires forall i :: ArraysOf(index', i) == AfterBatchStep(store, a, ids, i, ArraysOf(index, i))
    ensures Consistent(index', table[a := table[a].(content := FlushedContent(store, ids, table[a].content, true))])
  {
    var c := table[a].content;
    var table' := table[a := table[a].(content := FlushedContent(store, ids, c, true))];
    forall i: Identifier, b: ArrayRef
      ensures b in ArraysOf(index', i) <==> b in table' && i in table'[b].content
    {
      assert ArraysOf(index', i) == AfterBatchStep(store, a, ids, i, ArraysOf(index, i));
      if b == a {
        assert i in FlushedContent(store, ids, c, true) <==>
          (i in c && i !in ExcludedSet(store, ids)) || i in Admitted(store, ids, Members(c));
        if i in ids && ShouldIncludeInRecordArrays(store, i) {
          assert i !in ExcludedSet(store, ids);
        }
      }
    }
  }

  /** A new array, with its members indexed, keeps the reverse index exact. */
  lemma NewArrayConsistent(index: Index, index': Index, table: Table, a: ArrayRef, r: RecordArray)
    requires Consistent(index, table) && a !in table
    requires forall i :: ArraysOf(index', i) == ArraysOf(index, i) + (if i in r.content then {a} else {})
    ensures Consistent(index', table[a := r])
  {
    forall i: Identifier, b: ArrayRef
      ensures b in ArraysOf(index', i) <==> b in table[a := r] && i in table[a := r][b].content
    {
      assert ArraysOf(index', i) == ArraysOf(index, i) + (if i in r.content then {a} else {});
    }
  }

  /** After appending the unseen identifiers of `ids`, the array holds every one of them. */
  lemma AppendUnseenHolds(table: Table, a: ArrayRef, ids: seq<Identifier>)
    requires a in table
    ensures forall i :: i in ids ==> i in AppendUnseen(table, a, ids)[a].content
  {
    var c := table[a].content;
    forall i | i in ids
      ensures i in c + Unseen(ids, Members(c))
    {
      if i !in c {
        assert i in Unseen(ids, Members(c));
      }
    }
  }

  /**
   * The reverse-index entry of `i` after updating the live array and then
   * clearing the excluded identifiers is the flushed entry.
   */
  lemma FlushedEntrySplit(store: Store, ids: seq<Identifier>, live: Option<ArrayRef>, i: Identifier,
                          before: set<ArrayRef>, updated: set<ArrayRef>, after: set<ArrayRef>)
    requires updated == if live.Some? then AfterBatchStep(store, live.value, ids, i, before) else before
    requires after == if i in ExcludedSet(store, ids) then {} else updated
    ensures after == FlushedEntry(store, ids, live, i, before)
  {
  }

  /** Appending the identifiers an array lacks, and indexing them, keeps the reverse index exact. */
  lemma {:induction false} AppendConsistent(index: Index, index': Index, table: Table, a: ArrayRef, ids: seq<Identifier>)
    requires Consistent(index, table) && a in table
    requires forall i :: ArraysOf(index', i) == ArraysOf(index, i) + (if i in ids then {a} else {})
    ensures Consistent(index', AppendUnseen(table, a, ids))
  {
    var c := table[a].content;
    var table' := AppendUnseen(table, a, ids);
    forall i: Identifier, b: ArrayRef
      ensures b in ArraysOf(index', i) <==> b in table' && i in table'[b].content
    {
      assert ArraysOf(index', i) == ArraysOf(index, i) + (if i in ids then {a} else {});
      if b == a {
        assert i in table'[a].content <==> i in c || i in Unseen(ids, Members(c));
      }
    }
  }

  /** After a flush no array holds an identifier of the batch that fails the predicate. */
  lemma FlushedContentAvoidsExcluded(store: Store, ids: seq<Identifier>, content: seq<Identifier>, isLive: bool)
    ensures Without(FlushedContent(store, ids, content, isLive), ExcludedSet(store, ids)) == FlushedContent(store, ids, content, isLive)
  {
    WithoutNothing(FlushedContent(store, ids, content, isLive), ExcludedSet(store, ids));
  }

  /** One array of `FlushedTableSplit`. */
  lemma FlushedContentSplit(store: Store, ids: seq<Identifier>, content: seq<Identifier>, isLive: bool)
    ensures Without(if isLive then FlushedContent(store, ids, content, true) else content, ExcludedSet(store, ids))
            == FlushedContent(store, ids, content, isLive)
  {
    if isLive {
      FlushedContentAvoidsExcluded(store, ids, content, true);
    } else {
      FlushedContentElsewhere(store, ids, content);
    }
  }

  /** The table once only the live array `live` (if any) has been updated for a batch. */
  ghost function LiveUpdated(store: Store, ids: seq<Identifier>, table: Table, live: Option<ArrayRef>): (r: Table)
    ensures r.Keys == table.Keys
  {
    map b | b in table :: table[b].(content := if live == Some(b) then FlushedContent(store, ids, table[b].content, true) else table[b].content)
  }

  /** `LiveUpdated` is the update of the one live array, or nothing when there is none. */
  lemma LiveUpdatedIsUpdate(store: Store, ids: seq<Identifier>, table: Table, live: Option<ArrayRef>)
    requires live.Some? ==> live.value in table
    ensures LiveUpdated(store, ids, table, live) ==
      if live.Some? then table[live.value := table[live.value].(content := FlushedContent(store, ids, table[live.value].content, true))]
      else table
  {
  }

  /**
   * `_flushPendingIdentifiersForModelName` in two steps: updating the live array,
   * then stripping the excluded identifiers from every array, is one flush.
   */
  lemma FlushedTableSplit(store: Store, ids: seq<Identifier>, table: Table, live: Option<ArrayRef>)
    ensures StripAll(LiveUpdated(store, ids, table, live), ExcludedSet(store, ids)) == FlushedTable(store, ids, table, live)
  {
    var updated := LiveUpdated(store, ids, table, live);
    var stripped := StripAll(updated, ExcludedSet(store, ids));
    var flushed := FlushedTable(store, ids, table, live);
    forall b | b in table
      ensures stripped[b] == flushed[b]
    {
      FlushedContentSplit(store, ids, table[b].content, live == Some(b));
    }
  }

  /**
   * As sets, a flush takes the excluded identifiers of the batch out of an array
   * and puts all the included ones into the live array.
   */
  lemma FlushedMembers(store: Store, ids: seq<Identifier>, content: seq<Identifier>, isLive: bool)
    ensures Members(FlushedContent(store, ids, content, isLive)) ==
      (Members(content) - ExcludedSet(store, ids)) + (if isLive then IncludedSet(store, ids) else {})
  {
  }

  /** Away from the live array a flush only takes identifiers out. */
  lemma FlushedContentElsewhere(store: Store, ids: seq<Identifier>, content: seq<Identifier>)
    ensures FlushedContent(store, ids, content, false) == Without(content, ExcludedSet(store, ids))
  {
    assert Without(content, ExcludedSet(store, ids)) + [] == Without(content, ExcludedSet(store, ids));
  }

  /** A flush never adds anything to an array other than the live one of its model name. */
  lemma FlushNeverGrowsOthers(store: Store, ids: seq<Identifier>, table: Table, live: Option<ArrayRef>, b: ArrayRef)
    requires b in table && live != Some(b)
    ensures Members(FlushedTable(store, ids, table, live)[b].content) <= Members(table[b].content)
    ensures |FlushedTable(store, ids, table, live)[b].content| <= |table[b].content|
  {
    assert FlushedTable(store, ids, table, live)[b].content == Without(table[b].content, ExcludedSet(store, ids)) + [];
  }

  /** In particular a flush never adds anything to an adapter-populated array. */
  lemma FlushNeverGrowsQueries(store: Store, ids: seq<Identifier>, table: Table, live: Option<ArrayRef>, b: ArrayRef)
    requires b in table && table[b].kind.AdapterPopulated?
    requires live.Some? ==> live.value in table && table[live.value].kind == Plain
    ensures Members(FlushedTable(store, ids, table, live)[b].content) <= Members(table[b].content)
  {
    FlushNeverGrowsOthers(store, ids, table, live, b);
  }

  /**
   * A flushed live array holds each identifier of the batch iff it passes the
   * predicate, and gains no identifier twice.
   */
  lemma FlushedLiveMembership(store: Store, ids: seq<Identifier>, content: seq<Identifier>, i: Identifier)
    requires i in ids
    ensures i in FlushedContent(store, ids, content, true) <==> ShouldIncludeInRecordArrays(store, i)
    ensures NoDup(content) ==> NoDup(FlushedContent(store, ids, content, true))
  {
    var kept := Without(content, ExcludedSet(store, ids));
    var added := Admitted(store, ids, Members(content));
    if NoDup(content) {
      forall j, k | 0 <= j < k < |kept + added|
        ensures (kept + added)[j] != (kept + added)[k]
      {
        if j < |kept| && k >= |kept| {
          assert (kept + added)[k] in added;
          assert (kept + added)[j] in content;
        }
      }
    }
  }
}
