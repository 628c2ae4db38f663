/**
 * What the record-array manager reads from the store: stable identifiers, whether
 * a record is hidden from record arrays, and each type's list of identifiers.
 */
module Records {
  import opened Seqs

  type ModelName = string

  /** A stable record identifier: its model name (`identifier.type`) and local key. */
  datatype Identifier = Identifier(modelName: ModelName, lid: string)

  /** The one fact about an internal model that decides record-array membership. */
  datatype InternalModel = InternalModel(hiddenFromRecordArrays: bool)

  /**
   * The store as seen by the manager at one moment: the internal-model cache
   * (`peek` answers null for an identifier that is not a key) and, per model name,
   * the identifiers of its model map in map order.
   */
  datatype Store = Store(internalModels: map<Identifier, InternalModel>, modelMaps: map<ModelName, seq<Identifier>>)

  /** `shouldIncludeInRecordArrays`: a materialised record that is not hidden. */
  predicate ShouldIncludeInRecordArrays(store: Store, i: Identifier)
    ensures ShouldIncludeInRecordArrays(store, i) ==> i in store.internalModels
  {
    i in store.internalModels && !store.internalModels[i].hiddenFromRecordArrays
  }

  /** `modelMapFor(modelName).recordIdentifiers`; a type with no map yet has none. */
  function RecordIdentifiers(store: Store, modelName: ModelName): seq<Identifier> {
    if modelName in store.modelMaps then store.modelMaps[modelName] else []
  }

  /** The identifiers of `ids` that pass the inclusion predicate, in their order. */
  function IncludedOf(store: Store, ids: seq<Identifier>): (r: seq<Identifier>)
    ensures forall i {:trigger i in r} :: i in r <==> i in ids && ShouldIncludeInRecordArrays(store, i)
    ensures |r| <= |ids|
  {
    if ids == [] then []
    else
      var prefix := IncludedOf(store, ids[..|ids| - 1]);
      var last := ids[|ids| - 1];
      assert forall i :: i in ids <==> i in ids[..|ids| - 1] || i == last;
      if ShouldIncludeInRecordArrays(store, last) then prefix + [last] else prefix
  }

  /** The identifiers of a batch that fail the inclusion predicate. */
  function ExcludedSet(store: Store, ids: seq<Identifier>): set<Identifier> {
    set i | i in ids && !ShouldIncludeInRecordArrays(store, i)
  }

  /** The identifiers of a batch that pass the inclusion predicate. */
  function IncludedSet(store: Store, ids: seq<Identifier>): set<Identifier> {
    set i | i in ids && ShouldIncludeInRecordArrays(store, i)
  }

  /**
   * What a live array gains from a batch: each identifier of `ids` that passes
   * the predicate and is not yet `present`, once, in batch order.
   */
  function Admitted(store: Store, ids: seq<Identifier>, present: set<Identifier>): (r: seq<Identifier>)
    ensures forall i {:trigger i in r} :: i in r <==> i in ids && ShouldIncludeInRecordArrays(store, i) && i !in present
    ensures NoDup(r)
  {
    if ids == [] then []
    else
      var earlier := Admitted(store, ids[..|ids| - 1], present);
      var last := ids[|ids| - 1];
      assert forall i :: i in ids <==> i in ids[..|ids| - 1] || i == last;
      if ShouldIncludeInRecordArrays(store, last) && last !in present && last !in earlier then earlier + [last]
      else earlier
  }

  /** Everything a live array admits from a batch passes the predicate. */
  lemma AdmittedAvoidsExcluded(store: Store, ids: seq<Identifier>, present: set<Identifier>, batch: seq<Identifier>)
    ensures Without(Admitted(store, ids, present), ExcludedSet(store, batch)) == Admitted(store, ids, present)
  {
    WithoutNothing(Admitted(store, ids, present), ExcludedSet(store, batch));
  }
}
