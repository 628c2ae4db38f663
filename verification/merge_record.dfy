/**
 * One record as the merge tests drive it: an object whose attribute layers and
 * validity change in place under `store.push`, `set`, `save()`, the save's
 * outcome and `reload()`. Each operation is specified by its counterpart on
 * `RecordData` in MergeOverlay.
 */
module MergeRecord {
  import opened Wrappers
  import opened MergeOverlay

  class Record {
    var canonical: Attributes
    var inFlight: Option<Attributes>
    var local: Attributes
    var isValid: bool

    /** The record's state as a value. */
    function Data(): RecordData
      reads this
    {
      RecordData(canonical, inFlight, local, isValid)
    }

    /** `store.push` of a record not seen before. */
    constructor Loaded(attributes: Attributes)
      ensures Data() == MergeOverlay.Loaded(attributes)
    {
      canonical, inFlight, local, isValid := attributes, None, map[], true;
    }

    /** `store.createRecord(modelName, attributes)`. */
    constructor Created(attributes: Attributes)
      ensures Data() == MergeOverlay.Created(attributes)
    {
      canonical, inFlight, local, isValid := map[], None, attributes, true;
    }

    /**
     * `person.name`: the visible value of an attribute. A local edit is what a
     * reader sees; an attribute has a value iff some layer holds it.
     */
    function Get(k: Key): (r: Option<Value>)
      reads this
      ensures k in local ==> r == Some(local[k])
      ensures k !in local && inFlight.Some? && k in inFlight.value ==> r == Some(inFlight.value[k])
      ensures r.Some? <==> k in Keys(Data())
    {
      Visible(Data(), k)
    }

    /**
     * `person.hasDirtyAttributes`: local edits make a record dirty, and so do a
     * save in flight and an invalid state.
     */
    predicate Dirty()
      reads this
      ensures local != map[] ==> Dirty()
      ensures inFlight.Some? || !isValid ==> Dirty()
      ensures inFlight.None? && isValid ==> (Dirty() <==> local != map[])
    {
      HasDirtyAttributes(Data())
    }

    /** `store.push` of new data for this record. */
    method Push(payload: Attributes)
      modifies this
      ensures Data() == Pushed(old(Data()), payload)
    {
      canonical := canonical + payload;
    }

    /** `person.set(k, v)`. */
    method Set(k: Key, v: Value)
      modifies this
      ensures Data() == Edited(old(Data()), k, v)
    {
      local := local[k := v];
    }

    /**
     * `person.save()`: hands back the snapshot the adapter sees and puts the local
     * edits in flight; refused, with nothing changed, while a save is outstanding.
     */
    method Save() returns (r: Result<Attributes, SaveError>)
      modifies this
      ensures old(inFlight).Some? ==> r == Failure(SaveInFlight) && Data() == old(Data())
      ensures old(inFlight).None? ==> r == Success(Snapshot(old(Data()))) && Data() == SaveStarted(old(Data())).value
    {
      if inFlight.Some? {
        return Failure(SaveInFlight);
      }
      r := Success(Snapshot(Data()));
      inFlight, local := Some(local), map[];
    }

    /** The adapter resolved the outstanding save with `response`. */
    method SaveSucceeded(response: Attributes)
      requires inFlight.Some?
      modifies this
      ensures Data() == MergeOverlay.SaveSucceeded(old(Data()), response)
    {
      canonical := canonical + inFlight.value + response;
      inFlight, isValid := None, true;
    }

    /** The adapter rejected the outstanding save; `invalid` for an `InvalidError`. */
    method SaveRejected(invalid: bool)
      requires inFlight.Some?
      modifies this
      ensures Data() == MergeOverlay.SaveRejected(old(Data()), invalid)
    {
      local := inFlight.value + local;
      inFlight := None;
      if invalid {
        isValid := false;
      }
    }

    /** `person.reload()`: the response is pushed like any other data. */
    method Reload(response: Attributes)
      modifies this
      ensures Data() == Pushed(old(Data()), response)
    {
      Push(response);
    }
  }
}
