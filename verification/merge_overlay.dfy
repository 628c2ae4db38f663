/**
 * The attribute overlay of one record, as values: the canonical attributes last
 * received from the server, the attributes of a save in flight, and the local
 * edits layered on top. A local edit always wins; an in-flight attribute wins
 * over the canonical one.
 */
module MergeOverlay {
  import opened Wrappers

  type Key = string
  type Value = string
  type Attributes = map<Key, Value>

  datatype RecordData = RecordData(
    canonical: Attributes,
    inFlight: Option<Attributes>,
    local: Attributes,
    isValid: bool)

  /** Why `save()` is refused: a save of the record is already outstanding. */
  datatype SaveError = SaveInFlight

  /** The value a reader sees for an attribute (`person.name`): local, then in flight, then canonical. */
  function Visible(d: RecordData, k: Key): Option<Value> {
    if k in d.local then Some(d.local[k])
    else if d.inFlight.Some? && k in d.inFlight.value then Some(d.inFlight.value[k])
    else if k in d.canonical then Some(d.canonical[k])
    else None
  }

  /** `hasDirtyAttributes`: local edits, a save in flight, or a rejected (invalid) state. */
  predicate HasDirtyAttributes(d: RecordData) {
    d.local != map[] || d.inFlight.Some? || !d.isValid
  }

  /** Every attribute the record has a value for, in some layer. */
  function Keys(d: RecordData): set<Key> {
    d.canonical.Keys + d.local.Keys + (if d.inFlight.Some? then d.inFlight.value.Keys else {})
  }

  /** What the adapter is handed at `save()` time: every attribute with its visible value. */
  function Snapshot(d: RecordData): (r: Attributes)
    ensures forall k :: k in r <==> Visible(d, k).Some?
    ensures forall k :: k in r ==> Visible(d, k) == Some(r[k])
  {
    map k | k in Keys(d) :: Visible(d, k).value
  }

  /** A record first seen through `store.push`: canonical data only, clean and valid. */
  function Loaded(attributes: Attributes): RecordData {
    RecordData(attributes, None, map[], true)
  }

  /** A record made by `createRecord`: no canonical data, its attributes are local edits. */
  function Created(attributes: Attributes): RecordData {
    RecordData(map[], None, attributes, true)
  }

  /** `store.push` (and a reload's response): the payload replaces canonical attributes underneath. */
  function Pushed(d: RecordData, payload: Attributes): RecordData {
    d.(canonical := d.canonical + payload)
  }

  /** `person.set(k, v)`: a local edit. */
  function Edited(d: RecordData, k: Key, v: Value): RecordData {
    d.(local := d.local[k := v])
  }

  /** `save()`: the local edits become the in-flight attributes; refused while a save is outstanding. */
  function SaveStarted(d: RecordData): Result<RecordData, SaveError> {
    if d.inFlight.Some? then Failure(SaveInFlight)
    else Success(d.(inFlight := Some(d.local), local := map[]))
  }

  /** The save resolved: canonical takes the in-flight attributes, then the response on top. */
  function SaveSucceeded(d: RecordData, response: Attributes): RecordData
    requires d.inFlight.Some?
  {
    RecordData(d.canonical + d.inFlight.value + response, None, d.local, true)
  }

  /**
   * The save was rejected: the in-flight attributes go back under the local edits,
   * and an invalid error makes the record invalid.
   */
  function SaveRejected(d: RecordData, invalid: bool): RecordData
    requires d.inFlight.Some?
  {
    RecordData(d.canonical, None, d.inFlight.value + d.local, if invalid then false else d.isValid)
  }

  /** An edit is visible at once, changes no other attribute, and makes the record dirty. */
  lemma EditWins(d: RecordData, k: Key, v: Value)
    ensures Visible(Edited(d, k, v), k) == Some(v)
    ensures forall j :: j != k ==> Visible(Edited(d, k, v), j) == Visible(d, j)
    ensures HasDirtyAttributes(Edited(d, k, v))
    ensures Edited(d, k, v).inFlight == d.inFlight && Edited(d, k, v).isValid == d.isValid
  {
    assert Edited(d, k, v).local != map[] by {
      assert k in Edited(d, k, v).local;
    }
  }

  /**
   * A push lands underneath: a locally edited attribute keeps its local value, an
   * in-flight one its in-flight value, and every other attribute in the payload
   * shows the pushed value. Dirtiness and validity do not change.
   */
  lemma PushUnderneath(d: RecordData, payload: Attributes)
    ensures forall k ::
      Visible(Pushed(d, payload), k) ==
        (if k in d.local || (d.inFlight.Some? && k in d.inFlight.value) then Visible(d, k)
         else if k in payload then Some(payload[k])
         else Visible(d, k))
    ensures HasDirtyAttributes(Pushed(d, payload)) == HasDirtyAttributes(d)
    ensures Pushed(d, payload).isValid == d.isValid
  {
  }

  /** Starting a save changes no visible value; a record already saving refuses. */
  lemma SaveKeepsVisible(d: RecordData)
    ensures SaveStarted(d).Failure? <==> d.inFlight.Some?
    ensures SaveStarted(d).Success? ==>
      && (forall k :: Visible(SaveStarted(d).value, k) == Visible(d, k))
      && SaveStarted(d).value.inFlight == Some(d.local)
      && HasDirtyAttributes(SaveStarted(d).value)
  {
  }

  /**
   * What a save commits is fixed when it starts: an edit made while it is in
   * flight changes neither the canonical attributes the save leaves behind nor
   * the attributes that go back on rejection, only the local layer.
   */
  lemma LaterEditsStayLocal(d: RecordData, k: Key, v: Value, response: Attributes, invalid: bool)
    requires d.inFlight.Some?
    ensures SaveSucceeded(Edited(d, k, v), response).canonical == SaveSucceeded(d, response).canonical
    ensures SaveSucceeded(Edited(d, k, v), response).local == d.local[k := v]
    ensures SaveRejected(Edited(d, k, v), invalid) == SaveRejected(d, invalid).(local := d.inFlight.value + d.local[k := v])
  {
  }

  /**
   * A successful save: local edits still win and keep the record dirty; any
   * other attribute shows the response's value, else the committed one. Only a
   * record with no local edits is clean afterwards.
   */
  lemma CommitUnderLocal(d: RecordData, response: Attributes)
    requires d.inFlight.Some?
    ensures forall k ::
      Visible(SaveSucceeded(d, response), k) ==
        (if k in d.local then Some(d.local[k])
         else if k in response then Some(response[k])
         else if k in d.inFlight.value then Some(d.inFlight.value[k])
         else Visible(d, k))
    ensures HasDirtyAttributes(SaveSucceeded(d, response)) <==> d.local != map[]
    ensures SaveSucceeded(d, response).isValid
  {
  }

  /**
   * A rejected save changes no visible value; an invalid error leaves the record
   * invalid, hence dirty.
   */
  lemma RejectionKeepsVisible(d: RecordData, invalid: bool)
    requires d.inFlight.Some?
    ensures forall k :: Visible(SaveRejected(d, invalid), k) == Visible(d, k)
    ensures SaveRejected(d, invalid).isValid == (d.isValid && !invalid)
    ensures invalid ==> HasDirtyAttributes(SaveRejected(d, invalid))
  {
  }

  /**
   * A save that is rejected before any further edit gives back the record as it
   * was, made invalid when the rejection is an invalid error.
   */
  lemma {:induction false} SaveThenReject(d: RecordData, invalid: bool)
    requires d.inFlight.None?
    ensures SaveStarted(d).Success?
    ensures SaveRejected(SaveStarted(d).value, invalid) == d.(isValid := d.isValid && !invalid)
  {
    var started := SaveStarted(d).value;
    assert started.inFlight.value + started.local == d.local;
  }

  /**
   * A save that succeeds with an empty response and no further edit commits the
   * visible attributes: nothing visible changes and the record is clean.
   */
  lemma SaveThenCommit(d: RecordData)
    requires d.inFlight.None?
    ensures SaveStarted(d).Success?
    ensures forall k :: Visible(SaveSucceeded(SaveStarted(d).value, map[]), k) == Visible(d, k)
    ensures !HasDirtyAttributes(SaveSucceeded(SaveStarted(d).value, map[]))
  {
  }
}
