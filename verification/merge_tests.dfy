/**
 * The merge tests of one `person` record (attributes `name` and `city`), each a
 * sequence of calls on a `Record` whose outputs are the values the test asserts.
 * The adapters' answers are passed in directly.
 */
module MergeTests {
  import opened Wrappers
  import opened MergeOverlay
  import opened MergeRecord

  /** A created record edited while its create-save is in flight stays dirty and keeps the edit. */
  method ChangesWhileInFlight() returns (nameAtSave: Option<Value>, dirty: bool, name: Option<Value>)
    ensures nameAtSave == Some("Tom Dale")
    ensures dirty && name == Some("Thomas Dale")
  {
    var person := new Record.Created(map["name" := "Tom Dale"]);
    var save := person.Save();
    nameAtSave := person.Get("name");
    person.Set("name", "Thomas Dale");
    person.SaveSucceeded(map["name" := "Tom Dale"]);
    dirty, name := person.Dirty(), person.Get("name");
  }

  /** The adapter sees the value set before `save()`; the edit made after it stays local and dirty. */
  method SnapshotAtSaveTime() returns (snapshotName: Option<Value>, nameAfterSave: Option<Value>, nameAfterEdit: Option<Value>,
                                       dirty: bool, name: Option<Value>)
    ensures snapshotName == Some("Thomas Dale")
    ensures nameAfterSave == Some("Thomas Dale") && nameAfterEdit == Some("Tomasz Dale")
    ensures dirty && name == Some("Tomasz Dale")
  {
    var person := new Record.Loaded(map["name" := "Tom"]);
    person.Set("name", "Thomas Dale");
    var save := person.Save();
    snapshotName := if save.Success? && "name" in save.value then Some(save.value["name"]) else None;
    nameAfterSave := person.Get("name");
    person.Set("name", "Tomasz Dale");
    nameAfterEdit := person.Get("name");
    person.SaveSucceeded(map[]);
    dirty, name := person.Dirty(), person.Get("name");
  }

  /** A push during the save lands under the in-flight and local values; the response lands over the push. */
  method PushWhileInFlight() returns (nameAfterSave: Option<Value>, nameAfterPush: Option<Value>, cityAfterPush: Option<Value>,
                                      dirty: bool, name: Option<Value>, city: Option<Value>)
    ensures nameAfterSave == Some("Thomas Dale")
    ensures nameAfterPush == Some("Tomasz Dale") && cityAfterPush == Some("PDX")
    ensures dirty && name == Some("Tomasz Dale") && city == Some("Portland")
  {
    var person := new Record.Loaded(map["name" := "Tom"]);
    person.Set("name", "Thomas Dale");
    var save := person.Save();
    nameAfterSave := person.Get("name");
    person.Set("name", "Tomasz Dale");
    person.Push(map["name" := "Tommy Dale", "city" := "PDX"]);
    assert "city" != "name" by {
      assert "city"[0] != "name"[0];
    }
    nameAfterPush, cityAfterPush := person.Get("name"), person.Get("city");
    person.SaveSucceeded(map["name" := "Senor Thomas Dale, Esq.", "city" := "Portland"]);
    dirty, name, city := person.Dirty(), person.Get("name"), person.Get("city");
  }

  /** A push onto a dirty record keeps the local edit and updates the unedited attribute. */
  method PushOntoDirty() returns (dirtyBefore: bool, nameBefore: Option<Value>, cityBefore: Option<Value>,
                                  dirty: bool, name: Option<Value>, city: Option<Value>)
    ensures dirtyBefore && nameBefore == Some("Tomasz Dale") && cityBefore == Some("San Francisco")
    ensures dirty && name == Some("Tomasz Dale") && city == Some("Portland")
  {
    var person := new Record.Loaded(map["name" := "Tom Dale", "city" := "San Francisco"]);
    person.Set("name", "Tomasz Dale");
    dirtyBefore, nameBefore, cityBefore := person.Dirty(), person.Get("name"), person.Get("city");
    person.Push(map["name" := "Thomas Dale", "city" := "Portland"]);
    dirty, name, city := person.Dirty(), person.Get("name"), person.Get("city");
  }

  /** A save rejected as invalid leaves the record invalid and dirty, and a later push does not change that. */
  method PushOntoInvalid() returns (validBefore: bool, dirtyBefore: bool, nameBefore: Option<Value>, cityBefore: Option<Value>,
                                    dirty: bool, valid: bool, name: Option<Value>, city: Option<Value>)
    ensures !validBefore && dirtyBefore && nameBefore == Some("Brondan McLoughlin") && cityBefore == Some("Boston")
    ensures dirty && !valid && name == Some("Brondan McLoughlin") && city == Some("Prague")
  {
    var person := new Record.Loaded(map["name" := "Brendan McLoughlin", "city" := "Boston"]);
    person.Set("name", "Brondan McLoughlin");
    var save := person.Save();
    person.SaveRejected(true);
    validBefore, dirtyBefore := person.isValid, person.Dirty();
    nameBefore, cityBefore := person.Get("name"), person.Get("city");
    person.Push(map["name" := "bmac", "city" := "Prague"]);
    dirty, valid, name, city := person.Dirty(), person.isValid, person.Get("name"), person.Get("city");
  }

  /** A record with no local edits can be saved, and then shows the response's value. */
  method SaveWithoutChanges() returns (name: Option<Value>)
    ensures name == Some("Thomas Dale")
  {
    var person := new Record.Loaded(map["name" := "Tom Dale"]);
    var save := person.Save();
    person.SaveSucceeded(map["name" := "Thomas Dale"]);
    name := person.Get("name");
  }

  /** Reloading a dirty record keeps the local edit, and the reloaded data fills the rest. */
  method ReloadDirty() returns (dirty: bool, name: Option<Value>, city: Option<Value>)
    ensures dirty && name == Some("Tomasz Dale") && city == Some("Portland")
  {
    var person := new Record.Loaded(map["name" := "Tom Dale"]);
    person.Set("name", "Tomasz Dale");
    person.Reload(map["name" := "Thomas Dale", "city" := "Portland"]);
    dirty, name, city := person.Dirty(), person.Get("name"), person.Get("city");
  }
}
