/**
 * The persistent contact store: a `Contacts` directory holding one file per contact,
 * named by the contact's id. The directory is abstracted to a flag saying whether it
 * exists, and its files to a map from id to contact. Serialization and the rest of the
 * file system are not part of this model.
 */
module Storage {
  import opened Wrappers
  import opened Contacts

  /** Whether the `Contacts` directory exists, and the contacts filed in it. */
  datatype Store = Store(present: bool, files: map<string, Contact>)

  /** Every file is named by its own contact's id, and a missing directory holds no files. */
  predicate Keyed(store: Store)
  {
    && (forall id :: id in store.files ==> store.files[id].id == id)
    && (!store.present ==> store.files == map[])
  }

  /**
   * The directory the storage manager creates when it starts, holding the files it
   * finds there.
   */
  function Opened(files: map<string, Contact>): (r: Store)
    ensures r.present
    ensures r.files == files
  {
    Store(true, files)
  }

  /**
   * `save`: write the contact to the file named by its id, overwriting any earlier file.
   * Without the directory the write throws and the error is swallowed, so nothing changes.
   */
  function Save(store: Store, c: Contact): (r: Store)
    ensures r.present == store.present
    ensures store.present ==> r.files.Keys == store.files.Keys + {c.id} && r.files[c.id] == c
    ensures forall id :: id in store.files && id != c.id ==> id in r.files && r.files[id] == store.files[id]
    ensures !store.present ==> r == store
    ensures Keyed(store) ==> Keyed(r)
  {
    if store.present then store.(files := store.files[c.id := c]) else store
  }

  /**
   * `delete`: remove the file named by the contact's id; a missing file is no error.
   * Without the directory the removal throws and the error is swallowed.
   */
  function Remove(store: Store, c: Contact): (r: Store)
    ensures r.present == store.present
    ensures store.present ==> r.files.Keys == store.files.Keys - {c.id}
    ensures forall id :: id in r.files ==> id in store.files && r.files[id] == store.files[id]
    ensures !store.present ==> r == store
    ensures Keyed(store) ==> Keyed(r)
  {
    if store.present then store.(files := store.files - {c.id}) else store
  }

  /**
   * `deleteAll`: remove the whole directory. Nothing is left, and the directory is not
   * created again.
   */
  function Clear(store: Store): (r: Store)
    ensures !r.present
    ensures |r.files| == 0
    ensures Keyed(r)
  {
    Store(false, map[])
  }

  /** Reading back the file for an id; absent when there is no such file. */
  function Retrieve(store: Store, id: string): (r: Option<Contact>)
    ensures r.Some? <==> id in store.files
    ensures r.Some? ==> r.value == store.files[id]
  {
    if id in store.files then Some(store.files[id]) else None
  }

  /** While the directory exists, saving and then reading back the same id yields the contact saved. */
  lemma SaveRetrieve(store: Store, c: Contact)
    requires store.present
    ensures Retrieve(Save(store, c), c.id) == Some(c)
  {
  }

  /** Once the directory is gone, a save writes nothing: every id reads back as before. */
  lemma SaveWithoutDirectory(store: Store, c: Contact, id: string)
    requires !store.present
    ensures Retrieve(Save(store, c), id) == Retrieve(store, id)
  {
  }

  /** Saving one contact leaves every other id readable as before. */
  lemma SaveKeepsOthers(store: Store, c: Contact, id: string)
    requires id != c.id
    ensures Retrieve(Save(store, c), id) == Retrieve(store, id)
  {
  }

  /** Removing a file and saving under the same id is the same as saving straight away. */
  lemma SaveAfterRemove(store: Store, c: Contact)
    ensures Save(Remove(store, c), c) == Save(store, c)
  {
    if store.present {
      assert Save(Remove(store, c), c).files.Keys == Save(store, c).files.Keys;
    }
  }

  lemma RemoveIdempotent(store: Store, c: Contact)
    ensures Remove(Remove(store, c), c) == Remove(store, c)
  {
    assert Remove(Remove(store, c), c).files == Remove(store, c).files;
  }

  /** The files read back at start-up: each contact saved in turn. */
  function FilesOf(loaded: seq<Contact>): (r: map<string, Contact>)
    ensures forall id :: id in r ==> r[id].id == id
    ensures forall i :: 0 <= i < |loaded| ==> loaded[i].id in r
    ensures forall id :: id in r ==> r[id] in loaded
    ensures r.Keys == Ids(loaded)
    decreases |loaded|
  {
    if loaded == [] then map[]
    else FilesOf(loaded[..|loaded| - 1])[loaded[|loaded| - 1].id := loaded[|loaded| - 1]]
  }
}
