/**
 * The contact manager: the ordered in-memory collection, the sort configuration and
 * the persistent store, with the operations that change them together.
 */
module ContactManager {
  import opened Wrappers
  import opened StringOrder
  import opened Contacts
  import opened Ordering
  import opened ContactList
  import opened Storage

  /** `allContacts`, `(sortType, sortCriteria)` and what the storage manager holds. */
  datatype Manager = Manager(contacts: seq<Contact>, config: Config, store: Store)

  /**
   * While the storage directory exists, the collection and the store know the same ids
   * and every stored contact is in the collection. Once `deleteAll` has removed the
   * directory, no save reaches it, so nothing relates the two any more.
   */
  predicate StoreAgrees(m: Manager)
  {
    && Keyed(m.store)
    && (m.store.present ==> forall x :: x in m.contacts ==> x.id in m.store.files)
    && (m.store.present ==> forall id :: id in m.store.files ==> m.store.files[id] in m.contacts)
  }

  /** Replacing the collection by one with the same members keeps the agreement with the store. */
  lemma AgreesWithSameMembers(m: Manager, contacts: seq<Contact>, cfg: Config)
    requires multiset(contacts) == multiset(m.contacts)
    ensures StoreAgrees(m) ==> StoreAgrees(Manager(contacts, cfg, m.store))
  {
    SameMembers(contacts, m.contacts);
  }

  /** What every operation keeps: the collection is sorted under the current configuration and agrees with the store. */
  predicate Valid(m: Manager)
  {
    Sorted(m.config, m.contacts) && StoreAgrees(m)
  }

  /** `init`: load every stored contact, then sort under the default configuration. */
  function Init(loaded: seq<Contact>): (m: Manager)
    ensures m.config == DefaultConfig
    ensures multiset(m.contacts) == multiset(loaded)
    ensures Sorted(m.config, m.contacts)
    ensures m.store.present && m.store.files.Keys == Ids(loaded)
    ensures Valid(m)
  {
    var contacts := SortContacts(DefaultConfig, loaded);
    SameMembers(contacts, loaded);
    Manager(contacts, DefaultConfig, Opened(FilesOf(loaded)))
  }

  /** `sort(type:criteria:)`: record the configuration and re-sort the whole collection. */
  function Sort(m: Manager, sortType: SortType, criteria: SortCriteria): (r: Manager)
    ensures r.config == Config(sortType, criteria)
    ensures multiset(r.contacts) == multiset(m.contacts)
    ensures Sorted(r.config, r.contacts)
    ensures r.store == m.store
    ensures StoreAgrees(m) ==> Valid(r)
  {
    var cfg := Config(sortType, criteria);
    var contacts := SortContacts(cfg, m.contacts);
    AgreesWithSameMembers(m, contacts, cfg);
    Manager(contacts, cfg, m.store)
  }

  /**
   * `create`: save the contact, then insert it at its sorted position. No check for an
   * existing entry with the same id is made, so such an entry stays in the collection.
   */
  function Create(m: Manager, c: Contact): (r: Manager)
    ensures r.config == m.config
    ensures multiset(r.contacts) == multiset(m.contacts) + multiset{c}
    ensures Sorted(m.config, m.contacts) ==> Sorted(r.config, r.contacts)
    ensures UniqueIds(m.contacts) && c.id !in Ids(m.contacts) ==> UniqueIds(r.contacts)
    ensures r.store == Save(m.store, c)
    ensures Valid(m) ==> Valid(r)
  {
    var contacts := InsertSorted(m.config, m.contacts, c);
    InsertFreshKeepsUnique(m.config, m.contacts, c);
    CreateAgrees(m, c, contacts);
    Manager(contacts, m.config, Save(m.store, c))
  }

  /** `delete`: remove the stored file, then every entry of the collection with the contact's id. */
  function Delete(m: Manager, c: Contact): (r: Manager)
    ensures r.config == m.config
    ensures forall i :: 0 <= i < |r.contacts| ==> r.contacts[i].id != c.id
    ensures forall x: Contact :: x.id != c.id ==> multiset(r.contacts)[x] == multiset(m.contacts)[x]
    ensures IsSubsequence(r.contacts, m.contacts)
    ensures Sorted(m.config, m.contacts) ==> Sorted(r.config, r.contacts)
    ensures UniqueIds(m.contacts) ==> UniqueIds(r.contacts)
    ensures r.store == Remove(m.store, c)
    ensures Valid(m) ==> Valid(r)
  {
    var contacts := RemoveId(m.contacts, c.id);
    RemoveIdKeepsOrder(m.contacts, c.id);
    SubsequenceKeepsSorted(m.config, contacts, m.contacts);
    SubsequenceKeepsUnique(contacts, m.contacts);
    DeleteAgrees(m, c, contacts);
    Manager(contacts, m.config, Remove(m.store, c))
  }

  /**
   * `update`: save the contact over its old file, remove every entry with its id, then
   * insert the new value at its sorted position.
   */
  function Update(m: Manager, c: Contact): (r: Manager)
    ensures r.config == m.config
    ensures multiset(r.contacts)[c] == 1
    ensures forall i :: 0 <= i < |r.contacts| && r.contacts[i].id == c.id ==> r.contacts[i] == c
    ensures forall x: Contact :: x.id != c.id ==> multiset(r.contacts)[x] == multiset(m.contacts)[x]
    ensures Sorted(m.config, m.contacts) ==> Sorted(r.config, r.contacts)
    ensures UniqueIds(m.contacts) ==> UniqueIds(r.contacts)
    ensures r.store == Save(m.store, c)
    ensures Valid(m) ==> Valid(r)
  {
    var contacts := ReplaceById(m.config, m.contacts, c);
    UpdateAgrees(m, c, contacts);
    Manager(contacts, m.config, Save(m.store, c))
  }

  lemma CreateAgrees(m: Manager, c: Contact, contacts: seq<Contact>)
    requires multiset(contacts) == multiset(m.contacts) + multiset{c}
    ensures StoreAgrees(m) ==> StoreAgrees(Manager(contacts, m.config, Save(m.store, c)))
  {
    forall x
      ensures x in contacts <==> x in m.contacts || x == c
    {
      assert x in contacts <==> x in multiset(contacts);
      assert x in m.contacts <==> x in multiset(m.contacts);
    }
  }

  lemma DeleteAgrees(m: Manager, c: Contact, contacts: seq<Contact>)
    requires forall x: Contact :: multiset(contacts)[x] == if x.id == c.id then 0 else multiset(m.contacts)[x]
    ensures StoreAgrees(m) ==> StoreAgrees(Manager(contacts, m.config, Remove(m.store, c)))
  {
    forall x
      ensures x in contacts <==> x in m.contacts && x.id != c.id
    {
      assert x in contacts <==> x in multiset(contacts);
      assert x in m.contacts <==> x in multiset(m.contacts);
    }
  }

  lemma UpdateAgrees(m: Manager, c: Contact, contacts: seq<Contact>)
    requires multiset(contacts)[c] == 1
    requires forall x: Contact :: x.id != c.id ==> multiset(contacts)[x] == multiset(m.contacts)[x]
    requires forall x :: x in contacts && x.id == c.id ==> x == c
    ensures StoreAgrees(m) ==> StoreAgrees(Manager(contacts, m.config, Save(m.store, c)))
  {
    forall x
      ensures x in contacts <==> (x in m.contacts && x.id != c.id) || x == c
    {
      assert x in contacts <==> x in multiset(contacts);
      assert x in m.contacts <==> x in multiset(m.contacts);
    }
  }

  /**
   * `deleteAll`: remove the storage directory and empty the collection. The directory
   * is not created again, so later saves are lost until the next start-up.
   */
  function DeleteAll(m: Manager): (r: Manager)
    ensures r.contacts == []
    ensures !r.store.present && |r.store.files| == 0
    ensures r.config == m.config
    ensures Valid(r)
  {
    Manager([], m.config, Clear(m.store))
  }

  /** A call a client of the manager can make. */
  datatype Operation =
    | CreateOp(contact: Contact)
    | UpdateOp(contact: Contact)
    | DeleteOp(contact: Contact)
    | DeleteAllOp
    | SortOp(sortType: SortType, criteria: SortCriteria)

  function Apply(m: Manager, op: Operation): (r: Manager)
    ensures Valid(m) ==> Valid(r)
    ensures !op.SortOp? ==> r.config == m.config
  {
    match op
    case CreateOp(c) => Create(m, c)
    case UpdateOp(c) => Update(m, c)
    case DeleteOp(c) => Delete(m, c)
    case DeleteAllOp => DeleteAll(m)
    case SortOp(t, cr) => Sort(m, t, cr)
  }

  /**
   * A session of calls, in order. Every call keeps the collection sorted without a
   * full re-sort, and only `sort` changes the configuration.
   */
  function Run(m: Manager, ops: seq<Operation>): (r: Manager)
    ensures Valid(m) ==> Valid(r)
    ensures (forall i :: 0 <= i < |ops| ==> !ops[i].SortOp?) ==> r.config == m.config
    decreases |ops|
  {
    if ops == [] then m else Run(Apply(m, ops[0]), ops[1..])
  }

  /** Deleting the same contact twice is the same as deleting it once. */
  lemma DeleteIdempotent(m: Manager, c: Contact)
    ensures Delete(Delete(m, c), c) == Delete(m, c)
  {
    var d := Delete(m, c);
    assert Delete(d, c).contacts == d.contacts by {
      RemoveIdIdempotent(m.contacts, c.id);
    }
    assert Delete(d, c).store == d.store by {
      RemoveIdempotent(m.store, c);
    }
  }

  /** Updating is deleting followed by creating. */
  lemma UpdateIsDeleteThenCreate(m: Manager, c: Contact)
    ensures Update(m, c) == Create(Delete(m, c), c)
  {
    var d := Delete(m, c);
    assert Update(m, c).contacts == Create(d, c).contacts by {
      assert d.contacts == RemoveId(m.contacts, c.id);
    }
    SaveAfterRemove(m.store, c);
  }

  /** An update whose id matches no entry removes nothing: it only adds the new contact. */
  lemma UpdateUnknownId(m: Manager, c: Contact)
    requires c.id !in Ids(m.contacts)
    ensures Update(m, c).contacts == Create(m, c).contacts
  {
    RemoveAbsentId(m.contacts, c.id);
  }

  /** The collection `update` produces depends on the collection and the configuration only, not on the store. */
  lemma UpdateIgnoresStore(m: Manager, store: Store, c: Contact)
    ensures Update(m, c).contacts == Update(m.(store := store), c).contacts
  {
  }

  /**
   * `update` leaves every other entry where it was relative to the rest: the new
   * collection is the old one without the id, with `c` inserted at a single position.
   */
  lemma UpdateKeepsOthersInOrder(m: Manager, c: Contact)
    ensures exists k ::
      && 0 <= k <= |RemoveId(m.contacts, c.id)|
      && Update(m, c).contacts == RemoveId(m.contacts, c.id)[..k] + [c] + RemoveId(m.contacts, c.id)[k..]
  {
    var rest := RemoveId(m.contacts, c.id);
    match FirstPreceded(m.config, c, rest)
    case Some(i) =>
      assert Update(m, c).contacts == rest[..i] + [c] + rest[i..];
    case None =>
      assert rest[..|rest|] == rest && rest[|rest|..] == [];
      assert Update(m, c).contacts == rest[..|rest|] + [c] + rest[|rest|..];
  }

  /** Two contacts the scenarios below work with. */
  const Bob := NewContact("id-1", "Bob", "Ames", "111", Cellphone)
  const Alice := NewContact("id-2", "Alice", "Zed", "222", Home)

  /**
   * After `deleteAll` a created contact is in the collection but in no file: the save
   * has no directory to write into.
   */
  lemma CreateAfterDeleteAllIsNotSaved(m: Manager, c: Contact)
    ensures Create(DeleteAll(m), c).contacts == [c]
    ensures Retrieve(Create(DeleteAll(m), c).store, c.id) == None
  {
    assert multiset(Create(DeleteAll(m), c).contacts) == multiset{c};
    assert |Create(DeleteAll(m), c).contacts| == 1;
  }

  /** A sorted arrangement of two contacts, one strictly preceding the other, is determined. */
  lemma SortedPair(cfg: Config, s: seq<Contact>, a: Contact, b: Contact)
    requires multiset(s) == multiset{a, b}
    requires Sorted(cfg, s)
    requires Precedes(cfg, a, b)
    ensures s == [a, b]
  {
    assert |s| == |multiset(s)| == 2;
    assert s == [s[0], s[1]];
    assert multiset(s) == multiset{s[0], s[1]};
    PrecedesIrreflexive(cfg, a);
  }

  /** Creating two contacts in a fresh, empty manager holds exactly those two. */
  lemma CreateTwo(a: Contact, b: Contact)
    ensures multiset(Create(Create(Init([]), a), b).contacts) == multiset{a, b}
  {
    var m0 := Init([]);
    assert multiset(m0.contacts) == multiset{};
  }

  /** Sorting a collection of two contacts puts the one that precedes first. */
  lemma SortTwo(m: Manager, a: Contact, b: Contact, sortType: SortType, criteria: SortCriteria)
    requires multiset(m.contacts) == multiset{a, b}
    requires Precedes(Config(sortType, criteria), b, a)
    ensures Sort(m, sortType, criteria).contacts == [b, a]
  {
    var r := Sort(m, sortType, criteria);
    SortedPair(r.config, r.contacts, b, a);
  }

  /** Whatever order two contacts are created in, sorting puts the one that precedes first. */
  lemma CreateTwoThenSort(a: Contact, b: Contact, sortType: SortType, criteria: SortCriteria)
    requires Precedes(Config(sortType, criteria), b, a)
    ensures Sort(Create(Create(Init([]), a), b), sortType, criteria).contacts == [b, a]
  {
    CreateTwo(a, b);
    SortTwo(Create(Create(Init([]), a), b), a, b, sortType, criteria);
  }

  /** Creating Bob then Alice and sorting ascending by first name puts Alice first. */
  lemma SortScenario()
    ensures Sort(Create(Create(Init([]), Bob), Alice), Ascending, FirstName).contacts == [Alice, Bob]
  {
    assert Precedes(Config(Ascending, FirstName), Alice, Bob) by {
      assert Key(FirstName, Alice)[0] == 'a' && Key(FirstName, Bob)[0] == 'b';
    }
    CreateTwoThenSort(Bob, Alice, Ascending, FirstName);
  }

  /** Bob after the edit form renamed him; his id is unchanged. */
  const Aaron := ApplyEdit(Bob, SetFirstName("Aaron"))

  /**
   * In a collection of two, updating the second entry to a value that precedes the
   * first moves it to the front.
   */
  lemma UpdateInPair(m: Manager, x: Contact, y: Contact, c: Contact)
    requires m.contacts == [x, y]
    requires y.id == c.id && x.id != c.id
    requires Precedes(m.config, c, x)
    ensures Update(m, c).contacts == [c, x]
  {
    assert RemoveId([x, y], c.id) == [x] by {
      assert [x, y][1..] == [y];
      assert [y][1..] == [];
    }
    assert InsertSorted(m.config, [x], c) == [c, x] by {
      assert FirstPreceded(m.config, c, [x]) == Some(0);
      assert [x][..0] == [] && [x][0..] == [x];
    }
    assert Update(m, c).contacts == ReplaceById(m.config, [x, y], c);
  }

  lemma RenameBob(m: Manager)
    requires m.contacts == [Alice, Bob] && m.config == DefaultConfig
    ensures Update(m, Aaron).contacts == [Aaron, Alice]
  {
    assert Precedes(DefaultConfig, Aaron, Alice) by {
      var ka, kb := Key(FirstName, Aaron), Key(FirstName, Alice);
      assert ka[0] == 'a' && kb[0] == 'a' && ka[1] == 'a' && kb[1] == 'l';
      assert Less(ka[1..], kb[1..]);
    }
    UpdateInPair(m, Alice, Bob, Aaron);
  }

  /** Then renaming Bob to Aaron, still ascending by first name, moves him before Alice. */
  lemma UpdateScenario()
    ensures Update(Sort(Create(Create(Init([]), Bob), Alice), Ascending, FirstName), Aaron).contacts == [Aaron, Alice]
  {
    SortScenario();
    RenameBob(Sort(Create(Create(Init([]), Bob), Alice), Ascending, FirstName));
  }
}
