# KPPhoneBook contact manager, modelled in Dafny

This project models the core of the KPPhoneBook contact book. The core is the
`ContactManager`. It keeps every contact in one in-memory array, `allContacts`, sorted
under a configurable order: ascending or descending, by first name or by last name.
Every create, update or delete goes through the manager, which also writes the change
to a one-file-per-contact store. The `Contact` value type is modelled too: an immutable
`id`, four editable fields, the derived `fullName`, and the `Type` enumeration with its
string raw values.

Modules, leaves first:

- `Wrappers`: `Option`, standing in for Swift optionals.
- `StringOrder`: `lowercased()`, modelled on ASCII letters only, and Swift's `<` on
  strings, modelled as lexicographic order on code points. `<` is proved a strict
  total order.
- `Contacts`: the `Contact` record, `ContactType` (Swift's `Type`), raw values and
  parsing, `fullName`, the memberwise initialiser, and field assignment.
- `Ordering`: `SortType`, `SortCriteria` and the comparator `filteringLogic`
  (`Precedes`). Also `Sorted`: no later element strictly precedes an earlier one.
- `ContactList`: pure functions on `seq<Contact>`. These are the `firstIndex` scan,
  sorted insertion, the full re-sort, and `removeAll` by id.
- `Storage`: the store. The `Contacts` directory is a flag saying whether it exists,
  and its files are a map from id to contact.
- `ContactManager`: the manager state, a record holding the collection, the
  configuration and the store. Each operation is a pure function from one state to
  the next. `Valid` is the invariant every operation keeps. The collection is always
  sorted. While the storage directory exists, the collection and the store also know
  the same ids.

Three behaviours of the code are easy to miss:

- The insertion point is found by a linear scan for the first element the new contact
  strictly precedes (`ContactManager.swift:139-141`). `FirstPreceded` models exactly
  that scan.
- `create` never checks ids (`ContactManager.swift:61-66`), so two entries can share
  an id. `Create` keeps `UniqueIds` only when the new id is fresh. Otherwise the
  older entry stays in the collection alongside the new one, not necessarily adjacent
  to it.
- `deleteAll` removes the `Contacts` directory itself (`StorageManager.swift:89`).
  The directory is created only when the storage manager starts
  (`StorageManager.swift:21`, `StorageManager.swift:111`). So every later `save`
  writes into a missing directory, fails, and has its error swallowed
  (`StorageManager.swift:36-37`). Until the next start-up, no `create` or `update`
  reaches a file. `Save` models this by changing nothing once the directory is gone,
  and `CreateAfterDeleteAllIsNotSaved` shows the consequence.

## Model

| member | source | states |
|---|---|---|
| StringOrder.Lower | ContactsManager/ContactManager.swift:123 | `lowercased()` keeps the length and maps each character through ASCII lower-casing |
| StringOrder.Less | ContactsManager/ContactManager.swift:123 | string `<` never relates equal strings, and a proper prefix comes before the longer string |
| StringOrder.LessIrreflexive | ContactsManager/ContactManager.swift:123 | string `<` never holds between a string and itself |
| StringOrder.LessTransitive | ContactsManager/ContactManager.swift:123 | string `<` is transitive |
| StringOrder.LessTotal | ContactsManager/ContactManager.swift:123-125 | any two different strings are ordered one way or the other by `<` |
| StringOrder.LessAsymmetric | ContactsManager/ContactManager.swift:123-130 | `a < b` and `b < a` never both hold, so `>` is the converse of `<` |
| Ordering.Precedes | ContactsManager/ContactManager.swift:118-135 | `filteringLogic` compares lower-cased names, so two contacts whose keys are equal, even if the names differ in case, never precede one another |
| Ordering.PrecedesIrreflexive | ContactsManager/ContactManager.swift:118-135 | under every sort type and criteria, a contact never precedes itself |
| Ordering.PrecedesTransitive | ContactsManager/ContactManager.swift:118-135 | the comparator is transitive under every configuration |
| Ordering.PrecedesAsymmetric | ContactsManager/ContactManager.swift:118-135 | if `a` precedes `b`, then `b` does not precede `a` |
| Ordering.PrecedesTies | ContactsManager/ContactManager.swift:118-135 | two contacts are unordered both ways exactly when their lower-cased keys under the criteria are equal |
| Ordering.DescendingIsConverse | ContactsManager/ContactManager.swift:119-134 | descending `a` before `b` is ascending `b` before `a`, for the same criteria |
| Ordering.SortedPairs | ContactsManager/ContactManager.swift:107-111 | in a sorted collection, each earlier element has the same key as, or strictly precedes, each later one |
| ContactList.FirstPreceded | ContactsManager/ContactManager.swift:139-141 | the scan finds the first position whose element the new contact strictly precedes. If it finds none, the contact precedes no element |
| ContactList.InsertAtKeepsSorted | ContactsManager/ContactManager.swift:143-147 | inserting at a position where nothing earlier is preceded by the contact, but the next element is, keeps a sorted collection sorted |
| ContactList.InsertSorted | ContactsManager/ContactManager.swift:137-147 | sorted insertion makes the collection one longer and adds exactly one occurrence of the contact to its multiset. A sorted collection stays sorted |
| ContactList.InsertSortedPlacement | ContactsManager/ContactManager.swift:137-147 | in a sorted collection the contact goes between the elements it does not precede and the elements it precedes. So it lands after every element with an equal key |
| ContactList.InsertFreshKeepsUnique | ContactsManager/ContactManager.swift:137-147 | inserting a contact whose id is absent keeps ids unique |
| ContactList.SortContacts | ContactsManager/ContactManager.swift:107-111 | the re-sort returns a permutation of its input that is sorted under the given configuration |
| ContactList.RemoveId | ContactsManager/ContactManager.swift:75 | after `removeAll` by id no element carries the id. Every other contact keeps its number of occurrences |
| ContactList.RemoveIdKeepsOrder | ContactsManager/ContactManager.swift:75 | the remaining elements are a subsequence of the original, in their original relative order |
| ContactList.RemoveIdKeepsSorted | ContactsManager/ContactManager.swift:75 | removing by id keeps a sorted collection sorted |
| ContactList.RemoveIdDropsId | ContactsManager/ContactManager.swift:75 | the id is absent from the ids of the result |
| ContactList.RemoveAbsentId | ContactsManager/ContactManager.swift:75 | removing an id no element carries changes nothing |
| ContactList.RemoveIdIdempotent | ContactsManager/ContactManager.swift:75 | removing the same id twice is the same as removing it once |
| ContactList.ReplaceById | ContactsManager/ContactManager.swift:85-89 | remove-then-insert leaves exactly one element with the contact's id, and that element is the contact. Other contacts keep their occurrences. Sortedness and unique ids are kept |
| Contacts.RawValue | ContactsManager/Contact.swift:14-15 | each case's raw value parses back to that same case |
| Contacts.ParseType | KPPhonebook/EditContactViewController.swift:53 | `Type(rawValue:)` succeeds on exactly "Work", "Cellphone" and "Home" |
| Contacts.RawValueInjective | ContactsManager/Contact.swift:14-15 | the three cases have three different raw values |
| Contacts.ParseTypeInverse | ContactsManager/Contact.swift:14-15 | a successful parse returns the case whose raw value is the input. A failed parse means no case has that raw value |
| Contacts.FullName | ContactsManager/Contact.swift:27-29 | `fullName` has length first + last + 1. It is the first name, a space, then the last name |
| Contacts.NewContact | ContactsManager/Contact.swift:36-45 | the initialiser stores the four given fields unchanged. The id is an opaque parameter |
| Contacts.ApplyEdit | ContactsManager/Contact.swift:20-25 | assigning one `var` field changes that field only, and never the `let` id |
| Contacts.LastAssignment | KPPhonebook/EditContactViewController.swift:59-63 | finds an assignment to the field among the edits, or reports that no edit assigns it |
| Contacts.LastAssignmentIsLast | KPPhonebook/EditContactViewController.swift:59-63 | no later edit assigns the field the found assignment writes |
| Contacts.ApplyEdits | ContactsManager/Contact.swift:20-25 | after any run of field assignments the id is unchanged. Every field holds the value of its last assignment, or its old value when never assigned |
| Contacts.EditFormAssignments | KPPhonebook/EditContactViewController.swift:59-63 | the edit form's four assignments leave the old id with the four new field values |
| Storage.Save | ContactsManager/StorageManager.swift:28-38 | while the directory exists, saving files the contact under its id, overwriting any earlier file, and leaves other ids alone. Without the directory nothing changes |
| Storage.Remove | ContactsManager/StorageManager.swift:40-49 | deleting drops the file for the id, if any, and leaves other files alone. Without the directory nothing changes |
| Storage.Clear | ContactsManager/StorageManager.swift:82-93 | deleting everything removes the directory and leaves no file |
| Storage.Retrieve | ContactsManager/StorageManager.swift:51-60 | reading an id yields the stored contact, or nothing when no entry exists |
| Storage.SaveRetrieve | ContactsManager/StorageManager.swift:28-60 | while the directory exists, a saved contact reads back field-for-field equal |
| Storage.SaveWithoutDirectory | ContactsManager/StorageManager.swift:34-37 | once the directory is gone, a save writes nothing, and every id reads back as before |
| Storage.SaveKeepsOthers | ContactsManager/StorageManager.swift:28-38 | saving one contact does not change what other ids read back |
| Storage.SaveAfterRemove | ContactsManager/StorageManager.swift:28-49 | delete-then-save under one id equals a plain save |
| Storage.RemoveIdempotent | ContactsManager/StorageManager.swift:40-49 | deleting twice equals deleting once |
| Storage.Opened | ContactsManager/StorageManager.swift:100-115 | the storage manager starts with the `Contacts` directory present, holding the given files |
| Storage.FilesOf | ContactsManager/StorageManager.swift:62-80 | the files hold exactly the ids of the loaded contacts. Every file is one of them, named by its own id |
| ContactManager.Init | ContactsManager/ContactManager.swift:38-43 | a fresh manager is ascending by first name. Its collection is a sorted permutation of what storage returned, the directory is present, and the invariant holds |
| ContactManager.Sort | ContactsManager/ContactManager.swift:53-57 | `sort` records both arguments and makes the collection a sorted permutation of what it was. The store is untouched |
| ContactManager.Create | ContactsManager/ContactManager.swift:61-66 | `create` adds exactly one occurrence and keeps the collection sorted. An entry with the same id stays. While the directory exists, the store gets the contact under its id |
| ContactManager.Delete | ContactsManager/ContactManager.swift:71-76 | `delete` leaves no entry with the id. Other entries keep their occurrences and relative order, and the collection stays sorted. The store entry is dropped |
| ContactManager.Update | ContactsManager/ContactManager.swift:81-91 | `update` leaves exactly one entry with the id, equal to the new value. Other entries are unchanged and the collection stays sorted |
| ContactManager.DeleteAll | ContactsManager/ContactManager.swift:95-100 | `deleteAll` empties the collection, removes the directory with all its files, and keeps the configuration |
| ContactManager.CreateAfterDeleteAllIsNotSaved | ContactsManager/ContactManager.swift:61-66 | a contact created after `deleteAll` is the whole collection, but no file exists for it |
| ContactManager.Apply | ContactsManager/ContactManager.swift:53-100 | every public operation keeps the invariant. Only `sort` changes the configuration |
| ContactManager.Run | ContactsManager/ContactManager.swift:53-100 | any sequence of operations keeps the collection sorted without a full re-sort. Without a `sort` call the configuration is unchanged |
| ContactManager.DeleteIdempotent | ContactsManager/ContactManager.swift:71-76 | deleting the same contact twice leaves the same state as deleting it once |
| ContactManager.UpdateIsDeleteThenCreate | ContactsManager/ContactManager.swift:81-91 | `update` equals `delete` followed by `create` of the new value |
| ContactManager.UpdateKeepsOthersInOrder | ContactsManager/ContactManager.swift:85-89 | after `update` the other entries keep their relative order: the result is the collection without the id, with the new value inserted at one position |
| ContactManager.UpdateUnknownId | ContactsManager/ContactManager.swift:81-91 | an update whose id matches no entry only inserts, exactly like `create` |
| ContactManager.UpdateIgnoresStore | ContactsManager/ContactManager.swift:85-89 | the collection after `update` depends on the collection and configuration only, not on the store |
| ContactManager.CreateTwoThenSort | ContactsManager/ContactManager.swift:53-66 | after two creates in a fresh manager, `sort` puts first the contact that precedes the other |
| ContactManager.SortScenario | ContactsManager/ContactManager.swift:53-66 | creating Bob and then Alice and sorting ascending by first name gives Alice, then Bob |
| ContactManager.UpdateScenario | ContactsManager/ContactManager.swift:81-91 | renaming Bob to Aaron then gives Aaron, then Alice |

## Left out

- File I/O in `StorageManager.swift`, meaning JSON encoding, `FileManager` and `Data.write`, is not modelled. The store is a directory flag and a map from id to contact.
- Storage.Save: the only write failure modelled is the missing directory after `deleteAll`. Other encode and write errors, which the source also swallows, are not modelled, so a save into an existing directory always succeeds here.
- Storage.Opened: assumes the `Contacts` directory is created at start-up. A failed creation and the `fatalError` when no documents directory exists are environment behaviour and are not modelled.
- `Init` does not model files that fail to parse, which `retrieveAllContacts` skips, or hidden files. It takes the list of contacts that storage returned, and the store starts with the directory present, holding exactly those contacts keyed by id.
- Id generation from `UUID()` and the clock is not modelled, because it is not deterministic. `NewContact` takes the id as a parameter.
- The `shared` singleton and the `NSObject` base class are left out. They do not affect behaviour.
- The presentation layer is left out: the table and edit view controllers, segues and the reload callback. The edit form appears only as the `Type(rawValue:)` parse and the field assignments it performs.
- StringOrder.Lower: models ASCII lower-casing only. Unicode case mapping and locale rules are not modelled.
- StringOrder.Less: models lexicographic order on code points rather than Swift's Unicode-aware string comparison. It is still a strict total order, which is all the comparator's properties need.
- ContactList.SortContacts: is one particular sorting algorithm, repeated sorted insertion. Its contract promises only a sorted permutation, because Swift's `sorted` does not guarantee stability.
- Codable conformance of `Contact` and `Type` is not modelled. The store holds contact values directly.
