# CrudApi contacts: a Dafny model

CrudApi is a small ASP.NET contacts API. It sits on a persistence layer that
can use an in-memory backend in place of a relational database. This project
models the contacts core of that system, over the in-memory backend:

- **The in-memory data list** (`InMemoryStore`). It holds four lists:
  Contacts, Names, Addresses and Phones. Each list has a data store with
  create, update, delete and read.
  - A create assigns the largest id in its list plus one (1 for an empty
    list) and appends a copy of the record.
  - An update overwrites the data fields of the first record with the
    entity's id.
  - A delete removes the first record with that id.
  - A Contacts read resolves each contact's Name, Address and Phones by
    ContactId.
- **The query specifications** (`ContactSpecs`): by id, the call list
  (contacts with a home phone), and everything.
- **The data context** (`DataContext`): Find, FindSingle, Add, Update and
  Delete, each followed by SaveChanges.
- **The request and response models** (`ContactModels`, `CallContact`):
  - validation of phone types;
  - the entry-to-entity builder;
  - the in-place entity updater used by Edit;
  - the entity-to-model mappers;
  - the call item, which picks the number of the first home phone.
- **The call-list order** (`CallOrdering`): by last name, then first name.
- **The controller actions** (`ContactsController`): Add, Edit, Delete, Get,
  GetAll and GetCallList, with their HTTP status codes.

`Scenarios` restates the repository's controller tests as lemmas about the
model.

Entities are values (datatypes). The data list is a `class` whose methods
reassign its four `seq` fields. `ContactEntryModel.UpdateEntity` is a method
that keeps the source's two `foreach` loops over the phone list.

Each method is proved against a specification function:

- `AfterAdd`, `AfterUpdate` and `AfterDelete` give the lists after a saved
  Add, Update or Delete.
- `UpdatedEntity` gives the entity after `UpdateEntity`.
- `ReadBack` gives what GET {id} answers.

The properties are proved about those functions:

- Ids stay distinct under every action.
- Each action's effect reads back through GET: Add then Get returns the
  posted entry, Edit then Get returns the edited entry, and Delete then Get
  finds nothing.
- Delete leaves every other contact as it was, and so does Edit over lists
  with distinct ids.
- The call list is sorted and holds exactly the contacts with a home phone.

The data-context behaviour comes from the CrudDatastore library, which is not
part of this model. It is stated as an assumption in `DataContext.dfy`:

- Add creates the contact, then its Name, its Address and each Phone, each
  child carrying the new ContactId.
- Update updates the contact. It updates a Name or Address the contact was
  read with, and creates one the contact lacked. It deletes every phone the
  contact was read with, by PhoneId, and then creates the new phones.
- Delete removes the contact row only.
- FindSingle returns the first match of Find.
- A contact read through the data context has its navigation properties
  filled in by ContactId. Its Name and its Address are the first matching
  record in list order, or null when none matches. Its Phones are every
  matching phone, in list order.

## Model

| member | source | states |
|---|---|---|
| Table.MaxKey | Persistence/InMemoryDataContextFactory.cs:44 | `Max(i => i.Id)` of a non-empty list: no id exceeds it, and some record has it |
| Table.NextKey | Persistence/InMemoryDataContextFactory.cs:44 | the id a create assigns is larger than every id in the list; it is 1 for an empty list, otherwise exactly one past the largest id |
| Table.AppendNextKey | Persistence/InMemoryDataContextFactory.cs:44-49 | appending a record that carries the assigned id keeps ids distinct, and the next create hands out the following id |
| Table.FindKey | Persistence/InMemoryDataContextFactory.cs:55 | `FirstOrDefault(i => i.Id == id)`: none exactly when no record has the id, otherwise the first index that has it |
| Table.FirstWithKey | Persistence/InMemoryDataContextFactory.cs:231-232 | the first record whose key is k, or none exactly when no record has k |
| Table.Updated | Persistence/InMemoryDataContextFactory.cs:53-60 | update lambda: the first record with the entity's id is overwritten and every other record is unchanged; with no such record the list is unchanged |
| Table.UpdatedKeepsKeys | Persistence/InMemoryDataContextFactory.cs:53-60 | an update whose overwrite keeps the id changes no id, so distinct ids stay distinct |
| Table.RemoveFirst | Persistence/InMemoryDataContextFactory.cs:68 | `List.Remove(x)`: the list is unchanged when x is absent, otherwise it is one shorter |
| Table.RemoveFirstAt | Persistence/InMemoryDataContextFactory.cs:68 | removing x whose first occurrence is at i cuts out position i and keeps the rest in order |
| Table.Deleted | Persistence/InMemoryDataContextFactory.cs:63-70 | delete lambda: with no record with the id the list is unchanged; otherwise exactly the first such record is cut out |
| Table.DeletedRemovesKey | Persistence/InMemoryDataContextFactory.cs:63-70 | over distinct ids, after a delete no record has the id, ids stay distinct, and every record left was in the list |
| Table.DeletedKeepsOtherKeys | Persistence/InMemoryDataContextFactory.cs:63-70 | a delete leaves the first record with any other id unchanged |
| Table.Filter | Persistence/InMemoryDataContextFactory.cs:78 | `Where(predicate)`: keeps exactly the records the predicate accepts, drawn from the list |
| Table.FilterAppend | Persistence/InMemoryDataContextFactory.cs:78 | filtering a concatenation concatenates the two filters |
| Table.FilterAll | Persistence/InMemoryDataContextFactory.cs:78 | a predicate that accepts every record keeps the whole list |
| Table.FilterNone | Persistence/InMemoryDataContextFactory.cs:78 | a predicate that accepts no record keeps nothing |
| Table.FilterAtMostOne | Persistence/InMemoryDataContextFactory.cs:78 | over distinct keys, a predicate that implies key == k keeps at most one record |
| Table.FilterFirst | Persistence/InMemoryDataContextFactory.cs:78 | when position i is the first accepted record, the filter's first element is that record |
| Table.FilterHead | Persistence/InMemoryDataContextFactory.cs:78 | the first record a non-empty filter keeps is the first record of the list the predicate accepts |
| Table.AllWithKey | Persistence/InMemoryDataContextFactory.cs:233 | the records owned by ContactId k: every one has owner k, and every record with owner k is among them |
| Table.AllWithKeyAppend | Persistence/InMemoryDataContextFactory.cs:233 | the records of a concatenation owned by k are those of the first part, then those of the second |
| Table.AllWithKeyNoneOrAll | Persistence/InMemoryDataContextFactory.cs:233 | a list where no record has owner k yields none; a list where every record has owner k yields itself |
| Table.DeletedEachRemovesKeys | Persistence/InMemoryDataContextFactory.cs:211-218 | deleting a list of phones one by one, by PhoneId, over distinct ids leaves no phone sharing an id with any of them |
| Table.UpdatedKeepsOtherOwner | Persistence/InMemoryDataContextFactory.cs:53-60 | an update of a record owned by another contact, keeping its owner, leaves the first record owned by ContactId o as it was |
| Table.AppendKeepsOtherOwner | Persistence/InMemoryDataContextFactory.cs:42-50 | a create of a record owned by another contact leaves the first record owned by ContactId o as it was |
| Table.DeletedKeepsOtherOwners | Persistence/InMemoryDataContextFactory.cs:63-70 | a delete that finds a record owned by another contact leaves the records owned by ContactId o as they were, in order |
| Table.DeletedEachKeepsOtherOwners | Persistence/InMemoryDataContextFactory.cs:211-218 | deleting one by one, by PhoneId, phones of a distinct-id list none of which belongs to ContactId o leaves the phones of o as they were, in order |
| InMemoryStore.Resolve | Persistence/InMemoryDataContextFactory.cs:230-233 | a resolved contact keeps its id and Email; its Name and Address are the first ones with its ContactId, or null when there is none; its Phones are non-null and hold exactly the phones with its ContactId |
| InMemoryStore.ResolveAll | Persistence/InMemoryDataContextFactory.cs:76-77 | one resolved contact per stored contact, in list order |
| InMemoryStore.ReadContacts | Persistence/InMemoryDataContextFactory.cs:73-80 | the Contacts read: resolved contacts that the predicate accepts, and every accepted one |
| InMemoryStore.ReadContactsAppend | Persistence/InMemoryDataContextFactory.cs:73-80 | the Contacts read keeps list order: reading contacts `a + b` gives the read of `a` followed by the read of `b` |
| InMemoryStore.InMemoryDataList.constructor | Persistence/InMemoryDataContextFactory.cs:12-18 | the data list holds the four given lists |
| InMemoryStore.InMemoryDataList.CreateContact | Persistence/InMemoryDataContextFactory.cs:42-50 | the caller's entity gets the next ContactId, and a copy carrying only the id and Email is appended |
| InMemoryStore.InMemoryDataList.UpdateContact | Persistence/InMemoryDataContextFactory.cs:53-60 | the Contacts list becomes `Updated` with the Email overwrite |
| InMemoryStore.InMemoryDataList.DeleteContact | Persistence/InMemoryDataContextFactory.cs:63-70 | the Contacts list becomes `Deleted` by ContactId |
| InMemoryStore.InMemoryDataList.CreateName | Persistence/InMemoryDataContextFactory.cs:89-100 | the caller's name gets the next NameId, and a copy of its ContactId and fields is appended |
| InMemoryStore.InMemoryDataList.UpdateName | Persistence/InMemoryDataContextFactory.cs:103-112 | the Names list becomes `Updated` by NameId, overwriting First, Middle and Last |
| InMemoryStore.InMemoryDataList.DeleteName | Persistence/InMemoryDataContextFactory.cs:115-122 | the Names list becomes `Deleted` by NameId |
| InMemoryStore.InMemoryDataList.CreateAddress | Persistence/InMemoryDataContextFactory.cs:137-149 | the caller's address gets the next AddressId, and a copy is appended |
| InMemoryStore.InMemoryDataList.UpdateAddress | Persistence/InMemoryDataContextFactory.cs:152-162 | the Addresses list becomes `Updated` by AddressId, overwriting Street, City, State and Zip |
| InMemoryStore.InMemoryDataList.DeleteAddress | Persistence/InMemoryDataContextFactory.cs:165-172 | the Addresses list becomes `Deleted` by AddressId |
| InMemoryStore.InMemoryDataList.CreatePhone | Persistence/InMemoryDataContextFactory.cs:187-197 | the caller's phone gets the next PhoneId, and a copy is appended |
| InMemoryStore.InMemoryDataList.UpdatePhone | Persistence/InMemoryDataContextFactory.cs:200-208 | the Phones list becomes `Updated` by PhoneId, overwriting Number and Type |
| InMemoryStore.InMemoryDataList.DeletePhone | Persistence/InMemoryDataContextFactory.cs:211-218 | the Phones list becomes `Deleted` by PhoneId |
| ContactSpecs.ContactSpec.Accepts | Persistence/Specifications/ContactSpecs.cs:14-27 | `Get(id)` accepts exactly the contacts with that ContactId; `GetCallList` accepts exactly the contacts whose Phones are not null and hold a phone of Type "home"; `GetAll` accepts every contact |
| ContactSpecs.CallListRejects | Persistence/Specifications/ContactSpecs.cs:21 | the call-list specification rejects null Phones, empty Phones, and phones none of which has Type "home" |
| ContactSpecs.CallListAcceptsAnyHome | Persistence/Specifications/ContactSpecs.cs:21 | one phone of Type "home", at any position, puts the contact on the call list |
| DataContext.Find | Persistence/InMemoryDataContextFactory.cs:73-80 | `Find(spec)` returns the resolved contacts the specification accepts, and every one it accepts |
| DataContext.FindSingle | Persistence/InMemoryDataContextFactory.cs:73-80 | the assumed `FindSingle(spec)`: none exactly when the specification accepts no stored contact, resolved; otherwise the first stored contact it accepts, resolved |
| DataContext.FindAllIsEveryContact | Persistence/Specifications/ContactSpecs.cs:24-27 | `GetAll` reads every stored contact, resolved, in list order |
| DataContext.FindByIdAtMostOne | Persistence/Specifications/ContactSpecs.cs:14-17 | over distinct ContactIds, `Get(id)` selects at most one contact |
| DataContext.FindSingleById | Persistence/Specifications/ContactSpecs.cs:14-17 | `FindSingle(Get(id))` finds a contact exactly when a stored contact has the id, and then it is the first such contact, resolved |
| DataContext.Stamped | Persistence/InMemoryDataContextFactory.cs:187-197 | phones created one after another for an owner carry consecutive PhoneIds from the next id, the owner's ContactId, and their own Number and Type |
| DataContext.StampedKeepsKeysDistinct | Persistence/InMemoryDataContextFactory.cs:189 | phones created after a list with distinct PhoneIds leave the PhoneIds distinct |
| DataContext.AfterAdd | CrudApi/Controllers/ContactsController.cs:33-34 | the assumed Add cascade: every list only grows at its end; one contact is appended, with the next ContactId and the entity's Email; one Name and one Address are appended exactly when the entity has them, and one phone per entity phone; every appended child carries the new ContactId |
| DataContext.SavedName | CrudApi/Controllers/ContactsController.cs:56-57 | the assumed Update cascade for the Name: no Name list change when the entity has none; an update keeps every NameId and ContactId; a Name is appended, carrying the contact's id and the entity's fields, exactly when the contact was read without one and now has one |
| DataContext.SavedAddress | CrudApi/Controllers/ContactsController.cs:56-57 | the Address counterpart of SavedName |
| DataContext.AfterUpdate | CrudApi/Controllers/ContactsController.cs:56-57 | the assumed Update cascade: the contacts keep their ids and the contact with the entity's id takes its Email; a Name or Address is added only when the contact lacked one; the list of phones ends with the entity's phones, in order, owned by the contact |
| DataContext.AfterDelete | CrudApi/Controllers/ContactsController.cs:78-79 | the assumed Delete: Names, Addresses and Phones are untouched; the Contacts list loses one record when some contact has the id, and gains none |
| DataContext.AddKeepsIdsDistinct | CrudApi/Controllers/ContactsController.cs:33-34 | a saved Add keeps the ids of all four lists distinct |
| DataContext.UpdateKeepsIdsDistinct | CrudApi/Controllers/ContactsController.cs:56-57 | a saved Update keeps the ids of all four lists distinct |
| DataContext.DeleteKeepsIdsDistinct | CrudApi/Controllers/ContactsController.cs:78-79 | a saved Delete keeps the ids of all four lists distinct |
| DataContext.CreatePhones | Persistence/InMemoryDataContextFactory.cs:187-197 | creating phones one by one appends them, stamped with the owner and consecutive ids |
| DataContext.DeletePhones | Persistence/InMemoryDataContextFactory.cs:211-218 | deleting phones one by one, by PhoneId, gives `DeletedEach` |
| DataContext.Add | CrudApi/Controllers/ContactsController.cs:33-34 | `context.Add(entity); SaveChanges()`: the entity gets the next ContactId and the lists become `AfterAdd` |
| DataContext.Update | CrudApi/Controllers/ContactsController.cs:56-57 | `context.Update(entity); SaveChanges()`: the lists become `AfterUpdate` |
| DataContext.Delete | CrudApi/Controllers/ContactsController.cs:78-79 | `context.Delete(entity); SaveChanges()`: only the contact row is removed |
| ContactModels.IsValid | CrudApi/Models/Contact.cs:18-26 | an entry is valid exactly when it has no phone list, or when every phone's Type is "home", "work" or "mobile" (a null Type is invalid) |
| ContactModels.ToEntity | CrudApi/Models/Contact.cs:28-72 | the entity has id 0 and the entry's Email; it has a Name or Address exactly when the entry does, with the same fields; its Phones are never null and match the entry's phones one for one |
| ContactModels.UpdatedEntity | CrudApi/Models/Contact.cs:74-147 | after UpdateEntity: the Email is overwritten; an existing Name or Address keeps its ids and takes the entry's fields, or is blanked when the entry has none; one is created only when the entry has one; the Phones are replaced by the entry's phones |
| ContactModels.UpdateEntity | CrudApi/Models/Contact.cs:74-147 | the in-place updater, with its two phone loops (remove each old phone, append each new one), computes `UpdatedEntity` |
| ContactModels.ToContact | CrudApi/Models/Contact.cs:154-195 | the model has the entity's id and Email; Name and Address are never null and copy the fields when the entity has them; Phone lists the entity's phones in order, and is empty for null or empty Phones |
| ContactModels.ToContacts | CrudApi/Models/Contact.cs:197-202 | one model per entity, in order |
| ContactModels.ToContactOfToEntity | CrudApi/Models/Contact.cs:154-195 | an entry mapped to an entity and back gives the entry, with absent Name and Address read back as blank and an absent phone list as empty |
| ContactModels.EditReadsBackAsAdd | CrudApi/Models/Contact.cs:74-147 | an edited entity reads back exactly as the same entry added afresh, under the entity's id |
| ContactModels.ToContactSameFields | CrudApi/Models/Contact.cs:154-195 | the model depends only on the id, the Email and the data fields of the Name, Address and Phones, never on the children's ids |
| CallContact.FirstHome | CrudApi/Models/CallContact.cs:28 | `FirstOrDefault(p => p.Type == "home")`: none exactly when there is no home phone, otherwise the first one |
| CallContact.ToCallItem | CrudApi/Models/CallContact.cs:13-36 | the Name is never null and copies the entity's name fields; the Phone is the Number of the first home phone, and null when there is none |
| CallContact.ToCallList | CrudApi/Models/CallContact.cs:38-43 | one call item per entity, in order |
| CallContact.CallListSpecMatchesItem | CrudApi/Models/CallContact.cs:26-33 | a contact is on the call list exactly when its call item draws its number from a home phone |
| CallContact.NonHomePhoneIgnored | CrudApi/Models/CallContact.cs:28 | a phone that is not a home phone, put in front, leaves the call item unchanged |
| CallOrdering.LexTotal | CrudApi/Controllers/ContactsController.cs:123-124 | the ordinal string order is total |
| CallOrdering.LexAntisymmetric | CrudApi/Controllers/ContactsController.cs:123-124 | the ordinal string order is antisymmetric |
| CallOrdering.LexTransitive | CrudApi/Controllers/ContactsController.cs:123-124 | the ordinal string order is transitive |
| CallOrdering.OptTotal | CrudApi/Controllers/ContactsController.cs:123-124 | the order with null first is total |
| CallOrdering.OptAntisymmetric | CrudApi/Controllers/ContactsController.cs:123-124 | the order with null first is antisymmetric |
| CallOrdering.OptTransitive | CrudApi/Controllers/ContactsController.cs:123-124 | the order with null first is transitive |
| CallOrdering.ByNameTotal | CrudApi/Controllers/ContactsController.cs:123-124 | the (Last, First) order is total |
| CallOrdering.ByNameTransitive | CrudApi/Controllers/ContactsController.cs:123-124 | the (Last, First) order is transitive |
| CallOrdering.Insert | CrudApi/Controllers/ContactsController.cs:123-124 | inserting an item adds exactly that item and keeps a sorted list sorted |
| CallOrdering.OrderByName | CrudApi/Controllers/ContactsController.cs:123-124 | `OrderBy(Last).ThenBy(First)`: the result is sorted by (Last, First) and is a permutation of the input |
| ContactsController.Add | CrudApi/Controllers/ContactsController.cs:25-41 | an invalid entry gets 400 and nothing changes; a valid one gets 201 with the new ContactId, and the lists become `AfterAdd` of the entry's entity |
| ContactsController.Edit | CrudApi/Controllers/ContactsController.cs:45-67 | an invalid entry gets 400 and nothing changes; an unknown id gets 204 and nothing changes; otherwise the contact read by id is updated from the entry and saved, with 202 |
| ContactsController.Delete | CrudApi/Controllers/ContactsController.cs:71-86 | an unknown id gets 204 and nothing changes; otherwise 202 and the first contact with the id is removed; Names, Addresses and Phones are untouched |
| ContactsController.Get | CrudApi/Controllers/ContactsController.cs:90-103 | an unknown id gets 204 and no body; otherwise 200 with the model of the first contact with the id, resolved |
| ContactsController.GetAll | CrudApi/Controllers/ContactsController.cs:106-113 | 200 with one model per stored contact, resolved, in list order |
| ContactsController.GetCallList | CrudApi/Controllers/ContactsController.cs:117-126 | 200 with the call items of exactly the contacts with a home phone, sorted by (Last, First) |
| ContactsController.ReadBack | CrudApi/Controllers/ContactsController.cs:90-103 | what GET {id} answers: nothing exactly when no contact has the id, otherwise the model of the first such contact |
| ContactsController.AddedNameReadsBack | Persistence/InMemoryDataContextFactory.cs:89-100 | a Name created for a ContactId that no Name carries is the Name that id resolves to |
| ContactsController.AddedAddressReadsBack | Persistence/InMemoryDataContextFactory.cs:137-149 | an Address created for a ContactId that no Address carries is the Address that id resolves to |
| ContactsController.AddedPhonesReadBack | Persistence/InMemoryDataContextFactory.cs:187-197 | phones created for a ContactId that no Phone carries are exactly the phones that id resolves to |
| ContactsController.AddThenGet | CrudApi/Controllers/ContactsController.cs:25-41 | GET of the id that POST answered with returns the posted entry, provided no Name, Address or Phone already carried that id |
| ContactsController.SavedNameReadsBack | Persistence/InMemoryDataContextFactory.cs:103-112 | over distinct NameIds, updating the Name a contact was read with, or creating one it lacked, makes the contact resolve to the new fields |
| ContactsController.SavedAddressReadsBack | Persistence/InMemoryDataContextFactory.cs:152-162 | the Address counterpart of SavedNameReadsBack |
| ContactsController.ReplacedPhonesReadBack | Persistence/InMemoryDataContextFactory.cs:211-218 | over distinct PhoneIds, deleting a contact's phones and creating new ones leaves it owning exactly the new ones |
| ContactsController.DeletedOwnPhones | Persistence/InMemoryDataContextFactory.cs:211-218 | over distinct PhoneIds, deleting by PhoneId every phone a contact owns leaves no phone it owns |
| ContactsController.EditThenGet | CrudApi/Controllers/ContactsController.cs:45-67 | over distinct ids, GET after PUT returns the entry the contact was edited with, exactly as if it had been posted, under its own id |
| ContactsController.SavedNameKeepsOthers | Persistence/InMemoryDataContextFactory.cs:103-112 | over distinct NameIds, saving a contact's Name leaves the Name every other contact resolves to as it was |
| ContactsController.SavedAddressKeepsOthers | Persistence/InMemoryDataContextFactory.cs:152-162 | the Address counterpart of SavedNameKeepsOthers |
| ContactsController.ReplacedPhonesKeepOthers | Persistence/InMemoryDataContextFactory.cs:211-218 | over distinct PhoneIds, replacing a contact's phones leaves every other contact's phones as they were, in order |
| ContactsController.EditKeepsOthers | CrudApi/Controllers/ContactsController.cs:45-67 | over distinct ids, PUT leaves the GET answer for every other id as it was |
| ContactsController.DeleteThenGet | CrudApi/Controllers/ContactsController.cs:71-86 | over distinct ContactIds, GET of a deleted id finds nothing |
| ContactsController.DeleteKeepsOthers | Persistence/InMemoryDataContextFactory.cs:63-70 | DELETE leaves the GET answer for every other id as it was |
| ContactsController.DeletingNewestFreesItsId | Persistence/InMemoryDataContextFactory.cs:44 | after the contact with the largest id is deleted, the next Add hands out an id no larger than the deleted one |
| ContactsController.ReaddedIdAdoptsLeftovers | Persistence/InMemoryDataContextFactory.cs:44 | contact 1 named "Old" is deleted and an entry named "New" is added; it gets id 1 again, and GET 1 answers with the name "Old" |
| Scenarios.AddRecordsEntry | CrudApi.Tests/ContactsControllerTests.cs:16-63 | the test entry is valid, and adding it to empty lists records one contact, one name, one address and two phones, all with ContactId 1 |
| Scenarios.InvalidEntryRefused | CrudApi.Tests/ContactsControllerTests.cs:66-113 | an entry with phone Type "INVALID" is invalid; `ContactsController.Add`'s contract then gives 400 and no change |
| Scenarios.EditOverwritesContact | CrudApi.Tests/ContactsControllerTests.cs:116-215 | editing contact 1 overwrites its Email, its Name's First and Last and its Address's Street, City, State and Zip in place and replaces its home phone by two phones that are not home phones |
| Scenarios.DeleteRemovesContact | CrudApi.Tests/ContactsControllerTests.cs:320-344 | deleting contact 1 leaves no contact |
| Scenarios.GetReadsContact | CrudApi.Tests/ContactsControllerTests.cs:374-439 | GET of contact 1 returns its Email, Name, Address and its one home phone |
| Scenarios.UnknownIdEditFindsNothing | CrudApi.Tests/ContactsControllerTests.cs:217-317 | on the Edit test's lists, no contact has id 2, so by `ContactsController.Edit`'s contract Edit answers 204 and nothing changes |
| Scenarios.UnknownIdDeleteChangesNothing | CrudApi.Tests/ContactsControllerTests.cs:346-371 | on the Delete test's lists (contact 1 alone), no contact has id 2, and deleting id 2 leaves the contact list unchanged |
| Scenarios.UnknownIdGetFindsNothing | CrudApi.Tests/ContactsControllerTests.cs:441-495 | on the Get test's lists, FindSingle finds nothing for id 2, so by `ContactsController.Get`'s contract Get answers 204 |
| Scenarios.GetAllReadsBoth | CrudApi.Tests/ContactsControllerTests.cs:498-585 | GetAll reads both contacts |
| Scenarios.TwoContactsOneOnCallList | CrudApi.Tests/ContactsControllerTests.cs:588-675 | of two contacts, only the one with a home phone is on the call list |

## Left out

- The CrudDatastore library is not part of this model: the unit of work, its pending-change tracking, its lifecycle events, data-store dispatch, navigation mapping and SaveChanges. What navigation mapping does with two records that match one contact is not visible in the source; the model takes the first, as listed above. `DataContext.dfy` states what its Add, Update, Delete and FindSingle are taken to do, as listed above. `DataContext.Add`, `DataContext.Update` and `DataContext.Delete` are proved against that statement, not against library code.
- Delete is taken not to cascade, so a deleted contact's Name, Address and Phones stay in their lists. `DeletingNewestFreesItsId` shows that the deleted id can be handed out again. A contact added under that id would then resolve to those leftover children, as `ReaddedIdAdoptsLeftovers` shows for a Name. This is why `AddThenGet` requires that no child already carries the new id.
- Persistence/EfDataContextFactory.cs and the relational backend are not part of this model. The data-context lifetime (`using`, disposal) is not modelled either.
- HTTP plumbing is not modelled: routing, model binding and serialisation. A status code is an `int`, and a body is an optional value.
- Aliasing and in-place mutation of entities are not modelled. In C#, `Add` writes the new ContactId back into the caller's entity, and `UpdateEntity` mutates the entity it was given. The model returns the changed value instead. No two references can share one entity.
- Edit with shared child ids is not modelled as the source behaves. In C#, the read lambdas hand out the stored objects themselves, so `UpdateEntity` writes the new fields straight into the contact's stored Name and Address. The update lambda then also overwrites the first Name (Address) with the same NameId (AddressId). The repository's own fixtures give every Name NameId 0. Editing contact 2 there changes both Names in the source. In the model, `DataContext.AfterUpdate` overwrites only the first Name with that NameId, which is contact 1's, so GET 2 still answers with the old name. The model agrees with the source's Edit when NameIds and AddressIds are distinct (`IdsDistinct`), which is what `EditThenGet` and `EditKeepsOthers` require.
- Table.NextKey: ids are unbounded integers; the source's `int` would wrap past 2147483647, which the model does not capture.
- ContactModels.IsValid: a null element in the entry's phone list is not modelled. The source would throw on it, and the model's phone list has no null elements.
- CallOrdering.OrderByName: `OrderBy`/`ThenBy` compare strings with the current culture's comparer. The model uses ordinal order (by character code, a proper prefix first, null first). The stability of LINQ's sort is not stated.
- The `Snapshot` function and the `Tables` datatype are model plumbing with no source counterpart.
