/**
 * The actions of the contacts API over an in-memory data list. Each action
 * opens a data context, validates, looks up, mutates, saves and answers with
 * an HTTP status code and, where the action has one, a body.
 */
module ContactsController {
  import opened Wrappers
  import opened Entities
  import opened Table
  import opened InMemoryStore
  import opened ContactSpecs
  import opened ContactModels
  import opened CallContact
  import opened CallOrdering
  import DataContext

  /**
   * POST: an invalid entry is refused with 400 before any data context is
   * opened; a valid one is stored with its children and answered with 201
   * and the new ContactId.
   */
  method Add(db: InMemoryDataList, contact: ContactEntryModel) returns (status: int, body: Option<ContactResponseModel>)
    modifies db
    ensures !IsValid(contact) ==> status == 400 && body.None? && unchanged(db)
    ensures IsValid(contact) ==> status == 201 && body == Some(ContactResponseModel(NextKey(old(db.contacts), ContactKey)))
    ensures IsValid(contact) ==> db.Snapshot() == DataContext.AfterAdd(old(db.Snapshot()), ToEntity(contact))
  {
    if IsValid(contact) {
      var entity := ToEntity(contact);
      entity := DataContext.Add(db, entity);
      return 201, Some(ContactResponseModel(entity.contactId));
    }
    return 400, None;
  }

  /**
   * PUT {id}: validity is checked first (400); an id no contact has is
   * answered with 204 and changes nothing; otherwise the contact read by id
   * is updated from the entry, saved, and the answer is 202.
   */
  method Edit(db: InMemoryDataList, id: int, contact: ContactEntryModel) returns (status: int)
    modifies db
    ensures !IsValid(contact) ==> status == 400 && unchanged(db)
    ensures IsValid(contact) && FindKey(old(db.contacts), ContactKey, id).None? ==> status == 204 && unchanged(db)
    ensures IsValid(contact) && FindKey(old(db.contacts), ContactKey, id).Some? ==>
              var found := Resolve(old(db.Snapshot()), old(db.contacts)[FindKey(old(db.contacts), ContactKey, id).value]);
              status == 202 && db.Snapshot() == DataContext.AfterUpdate(old(db.Snapshot()), found, UpdatedEntity(contact, found))
  {
    if IsValid(contact) {
      DataContext.FindSingleById(db.Snapshot(), id);
      var found := DataContext.FindSingle(db.Snapshot(), ContactSpec.Get(id));
      if found.Some? {
        var entity := UpdateEntity(contact, found.value);
        DataContext.Update(db, found.value, entity);
        return 202;
      }
      return 204;
    }
    return 400;
  }

  /**
   * DELETE {id}: no validation; the first contact with the id is removed and
   * the answer is 202, or, with no such contact, 204 and nothing changes.
   */
  method Delete(db: InMemoryDataList, id: int) returns (status: int)
    modifies db
    ensures FindKey(old(db.contacts), ContactKey, id).None? ==> status == 204 && unchanged(db)
    ensures FindKey(old(db.contacts), ContactKey, id).Some? ==> status == 202
    ensures db.contacts == Deleted(old(db.contacts), ContactKey, id)
    ensures db.names == old(db.names) && db.addresses == old(db.addresses) && db.phones == old(db.phones)
  {
    DataContext.FindSingleById(db.Snapshot(), id);
    var found := DataContext.FindSingle(db.Snapshot(), ContactSpec.Get(id));
    if found.Some? {
      DataContext.Delete(db, found.value);
      return 202;
    }
    return 204;
  }

  /**
   * GET {id}: 200 with the model of the first contact with the id, its Name,
   * Address and Phones resolved; 204 and no body when there is none.
   */
  method Get(db: InMemoryDataList, id: int) returns (status: int, body: Option<ContactModel>)
    ensures FindKey(db.contacts, ContactKey, id).None? ==> status == 204 && body.None?
    ensures FindKey(db.contacts, ContactKey, id).Some? ==>
              status == 200 &&
              body == Some(ToContact(Resolve(db.Snapshot(), db.contacts[FindKey(db.contacts, ContactKey, id).value])))
  {
    DataContext.FindSingleById(db.Snapshot(), id);
    var found := DataContext.FindSingle(db.Snapshot(), ContactSpec.Get(id));
    if found.Some? {
      return 200, Some(ToContact(found.value));
    }
    return 204, None;
  }

  /** GET: 200 with one model per stored contact, resolved, in list order. */
  method GetAll(db: InMemoryDataList) returns (status: int, body: seq<ContactModel>)
    ensures status == 200
    ensures |body| == |db.contacts|
    ensures forall i :: 0 <= i < |body| ==> body[i] == ToContact(Resolve(db.Snapshot(), db.contacts[i]))
  {
    DataContext.FindAllIsEveryContact(db.Snapshot());
    var entities := DataContext.Find(db.Snapshot(), ContactSpec.GetAll);
    return 200, ToContacts(entities);
  }

  /**
   * GET call-list: 200 with the call items of exactly the contacts that have
   * a home phone, sorted by last name, then first name.
   */
  method GetCallList(db: InMemoryDataList) returns (status: int, body: seq<CallContactModel>)
    ensures status == 200
    ensures SortedByName(body)
    ensures multiset(body) == multiset(ToCallList(DataContext.Find(db.Snapshot(), ContactSpec.GetCallList)))
  {
    var entities := DataContext.Find(db.Snapshot(), ContactSpec.GetCallList);
    return 200, OrderByName(ToCallList(entities));
  }

  /** What GET {id} answers over the lists `t`: the model of the contact with the id, if any. */
  function ReadBack(t: Tables, id: int): (r: Option<ContactModel>)
    ensures r.None? <==> FindKey(t.contacts, ContactKey, id).None?
    ensures r.Some? ==> r.value == ToContact(Resolve(t, t.contacts[FindKey(t.contacts, ContactKey, id).value]))
  {
    DataContext.FindSingleById(t, id);
    match DataContext.FindSingle(t, ContactSpec.Get(id))
    case None => None
    case Some(c) => Some(ToContact(c))
  }

  /** No Name, Address or Phone carries ContactId `id`. */
  predicate Unowned(t: Tables, id: int) {
    && (forall i :: 0 <= i < |t.names| ==> t.names[i].contactId != id)
    && (forall i :: 0 <= i < |t.addresses| ==> t.addresses[i].contactId != id)
    && (forall i :: 0 <= i < |t.phones| ==> t.phones[i].contactId != id)
  }

  /** A Name created for a contact whose id no Name carries is the one its id reads back. */
  lemma AddedNameReadsBack(names: seq<Name>, id: int, n: Option<Name>)
    requires forall i :: 0 <= i < |names| ==> names[i].contactId != id
    ensures var r := FirstWithKey(names + (if n.Some? then [StoredName(n.value.(contactId := id), NextKey(names, NameKey))]
                                           else []), NameOwner, id);
            && (r.Some? <==> n.Some?)
            && (r.Some? ==> r.value.first == n.value.first && r.value.middle == n.value.middle &&
                            r.value.last == n.value.last)
  {
    if n.Some? {
      FindKeyAppend(names, StoredName(n.value.(contactId := id), NextKey(names, NameKey)), NameOwner, id);
    } else {
      assert names + [] == names;
    }
  }

  /** The Address counterpart of `AddedNameReadsBack`. */
  lemma AddedAddressReadsBack(addresses: seq<Address>, id: int, a: Option<Address>)
    requires forall i :: 0 <= i < |addresses| ==> addresses[i].contactId != id
    ensures var r := FirstWithKey(addresses + (if a.Some? then [StoredAddress(a.value.(contactId := id),
                                                                              NextKey(addresses, AddressKey))]
                                               else []), AddressOwner, id);
            && (r.Some? <==> a.Some?)
            && (r.Some? ==> r.value.street == a.value.street && r.value.city == a.value.city &&
                            r.value.state == a.value.state && r.value.zip == a.value.zip)
  {
    if a.Some? {
      FindKeyAppend(addresses, StoredAddress(a.value.(contactId := id), NextKey(addresses, AddressKey)),
                    AddressOwner, id);
    } else {
      assert addresses + [] == addresses;
    }
  }

  /** Phones created for a contact whose id no Phone carries are exactly the phones its id reads back. */
  lemma AddedPhonesReadBack(phones: seq<Phone>, id: int, ps: seq<Phone>)
    requires forall i :: 0 <= i < |phones| ==> phones[i].contactId != id
    ensures var st := DataContext.Stamped(ps, NextKey(phones, PhoneKey), id);
            AllWithKey(phones + st, PhoneOwner, id) == st
  {
    var st := DataContext.Stamped(ps, NextKey(phones, PhoneKey), id);
    AllWithKeyAppend(phones, st, PhoneOwner, id);
    AllWithKeyNoneOrAll(phones, PhoneOwner, id);
    AllWithKeyNoneOrAll(st, PhoneOwner, id);
  }

  /**
   * POST then GET: reading back the id Add answered with gives the posted
   * entry, provided no Name, Address or Phone already carried that id.
   */
  lemma AddThenGet(t: Tables, m: ContactEntryModel)
    requires Unowned(t, NextKey(t.contacts, ContactKey))
    ensures ReadBack(DataContext.AfterAdd(t, ToEntity(m)), NextKey(t.contacts, ContactKey))
            == Some(ToContact(ToEntity(m)).(id := NextKey(t.contacts, ContactKey)))
  {
    var id := NextKey(t.contacts, ContactKey);
    var e := ToEntity(m);
    var t' := DataContext.AfterAdd(t, e);
    var stored := StoredContact(e, id);
    FindKeyAppend(t.contacts, stored, ContactKey, id);
    AddedNameReadsBack(t.names, id, e.name);
    AddedAddressReadsBack(t.addresses, id, e.address);
    AddedPhonesReadBack(t.phones, id, e.phones.GetOr([]));
    ToContactSameFields(Resolve(t', stored), e.(contactId := id));
  }

  /** Updating a Name read as the contact's first Name, or creating one it lacked, reads back as the new fields. */
  lemma SavedNameReadsBack(names: seq<Name>, id: int, after: Option<Name>)
    requires KeysDistinct(names, NameKey)
    requires after.None? ==> FirstWithKey(names, NameOwner, id).None?
    requires after.Some? && FirstWithKey(names, NameOwner, id).Some? ==>
               after.value.nameId == FirstWithKey(names, NameOwner, id).value.nameId
    ensures var r := FirstWithKey(DataContext.SavedName(names, FirstWithKey(names, NameOwner, id), after, id), NameOwner, id);
            && (r.Some? <==> after.Some?)
            && (r.Some? ==> r.value.first == after.value.first && r.value.middle == after.value.middle &&
                            r.value.last == after.value.last)
  {
    var before := FirstWithKey(names, NameOwner, id);
    if after.Some? {
      var n := after.value;
      var saved := DataContext.SavedName(names, before, after, id);
      if before.Some? {
        var i := FindKey(names, NameOwner, id).value;
        FindKeyOfDistinct(names, NameKey, i);
        assert saved[i] == OverwriteName(names[i], n);
        FindKeySameKeys(names, saved, NameOwner, id);
      } else {
        FindKeyAppend(names, StoredName(n.(contactId := id), NextKey(names, NameKey)), NameOwner, id);
      }
    }
  }

  /** The Address counterpart of `SavedNameReadsBack`. */
  lemma SavedAddressReadsBack(addresses: seq<Address>, id: int, after: Option<Address>)
    requires KeysDistinct(addresses, AddressKey)
    requires after.None? ==> FirstWithKey(addresses, AddressOwner, id).None?
    requires after.Some? && FirstWithKey(addresses, AddressOwner, id).Some? ==>
               after.value.addressId == FirstWithKey(addresses, AddressOwner, id).value.addressId
    ensures var r := FirstWithKey(DataContext.SavedAddress(addresses, FirstWithKey(addresses, AddressOwner, id), after, id),
                                  AddressOwner, id);
            && (r.Some? <==> after.Some?)
            && (r.Some? ==> r.value.street == after.value.street && r.value.city == after.value.city &&
                            r.value.state == after.value.state && r.value.zip == after.value.zip)
  {
    var before := FirstWithKey(addresses, AddressOwner, id);
    if after.Some? {
      var a := after.value;
      var saved := DataContext.SavedAddress(addresses, before, after, id);
      if before.Some? {
        var i := FindKey(addresses, AddressOwner, id).value;
        FindKeyOfDistinct(addresses, AddressKey, i);
        assert saved[i] == OverwriteAddress(addresses[i], a);
        FindKeySameKeys(addresses, saved, AddressOwner, id);
      } else {
        FindKeyAppend(addresses, StoredAddress(a.(contactId := id), NextKey(addresses, AddressKey)), AddressOwner, id);
      }
    }
  }

  /** Deleting a contact's phones by PhoneId and creating the new ones leaves exactly the new ones owned by it. */
  lemma ReplacedPhonesReadBack(phones: seq<Phone>, id: int, ps: seq<Phone>)
    requires KeysDistinct(phones, PhoneKey)
    ensures var kept := DeletedEach(phones, PhoneKey, AllWithKey(phones, PhoneOwner, id));
            var st := DataContext.Stamped(ps, NextKey(kept, PhoneKey), id);
            AllWithKey(kept + st, PhoneOwner, id) == st
  {
    var kept := DeletedEach(phones, PhoneKey, AllWithKey(phones, PhoneOwner, id));
    var st := DataContext.Stamped(ps, NextKey(kept, PhoneKey), id);
    DeletedOwnPhones(phones, id);
    AllWithKeyAppend(kept, st, PhoneOwner, id);
    AllWithKeyNoneOrAll(kept, PhoneOwner, id);
    AllWithKeyNoneOrAll(st, PhoneOwner, id);
  }

  /** Deleting, by PhoneId, every phone a contact owns leaves no phone it owns. */
  lemma DeletedOwnPhones(phones: seq<Phone>, id: int)
    requires KeysDistinct(phones, PhoneKey)
    ensures var kept := DeletedEach(phones, PhoneKey, AllWithKey(phones, PhoneOwner, id));
            forall i :: 0 <= i < |kept| ==> kept[i].contactId != id
  {
    var gone := AllWithKey(phones, PhoneOwner, id);
    var kept := DeletedEach(phones, PhoneKey, gone);
    DeletedEachRemovesKeys(phones, PhoneKey, gone);
    forall i | 0 <= i < |kept| ensures kept[i].contactId != id {
      assert kept[i] !in gone by {
        forall j | 0 <= j < |gone| ensures gone[j] != kept[i] {
          assert PhoneKey(kept[i]) != PhoneKey(gone[j]);
        }
      }
      var l :| 0 <= l < |phones| && phones[l] == kept[i];
    }
  }

  /**
   * GET, PUT then GET: over lists with distinct ids, reading back an edited
   * contact gives the entry it was edited with, exactly as if it had been
   * posted, under the contact's own id.
   */
  lemma EditThenGet(t: Tables, id: int, m: ContactEntryModel)
    requires DataContext.IdsDistinct(t)
    requires FindKey(t.contacts, ContactKey, id).Some?
    ensures var found := Resolve(t, t.contacts[FindKey(t.contacts, ContactKey, id).value]);
            ReadBack(DataContext.AfterUpdate(t, found, UpdatedEntity(m, found)), id)
            == Some(ToContact(ToEntity(m)).(id := id))
  {
    var k := FindKey(t.contacts, ContactKey, id).value;
    var found := Resolve(t, t.contacts[k]);
    var u := UpdatedEntity(m, found);
    var t' := DataContext.AfterUpdate(t, found, u);
    UpdatedKeepsKeys(t.contacts, ContactKey, OverwriteContact, u);
    FindKeySameKeys(t.contacts, t'.contacts, ContactKey, id);
    var c := Resolve(t', t'.contacts[k]);
    SavedNameReadsBack(t.names, id, u.name);
    SavedAddressReadsBack(t.addresses, id, u.address);
    ReplacedPhonesReadBack(t.phones, id, u.phones.GetOr([]));
    ToContactSameFields(c, u);
    EditReadsBackAsAdd(m, found);
  }

  /** Saving a contact's Name leaves the first Name of every other contact as it was. */
  lemma SavedNameKeepsOthers(names: seq<Name>, id: int, after: Option<Name>, other: int)
    requires KeysDistinct(names, NameKey) && other != id
    requires after.Some? && FirstWithKey(names, NameOwner, id).Some? ==>
               after.value.nameId == FirstWithKey(names, NameOwner, id).value.nameId
    ensures FirstWithKey(DataContext.SavedName(names, FirstWithKey(names, NameOwner, id), after, id), NameOwner, other)
            == FirstWithKey(names, NameOwner, other)
  {
    var before := FirstWithKey(names, NameOwner, id);
    if after.Some? {
      var n := after.value;
      if before.Some? {
        var i := FindKey(names, NameOwner, id).value;
        FindKeyOfDistinct(names, NameKey, i);
        UpdatedKeepsOtherOwner(names, NameKey, NameOwner, OverwriteName, n, other);
      } else {
        AppendKeepsOtherOwner(names, StoredName(n.(contactId := id), NextKey(names, NameKey)), NameOwner, other);
      }
    }
  }

  /** The Address counterpart of `SavedNameKeepsOthers`. */
  lemma SavedAddressKeepsOthers(addresses: seq<Address>, id: int, after: Option<Address>, other: int)
    requires KeysDistinct(addresses, AddressKey) && other != id
    requires after.Some? && FirstWithKey(addresses, AddressOwner, id).Some? ==>
               after.value.addressId == FirstWithKey(addresses, AddressOwner, id).value.addressId
    ensures FirstWithKey(DataContext.SavedAddress(addresses, FirstWithKey(addresses, AddressOwner, id), after, id),
                         AddressOwner, other)
            == FirstWithKey(addresses, AddressOwner, other)
  {
    var before := FirstWithKey(addresses, AddressOwner, id);
    if after.Some? {
      var a := after.value;
      if before.Some? {
        var i := FindKey(addresses, AddressOwner, id).value;
        FindKeyOfDistinct(addresses, AddressKey, i);
        UpdatedKeepsOtherOwner(addresses, AddressKey, AddressOwner, OverwriteAddress, a, other);
      } else {
        AppendKeepsOtherOwner(addresses, StoredAddress(a.(contactId := id), NextKey(addresses, AddressKey)),
                              AddressOwner, other);
      }
    }
  }

  /** Replacing a contact's phones leaves the phones of every other contact as they were, in order. */
  lemma ReplacedPhonesKeepOthers(phones: seq<Phone>, id: int, ps: seq<Phone>, other: int)
    requires KeysDistinct(phones, PhoneKey) && other != id
    ensures var kept := DeletedEach(phones, PhoneKey, AllWithKey(phones, PhoneOwner, id));
            var st := DataContext.Stamped(ps, NextKey(kept, PhoneKey), id);
            AllWithKey(kept + st, PhoneOwner, other) == AllWithKey(phones, PhoneOwner, other)
  {
    var gone := AllWithKey(phones, PhoneOwner, id);
    var kept := DeletedEach(phones, PhoneKey, gone);
    var st := DataContext.Stamped(ps, NextKey(kept, PhoneKey), id);
    DeletedEachKeepsOtherOwners(phones, PhoneKey, PhoneOwner, gone, other);
    AllWithKeyAppend(kept, st, PhoneOwner, other);
    AllWithKeyNoneOrAll(st, PhoneOwner, other);
  }

  /** PUT leaves what GET answers for every other id as it was, over lists with distinct ids. */
  lemma EditKeepsOthers(t: Tables, id: int, m: ContactEntryModel, other: int)
    requires DataContext.IdsDistinct(t)
    requires FindKey(t.contacts, ContactKey, id).Some? && other != id
    ensures var found := Resolve(t, t.contacts[FindKey(t.contacts, ContactKey, id).value]);
            ReadBack(DataContext.AfterUpdate(t, found, UpdatedEntity(m, found)), other) == ReadBack(t, other)
  {
    var k := FindKey(t.contacts, ContactKey, id).value;
    var found := Resolve(t, t.contacts[k]);
    var u := UpdatedEntity(m, found);
    var t' := DataContext.AfterUpdate(t, found, u);
    UpdatedKeepsKeys(t.contacts, ContactKey, OverwriteContact, u);
    FindKeySameKeys(t.contacts, t'.contacts, ContactKey, other);
    if FindKey(t.contacts, ContactKey, other).Some? {
      var j := FindKey(t.contacts, ContactKey, other).value;
      assert t'.contacts[j] == t.contacts[j];
      var x := t.contacts[j];
      SavedNameKeepsOthers(t.names, id, u.name, other);
      SavedAddressKeepsOthers(t.addresses, id, u.address, other);
      ReplacedPhonesKeepOthers(t.phones, id, u.phones.GetOr([]), other);
      assert Resolve(t', x) == Resolve(t, x);
    }
  }

  /** DELETE then GET: over distinct ids, a deleted contact is no longer found. */
  lemma DeleteThenGet(t: Tables, id: int)
    requires KeysDistinct(t.contacts, ContactKey)
    requires FindKey(t.contacts, ContactKey, id).Some?
    ensures var found := Resolve(t, t.contacts[FindKey(t.contacts, ContactKey, id).value]);
            ReadBack(DataContext.AfterDelete(t, found), id).None?
  {
    var found := Resolve(t, t.contacts[FindKey(t.contacts, ContactKey, id).value]);
    DeletedRemovesKey(t.contacts, ContactKey, id);
  }

  /** DELETE leaves what GET answers for every other id as it was. */
  lemma DeleteKeepsOthers(t: Tables, id: int, other: int)
    requires FindKey(t.contacts, ContactKey, id).Some? && other != id
    ensures var found := Resolve(t, t.contacts[FindKey(t.contacts, ContactKey, id).value]);
            ReadBack(DataContext.AfterDelete(t, found), other) == ReadBack(t, other)
  {
    var found := Resolve(t, t.contacts[FindKey(t.contacts, ContactKey, id).value]);
    var t' := DataContext.AfterDelete(t, found);
    DeletedKeepsOtherKeys(t.contacts, ContactKey, id, other);
    if FindKey(t.contacts, ContactKey, other).Some? {
      var x := t.contacts[FindKey(t.contacts, ContactKey, other).value];
      assert t'.contacts[FindKey(t'.contacts, ContactKey, other).value] == x;
      assert Resolve(t', x) == Resolve(t, x);
    }
  }

  /**
   * Ids are not reserved: once the contact with the largest id is deleted,
   * the next Add hands out an id no larger than the deleted one.
   */
  lemma DeletingNewestFreesItsId(t: Tables, id: int)
    requires KeysDistinct(t.contacts, ContactKey)
    requires |t.contacts| > 0 && id == NextKey(t.contacts, ContactKey) - 1 && id >= 1
    ensures FindKey(t.contacts, ContactKey, id).Some?
    ensures var found := Resolve(t, t.contacts[FindKey(t.contacts, ContactKey, id).value]);
            NextKey(DataContext.AfterDelete(t, found).contacts, ContactKey) <= id
  {
    var found := Resolve(t, t.contacts[FindKey(t.contacts, ContactKey, id).value]);
    var r := DataContext.AfterDelete(t, found).contacts;
    DeletedRemovesKey(t.contacts, ContactKey, id);
    assert forall i :: 0 <= i < |r| ==> ContactKey(r[i]) < id;
  }

  /**
   * Since Delete leaves a contact's children in place and its id can be handed
   * out again, a contact added under that id resolves to the leftover Name:
   * contact 1, named "Old", is deleted, and an entry named "New" is then added
   * as contact 1; GET 1 answers with the name "Old".
   */
  lemma ReaddedIdAdoptsLeftovers()
    ensures var t := Tables([Contact(1, None, None, None, None)], [Name(1, 1, Some("Old"), None, None)], [], []);
            var gone := DataContext.AfterDelete(t, Resolve(t, t.contacts[0]));
            var entry := ContactEntryModel(Some(NameModel(Some("New"), None, None)), None, None, None);
            var back := ReadBack(DataContext.AfterAdd(gone, ToEntity(entry)), 1);
            back.Some? && back.value.name == Some(NameModel(Some("Old"), None, None)) && back.value.name != entry.name
  {
    var t := Tables([Contact(1, None, None, None, None)], [Name(1, 1, Some("Old"), None, None)], [], []);
    var gone := DataContext.AfterDelete(t, Resolve(t, t.contacts[0]));
    assert gone.contacts == [];
    var entry := ContactEntryModel(Some(NameModel(Some("New"), None, None)), None, None, None);
    var t2 := DataContext.AfterAdd(gone, ToEntity(entry));
    assert t2.contacts[0].contactId == 1 && |t2.contacts| == 1;
    assert t2.names[0] == Name(1, 1, Some("Old"), None, None);
    FindKeyAppend([], t2.contacts[0], ContactKey, 1);
    assert FindKey(t2.contacts, ContactKey, 1) == Some(0);
    assert Resolve(t2, t2.contacts[0]).name == Some(t2.names[0]);
  }
}
