/**
 * The in-memory backend: an `InMemoryDataList` holding one list per entity
 * type, with the create/update/delete/read lambdas of its data stores, and
 * the navigation bindings that join a Contact to its Name, Address and Phones
 * by `ContactId` when contacts are read.
 */
module InMemoryStore {
  import opened Wrappers
  import opened Entities
  import opened Table

  /** The four lists, as one value: the state every read and every data-context effect is stated over. */
  datatype Tables = Tables(contacts: seq<Contact>, names: seq<Name>, addresses: seq<Address>, phones: seq<Phone>)

  // The copy a create lambda appends: the caller's fields under the new id.
  // A Contact copy carries only ContactId and Email, never navigation data.
  function StoredContact(e: Contact, id: int): Contact { Contact(id, None, None, None, e.email) }
  function StoredName(e: Name, id: int): Name { e.(nameId := id) }
  function StoredAddress(e: Address, id: int): Address { e.(addressId := id) }
  function StoredPhone(e: Phone, id: int): Phone { e.(phoneId := id) }

  // The data fields an update lambda copies into the record it finds; the
  // record's own id and its ContactId are never written.
  function OverwriteContact(stored: Contact, e: Contact): Contact { stored.(email := e.email) }
  function OverwriteName(stored: Name, e: Name): Name {
    stored.(first := e.first, middle := e.middle, last := e.last)
  }
  function OverwriteAddress(stored: Address, e: Address): Address {
    stored.(street := e.street, city := e.city, state := e.state, zip := e.zip)
  }
  function OverwritePhone(stored: Phone, e: Phone): Phone {
    stored.(number := e.number, phoneType := e.phoneType)
  }

  /**
   * Navigation resolution: a contact's Name and Address are the first records
   * whose ContactId equals its ContactId, its Phones all such phones in list
   * order (an empty list, never null). The bindings give only the join on
   * ContactId; taking the first of several matching Names or Addresses is an
   * assumption about the library's mapping, which is not part of this model.
   */
  function Resolve(t: Tables, c: Contact): (r: Contact)
    ensures r.contactId == c.contactId && r.email == c.email
    ensures r.name.None? <==> forall i :: 0 <= i < |t.names| ==> t.names[i].contactId != c.contactId
    ensures r.name.Some? ==> exists i :: 0 <= i < |t.names| && t.names[i] == r.name.value &&
                               t.names[i].contactId == c.contactId &&
                               forall j :: 0 <= j < i ==> t.names[j].contactId != c.contactId
    ensures r.address.None? <==> forall i :: 0 <= i < |t.addresses| ==> t.addresses[i].contactId != c.contactId
    ensures r.address.Some? ==> exists i :: 0 <= i < |t.addresses| && t.addresses[i] == r.address.value &&
                                  t.addresses[i].contactId == c.contactId &&
                                  forall j :: 0 <= j < i ==> t.addresses[j].contactId != c.contactId
    ensures r.phones.Some?
    ensures forall i :: 0 <= i < |r.phones.value| ==>
              r.phones.value[i] in t.phones && r.phones.value[i].contactId == c.contactId
    ensures forall i :: 0 <= i < |t.phones| && t.phones[i].contactId == c.contactId ==> t.phones[i] in r.phones.value
  {
    c.(name := FirstWithKey(t.names, NameOwner, c.contactId),
       address := FirstWithKey(t.addresses, AddressOwner, c.contactId),
       phones := Some(AllWithKey(t.phones, PhoneOwner, c.contactId)))
  }

  /** Every stored contact with its navigation properties resolved, in list order. */
  function ResolveAll(t: Tables): (r: seq<Contact>)
    ensures |r| == |t.contacts|
    ensures forall i :: 0 <= i < |r| ==> r[i] == Resolve(t, t.contacts[i])
  {
    seq(|t.contacts|, i requires 0 <= i < |t.contacts| => Resolve(t, t.contacts[i]))
  }

  /**
   * The Contacts read lambda: resolve every contact, then keep those the
   * predicate accepts, so a predicate may look at Name, Address and Phones.
   */
  function ReadContacts(t: Tables, p: Contact -> bool): (r: seq<Contact>)
    ensures forall i :: 0 <= i < |r| ==>
              p(r[i]) && exists j :: 0 <= j < |t.contacts| && r[i] == Resolve(t, t.contacts[j])
    ensures forall j :: 0 <= j < |t.contacts| && p(Resolve(t, t.contacts[j])) ==> Resolve(t, t.contacts[j]) in r
  {
    var all := ResolveAll(t);
    assert forall x :: x in all ==> exists j :: 0 <= j < |t.contacts| && x == Resolve(t, t.contacts[j]);
    Filter(all, p)
  }

  /**
   * The read keeps list order: reading contacts `a + b` gives the read of `a`
   * followed by the read of `b`, against the same Names, Addresses and Phones.
   */
  lemma ReadContactsAppend(t: Tables, a: seq<Contact>, b: seq<Contact>, p: Contact -> bool)
    ensures ReadContacts(t.(contacts := a + b), p) == ReadContacts(t.(contacts := a), p) + ReadContacts(t.(contacts := b), p)
  {
    var ta, tb, tab := t.(contacts := a), t.(contacts := b), t.(contacts := a + b);
    assert ResolveAll(tab) == ResolveAll(ta) + ResolveAll(tb) by {
      forall i | 0 <= i < |a| ensures Resolve(tab, (a + b)[i]) == Resolve(ta, a[i]) {
        assert (a + b)[i] == a[i];
      }
      forall i | |a| <= i < |a| + |b| ensures Resolve(tab, (a + b)[i]) == Resolve(tb, b[i - |a|]) {
        assert (a + b)[i] == b[i - |a|];
      }
    }
    FilterAppend(ResolveAll(ta), ResolveAll(tb), p);
  }

  /** The lists an `InMemoryDataList` holds; every data store of a unit of work works on these. */
  class InMemoryDataList {
    var contacts: seq<Contact>
    var names: seq<Name>
    var addresses: seq<Address>
    var phones: seq<Phone>

    constructor (contacts: seq<Contact>, names: seq<Name>, addresses: seq<Address>, phones: seq<Phone>)
      ensures this.contacts == contacts && this.names == names
      ensures this.addresses == addresses && this.phones == phones
    {
      this.contacts := contacts;
      this.names := names;
      this.addresses := addresses;
      this.phones := phones;
    }

    function Snapshot(): Tables
      reads this
    {
      Tables(contacts, names, addresses, phones)
    }

    /** Assigns the next ContactId, writes it back into the caller's entity and appends a copy. */
    method CreateContact(e: Contact) returns (created: Contact)
      modifies this`contacts
      ensures created == e.(contactId := NextKey(old(contacts), ContactKey))
      ensures contacts == old(contacts) + [StoredContact(e, created.contactId)]
    {
      var id := NextKey(contacts, ContactKey);
      created := e.(contactId := id);
      contacts := contacts + [StoredContact(created, id)];
    }

    /** Overwrites the Email of the first contact with the entity's ContactId, if any. */
    method UpdateContact(e: Contact)
      modifies this`contacts
      ensures contacts == Updated(old(contacts), ContactKey, OverwriteContact, e)
    {
      var found := FindKey(contacts, ContactKey, e.contactId);
      if found.Some? {
        contacts := contacts[found.value := OverwriteContact(contacts[found.value], e)];
      }
    }

    /** Removes the first contact with the entity's ContactId, if any. */
    method DeleteContact(e: Contact)
      modifies this`contacts
      ensures contacts == Deleted(old(contacts), ContactKey, e.contactId)
    {
      var found := FindKey(contacts, ContactKey, e.contactId);
      if found.Some? {
        contacts := RemoveFirst(contacts, contacts[found.value]);
      }
    }

    method CreateName(e: Name) returns (created: Name)
      modifies this`names
      ensures created == e.(nameId := NextKey(old(names), NameKey))
      ensures names == old(names) + [StoredName(e, created.nameId)]
    {
      var id := NextKey(names, NameKey);
      created := e.(nameId := id);
      names := names + [StoredName(created, id)];
    }

    method UpdateName(e: Name)
      modifies this`names
      ensures names == Updated(old(names), NameKey, OverwriteName, e)
    {
      var found := FindKey(names, NameKey, e.nameId);
      if found.Some? {
        names := names[found.value := OverwriteName(names[found.value], e)];
      }
    }

    method DeleteName(e: Name)
      modifies this`names
      ensures names == Deleted(old(names), NameKey, e.nameId)
    {
      var found := FindKey(names, NameKey, e.nameId);
      if found.Some? {
        names := RemoveFirst(names, names[found.value]);
      }
    }

    method CreateAddress(e: Address) returns (created: Address)
      modifies this`addresses
      ensures created == e.(addressId := NextKey(old(addresses), AddressKey))
      ensures addresses == old(addresses) + [StoredAddress(e, created.addressId)]
    {
      var id := NextKey(addresses, AddressKey);
      created := e.(addressId := id);
      addresses := addresses + [StoredAddress(created, id)];
    }

    method UpdateAddress(e: Address)
      modifies this`addresses
      ensures addresses == Updated(old(addresses), AddressKey, OverwriteAddress, e)
    {
      var found := FindKey(addresses, AddressKey, e.addressId);
      if found.Some? {
        addresses := addresses[found.value := OverwriteAddress(addresses[found.value], e)];
      }
    }

    method DeleteAddress(e: Address)
      modifies this`addresses
      ensures addresses == Deleted(old(addresses), AddressKey, e.addressId)
    {
      var found := FindKey(addresses, AddressKey, e.addressId);
      if found.Some? {
        addresses := RemoveFirst(addresses, addresses[found.value]);
      }
    }

    method CreatePhone(e: Phone) returns (created: Phone)
      modifies this`phones
      ensures created == e.(phoneId := NextKey(old(phones), PhoneKey))
      ensures phones == old(phones) + [StoredPhone(e, created.phoneId)]
    {
      var id := NextKey(phones, PhoneKey);
      created := e.(phoneId := id);
      phones := phones + [StoredPhone(created, id)];
    }

    method UpdatePhone(e: Phone)
      modifies this`phones
      ensures phones == Updated(old(phones), PhoneKey, OverwritePhone, e)
    {
      var found := FindKey(phones, PhoneKey, e.phoneId);
      if found.Some? {
        phones := phones[found.value := OverwritePhone(phones[found.value], e)];
      }
    }

    method DeletePhone(e: Phone)
      modifies this`phones
      ensures phones == Deleted(old(phones), PhoneKey, e.phoneId)
    {
      var found := FindKey(phones, PhoneKey, e.phoneId);
      if found.Some? {
        phones := RemoveFirst(phones, phones[found.value]);
      }
    }
  }
}
