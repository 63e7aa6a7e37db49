/**
 * The data context the controller works through, over the in-memory
 * backend. `Find` and `FindSingle` read contacts through a specification;
 * `Add`, `Update` and `Delete` (each followed by `SaveChanges`) apply the
 * data stores' create/update/delete to the contact and, for Add and Update,
 * cascade to its Name, Address and Phones.
 *
 * The cascade belongs to the CrudDatastore library, which is not part of
 * this model; what it does is stated here as an assumption:
 *  - Add creates the contact, then its Name, its Address and each of its
 *    Phones, each child carrying the new ContactId;
 *  - Update updates the contact; a Name (Address) the contact was read with
 *    is updated, one it was read without is created; every phone it was read
 *    with is deleted and every phone it now holds is created;
 *  - Delete deletes the contact row only;
 *  - a contact read back has the first Name and Address with its ContactId
 *    and every phone with it (see `InMemoryStore.Resolve`).
 */
module DataContext {
  import opened Wrappers
  import opened Entities
  import opened Table
  import opened InMemoryStore
  import opened ContactSpecs

  /** The specification's predicate, as the expression handed to the store's read. */
  function SpecPredicate(spec: ContactSpec): Contact -> bool {
    c => spec.Accepts(c)
  }

  /** `Find(spec)`: the resolved contacts the specification accepts, in list order. */
  function Find(t: Tables, spec: ContactSpec): (r: seq<Contact>)
    ensures forall i :: 0 <= i < |r| ==>
              spec.Accepts(r[i]) && exists j :: 0 <= j < |t.contacts| && r[i] == Resolve(t, t.contacts[j])
    ensures forall j :: 0 <= j < |t.contacts| && spec.Accepts(Resolve(t, t.contacts[j])) ==>
              Resolve(t, t.contacts[j]) in r
  {
    ReadContacts(t, SpecPredicate(spec))
  }

  /** `FindSingle(spec)`: the first contact `Find` returns, or null. */
  function FindSingle(t: Tables, spec: ContactSpec): (r: Option<Contact>)
    ensures r.None? <==> forall j :: 0 <= j < |t.contacts| ==> !spec.Accepts(Resolve(t, t.contacts[j]))
    ensures r.Some? ==> exists j :: 0 <= j < |t.contacts| && r.value == Resolve(t, t.contacts[j]) &&
                          spec.Accepts(r.value) &&
                          forall k :: 0 <= k < j ==> !spec.Accepts(Resolve(t, t.contacts[k]))
  {
    var found := Find(t, spec);
    FindHead(t, spec);
    if |found| == 0 then None else Some(found[0])
  }

  /** The head of `Find(spec)` is the first stored contact, resolved, that the specification accepts. */
  lemma FindHead(t: Tables, spec: ContactSpec)
    ensures |Find(t, spec)| == 0 <==> forall j :: 0 <= j < |t.contacts| ==> !spec.Accepts(Resolve(t, t.contacts[j]))
    ensures |Find(t, spec)| > 0 ==>
              exists j :: 0 <= j < |t.contacts| && Find(t, spec)[0] == Resolve(t, t.contacts[j]) &&
                          spec.Accepts(Resolve(t, t.contacts[j])) &&
                          forall k :: 0 <= k < j ==> !spec.Accepts(Resolve(t, t.contacts[k]))
  {
    var all, p := ResolveAll(t), SpecPredicate(spec);
    assert Find(t, spec) == Filter(all, p);
    if |Filter(all, p)| > 0 {
      FilterHead(all, p);
      var i :| 0 <= i < |all| && all[i] == Filter(all, p)[0] && p(all[i]) && forall j :: 0 <= j < i ==> !p(all[j]);
      assert all[i] == Resolve(t, t.contacts[i]);
    }
  }

  /** `GetAll` reads every contact, resolved, in list order. */
  lemma FindAllIsEveryContact(t: Tables)
    ensures Find(t, GetAll) == ResolveAll(t)
  {
    FilterAll(ResolveAll(t), SpecPredicate(GetAll));
  }

  /** Over contacts with distinct ids, `Get(id)` selects at most one contact. */
  lemma FindByIdAtMostOne(t: Tables, id: int)
    requires KeysDistinct(t.contacts, ContactKey)
    ensures |Find(t, Get(id))| <= 1
  {
    var all := ResolveAll(t);
    assert KeysDistinct(all, ContactKey) by {
      forall i, j | 0 <= i < j < |all| ensures ContactKey(all[i]) != ContactKey(all[j]) {
        assert ContactKey(all[i]) == ContactKey(t.contacts[i]);
        assert ContactKey(all[j]) == ContactKey(t.contacts[j]);
      }
    }
    FilterAtMostOne(all, ContactKey, id, SpecPredicate(Get(id)));
  }

  /**
   * `FindSingle(Get(id))` finds a contact exactly when some stored contact has
   * that id, and then it is the first such contact, with its Name, Address
   * and Phones resolved.
   */
  lemma FindSingleById(t: Tables, id: int)
    ensures FindSingle(t, Get(id)).Some? <==> FindKey(t.contacts, ContactKey, id).Some?
    ensures FindSingle(t, Get(id)).Some? ==>
              FindSingle(t, Get(id)).value == Resolve(t, t.contacts[FindKey(t.contacts, ContactKey, id).value])
  {
    var all := ResolveAll(t);
    var p := SpecPredicate(Get(id));
    match FindKey(t.contacts, ContactKey, id)
    case None =>
      FilterNone(all, p);
    case Some(k) =>
      FilterFirst(all, p, k);
  }

  /** The phones a create cascade appends: the given phones, owned by `owner`, numbered from `first`. */
  function Stamped(ps: seq<Phone>, first: int, owner: int): (r: seq<Phone>)
    ensures |r| == |ps|
    ensures forall i :: 0 <= i < |r| ==>
              r[i].phoneId == first + i && r[i].contactId == owner &&
              r[i].number == ps[i].number && r[i].phoneType == ps[i].phoneType
  {
    seq(|ps|, i requires 0 <= i < |ps| => StoredPhone(ps[i].(contactId := owner), first + i))
  }

  /** The lists after Add and SaveChanges of entity `e`. */
  function AfterAdd(t: Tables, e: Contact): (r: Tables)
    ensures t.contacts <= r.contacts && t.names <= r.names && t.addresses <= r.addresses && t.phones <= r.phones
    ensures |r.contacts| == |t.contacts| + 1
    ensures var c := r.contacts[|t.contacts|];
            c.contactId == NextKey(t.contacts, ContactKey) && c.email == e.email
    ensures |r.names| == |t.names| + (if e.name.Some? then 1 else 0)
    ensures |r.addresses| == |t.addresses| + (if e.address.Some? then 1 else 0)
    ensures |r.phones| == |t.phones| + |e.phones.GetOr([])|
    ensures forall i :: |t.names| <= i < |r.names| ==> r.names[i].contactId == NextKey(t.contacts, ContactKey)
    ensures forall i :: |t.addresses| <= i < |r.addresses| ==>
              r.addresses[i].contactId == NextKey(t.contacts, ContactKey)
    ensures forall i :: |t.phones| <= i < |r.phones| ==> r.phones[i].contactId == NextKey(t.contacts, ContactKey)
  {
    var id := NextKey(t.contacts, ContactKey);
    Tables(
      t.contacts + [StoredContact(e, id)],
      t.names + (if e.name.Some? then [StoredName(e.name.value.(contactId := id), NextKey(t.names, NameKey))] else []),
      t.addresses + (if e.address.Some? then [StoredAddress(e.address.value.(contactId := id), NextKey(t.addresses, AddressKey))]
                     else []),
      t.phones + Stamped(e.phones.GetOr([]), NextKey(t.phones, PhoneKey), id))
  }

  /** A child the contact was read with is updated; one it gained is created for the contact. */
  function SavedName(names: seq<Name>, before: Option<Name>, after: Option<Name>, owner: int): (r: seq<Name>)
    ensures |r| == |names| + (if after.Some? && before.None? then 1 else 0)
    ensures forall i :: 0 <= i < |names| ==>
              r[i].nameId == names[i].nameId && r[i].contactId == names[i].contactId
    ensures after.None? ==> r == names
    ensures after.Some? && before.None? ==>
              r[|names|].contactId == owner && r[|names|].first == after.value.first &&
              r[|names|].middle == after.value.middle && r[|names|].last == after.value.last
  {
    match after
    case None => names
    case Some(n) =>
      if before.Some? then Updated(names, NameKey, OverwriteName, n)
      else names + [StoredName(n.(contactId := owner), NextKey(names, NameKey))]
  }

  function SavedAddress(addresses: seq<Address>, before: Option<Address>, after: Option<Address>, owner: int)
    : (r: seq<Address>)
    ensures |r| == |addresses| + (if after.Some? && before.None? then 1 else 0)
    ensures forall i :: 0 <= i < |addresses| ==>
              r[i].addressId == addresses[i].addressId && r[i].contactId == addresses[i].contactId
    ensures after.None? ==> r == addresses
    ensures after.Some? && before.None? ==>
              r[|addresses|].contactId == owner && r[|addresses|].street == after.value.street &&
              r[|addresses|].city == after.value.city && r[|addresses|].state == after.value.state &&
              r[|addresses|].zip == after.value.zip
  {
    match after
    case None => addresses
    case Some(a) =>
      if before.Some? then Updated(addresses, AddressKey, OverwriteAddress, a)
      else addresses + [StoredAddress(a.(contactId := owner), NextKey(addresses, AddressKey))]
  }

  /** The lists after Update and SaveChanges of entity `e`, which was read as `found`. */
  function AfterUpdate(t: Tables, found: Contact, e: Contact): (r: Tables)
    ensures |r.contacts| == |t.contacts|
    ensures forall i :: 0 <= i < |t.contacts| ==> r.contacts[i].contactId == t.contacts[i].contactId
    ensures FindKey(t.contacts, ContactKey, e.contactId).Some? ==>
              r.contacts[FindKey(t.contacts, ContactKey, e.contactId).value].email == e.email
    ensures |r.names| == |t.names| + (if e.name.Some? && found.name.None? then 1 else 0)
    ensures |r.addresses| == |t.addresses| + (if e.address.Some? && found.address.None? then 1 else 0)
    ensures var n := |e.phones.GetOr([])|;
            n <= |r.phones| &&
            forall i :: |r.phones| - n <= i < |r.phones| ==>
              r.phones[i].contactId == e.contactId &&
              r.phones[i].number == e.phones.value[i - (|r.phones| - n)].number &&
              r.phones[i].phoneType == e.phones.value[i - (|r.phones| - n)].phoneType
  {
    var kept := DeletedEach(t.phones, PhoneKey, found.phones.GetOr([]));
    Tables(
      Updated(t.contacts, ContactKey, OverwriteContact, e),
      SavedName(t.names, found.name, e.name, e.contactId),
      SavedAddress(t.addresses, found.address, e.address, e.contactId),
      kept + Stamped(e.phones.GetOr([]), NextKey(kept, PhoneKey), e.contactId))
  }

  /** The lists after Delete and SaveChanges of entity `e`. */
  function AfterDelete(t: Tables, e: Contact): (r: Tables)
    ensures r.names == t.names && r.addresses == t.addresses && r.phones == t.phones
    ensures |r.contacts| == |t.contacts| - (if FindKey(t.contacts, ContactKey, e.contactId).Some? then 1 else 0)
    ensures forall i :: 0 <= i < |r.contacts| ==> r.contacts[i] in t.contacts
  {
    t.(contacts := Deleted(t.contacts, ContactKey, e.contactId))
  }

  /**
   * Every list's ids are distinct. The stores number each create one past the
   * largest id of its list, so lists that start out this way stay this way.
   */
  predicate IdsDistinct(t: Tables) {
    && KeysDistinct(t.contacts, ContactKey)
    && KeysDistinct(t.names, NameKey)
    && KeysDistinct(t.addresses, AddressKey)
    && KeysDistinct(t.phones, PhoneKey)
  }

  /** Phones created one after another after `s` get ids no phone of `s` has, and none twice. */
  lemma StampedKeepsKeysDistinct(s: seq<Phone>, ps: seq<Phone>, owner: int)
    requires KeysDistinct(s, PhoneKey)
    ensures KeysDistinct(s + Stamped(ps, NextKey(s, PhoneKey), owner), PhoneKey)
  {
    var st := Stamped(ps, NextKey(s, PhoneKey), owner);
    var r := s + st;
    forall i, j | 0 <= i < j < |r| ensures PhoneKey(r[i]) != PhoneKey(r[j]) {
      if j < |s| {
        assert r[i] == s[i] && r[j] == s[j];
      } else {
        assert r[j] == st[j - |s|];
        if i < |s| { assert r[i] == s[i]; } else { assert r[i] == st[i - |s|]; }
      }
    }
  }

  lemma AddKeepsIdsDistinct(t: Tables, e: Contact)
    requires IdsDistinct(t)
    ensures IdsDistinct(AfterAdd(t, e))
  {
    var id := NextKey(t.contacts, ContactKey);
    AppendNextKey(t.contacts, ContactKey, StoredContact(e, id));
    if e.name.Some? {
      AppendNextKey(t.names, NameKey, StoredName(e.name.value.(contactId := id), NextKey(t.names, NameKey)));
    }
    if e.address.Some? {
      AppendNextKey(t.addresses, AddressKey,
                    StoredAddress(e.address.value.(contactId := id), NextKey(t.addresses, AddressKey)));
    }
    StampedKeepsKeysDistinct(t.phones, e.phones.GetOr([]), id);
  }

  lemma UpdateKeepsIdsDistinct(t: Tables, found: Contact, e: Contact)
    requires IdsDistinct(t)
    ensures IdsDistinct(AfterUpdate(t, found, e))
  {
    UpdatedKeepsKeys(t.contacts, ContactKey, OverwriteContact, e);
    if e.name.Some? {
      var n := e.name.value;
      if found.name.Some? {
        UpdatedKeepsKeys(t.names, NameKey, OverwriteName, n);
      } else {
        AppendNextKey(t.names, NameKey, StoredName(n.(contactId := e.contactId), NextKey(t.names, NameKey)));
      }
    }
    if e.address.Some? {
      var a := e.address.value;
      if found.address.Some? {
        UpdatedKeepsKeys(t.addresses, AddressKey, OverwriteAddress, a);
      } else {
        AppendNextKey(t.addresses, AddressKey,
                      StoredAddress(a.(contactId := e.contactId), NextKey(t.addresses, AddressKey)));
      }
    }
    var gone := found.phones.GetOr([]);
    DeletedEachRemovesKeys(t.phones, PhoneKey, gone);
    StampedKeepsKeysDistinct(DeletedEach(t.phones, PhoneKey, gone), e.phones.GetOr([]), e.contactId);
  }

  lemma DeleteKeepsIdsDistinct(t: Tables, e: Contact)
    requires IdsDistinct(t)
    ensures IdsDistinct(AfterDelete(t, e))
  {
    DeletedRemovesKey(t.contacts, ContactKey, e.contactId);
  }

  /**
   * One more phone created after `before`, which holds `initial` and the
   * first `i` phones stamped, holds the first `i + 1` stamped, and the next
   * id moves on by one.
   */
  lemma StampedNext(initial: seq<Phone>, before: seq<Phone>, ps: seq<Phone>, i: nat, first: int, owner: int)
    requires i < |ps|
    requires before == initial + Stamped(ps[..i], first, owner) && NextKey(before, PhoneKey) == first + i
    ensures var x := StoredPhone(ps[i].(contactId := owner), NextKey(before, PhoneKey));
            before + [x] == initial + Stamped(ps[..i + 1], first, owner) &&
            NextKey(before + [x], PhoneKey) == first + i + 1
  {
    var x := StoredPhone(ps[i].(contactId := owner), first + i);
    AppendNextKey(before, PhoneKey, x);
    StampedPrefix(ps, i, first, owner);
    assert initial + Stamped(ps[..i + 1], first, owner) == (initial + Stamped(ps[..i], first, owner)) + [x];
  }

  /** The stamped first `i + 1` phones are the stamped first `i` and the stamped phone `i`. */
  lemma StampedPrefix(ps: seq<Phone>, i: nat, first: int, owner: int)
    requires i < |ps|
    ensures Stamped(ps[..i + 1], first, owner) ==
            Stamped(ps[..i], first, owner) + [StoredPhone(ps[i].(contactId := owner), first + i)]
  {
    var a := Stamped(ps[..i + 1], first, owner);
    var b := Stamped(ps[..i], first, owner) + [StoredPhone(ps[i].(contactId := owner), first + i)];
    assert forall j :: 0 <= j < |a| ==> a[j] == b[j];
  }

  /** Creates each phone in turn for `owner`; the store numbers them consecutively. */
  method CreatePhones(db: InMemoryDataList, ps: seq<Phone>, owner: int)
    modifies db`phones
    ensures db.phones == old(db.phones) + Stamped(ps, NextKey(old(db.phones), PhoneKey), owner)
  {
    ghost var start := NextKey(db.phones, PhoneKey);
    var i := 0;
    while i < |ps|
      invariant 0 <= i <= |ps|
      invariant db.phones == old(db.phones) + Stamped(ps[..i], start, owner)
      invariant NextKey(db.phones, PhoneKey) == start + i
    {
      StampedNext(old(db.phones), db.phones, ps, i, start, owner);
      var _ := db.CreatePhone(ps[i].(contactId := owner));
      i := i + 1;
    }
    assert ps[..i] == ps;
  }

  /** Deletes each phone in turn, by its PhoneId. */
  method DeletePhones(db: InMemoryDataList, gone: seq<Phone>)
    modifies db`phones
    ensures db.phones == DeletedEach(old(db.phones), PhoneKey, gone)
  {
    var i := 0;
    while i < |gone|
      invariant 0 <= i <= |gone|
      invariant db.phones == DeletedEach(old(db.phones), PhoneKey, gone[..i])
    {
      db.DeletePhone(gone[i]);
      assert gone[..i + 1][..i] == gone[..i];
      i := i + 1;
    }
    assert gone[..i] == gone;
  }

  /**
   * `context.Add(entity); context.SaveChanges();` Returns the caller's
   * entity as the create left it: carrying its new ContactId.
   */
  method Add(db: InMemoryDataList, e: Contact) returns (saved: Contact)
    modifies db
    ensures saved == e.(contactId := NextKey(old(db.contacts), ContactKey))
    ensures db.Snapshot() == AfterAdd(old(db.Snapshot()), e)
  {
    saved := db.CreateContact(e);
    var id := saved.contactId;
    if e.name.Some? {
      var _ := db.CreateName(e.name.value.(contactId := id));
    }
    if e.address.Some? {
      var _ := db.CreateAddress(e.address.value.(contactId := id));
    }
    CreatePhones(db, e.phones.GetOr([]), id);
  }

  /** `context.Update(entity); context.SaveChanges();` for an entity read as `found`. */
  method Update(db: InMemoryDataList, found: Contact, e: Contact)
    modifies db
    ensures db.Snapshot() == AfterUpdate(old(db.Snapshot()), found, e)
  {
    db.UpdateContact(e);
    if e.name.Some? {
      if found.name.Some? {
        db.UpdateName(e.name.value);
      } else {
        var _ := db.CreateName(e.name.value.(contactId := e.contactId));
      }
    }
    if e.address.Some? {
      if found.address.Some? {
        db.UpdateAddress(e.address.value);
      } else {
        var _ := db.CreateAddress(e.address.value.(contactId := e.contactId));
      }
    }
    DeletePhones(db, found.phones.GetOr([]));
    CreatePhones(db, e.phones.GetOr([]), e.contactId);
  }

  /** `context.Delete(entity); context.SaveChanges();` */
  method Delete(db: InMemoryDataList, e: Contact)
    modifies db
    ensures db.Snapshot() == AfterDelete(old(db.Snapshot()), e)
  {
    db.DeleteContact(e);
  }
}
