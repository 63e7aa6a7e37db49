/**
 * The request and response models of the contacts API and their mapping to
 * and from the Contact entity: the phone-type validation of an entry, the
 * entry-to-entity builder, the in-place entity updater used by Edit, and the
 * entity-to-model mapper used by Get and GetAll.
 */
module ContactModels {
  import opened Wrappers
  import opened Entities
  import Table

  datatype NameModel = NameModel(first: Option<string>, middle: Option<string>, last: Option<string>)

  datatype AddressModel = AddressModel(
    street: Option<string>, city: Option<string>, state: Option<string>, zip: Option<string>)

  datatype PhoneModel = PhoneModel(number: Option<string>, phoneType: Option<string>)

  /** What a client posts: every part may be null. */
  datatype ContactEntryModel = ContactEntryModel(
    name: Option<NameModel>, address: Option<AddressModel>, phone: Option<seq<PhoneModel>>, email: Option<string>)

  /** What Get and GetAll return: an entry model plus the contact's id. */
  datatype ContactModel = ContactModel(
    id: int, name: Option<NameModel>, address: Option<AddressModel>, phone: Option<seq<PhoneModel>>, email: Option<string>)

  /** The body of Add's 201 response. */
  datatype ContactResponseModel = ContactResponseModel(id: int)

  const ValidPhoneTypes: seq<string> := ["home", "work", "mobile"]

  /** The phones of an entry, an absent list read as empty. */
  function EntryPhones(m: ContactEntryModel): seq<PhoneModel> {
    m.phone.GetOr([])
  }

  /**
   * An entry is valid when it has no phone list, or when every phone's Type
   * is exactly one of "home", "work", "mobile" (a null Type is not).
   */
  function IsValid(m: ContactEntryModel): (valid: bool)
    ensures m.phone.None? ==> valid
    ensures m.phone.Some? ==>
              (valid <==> forall i :: 0 <= i < |m.phone.value| ==>
                            m.phone.value[i].phoneType in {Some("home"), Some("work"), Some("mobile")})
  {
    match m.phone
    case None => true
    case Some(ps) => forall p | p in ps :: p.phoneType.Some? && p.phoneType.value in ValidPhoneTypes
  }

  // Fresh entities built from model parts; their ids keep C#'s default 0.
  function NewName(n: NameModel): Name { Name(0, 0, n.first, n.middle, n.last) }
  function NewAddress(a: AddressModel): Address { Address(0, 0, a.street, a.city, a.state, a.zip) }
  function NewPhone(p: PhoneModel): Phone { Phone(0, 0, p.number, p.phoneType) }
  function NewPhones(ps: seq<PhoneModel>): seq<Phone> {
    seq(|ps|, i requires 0 <= i < |ps| => NewPhone(ps[i]))
  }

  /**
   * The entity Add stores: Email copied, a Name or Address only when the
   * entry has one, and a Phones list that is never null, holding one phone
   * per model phone in order. No id is set.
   */
  function ToEntity(m: ContactEntryModel): (e: Contact)
    ensures e.contactId == 0 && e.email == m.email
    ensures e.name.Some? <==> m.name.Some?
    ensures m.name.Some? ==> var n := e.name.value;
              n.nameId == 0 && n.contactId == 0 &&
              n.first == m.name.value.first && n.middle == m.name.value.middle && n.last == m.name.value.last
    ensures e.address.Some? <==> m.address.Some?
    ensures m.address.Some? ==> var a := e.address.value;
              a.addressId == 0 && a.contactId == 0 &&
              a.street == m.address.value.street && a.city == m.address.value.city &&
              a.state == m.address.value.state && a.zip == m.address.value.zip
    ensures e.phones.Some? && |e.phones.value| == |EntryPhones(m)|
    ensures forall i :: 0 <= i < |EntryPhones(m)| ==>
              var p := e.phones.value[i];
              p.phoneId == 0 && p.contactId == 0 &&
              p.number == EntryPhones(m)[i].number && p.phoneType == EntryPhones(m)[i].phoneType
  {
    Contact(
      0,
      if m.name.Some? then Some(NewName(m.name.value)) else None,
      if m.address.Some? then Some(NewAddress(m.address.value)) else None,
      if m.phone.Some? && |m.phone.value| > 0 then Some(NewPhones(m.phone.value)) else Some([]),
      m.email)
  }

  /** UpdateEntity's effect on the Name: reuse (or create) and overwrite, or blank the fields. */
  function UpdatedName(model: Option<NameModel>, current: Option<Name>): Option<Name> {
    match model
    case Some(n) =>
      Some(current.GetOr(Name(0, 0, None, None, None)).(first := n.first, middle := n.middle, last := n.last))
    case None =>
      if current.Some? then Some(current.value.(first := None, middle := None, last := None)) else None
  }

  /** UpdateEntity's effect on the Address, by the same rule as the Name. */
  function UpdatedAddress(model: Option<AddressModel>, current: Option<Address>): Option<Address> {
    match model
    case Some(a) =>
      Some(current.GetOr(Address(0, 0, None, None, None, None))
             .(street := a.street, city := a.city, state := a.state, zip := a.zip))
    case None =>
      if current.Some? then Some(current.value.(street := None, city := None, state := None, zip := None))
      else None
  }

  /**
   * The entity after `UpdateEntity`: Email overwritten; an existing Name or
   * Address object kept (with its ids) and its fields overwritten from the
   * entry, or blanked when the entry has none, one being created only when
   * the entry has one and the entity does not; Phones replaced by the entry's
   * phones (empty when it has none). The ContactId is untouched.
   */
  function UpdatedEntity(m: ContactEntryModel, e: Contact): (r: Contact)
    ensures r.contactId == e.contactId && r.email == m.email
    ensures r.name.Some? <==> m.name.Some? || e.name.Some?
    ensures e.name.Some? ==> r.name.value.nameId == e.name.value.nameId &&
                             r.name.value.contactId == e.name.value.contactId
    ensures e.name.None? && m.name.Some? ==> r.name.value.nameId == 0 && r.name.value.contactId == 0
    ensures m.name.Some? ==> r.name.value.first == m.name.value.first &&
                             r.name.value.middle == m.name.value.middle && r.name.value.last == m.name.value.last
    ensures m.name.None? && e.name.Some? ==> r.name.value.first.None? &&
                                             r.name.value.middle.None? && r.name.value.last.None?
    ensures r.address.Some? <==> m.address.Some? || e.address.Some?
    ensures e.address.Some? ==> r.address.value.addressId == e.address.value.addressId &&
                                r.address.value.contactId == e.address.value.contactId
    ensures e.address.None? && m.address.Some? ==> r.address.value.addressId == 0 && r.address.value.contactId == 0
    ensures m.address.Some? ==> r.address.value.street == m.address.value.street &&
                                r.address.value.city == m.address.value.city &&
                                r.address.value.state == m.address.value.state &&
                                r.address.value.zip == m.address.value.zip
    ensures m.address.None? && e.address.Some? ==> r.address.value.street.None? && r.address.value.city.None? &&
                                                   r.address.value.state.None? && r.address.value.zip.None?
    ensures r.phones == ToEntity(m).phones
  {
    assert |EntryPhones(m)| == 0 ==> NewPhones(EntryPhones(m)) == [];
    Contact(
      e.contactId,
      UpdatedName(m.name, e.name),
      UpdatedAddress(m.address, e.address),
      Some(NewPhones(EntryPhones(m))),
      m.email)
  }

  /**
   * `ContactEntryModel.UpdateEntity`, step by step: the old phones are
   * removed one by one from a snapshot of the list, then the entry's phones
   * appended one by one.
   */
  method UpdateEntity(m: ContactEntryModel, entity: Contact) returns (r: Contact)
    ensures r == UpdatedEntity(m, entity)
  {
    r := entity.(email := m.email);

    if m.name.Some? {
      var n := r.name.GetOr(Name(0, 0, None, None, None));
      r := r.(name := Some(n.(first := m.name.value.first, middle := m.name.value.middle, last := m.name.value.last)));
    } else if r.name.Some? {
      r := r.(name := Some(r.name.value.(first := None, middle := None, last := None)));
    }

    if m.address.Some? {
      var a := r.address.GetOr(Address(0, 0, None, None, None, None));
      r := r.(address := Some(a.(street := m.address.value.street, city := m.address.value.city,
                                 state := m.address.value.state, zip := m.address.value.zip)));
    } else if r.address.Some? {
      r := r.(address := Some(r.address.value.(street := None, city := None, state := None, zip := None)));
    }

    if m.phone.Some? && |m.phone.value| > 0 {
      var ps := m.phone.value;
      if r.phones.Some? {
        var phones := r.phones.value;
        var doomed := phones;
        var i := 0;
        while i < |doomed|
          invariant 0 <= i <= |doomed|
          invariant phones == doomed[i..]
        {
          phones := Table.RemoveFirst(phones, doomed[i]);
          i := i + 1;
        }
        var j := 0;
        while j < |ps|
          invariant 0 <= j <= |ps|
          invariant phones == NewPhones(ps[..j])
        {
          phones := phones + [NewPhone(ps[j])];
          j := j + 1;
        }
        assert ps[..j] == ps;
        r := r.(phones := Some(phones));
      } else {
        r := r.(phones := Some(NewPhones(ps)));
      }
    } else {
      r := r.(phones := Some([]));
    }
  }

  /**
   * `ContactModel.ToContact`: Id is the ContactId, Email copied; Name and
   * Address are never null, their fields copied only when the entity has
   * them; Phone holds the entity's phones in order, empty when they are null
   * or empty.
   */
  function ToContact(e: Contact): (c: ContactModel)
    ensures c.id == e.contactId && c.email == e.email
    ensures c.name.Some? && c.address.Some? && c.phone.Some?
    ensures e.name.Some? ==> c.name.value == NameModel(e.name.value.first, e.name.value.middle, e.name.value.last)
    ensures e.name.None? ==> c.name.value == NameModel(None, None, None)
    ensures e.address.Some? ==>
              c.address.value == AddressModel(e.address.value.street, e.address.value.city,
                                              e.address.value.state, e.address.value.zip)
    ensures e.address.None? ==> c.address.value == AddressModel(None, None, None, None)
    ensures |c.phone.value| == |e.phones.GetOr([])|
    ensures forall i :: 0 <= i < |c.phone.value| ==>
              c.phone.value[i] == PhoneModel(e.phones.value[i].number, e.phones.value[i].phoneType)
  {
    ContactModel(
      e.contactId,
      Some(if e.name.Some? then NameModel(e.name.value.first, e.name.value.middle, e.name.value.last)
           else NameModel(None, None, None)),
      Some(if e.address.Some? then AddressModel(e.address.value.street, e.address.value.city,
                                                e.address.value.state, e.address.value.zip)
           else AddressModel(None, None, None, None)),
      if e.phones.Some? && |e.phones.value| > 0 then
        Some(seq(|e.phones.value|, i requires 0 <= i < |e.phones.value| =>
                   PhoneModel(e.phones.value[i].number, e.phones.value[i].phoneType)))
      else Some([]),
      e.email)
  }

  /** `ContactModel.ToContacts`: one model per entity, in the same order. */
  function ToContacts(es: seq<Contact>): (cs: seq<ContactModel>)
    ensures |cs| == |es|
    ensures forall i :: 0 <= i < |es| ==> cs[i] == ToContact(es[i])
  {
    seq(|es|, i requires 0 <= i < |es| => ToContact(es[i]))
  }

  /**
   * Round trip: the model Get returns for a stored entry is the entry itself,
   * with its id, with absent Name and Address read back as blank parts and an
   * absent phone list read back as empty.
   */
  lemma ToContactOfToEntity(m: ContactEntryModel, id: int)
    ensures var c := ToContact(ToEntity(m).(contactId := id));
            && c.id == id && c.email == m.email
            && c.name == Some(m.name.GetOr(NameModel(None, None, None)))
            && c.address == Some(m.address.GetOr(AddressModel(None, None, None, None)))
            && c.phone == Some(EntryPhones(m))
  {
    var c := ToContact(ToEntity(m).(contactId := id));
    assert c.phone.value == EntryPhones(m);
  }

  /**
   * Editing a contact and reading it back yields exactly what adding the
   * same entry and reading it back would, under the contact's own id: no
   * trace of the old Name, Address or Phones survives an Edit.
   */
  lemma EditReadsBackAsAdd(m: ContactEntryModel, e: Contact)
    ensures ToContact(UpdatedEntity(m, e)) == ToContact(ToEntity(m)).(id := e.contactId)
  {
    var a := ToContact(UpdatedEntity(m, e));
    var b := ToContact(ToEntity(m)).(id := e.contactId);
    assert a.phone.value == b.phone.value;
  }

  /**
   * The model of an entity depends on its ContactId, its Email and the data
   * fields of its Name, Address and Phones, never on the children's own ids
   * or owners.
   */
  lemma ToContactSameFields(a: Contact, b: Contact)
    requires a.contactId == b.contactId && a.email == b.email
    requires a.name.Some? <==> b.name.Some?
    requires a.name.Some? ==> a.name.value.first == b.name.value.first &&
                              a.name.value.middle == b.name.value.middle && a.name.value.last == b.name.value.last
    requires a.address.Some? <==> b.address.Some?
    requires a.address.Some? ==> a.address.value.street == b.address.value.street &&
                                 a.address.value.city == b.address.value.city &&
                                 a.address.value.state == b.address.value.state &&
                                 a.address.value.zip == b.address.value.zip
    requires a.phones.Some? && b.phones.Some? && |a.phones.value| == |b.phones.value|
    requires forall i :: 0 <= i < |a.phones.value| ==>
               a.phones.value[i].number == b.phones.value[i].number &&
               a.phones.value[i].phoneType == b.phones.value[i].phoneType
    ensures ToContact(a) == ToContact(b)
  {
    assert ToContact(a).phone.value == ToContact(b).phone.value;
  }
}
