/**
 * The controller test scenarios of the repository, stated over the model:
 * each lemma builds the test's lists and entry and states the outcome the
 * test expects of the action.
 */
module Scenarios {
  import opened Wrappers
  import opened Entities
  import opened Table
  import opened InMemoryStore
  import opened ContactSpecs
  import opened ContactModels
  import opened CallContact
  import DataContext

  const NoLists := Tables([], [], [], [])

  /** The entry the Add and Edit tests post: a name, an address, a mobile and a work phone. */
  function TyroneEntry(): ContactEntryModel {
    ContactEntryModel(
      Some(NameModel(Some("Tyrone"), None, Some("Roson"))),
      Some(AddressModel(Some("Bernabe St."), Some("Paranaque City"), Some("Metro Manila"), Some("1711"))),
      Some([PhoneModel(Some("111-111-1111"), Some("mobile")), PhoneModel(Some("222-111-1111"), Some("work"))]),
      Some("tyrone.roson@gmail.com"))
  }

  /** The rejected entry: the same, with both phone types "INVALID". */
  function InvalidEntry(): ContactEntryModel {
    TyroneEntry().(phone := Some([PhoneModel(Some("111-111-1111"), Some("INVALID")),
                                  PhoneModel(Some("222-111-1111"), Some("INVALID"))]))
  }

  /** One contact, id 1, with a name, an address and a home phone; the children carry C#'s default id 0. */
  function TroyLists(): Tables {
    Tables(
      [Contact(1, None, None, None, Some("troy.roson@gmail.com"))],
      [Name(0, 1, Some("Troy"), None, Some("Roson"))],
      [Address(0, 1, Some("Delight St."), Some("Paranaque City"), Some("Metro Manila"), Some("1700"))],
      [Phone(0, 1, Some("000-000-0000"), Some("home"))])
  }

  /** Two contacts; only the first has a home phone. */
  function TwoContactLists(): Tables {
    Tables(
      [Contact(1, None, None, None, Some("tyrone.roson@gmail.com")),
       Contact(2, None, None, None, Some("troy.roson@gmail.com"))],
      [Name(0, 1, Some("Tyrone"), None, Some("Roson")), Name(0, 2, Some("Troy"), None, Some("Roson"))],
      [Address(0, 1, Some("Bernabe St."), Some("Paranaque City"), Some("Metro Manila"), Some("1711")),
       Address(0, 2, Some("Delight St."), Some("Paranaque City"), Some("Metro Manila"), Some("1700"))],
      [Phone(0, 1, Some("000-000-0000"), Some("home")),
       Phone(0, 2, Some("111-111-1111"), Some("mobile")),
       Phone(0, 2, Some("222-111-1111"), Some("work"))])
  }

  /** Add on empty lists records one contact, one name, one address and two phones. */
  lemma AddRecordsEntry()
    ensures IsValid(TyroneEntry())
    ensures var t := DataContext.AfterAdd(NoLists, ToEntity(TyroneEntry()));
            |t.contacts| == 1 && |t.names| == 1 && |t.addresses| == 1 && |t.phones| == 2 &&
            t.contacts[0].contactId == 1 && t.names[0].contactId == 1 && t.addresses[0].contactId == 1 &&
            t.phones[0].contactId == 1 && t.phones[1].contactId == 1
  {
    var e := ToEntity(TyroneEntry());
    assert |e.phones.value| == 2;
  }

  /** An entry with unknown phone types is refused, so the lists stay empty. */
  lemma InvalidEntryRefused()
    ensures !IsValid(InvalidEntry())
  {
    assert InvalidEntry().phone.value[0].phoneType !in {Some("home"), Some("work"), Some("mobile")};
  }

  /**
   * Edit of contact 1 overwrites the email, the name and the address in place
   * and replaces the home phone by the mobile and the work phone.
   */
  lemma EditOverwritesContact()
    ensures FindKey(TroyLists().contacts, ContactKey, 1) == Some(0)
    ensures var t := TroyLists();
            var found := Resolve(t, t.contacts[0]);
            var after := DataContext.AfterUpdate(t, found, UpdatedEntity(TyroneEntry(), found));
            && |after.contacts| == 1 && after.contacts[0].email == Some("tyrone.roson@gmail.com")
            && |after.names| == 1 && after.names[0].first == Some("Tyrone") && after.names[0].last == Some("Roson")
            && |after.addresses| == 1 && after.addresses[0].street == Some("Bernabe St.")
            && after.addresses[0].city == Some("Paranaque City") && after.addresses[0].state == Some("Metro Manila")
            && after.addresses[0].zip == Some("1711")
            && |after.phones| == 2
            && forall i :: 0 <= i < |after.phones| ==> after.phones[i].phoneType != Some("home")
  {
    var t := TroyLists();
    var found := Resolve(t, t.contacts[0]);
    FindKeyAppend([], t.names[0], NameOwner, 1);
    FindKeyAppend([], t.addresses[0], AddressOwner, 1);
    AllWithKeyNoneOrAll(t.phones, PhoneOwner, 1);
    assert found.phones == Some(t.phones);
    assert found.name == Some(t.names[0]) && found.address == Some(t.addresses[0]);
    var u := UpdatedEntity(TyroneEntry(), found);
    assert |u.phones.value| == 2;
    assert DeletedEach(t.phones, PhoneKey, t.phones) == [] by {
      assert t.phones[..0] == [];
      assert FindKey(t.phones, PhoneKey, 0) == Some(0);
    }
  }

  /** The Delete test's lists: contact 1 alone, with no children. */
  const LoneContactLists := Tables([Contact(1, None, None, None, Some("tyrone.roson@gmail.com"))], [], [], [])

  /** Delete of contact 1 leaves no contact. */
  lemma DeleteRemovesContact()
    ensures var t := LoneContactLists;
            FindKey(t.contacts, ContactKey, 1) == Some(0) &&
            DataContext.AfterDelete(t, Resolve(t, t.contacts[0])).contacts == []
  {
  }

  /** The Get test's lists: contact 1 with the posted name and address and a home phone. */
  function TyroneLists(): Tables {
    Tables(
      [Contact(1, None, None, None, Some("tyrone.roson@gmail.com"))],
      [Name(0, 1, Some("Tyrone"), None, Some("Roson"))],
      [Address(0, 1, Some("Bernabe St."), Some("Paranaque City"), Some("Metro Manila"), Some("1711"))],
      [Phone(0, 1, Some("000-000-0000"), Some("home"))])
  }

  /** Contact 1 of the Get test resolves with its name, its address and its phone. */
  lemma TyroneResolves()
    ensures var t := TyroneLists();
            Resolve(t, t.contacts[0]) == t.contacts[0].(name := Some(t.names[0]), address := Some(t.addresses[0]),
                                                        phones := Some(t.phones))
  {
    var t := TyroneLists();
    FindKeyAppend([], t.names[0], NameOwner, 1);
    FindKeyAppend([], t.addresses[0], AddressOwner, 1);
    AllWithKeyNoneOrAll(t.phones, PhoneOwner, 1);
  }

  /**
   * Get of contact 1 finds the first contact and answers with its email,
   * name, address and its one home phone.
   */
  lemma GetReadsContact()
    ensures FindKey(TyroneLists().contacts, ContactKey, 1) == Some(0)
    ensures var c := ToContact(Resolve(TyroneLists(), TyroneLists().contacts[0]));
            && c.email == Some("tyrone.roson@gmail.com")
            && c.name == Some(NameModel(Some("Tyrone"), None, Some("Roson")))
            && c.address == Some(AddressModel(Some("Bernabe St."), Some("Paranaque City"), Some("Metro Manila"), Some("1711")))
            && c.phone == Some([PhoneModel(Some("000-000-0000"), Some("home"))])
  {
    var t := TyroneLists();
    TyroneResolves();
    var r := Resolve(t, t.contacts[0]);
    assert ToContact(r).phone.value == [PhoneModel(Some("000-000-0000"), Some("home"))];
  }

  /** Edit of id 2, which no contact has, finds nothing to update, so Edit answers 204 and changes nothing. */
  lemma UnknownIdEditFindsNothing()
    ensures FindKey(TroyLists().contacts, ContactKey, 2).None?
  {
  }

  /** Delete of id 2, which no contact has, leaves the one contact in place. */
  lemma UnknownIdDeleteChangesNothing()
    ensures FindKey(LoneContactLists.contacts, ContactKey, 2).None?
    ensures Deleted(LoneContactLists.contacts, ContactKey, 2) == LoneContactLists.contacts
  {
  }

  /** Get of id 2, which no contact has, finds nothing, so Get answers 204. */
  lemma UnknownIdGetFindsNothing()
    ensures DataContext.FindSingle(TyroneLists(), Get(2)).None?
  {
    DataContext.FindSingleById(TyroneLists(), 2);
  }

  /** GetAll reads both contacts. */
  lemma GetAllReadsBoth()
    ensures |DataContext.Find(TwoContactLists(), GetAll)| == 2
  {
    DataContext.FindAllIsEveryContact(TwoContactLists());
  }

  /** Each contact of the two-contact lists resolves with its own phones. */
  lemma TwoContactsPhones(id: int)
    requires id == 1 || id == 2
    ensures var t := TwoContactLists();
            AllWithKey(t.phones, PhoneOwner, id) == if id == 1 then [t.phones[0]] else t.phones[1..]
  {
    var t := TwoContactLists();
    assert t.phones == [t.phones[0]] + t.phones[1..];
    AllWithKeyAppend([t.phones[0]], t.phones[1..], PhoneOwner, id);
    AllWithKeyNoneOrAll([t.phones[0]], PhoneOwner, id);
    AllWithKeyNoneOrAll(t.phones[1..], PhoneOwner, id);
  }

  /** Of the two contacts, resolved, the first is on the call list and the second is not. */
  lemma TwoContactsCallListVerdict(k: nat)
    requires k < 2
    ensures var t := TwoContactLists();
            GetCallList.Accepts(Resolve(t, t.contacts[k])) <==> k == 0
  {
    var t := TwoContactLists();
    var c := t.contacts[k];
    TwoContactsPhones(c.contactId);
    assert Resolve(t, c).phones == Some(AllWithKey(t.phones, PhoneOwner, c.contactId));
    if k == 0 {
      assert HasHomePhone([t.phones[0]]);
    } else {
      NoHomePhone(t.phones[1..]);
    }
  }

  /** A mobile and a work phone: no home phone among them. */
  lemma NoHomePhone(ps: seq<Phone>)
    requires ps == TwoContactLists().phones[1..]
    ensures !HasHomePhone(ps)
  {
    assert ps[0].phoneType == Some("mobile") && ps[1].phoneType == Some("work");
    assert "mobile" != Home && "work" != Home by {
      assert "mobile"[0] != Home[0] && "work"[0] != Home[0];
    }
  }

  /** The call list of the two contacts holds one item: the contact with a home phone. */
  lemma TwoContactsOneOnCallList()
    ensures |ToCallList(DataContext.Find(TwoContactLists(), GetCallList))| == 1
  {
    TwoContactsCallListVerdict(0);
    TwoContactsCallListVerdict(1);
    FilterSplit(ResolveAll(TwoContactLists()), DataContext.SpecPredicate(GetCallList));
  }

  /** Of two contacts of which only the first is accepted, the filter keeps exactly the first. */
  lemma FilterSplit(all: seq<Contact>, p: Contact -> bool)
    requires |all| == 2 && p(all[0]) && !p(all[1])
    ensures Filter(all, p) == [all[0]]
  {
    assert all == [all[0]] + [all[1]];
    FilterAppend([all[0]], [all[1]], p);
    FilterAll([all[0]], p);
    FilterNone([all[1]], p);
  }
}
