/**
 * The query specifications over a resolved Contact: by id, the call list
 * (contacts with a home phone) and everything. A specification is a pure
 * predicate; evaluating it never touches storage.
 */
module ContactSpecs {
  import opened Wrappers
  import opened Entities

  /** The phone type the call list looks for, compared ordinally. */
  const Home: string := "home"

  /** `Phones.Any(p => p.Type == "home")`. */
  predicate HasHomePhone(phones: seq<Phone>) {
    exists i :: 0 <= i < |phones| && phones[i].phoneType == Some(Home)
  }

  datatype ContactSpec = Get(id: int) | GetCallList | GetAll {

    /** Whether the specification's predicate holds of a resolved contact. */
    predicate Accepts(c: Contact)
      ensures this.GetAll? ==> Accepts(c)
      ensures this.Get? ==> (Accepts(c) <==> c.contactId == this.id)
      ensures this.GetCallList? ==>
                (Accepts(c) <==> c.phones.Some? && exists p :: p in c.phones.value && p.phoneType == Some(Home))
    {
      match this
      case Get(id) => c.contactId == id
      case GetCallList => c.phones.Some? && HasHomePhone(c.phones.value)
      case GetAll => true
    }
  }

  /**
   * The call list rejects a contact whose Phones are null or empty, and one
   * whose phones are all of other types (work or mobile, say).
   */
  lemma CallListRejects(c: Contact)
    requires || c.phones.None?
             || c.phones == Some([])
             || forall i :: 0 <= i < |c.phones.value| ==> c.phones.value[i].phoneType != Some(Home)
    ensures !GetCallList.Accepts(c)
  {
  }

  /** A single phone of type "home", wherever it stands, puts the contact on the call list. */
  lemma CallListAcceptsAnyHome(c: Contact, i: nat)
    requires c.phones.Some? && i < |c.phones.value| && c.phones.value[i].phoneType == Some(Home)
    ensures GetCallList.Accepts(c)
  {
  }
}
