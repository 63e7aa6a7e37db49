/**
 * The call-list response: for each contact, its name (never null) and the
 * number of its first home phone.
 */
module CallContact {
  import opened Wrappers
  import opened Entities
  import opened ContactModels
  import ContactSpecs

  datatype CallContactModel = CallContactModel(name: Option<NameModel>, phone: Option<string>)

  /** `p.Type == "home"`, an ordinal comparison. */
  predicate IsHome(p: Phone) {
    p.phoneType == Some(ContactSpecs.Home)
  }

  /** `FirstOrDefault(p => p.Type == "home")`: the first home phone in collection order. */
  function FirstHome(ps: seq<Phone>): (r: Option<Phone>)
    ensures r.None? <==> forall i :: 0 <= i < |ps| ==> !IsHome(ps[i])
    ensures r.Some? ==> exists i :: 0 <= i < |ps| && ps[i] == r.value && IsHome(ps[i]) &&
                          forall j :: 0 <= j < i ==> !IsHome(ps[j])
  {
    if |ps| == 0 then None
    else if IsHome(ps[0]) then Some(ps[0])
    else
      var r := FirstHome(ps[1..]);
      assert forall i :: 1 <= i < |ps| ==> ps[i] == ps[1..][i - 1];
      assert r.Some? ==> exists i :: 1 <= i < |ps| && ps[i] == r.value && IsHome(ps[i]) &&
                                     forall j :: 0 <= j < i ==> !IsHome(ps[j]) by {
        if r.Some? {
          var k :| 0 <= k < |ps[1..]| && ps[1..][k] == r.value && IsHome(ps[1..][k]) &&
                   forall j :: 0 <= j < k ==> !IsHome(ps[1..][j]);
          assert forall j :: 1 <= j < k + 1 ==> ps[j] == ps[1..][j - 1];
        }
      }
      r
  }

  /**
   * `ToCallItem`: the Name is never null and copies First/Middle/Last from
   * the entity's Name when there is one; the Phone is the Number of the
   * first phone whose Type is "home", and null when Phones is null, empty or
   * holds no home phone.
   */
  function ToCallItem(e: Contact): (item: CallContactModel)
    ensures item.name.Some?
    ensures e.name.Some? ==> item.name.value == NameModel(e.name.value.first, e.name.value.middle, e.name.value.last)
    ensures e.name.None? ==> item.name.value == NameModel(None, None, None)
    ensures (e.phones.None? || forall i :: 0 <= i < |e.phones.value| ==> !IsHome(e.phones.value[i]))
              ==> item.phone.None?
    ensures e.phones.Some? && (exists i :: 0 <= i < |e.phones.value| && IsHome(e.phones.value[i])) ==>
              exists i :: 0 <= i < |e.phones.value| && IsHome(e.phones.value[i]) &&
                          item.phone == e.phones.value[i].number &&
                          forall j :: 0 <= j < i ==> !IsHome(e.phones.value[j])
  {
    CallContactModel(
      Some(if e.name.Some? then NameModel(e.name.value.first, e.name.value.middle, e.name.value.last)
           else NameModel(None, None, None)),
      if e.phones.Some? && |e.phones.value| > 0 then
        match FirstHome(e.phones.value)
        case Some(p) => p.number
        case None => None
      else None)
  }

  /** `ToCallList`: one call item per entity, in the same order. */
  function ToCallList(es: seq<Contact>): (items: seq<CallContactModel>)
    ensures |items| == |es|
    ensures forall i :: 0 <= i < |es| ==> items[i] == ToCallItem(es[i])
  {
    seq(|es|, i requires 0 <= i < |es| => ToCallItem(es[i]))
  }

  /**
   * The call-list specification and the call item agree: a contact is on the
   * call list exactly when its call item draws its number from a home phone.
   */
  lemma CallListSpecMatchesItem(e: Contact)
    ensures ContactSpecs.ContactSpec.GetCallList.Accepts(e) <==> e.phones.Some? && FirstHome(e.phones.value).Some?
  {
    if e.phones.Some? && FirstHome(e.phones.value).Some? {
      var i :| 0 <= i < |e.phones.value| && IsHome(e.phones.value[i]);
      assert ContactSpecs.HasHomePhone(e.phones.value);
    }
  }

  /**
   * Work and mobile phones never supply the number, whatever their position:
   * putting a phone that is not a home phone in front of the list leaves the
   * call item as it was.
   */
  lemma NonHomePhoneIgnored(e: Contact, p: Phone)
    requires e.phones.Some? && !IsHome(p)
    ensures ToCallItem(e.(phones := Some([p] + e.phones.value))) == ToCallItem(e)
  {
    var ps := [p] + e.phones.value;
    assert ps[1..] == e.phones.value;
  }
}
