/**
 * The persisted records. Each has an integer identity the store assigns; the
 * child records (Name, Address, Phone) also carry the `ContactId` of the
 * contact they belong to. A C# `string` that may be null is an
 * `Option<string>`; a Contact's navigation properties are `None` until the
 * unit of work resolves them on read.
 */
module Entities {
  import opened Wrappers

  datatype Name = Name(nameId: int, contactId: int, first: Option<string>, middle: Option<string>, last: Option<string>)

  datatype Address = Address(
    addressId: int, contactId: int,
    street: Option<string>, city: Option<string>, state: Option<string>, zip: Option<string>)

  /** `Type` is a keyword in Dafny, hence `phoneType`. */
  datatype Phone = Phone(phoneId: int, contactId: int, number: Option<string>, phoneType: Option<string>)

  datatype Contact = Contact(
    contactId: int, name: Option<Name>, address: Option<Address>, phones: Option<seq<Phone>>, email: Option<string>)

  // Identity fields, as key functions for the table operations.
  function ContactKey(c: Contact): int { c.contactId }
  function NameKey(n: Name): int { n.nameId }
  function AddressKey(a: Address): int { a.addressId }
  function PhoneKey(p: Phone): int { p.phoneId }

  // Foreign keys: the contact a child record belongs to.
  function NameOwner(n: Name): int { n.contactId }
  function AddressOwner(a: Address): int { a.contactId }
  function PhoneOwner(p: Phone): int { p.contactId }
}
