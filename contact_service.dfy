/** The owner-scoped contact collection (ContactService). Every query and
    mutation is filtered by, or stamped with, the acting user's id. */
module Contacts {
  import opened Common

  /** A stored contact document. */
  datatype Contact = Contact(id: Id, name: string, phone: string, address: string, userId: Id)

  /** The body of a create request. `userId` is whatever the client may have
      put in the body; the service overrides it. */
  datatype CreateContactDto = CreateContactDto(name: string, phone: string, address: string, userId: Option<Id>)

  /** The body of a partial update: every field is optional. */
  datatype UpdateContactDto = UpdateContactDto(name: Option<string>, phone: Option<string>, address: Option<string>)

  /** The conjunctive filter `{_id, userId}` used by get, update and delete. */
  predicate Matches(c: Contact, userId: Id, id: Id) {
    c.id == id && c.userId == userId
  }

  /** No two stored contacts share an `_id`. */
  ghost predicate UniqueIds(s: seq<Contact>) {
    forall i, j :: 0 <= i < j < |s| ==> s[i].id != s[j].id
  }

  /** The contacts of `s` owned by `userId`, in storage order (`find({userId})`). */
  function OwnedBy(s: seq<Contact>, userId: Id): (r: seq<Contact>)
    ensures forall c :: c in r <==> c in s && c.userId == userId
    ensures |r| <= |s|
  {
    if s == [] then []
    else (if s[0].userId == userId then [s[0]] else []) + OwnedBy(s[1..], userId)
  }

  /** `find({userId})` returns each of the owner's records as often as it is
      stored and no other record: the owner's records, counted, and nothing else. */
  lemma {:induction false} OwnedByCounts(s: seq<Contact>, userId: Id)
    ensures forall c :: multiset(OwnedBy(s, userId))[c] == if c.userId == userId then multiset(s)[c] else 0
  {
    if s != [] {
      assert s == [s[0]] + s[1..];
      OwnedByCounts(s[1..], userId);
    }
  }

  /** The contacts of `s` that belong to anyone but `userId`. */
  function NotOwnedBy(s: seq<Contact>, userId: Id): (r: seq<Contact>)
    ensures forall c :: c in r <==> c in s && c.userId != userId
    ensures |r| <= |s|
  {
    if s == [] then []
    else (if s[0].userId != userId then [s[0]] else []) + NotOwnedBy(s[1..], userId)
  }

  /** The position of the first record matching `{_id: id, userId}`, if any. */
  function FindIndex(s: seq<Contact>, userId: Id, id: Id): (r: Option<nat>)
    ensures r.Some? ==> r.value < |s| && Matches(s[r.value], userId, id)
    ensures r.Some? ==> forall j :: 0 <= j < r.value ==> !Matches(s[j], userId, id)
    ensures r.None? ==> forall j :: 0 <= j < |s| ==> !Matches(s[j], userId, id)
  {
    FirstMatch(s, c => Matches(c, userId, id))
  }

  /** `findOne({_id: id, userId})`: the first matching record, or null. */
  function Lookup(s: seq<Contact>, userId: Id, id: Id): (r: Option<Contact>)
    ensures r.Some? ==> r.value in s && r.value.id == id && r.value.userId == userId
    ensures r.None? <==> forall c :: c in s ==> !Matches(c, userId, id)
  {
    match FindIndex(s, userId, id)
    case None => None
    case Some(i) => Some(s[i])
  }

  /** `findOne` scans in storage order: the head answers if it matches, else the rest does. */
  lemma LookupCons(s: seq<Contact>, userId: Id, id: Id)
    requires s != []
    ensures Lookup(s, userId, id) ==
            if Matches(s[0], userId, id) then Some(s[0]) else Lookup(s[1..], userId, id)
  {
  }

  /** The record `$set` produces from `c`: present fields replaced, the rest kept. */
  function Patch(c: Contact, dto: UpdateContactDto): (r: Contact)
    ensures r.id == c.id && r.userId == c.userId
    ensures dto.name.None? ==> r.name == c.name
    ensures dto.name.Some? ==> r.name == dto.name.value
    ensures dto.phone.None? ==> r.phone == c.phone
    ensures dto.phone.Some? ==> r.phone == dto.phone.value
    ensures dto.address.None? ==> r.address == c.address
    ensures dto.address.Some? ==> r.address == dto.address.value
  {
    Contact(c.id,
            if dto.name.Some? then dto.name.value else c.name,
            if dto.phone.Some? then dto.phone.value else c.phone,
            if dto.address.Some? then dto.address.value else c.address,
            c.userId)
  }

  lemma {:induction false} OwnedByConcat(a: seq<Contact>, b: seq<Contact>, userId: Id)
    ensures OwnedBy(a + b, userId) == OwnedBy(a, userId) + OwnedBy(b, userId)
  {
    if a == [] {
      assert a + b == b;
    } else {
      assert (a + b)[1..] == a[1..] + b;
      OwnedByConcat(a[1..], b, userId);
    }
  }

  lemma {:induction false} NotOwnedByConcat(a: seq<Contact>, b: seq<Contact>, userId: Id)
    ensures NotOwnedBy(a + b, userId) == NotOwnedBy(a, userId) + NotOwnedBy(b, userId)
  {
    if a == [] {
      assert a + b == b;
    } else {
      assert (a + b)[1..] == a[1..] + b;
      NotOwnedByConcat(a[1..], b, userId);
    }
  }

  /** Replacing, by a record of the same owner, a record owned by `userId`
      leaves every other owner's records as they were. */
  lemma ReplaceOwnedKeepsOthers(s: seq<Contact>, i: nat, c: Contact, userId: Id)
    requires i < |s| && s[i].userId == userId && c.userId == userId
    ensures NotOwnedBy(s[i := c], userId) == NotOwnedBy(s, userId)
  {
    assert s == s[..i] + [s[i]] + s[i + 1..];
    assert s[i := c] == s[..i] + [c] + s[i + 1..];
    NotOwnedByConcat(s[..i] + [s[i]], s[i + 1..], userId);
    NotOwnedByConcat(s[..i], [s[i]], userId);
    NotOwnedByConcat(s[..i] + [c], s[i + 1..], userId);
    NotOwnedByConcat(s[..i], [c], userId);
  }

  /** Removing a record owned by `userId` leaves every other owner's records as they were. */
  lemma RemoveOwnedKeepsOthers(s: seq<Contact>, i: nat, userId: Id)
    requires i < |s| && s[i].userId == userId
    ensures NotOwnedBy(RemoveAt(s, i), userId) == NotOwnedBy(s, userId)
  {
    var front, back := s[..i], s[i + 1..];
    assert RemoveAt(s, i) == front + back;
    assert s == (front + [s[i]]) + back;
    assert NotOwnedBy([s[i]], userId) == [] by {
      assert [s[i]][1..] == [];
    }
    NotOwnedByConcat(front + [s[i]], back, userId);
    NotOwnedByConcat(front, [s[i]], userId);
    NotOwnedByConcat(front, back, userId);
  }

  /** The conjunctive filter only ever sees the caller's own records: the
      answer is the same as if the table held nothing but them. */
  lemma {:induction false} LookupSeesOnlyOwn(s: seq<Contact>, userId: Id, id: Id)
    ensures Lookup(s, userId, id) == Lookup(OwnedBy(s, userId), userId, id)
  {
    if s != [] {
      var own := OwnedBy(s, userId);
      LookupCons(s, userId, id);
      if s[0].userId == userId {
        assert own == [s[0]] + OwnedBy(s[1..], userId);
        assert own[0] == s[0] && own[1..] == OwnedBy(s[1..], userId);
        LookupCons(own, userId, id);
        if !Matches(s[0], userId, id) {
          LookupSeesOnlyOwn(s[1..], userId, id);
        }
      } else {
        assert own == OwnedBy(s[1..], userId);
        LookupSeesOnlyOwn(s[1..], userId, id);
      }
    }
  }

  /** Anti-enumeration: two tables that hold the same records for `userId`
      answer `userId`'s lookups identically, however other owners' records
      differ. In particular another owner's record looks exactly like a
      missing one. */
  lemma ForeignRecordsInvisible(s: seq<Contact>, t: seq<Contact>, userId: Id, id: Id)
    requires OwnedBy(s, userId) == OwnedBy(t, userId)
    ensures Lookup(s, userId, id) == Lookup(t, userId, id)
  {
    LookupSeesOnlyOwn(s, userId, id);
    LookupSeesOnlyOwn(t, userId, id);
  }

  /** A record of another owner, when removed, changes nothing `userId` can see. */
  lemma ForeignLooksMissing(s: seq<Contact>, i: nat, userId: Id, id: Id)
    requires i < |s| && s[i].userId != userId
    ensures Lookup(s, userId, id) == Lookup(RemoveAt(s, i), userId, id)
  {
    assert s == s[..i] + [s[i]] + s[i + 1..];
    OwnedByConcat(s[..i] + [s[i]], s[i + 1..], userId);
    OwnedByConcat(s[..i], [s[i]], userId);
    OwnedByConcat(s[..i], s[i + 1..], userId);
    ForeignRecordsInvisible(s, RemoveAt(s, i), userId, id);
  }

  /** With unique ids, a record matching `(userId, id)` is the only record with that id. */
  lemma MatchIsUnique(s: seq<Contact>, userId: Id, id: Id, i: nat)
    requires UniqueIds(s) && i < |s| && s[i].id == id
    ensures FindIndex(s, userId, id) == if s[i].userId == userId then Some(i) else None
  {
  }

  class ContactService {
    /** The contact collection, in insertion order. */
    var contacts: seq<Contact>

    ghost predicate Valid()
      reads this
    {
      UniqueIds(contacts)
    }

    constructor ()
      ensures Valid() && contacts == []
    {
      contacts := [];
    }

    /** `create(dto, userId)`: insert the DTO's fields stamped with the
        caller's id; the caller's id wins over any `userId` in the body.
        `newId` is the `_id` the database assigns. */
    method Create(dto: CreateContactDto, userId: Id, newId: Id) returns (c: Contact)
      requires Valid()
      requires forall k :: 0 <= k < |contacts| ==> contacts[k].id != newId
      modifies this
      ensures Valid()
      ensures c == Contact(newId, dto.name, dto.phone, dto.address, userId)
      ensures contacts == old(contacts) + [c]
      ensures OwnedBy(contacts, userId) == OwnedBy(old(contacts), userId) + [c]
      ensures NotOwnedBy(contacts, userId) == NotOwnedBy(old(contacts), userId)
    {
      c := Contact(newId, dto.name, dto.phone, dto.address, userId);
      OwnedByConcat(contacts, [c], userId);
      NotOwnedByConcat(contacts, [c], userId);
      contacts := contacts + [c];
    }

    /** `getAll(userId)`: exactly the caller's contacts. */
    function GetAll(userId: Id): (r: seq<Contact>)
      reads this
      ensures forall c :: c in r <==> c in contacts && c.userId == userId
      ensures forall c :: multiset(r)[c] == if c.userId == userId then multiset(contacts)[c] else 0
    {
      OwnedByCounts(contacts, userId);
      OwnedBy(contacts, userId)
    }

    /** `getContact(userId, id)`: the record matching both `_id` and `userId`, or null. */
    function GetContact(userId: Id, id: Id): (r: Option<Contact>)
      reads this
      ensures r.Some? <==> exists c :: c in contacts && c.id == id && c.userId == userId
      ensures r.Some? ==> r.value in contacts && r.value.id == id && r.value.userId == userId
    {
      Lookup(contacts, userId, id)
    }

    /** `update(userId, id, dto)`: `findOneAndUpdate({_id, userId}, {$set: dto}, {new: true})`. */
    method Update(userId: Id, id: Id, dto: UpdateContactDto) returns (r: Option<Contact>)
      requires Valid()
      modifies this
      ensures Valid()
      ensures old(FindIndex(contacts, userId, id)).None? ==> r.None? && contacts == old(contacts)
      ensures old(FindIndex(contacts, userId, id)).Some? ==>
                var i := old(FindIndex(contacts, userId, id)).value;
                r == Some(Patch(old(contacts)[i], dto)) && contacts == old(contacts)[i := r.value]
      ensures NotOwnedBy(contacts, userId) == NotOwnedBy(old(contacts), userId)
    {
      match FindIndex(contacts, userId, id)
      case None =>
        r := None;
      case Some(i) =>
        var updated := Patch(contacts[i], dto);
        ReplaceOwnedKeepsOthers(contacts, i, updated, userId);
        contacts := contacts[i := updated];
        r := Some(updated);
    }

    /** `delete(userId, id)`: `findOneAndDelete({_id, userId})`, returning the removed record. */
    method Delete(userId: Id, id: Id) returns (r: Option<Contact>)
      requires Valid()
      modifies this
      ensures Valid()
      ensures old(FindIndex(contacts, userId, id)).None? ==> r.None? && contacts == old(contacts)
      ensures old(FindIndex(contacts, userId, id)).Some? ==>
                var i := old(FindIndex(contacts, userId, id)).value;
                r == Some(old(contacts)[i]) && contacts == RemoveAt(old(contacts), i)
      ensures NotOwnedBy(contacts, userId) == NotOwnedBy(old(contacts), userId)
    {
      match FindIndex(contacts, userId, id)
      case None =>
        r := None;
      case Some(i) =>
        r := Some(contacts[i]);
        RemoveOwnedKeepsOthers(contacts, i, userId);
        contacts := RemoveAt(contacts, i);
    }
  }
}
