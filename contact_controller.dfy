/** The `/contact` routes (ContactController). Every route sits behind the JWT
    guard: the acting `userId` is a parameter standing for the id the guard
    recovered from the verified token, never a field of the body. Routes with
    an `:id` run IdValidationPipe first, modelled by the abstract `validId`. */
module ContactHttp {
  import opened Common
  import opened Contacts

  /** The `{message}` body of a successful delete. */
  datatype Message = Message(message: string)

  const CONTACT_DELETED: string := "Contact deleted successfully"

  /** The null check shared by getContact and update. */
  function ContactOrNotFound(found: Option<Contact>): (reply: Reply<Contact>)
    ensures found.None? <==> reply == Thrown(NotFound(ContactNotFound))
    ensures found.Some? <==> reply.Ok?
    ensures found.Some? ==> reply == Ok(OK, found.value)
  {
    match found
    case None => Thrown(NotFound(ContactNotFound))
    case Some(c) => Ok(OK, c)
  }

  /** The null check of delete: the removed record is not echoed, only a message. */
  function DeletedOrNotFound(removed: Option<Contact>): (reply: Reply<Message>)
    ensures removed.None? <==> reply == Thrown(NotFound(ContactNotFound))
    ensures removed.Some? <==> reply == Ok(OK, Message(CONTACT_DELETED))
  {
    if removed.None? then Thrown(NotFound(ContactNotFound)) else Ok(OK, Message(CONTACT_DELETED))
  }

  /** POST /contact/create: forwards the body and the caller's id, answers 201 with the stored record. */
  method Create(service: ContactService, userId: Id, dto: CreateContactDto, newId: Id) returns (reply: Reply<Contact>)
    requires service.Valid()
    requires forall k :: 0 <= k < |service.contacts| ==> service.contacts[k].id != newId
    modifies service
    ensures service.Valid()
    ensures reply == Ok(CREATED, Contact(newId, dto.name, dto.phone, dto.address, userId))
    ensures service.contacts == old(service.contacts) + [reply.body]
    ensures NotOwnedBy(service.contacts, userId) == NotOwnedBy(old(service.contacts), userId)
  {
    var c := service.Create(dto, userId, newId);
    reply := Ok(CREATED, c);
  }

  /** GET /contact: the caller's contacts and no one else's. */
  function GetAll(service: ContactService, userId: Id): (reply: Reply<seq<Contact>>)
    reads service
    ensures reply.Ok? && reply.status == OK
    ensures forall c :: c in reply.body <==> c in service.contacts && c.userId == userId
    ensures forall c :: multiset(reply.body)[c] == if c.userId == userId then multiset(service.contacts)[c] else 0
  {
    Ok(OK, service.GetAll(userId))
  }

  /** GET /contact/:id. */
  function GetContact(service: ContactService, validId: Id -> bool, id: Id, userId: Id): (reply: Reply<Contact>)
    reads service
    ensures !validId(id) ==> reply == Thrown(BadRequest(InvalidId))
    ensures validId(id) && reply.Ok? ==>
              reply.status == OK && reply.body in service.contacts && reply.body.id == id && reply.body.userId == userId
    ensures validId(id) ==>
              (reply == Thrown(NotFound(ContactNotFound)) <==>
               forall c :: c in service.contacts ==> !(c.id == id && c.userId == userId))
    ensures validId(id) ==>
              (reply.Ok? <==> exists c :: c in service.contacts && c.id == id && c.userId == userId)
    ensures reply.Thrown? ==> reply.exception in {BadRequest(InvalidId), NotFound(ContactNotFound)}
  {
    if !validId(id) then Thrown(BadRequest(InvalidId))
    else ContactOrNotFound(service.GetContact(userId, id))
  }

  /** Anti-enumeration at the route: what GET /contact/:id answers `userId`
      (status and body) does not depend on other owners' records, so a
      contact of another owner gives the same 404 as an id nobody uses. */
  lemma GetContactIgnoresOthers(s: ContactService, t: ContactService, validId: Id -> bool, id: Id, userId: Id)
    requires OwnedBy(s.contacts, userId) == OwnedBy(t.contacts, userId)
    ensures GetContact(s, validId, id, userId) == GetContact(t, validId, id, userId)
  {
    ForeignRecordsInvisible(s.contacts, t.contacts, userId, id);
  }

  /** PATCH /contact/:id. */
  method Update(service: ContactService, validId: Id -> bool, id: Id, userId: Id, dto: UpdateContactDto)
    returns (reply: Reply<Contact>)
    requires service.Valid()
    modifies service
    ensures service.Valid()
    ensures !validId(id) ==> reply == Thrown(BadRequest(InvalidId)) && service.contacts == old(service.contacts)
    ensures validId(id) && old(FindIndex(service.contacts, userId, id)).None? ==>
              reply == Thrown(NotFound(ContactNotFound)) && service.contacts == old(service.contacts)
    ensures validId(id) && old(FindIndex(service.contacts, userId, id)).Some? ==>
              var i := old(FindIndex(service.contacts, userId, id)).value;
              reply == Ok(OK, Patch(old(service.contacts)[i], dto)) &&
              service.contacts == old(service.contacts)[i := reply.body]
    ensures NotOwnedBy(service.contacts, userId) == NotOwnedBy(old(service.contacts), userId)
  {
    if !validId(id) {
      reply := Thrown(BadRequest(InvalidId));
      return;
    }
    var updated := service.Update(userId, id, dto);
    reply := ContactOrNotFound(updated);
  }

  /** DELETE /contact/:id. */
  method Delete(service: ContactService, validId: Id -> bool, id: Id, userId: Id) returns (reply: Reply<Message>)
    requires service.Valid()
    modifies service
    ensures service.Valid()
    ensures !validId(id) ==> reply == Thrown(BadRequest(InvalidId)) && service.contacts == old(service.contacts)
    ensures validId(id) && old(FindIndex(service.contacts, userId, id)).None? ==>
              reply == Thrown(NotFound(ContactNotFound)) && service.contacts == old(service.contacts)
    ensures validId(id) && old(FindIndex(service.contacts, userId, id)).Some? ==>
              reply == Ok(OK, Message(CONTACT_DELETED)) &&
              service.contacts == RemoveAt(old(service.contacts), old(FindIndex(service.contacts, userId, id)).value)
    ensures NotOwnedBy(service.contacts, userId) == NotOwnedBy(old(service.contacts), userId)
  {
    if !validId(id) {
      reply := Thrown(BadRequest(InvalidId));
      return;
    }
    var removed := service.Delete(userId, id);
    reply := DeletedOrNotFound(removed);
  }
}
