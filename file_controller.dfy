/** The `/file` routes (FileController). They sit behind the JWT guard only:
    no route takes the caller's id, so none checks who owns the contact. */
module FileHttp {
  import opened Common
  import opened Files

  /** The `{message: FILE_DELETED_SUCCESSFULLY}` body of a successful delete. */
  datatype DeletedMessage = FileDeletedSuccessfully

  /** `s` ends with `suffix`. */
  predicate EndsWith(s: string, suffix: string) {
    |suffix| <= |s| && s[|s| - |suffix|..] == suffix
  }

  /** FileTypeValidator with `/(jpg|jpeg|png|webp)$/`: the type ends with one
      of the four names; nothing anchors the start. */
  function AllowedFileType(mimetype: string): (ok: bool)
    ensures ok <==> (|mimetype| >= 3 && mimetype[|mimetype| - 3..] in {"jpg", "png"}) ||
                    (|mimetype| >= 4 && mimetype[|mimetype| - 4..] in {"jpeg", "webp"})
  {
    EndsWith(mimetype, "jpg") || EndsWith(mimetype, "jpeg") ||
    EndsWith(mimetype, "png") || EndsWith(mimetype, "webp")
  }

  /** What the type gate accepts and refuses. */
  lemma FileTypeExamples()
    ensures AllowedFileType("image/jpeg") && AllowedFileType("image/png") && AllowedFileType("image/webp")
    ensures !AllowedFileType("text/plain") && !AllowedFileType("image/gif")
    ensures AllowedFileType("text/x-jpg")  // the start is not anchored
    ensures !AllowedFileType("image/jpeg; q=1")  // the end is
  {
    assert "image/jpeg"[6..] == "jpeg";
    assert "image/png"[6..] == "png";
    assert "image/webp"[6..] == "webp";
    assert "text/x-jpg"[7..] == "jpg";
  }

  /** POST /file/upload (answers 200): the type gate runs before the service,
      and the body's `contactId` goes to saveFile as it is. */
  method UploadFile(service: FileService, file: UploadedFile, contactId: Id, dateFolder: string, timestamp: string)
    returns (reply: Reply<FileInfo>)
    requires service.Valid()
    modifies service
    ensures service.Valid()
    ensures !AllowedFileType(file.mimetype) ==>
              reply == Thrown(BadRequest(InvalidFileType)) &&
              service.files == old(service.files) && service.disk == old(service.disk) &&
              service.dirs == old(service.dirs)
    ensures AllowedFileType(file.mimetype) && old(FindByContact(service.files, contactId)).Some? ==>
              reply == Thrown(Conflict(FileAlreadyExist)) &&
              service.files == old(service.files) && service.disk == old(service.disk) &&
              service.dirs == old(service.dirs)
    ensures AllowedFileType(file.mimetype) && old(FindByContact(service.files, contactId)).None? ==>
              var url := Url(dateFolder, timestamp, file.originalname);
              && reply == Ok(OK, FileInfo(contactId, url))
              && service.files == old(service.files) + [FileRecord(file.originalname, url, contactId)]
              && service.dirs == old(service.dirs) + {UploadFolder(dateFolder)}
              && service.disk == old(service.disk)[StoragePath(url) := file.buffer]
  {
    if !AllowedFileType(file.mimetype) {
      reply := Thrown(BadRequest(InvalidFileType));
      return;
    }
    var saved := service.SaveFile(file, contactId, dateFolder, timestamp);
    match saved
    case Success(info) => reply := Ok(OK, info);
    case Failure(e) => reply := Thrown(e);
  }

  /** GET /file/:contactId. */
  function GetFile(service: FileService, validId: Id -> bool, contactId: Id): (reply: Reply<FileInfo>)
    reads service
    ensures !validId(contactId) ==> reply == Thrown(BadRequest(InvalidId))
    ensures validId(contactId) ==>
              (reply == Thrown(NotFound(FileNotFound)) <==>
               forall f :: f in service.files ==> f.contactId != contactId)
    ensures validId(contactId) ==>
              (reply.Ok? <==> exists f :: f in service.files && f.contactId == contactId)
    ensures reply.Thrown? ==> reply.exception in {BadRequest(InvalidId), NotFound(FileNotFound)}
    ensures reply.Ok? ==>
              reply.status == OK && reply.body.contactId == contactId &&
              exists f :: f in service.files && f.contactId == contactId && f.url == reply.body.url
  {
    if !validId(contactId) then Thrown(BadRequest(InvalidId))
    else match service.GetFileByContactId(contactId)
      case None => Thrown(NotFound(FileNotFound))
      case Some(info) => Ok(OK, info)
  }

  /** The false check of delete. */
  function DeletedOrNotFound(deleted: bool): (reply: Reply<DeletedMessage>)
    ensures !deleted <==> reply == Thrown(NotFound(FileNotFound))
    ensures deleted <==> reply == Ok(OK, FileDeletedSuccessfully)
  {
    if deleted then Ok(OK, FileDeletedSuccessfully) else Thrown(NotFound(FileNotFound))
  }

  /** DELETE /file/:contactId. */
  method DeleteFile(service: FileService, validId: Id -> bool, contactId: Id, unlinkFails: bool)
    returns (reply: Reply<DeletedMessage>)
    requires service.Valid()
    modifies service
    ensures service.Valid()
    ensures !validId(contactId) ==>
              reply == Thrown(BadRequest(InvalidId)) &&
              service.files == old(service.files) && service.disk == old(service.disk)
    ensures validId(contactId) ==>
              (reply == Ok(OK, FileDeletedSuccessfully) <==> old(FindByContact(service.files, contactId)).Some?)
    ensures validId(contactId) && old(FindByContact(service.files, contactId)).None? ==>
              reply == Thrown(NotFound(FileNotFound)) &&
              service.files == old(service.files) && service.disk == old(service.disk)
    ensures validId(contactId) && old(FindByContact(service.files, contactId)).Some? ==>
              var i := old(FindByContact(service.files, contactId)).value;
              && service.files == RemoveAt(old(service.files), i)
              && service.disk == if unlinkFails then old(service.disk)
                                 else old(service.disk) - {StoragePath(old(service.files)[i].url)}
    ensures validId(contactId) ==> FindByContact(service.files, contactId).None?
    ensures service.dirs == old(service.dirs)
  {
    if !validId(contactId) {
      reply := Thrown(BadRequest(InvalidId));
      return;
    }
    var deleted := service.DeleteFileByContactId(contactId, unlinkFails);
    reply := DeletedOrNotFound(deleted);
  }

  /** Upload, upload again, delete, upload again on one contact: the second
      upload conflicts, the delete releases the contact, and the last upload
      leaves exactly one record for it, the one with the later timestamp. */
  method ReattachAfterDelete(service: FileService, validId: Id -> bool, file: UploadedFile, contactId: Id,
                             dateFolder: string, timestamp: string, later: string, unlinkFails: bool)
    returns (first: Reply<FileInfo>, second: Reply<FileInfo>, removed: Reply<DeletedMessage>, third: Reply<FileInfo>)
    requires service.Valid() && validId(contactId) && AllowedFileType(file.mimetype)
    requires FindByContact(service.files, contactId).None?
    modifies service
    ensures first == Ok(OK, FileInfo(contactId, Url(dateFolder, timestamp, file.originalname)))
    ensures second == Thrown(Conflict(FileAlreadyExist))
    ensures removed == Ok(OK, FileDeletedSuccessfully)
    ensures third == Ok(OK, FileInfo(contactId, Url(dateFolder, later, file.originalname)))
    ensures service.files ==
              old(service.files) + [FileRecord(file.originalname, Url(dateFolder, later, file.originalname), contactId)]
  {
    ghost var before := service.files;
    first := UploadFile(service, file, contactId, dateFolder, timestamp);
    assert service.files[|before|].contactId == contactId;
    assert FindByContact(service.files, contactId) == Some(|before|);
    second := UploadFile(service, file, contactId, dateFolder, timestamp);
    removed := DeleteFile(service, validId, contactId, unlinkFails);
    assert service.files == before;
    third := UploadFile(service, file, contactId, dateFolder, later);
  }
}
