/** The single-file-per-contact store (FileService): one record per
    `contactId`, stored bytes under a date-named upload folder, and a
    best-effort unlink on delete. */
module Files {
  import opened Common

  newtype byte = x: int | 0 <= x < 256

  /** The part of a multipart upload this core reads. */
  datatype UploadedFile = UploadedFile(originalname: string, mimetype: string, buffer: seq<byte>)

  /** A stored file document. */
  datatype FileRecord = FileRecord(filename: string, url: string, contactId: Id)

  /** What the routes answer about a file: `{contactId, url}`. */
  datatype FileInfo = FileInfo(contactId: Id, url: string)

  /** The upload root, relative to the application's root directory. */
  const UPLOADS: string := "uploads"

  /** The stored name `<timestamp>_<originalname>` that keeps same-day uploads apart. */
  function UniqueFileName(timestamp: string, originalname: string): string {
    timestamp + "_" + originalname
  }

  /** The url recorded for an upload: `<yyyy-MM-dd>/<timestamp>_<originalname>`. */
  function Url(dateFolder: string, timestamp: string, originalname: string): (url: string)
    ensures |url| == |dateFolder| + |timestamp| + |originalname| + 2
    ensures url[..|dateFolder|] == dateFolder && url[|dateFolder|] == '/'
    ensures url[|dateFolder| + 1..|dateFolder| + 1 + |timestamp|] == timestamp
    ensures url[|dateFolder| + 1 + |timestamp|] == '_'
    ensures url[|url| - |originalname|..] == originalname
  {
    dateFolder + "/" + UniqueFileName(timestamp, originalname)
  }

  /** The folder an upload is written into: `<root>/uploads/<yyyy-MM-dd>`. */
  function UploadFolder(dateFolder: string): string {
    UPLOADS + "/" + dateFolder
  }

  /** The path delete unlinks for a record: `join(<root>, 'uploads', url)`. */
  function StoragePath(url: string): string {
    UPLOADS + "/" + url
  }

  /** The path delete unlinks is the path save wrote. */
  lemma UnlinkTargetsWrittenPath(dateFolder: string, timestamp: string, originalname: string)
    ensures StoragePath(Url(dateFolder, timestamp, originalname))
            == UploadFolder(dateFolder) + "/" + UniqueFileName(timestamp, originalname)
  {
  }

  /** At most one file record per contact. */
  ghost predicate OneFilePerContact(s: seq<FileRecord>) {
    forall i, j :: 0 <= i < j < |s| ==> s[i].contactId != s[j].contactId
  }

  /** `findOne({contactId})`: the position of the first record for `contactId`. */
  function FindByContact(s: seq<FileRecord>, contactId: Id): (r: Option<nat>)
    ensures r.Some? ==> r.value < |s| && s[r.value].contactId == contactId
    ensures r.Some? ==> forall j :: 0 <= j < r.value ==> s[j].contactId != contactId
    ensures r.None? <==> forall j :: 0 <= j < |s| ==> s[j].contactId != contactId
  {
    FirstMatch(s, (f: FileRecord) => f.contactId == contactId)
  }

  /** Inserting a record for a contact that has none keeps one file per contact. */
  lemma InsertKeepsOneFile(s: seq<FileRecord>, f: FileRecord)
    requires OneFilePerContact(s) && FindByContact(s, f.contactId).None?
    ensures OneFilePerContact(s + [f])
  {
    var t := s + [f];
    forall i, j | 0 <= i < j < |t| ensures t[i].contactId != t[j].contactId {
      if j == |s| {
        assert t[i] == s[i];
      }
    }
  }

  /** Removing a record keeps one file per contact, and with it the only
      record for that contact is gone: a later save no longer conflicts. */
  lemma RemoveReleasesContact(s: seq<FileRecord>, i: nat)
    requires OneFilePerContact(s) && i < |s|
    ensures OneFilePerContact(RemoveAt(s, i))
    ensures FindByContact(RemoveAt(s, i), s[i].contactId).None?
  {
    var t := RemoveAt(s, i);
    forall j | 0 <= j < |t| ensures t[j].contactId != s[i].contactId {
      if j < i {
        assert t[j] == s[j];
      } else {
        assert t[j] == s[j + 1];
      }
    }
    forall a, b | 0 <= a < b < |t| ensures t[a].contactId != t[b].contactId {
      var a', b' := if a < i then a else a + 1, if b < i then b else b + 1;
      assert t[a] == s[a'] && t[b] == s[b'];
    }
  }

  class FileService {
    /** The file collection. */
    var files: seq<FileRecord>
    /** Directories `ensureDir` has created under the application root. */
    var dirs: set<string>
    /** File contents on disk, by path under the application root. */
    var disk: map<string, seq<byte>>

    ghost predicate Valid()
      reads this
    {
      OneFilePerContact(files)
    }

    constructor ()
      ensures Valid() && files == [] && dirs == {} && disk == map[]
    {
      files, dirs, disk := [], {}, map[];
    }

    /** `saveFile(file, contactId)`. `dateFolder` is today's `yyyy-MM-dd`
        and `timestamp` the text of `Date.now()`. A contact that already has a
        file is refused with a conflict before anything is written. */
    method SaveFile(file: UploadedFile, contactId: Id, dateFolder: string, timestamp: string)
      returns (r: Result<FileInfo>)
      requires Valid()
      modifies this
      ensures Valid()
      ensures old(FindByContact(files, contactId)).Some? ==>
                r == Failure(Conflict(FileAlreadyExist)) &&
                files == old(files) && dirs == old(dirs) && disk == old(disk)
      ensures old(FindByContact(files, contactId)).None? ==>
                var url := Url(dateFolder, timestamp, file.originalname);
                && r == Success(FileInfo(contactId, url))
                && files == old(files) + [FileRecord(file.originalname, url, contactId)]
                && dirs == old(dirs) + {UploadFolder(dateFolder)}
                && disk == old(disk)[StoragePath(url) := file.buffer]
    {
      var existing := FindByContact(files, contactId);
      if existing.Some? {
        r := Failure(Conflict(FileAlreadyExist));
        return;
      }
      var uploadFolder := UploadFolder(dateFolder);
      dirs := dirs + {uploadFolder};
      var uniqueFileName := UniqueFileName(timestamp, file.originalname);
      UnlinkTargetsWrittenPath(dateFolder, timestamp, file.originalname);
      disk := disk[uploadFolder + "/" + uniqueFileName := file.buffer];
      var saved := FileRecord(file.originalname, Url(dateFolder, timestamp, file.originalname), contactId);
      InsertKeepsOneFile(files, saved);
      files := files + [saved];
      r := Success(FileInfo(saved.contactId, saved.url));
    }

    /** `getFileByContactId(contactId)`: `{contactId, url}` of the contact's file, or null. */
    function GetFileByContactId(contactId: Id): (r: Option<FileInfo>)
      reads this
      ensures r.None? <==> forall f :: f in files ==> f.contactId != contactId
      ensures r.Some? ==> r.value.contactId == contactId &&
                          exists f :: f in files && f.contactId == contactId && f.url == r.value.url
    {
      match FindByContact(files, contactId)
      case None => None
      case Some(i) => Some(FileInfo(files[i].contactId, files[i].url))
    }

    /** `deleteFileByContactId(contactId)`: remove the record, then unlink its
        bytes. `unlinkFails` stands for an unlink error other than a missing
        file; either failure is swallowed and the answer is still true. */
    method DeleteFileByContactId(contactId: Id, unlinkFails: bool) returns (deleted: bool)
      requires Valid()
      modifies this
      ensures Valid()
      ensures deleted <==> old(FindByContact(files, contactId)).Some?
      ensures !deleted ==> files == old(files) && disk == old(disk)
      ensures deleted ==>
                var i := old(FindByContact(files, contactId)).value;
                && files == RemoveAt(old(files), i)
                && disk == if unlinkFails then old(disk) else old(disk) - {StoragePath(old(files)[i].url)}
      ensures FindByContact(files, contactId).None?
      ensures dirs == old(dirs)
    {
      match FindByContact(files, contactId)
      case None =>
        deleted := false;
      case Some(i) =>
        var file := files[i];
        RemoveReleasesContact(files, i);
        files := RemoveAt(files, i);
        var filePath := StoragePath(file.url);
        if !unlinkFails {
          disk := disk - {filePath};
        }
        deleted := true;
    }
  }
}
