# nest_contacts: ownership and single-attachment core in Dafny

This project models the core of a small NestJS contact manager with three
collections: users, contacts and files. It covers:

- **Contacts**: an owner-scoped table. Create stamps the caller's id onto the
  new record. List filters by owner. Get, update and delete all use the one
  conjunctive filter `{_id, userId}`, so a contact owned by someone else looks
  exactly like a missing one.
- **Files**: at most one file per contact. Save checks for an existing record
  and refuses with a conflict before writing anything. It then writes the
  bytes under `uploads/<yyyy-MM-dd>/<timestamp>_<originalname>` and records
  the url `<yyyy-MM-dd>/<timestamp>_<originalname>`, without the `uploads/`
  prefix; delete puts the prefix back to find the bytes. Delete removes the record, then tries to unlink the bytes and
  ignores any unlink failure.
- **Credentials**: register is a check-then-insert on the email. Login looks
  the user up, compares the password hash and signs `{email, userId}`.
- **Routes**: the controllers over all three services. They map a null or
  false service result to NotFound and shape the response bodies.

Each service is a `class` whose collection is a `seq` field. Mutations are
methods with `modifies this`. Each method's `ensures` gives the new collection
in terms of the old one. Read-only lookups are functions with `reads this`.
The controllers are module-level functions, or methods where they call a
mutating service method. They answer a `Reply`: either `Ok(status, body)` or
`Thrown(exception)`.

Collaborators outside the core become inputs:

- The JWT guard and `@UserId` become the handler's `userId` parameter. It
  stands for the id recovered from a verified token.
- `IdValidationPipe` becomes an abstract `validId: Id -> bool`, checked
  before the service runs.
- bcrypt and `JwtService.signAsync` become the `hash` and `sign` function
  fields of `AuthService`. `Compare(pw, h)` holds exactly when `h == hash(pw)`.
- The date folder, the `Date.now()` text, the database-assigned `_id` and
  whether an unlink fails are method inputs.

Two behaviours of the code are kept as written:

- Login distinguishes an unknown email (USER_NOT_FOUND) from a wrong password
  (WRONG_PASSWORD). It does not answer one uniform authentication failure.
- The file routes check only the token. They do not check that the caller owns
  the contact.

## Model

| member | source | states |
|---|---|---|
| Common.FirstMatch | src/auth/auth.service.ts:34 | the search behind every `findOne`: the first record the filter accepts, with none accepted before it, or none exactly when the filter accepts no record |
| Contacts.OwnedBy | src/contact/contact.service.ts:21-23 | the `find({userId})` result holds exactly the stored contacts whose owner is `userId` |
| Contacts.OwnedByCounts | src/contact/contact.service.ts:21-23 | the `find({userId})` result holds each of the owner's records as many times as it is stored, and no other record |
| Contacts.FindIndex | src/contact/contact.service.ts:26-40 | the `{_id, userId}` filter: the first position where both id and owner match, or none when no record matches both |
| Contacts.Lookup | src/contact/contact.service.ts:25-27 | `findOne({_id, userId})` gives a stored record with that id and that owner, or null exactly when no record matches both |
| Contacts.LookupCons | src/contact/contact.service.ts:25-27 | `findOne` scans in storage order: the first record answers when it matches, otherwise the rest of the table does |
| Contacts.Patch | src/contact/contact.service.ts:35 | `$set` of the update DTO: present fields replaced, absent fields, `_id` and `userId` kept |
| Contacts.OwnedByConcat | src/contact/contact.service.ts:21-23 | the owner filter distributes over concatenation, so a created record appears at the end of its owner's list |
| Contacts.NotOwnedByConcat | src/contact/contact.service.ts:12-41 | the filter for other owners' records distributes over concatenation |
| Contacts.ReplaceOwnedKeepsOthers | src/contact/contact.service.ts:29-37 | replacing one of `userId`'s records by another of `userId`'s leaves every other owner's records unchanged |
| Contacts.RemoveOwnedKeepsOthers | src/contact/contact.service.ts:39-41 | removing one of `userId`'s records leaves every other owner's records unchanged |
| Contacts.LookupSeesOnlyOwn | src/contact/contact.service.ts:25-27 | the conjunctive lookup answers the same as over the caller's own records alone |
| Contacts.ForeignRecordsInvisible | src/contact/contact.service.ts:25-27 | two tables with the same records for `userId` answer `userId`'s lookups identically, however other owners' records differ |
| Contacts.ForeignLooksMissing | src/contact/contact.service.ts:25-27 | deleting another owner's record changes nothing the caller can look up: a foreign record is indistinguishable from a missing one |
| Contacts.MatchIsUnique | src/contact/contact.service.ts:26-40 | with unique ids, the record with a given id matches exactly when its owner is the caller |
| Contacts.ContactService.constructor | src/contact/contact.service.ts:10 | the service starts over an empty collection |
| Contacts.ContactService.Create | src/contact/contact.service.ts:12-19 | inserts one record with the DTO's name, phone and address and the caller's id (over any `userId` in the body), returns it, and keeps other owners' records unchanged |
| Contacts.ContactService.GetAll | src/contact/contact.service.ts:21-23 | returns exactly the caller's contacts, each as many times as it is stored, and changes nothing |
| Contacts.ContactService.GetContact | src/contact/contact.service.ts:25-27 | returns a record only when one has both that `_id` and the caller as owner, and null otherwise |
| Contacts.ContactService.Update | src/contact/contact.service.ts:29-37 | with no match: null and the table unchanged; with a match: that record patched in place, the patched record returned, and other owners' records unchanged |
| Contacts.ContactService.Delete | src/contact/contact.service.ts:39-41 | with no match: null and nothing removed; with a match: exactly that record removed and returned, and other owners' records unchanged |
| ContactHttp.ContactOrNotFound | src/contact/contact.controller.ts:39-43 | null becomes NotFound(CONTACT_NOT_FOUND); a contact is answered 200 unchanged |
| ContactHttp.DeletedOrNotFound | src/contact/contact.controller.ts:63-67 | null becomes NotFound(CONTACT_NOT_FOUND); otherwise the answer is 200 `{message: 'Contact deleted successfully'}` |
| ContactHttp.Create | src/contact/contact.controller.ts:24-28 | forwards the body and the token's user id and answers 201 with the service's record unchanged |
| ContactHttp.GetAll | src/contact/contact.controller.ts:30-34 | answers 200 with exactly the caller's contacts, each as many times as it is stored |
| ContactHttp.GetContact | src/contact/contact.controller.ts:36-44 | a malformed id is a 400 before the service runs; 404 exactly when the caller owns no contact with that id; 200 exactly when the caller owns one, with that contact; no other exception |
| ContactHttp.GetContactIgnoresOthers | src/contact/contact.controller.ts:38-43 | the route's answer to `userId` (status and body) does not depend on other owners' records |
| ContactHttp.Update | src/contact/contact.controller.ts:46-58 | 400 on a malformed id and 404 on no match, with the table unchanged in both; otherwise 200 with the patched record |
| ContactHttp.Delete | src/contact/contact.controller.ts:60-68 | 400 on a malformed id and 404 on no match, with nothing removed in both; otherwise the record is removed and the answer is the fixed message |
| Files.Url | src/file/file.service.ts:21-30 | the url is the date folder, `/`, the timestamp, `_`, then the original name (the stored name built by `UniqueFileName`), with no upload-root prefix |
| Files.UnlinkTargetsWrittenPath | src/file/file.service.ts:22-55 | the path delete unlinks for a saved record (`StoragePath` of its url) is the path save wrote the bytes to (`UploadFolder` of the date, then the `UniqueFileName`) |
| Files.FindByContact | src/file/file.service.ts:16 | `findOne({contactId})`: the first record for the contact, or none when no record has that contactId |
| Files.InsertKeepsOneFile | src/file/file.service.ts:16-33 | inserting for a contact without a file keeps at most one file per contact |
| Files.RemoveReleasesContact | src/file/file.service.ts:53 | removing a record keeps at most one file per contact and leaves that contact with no file |
| Files.FileService.constructor | src/file/file.service.ts:13 | the service starts with no records, directories or stored bytes |
| Files.FileService.SaveFile | src/file/file.service.ts:15-39 | on an existing record: Conflict(FILE_ALREADY_EXIST), with no directory, bytes or record written; otherwise it ensures the date folder, writes the bytes, inserts exactly one record `{originalname, url, contactId}` and returns `{contactId, url}`; one file per contact is kept |
| Files.FileService.GetFileByContactId | src/file/file.service.ts:41-50 | `{contactId, url}` of a stored record for the contact, or null exactly when there is none; it changes nothing |
| Files.FileService.DeleteFileByContactId | src/file/file.service.ts:52-64 | true exactly when a record existed: that record is removed and its bytes unlinked unless the unlink fails, and the failure is swallowed; with no record: false and neither records nor disk touched; afterwards the contact has no file |
| FileHttp.AllowedFileType | src/file/file.controller.ts:34 | the upload type gate, a regular expression anchored only at the end, accepts exactly the types whose last three characters are `jpg` or `png` or whose last four are `jpeg` or `webp`; what precedes them does not matter |
| FileHttp.FileTypeExamples | src/file/file.controller.ts:34 | the type gate accepts `image/jpeg`, `image/png`, `image/webp` and, being unanchored at the start, `text/x-jpg`; it refuses `text/plain` and `image/gif` |
| FileHttp.UploadFile | src/file/file.controller.ts:27-41 | a disallowed type is a 400 before saveFile, with nothing stored; a contact with a file is a 409 with no record, directory or bytes written; otherwise 200 with `{contactId, url}` for the body's contactId, after the date folder, the bytes and one record are written |
| FileHttp.GetFile | src/file/file.controller.ts:43-53 | 400 on a malformed id; 404(FILE_NOT_FOUND) exactly when the contact has no file; 200 exactly when it has one, with that file's `{contactId, url}`, whoever the caller is; no other exception |
| FileHttp.DeletedOrNotFound | src/file/file.controller.ts:58-64 | false becomes NotFound(FILE_NOT_FOUND); true becomes 200 `{message: FILE_DELETED_SUCCESSFULLY}` |
| FileHttp.DeleteFile | src/file/file.controller.ts:55-65 | 400 on a malformed id; otherwise 200 exactly when a record existed, with exactly that record removed and its bytes unlinked unless the unlink fails; 404 with nothing touched when none did; directories are never touched, and afterwards the contact has no file |
| FileHttp.ReattachAfterDelete | src/file/file.service.ts:16-63 | upload, upload again, delete, upload again: 200, then 409, then 200, then 200, because a delete releases the contact; in the end the contact has exactly the last upload's record |
| Auth.FindByEmail | src/auth/auth.service.ts:33-35 | `findOne({email})`: the first user whose email equals the argument literally, or none exactly when there is no such user |
| Auth.CountEmailZero | src/auth/auth.service.ts:33-35 | no user has the email exactly when the lookup finds none |
| Auth.CountEmailAppend | src/auth/auth.service.ts:22-25 | inserting a user adds one to the count of its email and leaves the other counts as they were |
| Auth.FindAppended | src/auth/auth.service.ts:33-35 | a user inserted under an unused email is the one the lookup then finds |
| Auth.AuthService.constructor | src/auth/auth.service.ts:13-16 | the service starts with no users and with the given hash and sign |
| Auth.AuthService.CreateUser | src/auth/auth.service.ts:18-31 | inserts exactly one user holding `hash(password)`, not the plaintext, does no duplicate check, and returns `{email, message: 'success'}` |
| Auth.AuthService.FindUser | src/auth/auth.service.ts:33-35 | a stored user with exactly that email, or null exactly when there is none |
| Auth.AuthService.Compare | src/auth/auth.service.ts:43 | bcrypt's `compare`, abstracted: it accepts a password exactly when the stored digest is the `hash` of that password |
| Auth.AuthService.ValidateUser | src/auth/auth.service.ts:37-49 | Unauthorized(USER_NOT_FOUND) exactly when no user has the email; only that or Unauthorized(WRONG_PASSWORD) on failure; only the first user with the email (the one `findOne` returns) is checked: success exactly when its digest matches, answering its `{email, _id}` |
| Auth.AuthService.ValidateUserExactly | src/auth/auth.service.ts:37-49 | with unique emails, validation succeeds exactly when a stored user has that email and a digest matching the password |
| Auth.AuthService.Login | src/auth/auth.service.ts:51-55 | the token is the signature of the payload `{email, userId}` |
| AuthHttp.ValidateBody | src/auth/auth.controller.ts:19-21 | a body missing its email or its password is a 400; otherwise the DTO carries the body's two fields |
| AuthHttp.Register | src/auth/auth.controller.ts:19-28 | 400 on a bad body; BadRequest(USER_ALREADY_EXIST) with no user created when the email is taken; otherwise 201 from createUser, exactly one user then has the email, and that user can log in with the password; unique emails are preserved when registrations do not overlap in time |
| AuthHttp.RegisterTwice | src/auth/auth.controller.ts:22-27 | two sequential registrations of one new email: the first is 201, the second USER_ALREADY_EXIST, and exactly one user has the email |
| AuthHttp.Login | src/auth/auth.controller.ts:30-39 | 400 on a bad body; validateUser's exception passed on unchanged; 200 exactly when validation succeeds, with body `{token: {token}}` equal to the service's login of the `{email, _id}` validateUser answered |

## Left out

- Mongoose and MongoDB: collections are in-memory sequences with the filter semantics of `find`, `findOne`, `findOneAndUpdate` and `findOneAndDelete`. The model omits schema timestamps (`createdAt`, `updatedAt`), casting and `exec`. Without the cast to ObjectId, ids are compared as text: the model finds a record only under the exact `_id` text it was stored with, while Mongoose also finds it when the same hex id is written in the other letter case.
- The database assigns new `_id`s. They are an input: for contacts it must be unused (`Create`), which keeps contact ids unique. For users no property depends on it, so `CreateUser` and `Register` take any id.
- Database and storage failures (the 500 responses) are not modelled. Every database and filesystem call is taken to succeed, except the unlink in delete.
- The filesystem is a set of directories and a map from path to bytes. The application root path, `path.join` and `console.error` are not modelled. The date (`format(new Date(), 'yyyy-MM-dd')`) and `Date.now()` are input strings.
- bcrypt salt and cost, and JWT signature security, expiry and decoding: `hash` and `sign` are uninterpreted function fields.
- JwtAuthGuard, the `@UserId` decorator and IdValidationPipe: their sources are not part of this model. The guard is the caller-id parameter and the pipe is the abstract `validId`.
- The concurrent check-then-insert race in saveFile: the model is sequential, so two saves for one contact never interleave.
- AuthHttp.Register: the same race in register is not modelled. The user schema does not make `email` unique (src/auth/user.model.ts:6-7), so two concurrent registrations of one email can both pass `findUser` and store two users; login then checks only the first. Register's unique-emails result and AuthHttp.RegisterTwice hold for sequential calls only.
- Validation of the contact create and update bodies is not modelled: the DTOs are taken as their declared fields. An undeclared `userId` in a PATCH body would reach `$set` (src/contact/contact.service.ts:35) and move the contact to another owner. So `Patch` keeping `userId`, and the results that other owners' records are unchanged, hold only for bodies with the declared fields.
- AuthHttp.ValidateBody: AuthDto's class-validator rules are not modelled. The model rejects only a missing email or password, not a malformed one.
- ParseFilePipe's missing-file check, multipart parsing and static serving of uploads: framework plumbing.
- The message texts of FILE_*, USER_* and WRONG_PASSWORD: their constants file is not part of this model, so each is an enumerated reason.
- Module wiring (`contact.module.ts`, `file.module.ts`): no behaviour.
