/** Shared vocabulary of the contact manager: optional values, the HTTP
    exceptions the services and controllers throw, and what a route answers. */
module Common {

  datatype Option<+T> = None | Some(value: T)

  /** Text of a stored document's identifier (`_id`, `userId`, `contactId`). */
  type Id = string

  /** HTTP status codes the routes answer with. */
  const OK: nat := 200
  const CREATED: nat := 201

  /** The message constant an exception carries. */
  datatype Reason =
    | ContactNotFound   // CONTACT_NOT_FOUND
    | FileNotFound      // FILE_NOT_FOUND
    | FileAlreadyExist  // FILE_ALREADY_EXIST
    | UserAlreadyExist  // USER_ALREADY_EXIST
    | UserNotFound      // USER_NOT_FOUND
    | WrongPassword     // WRONG_PASSWORD
    | InvalidId         // rejected by IdValidationPipe
    | InvalidBody       // rejected by ValidationPipe
    | InvalidFileType   // rejected by ParseFilePipe's FileTypeValidator

  /** The Nest exceptions thrown by this core. */
  datatype HttpException =
    | BadRequest(reason: Reason)
    | Unauthorized(reason: Reason)
    | NotFound(reason: Reason)
    | Conflict(reason: Reason)

  /** A service call: its value, or the exception it throws. */
  datatype Result<+T> = Success(value: T) | Failure(exception: HttpException)

  /** What a route answers: a success status with a body, or an exception. */
  datatype Reply<+T> = Ok(status: nat, body: T) | Thrown(exception: HttpException)

  /** `s` with the element at `i` taken out. */
  function RemoveAt<T>(s: seq<T>, i: nat): (r: seq<T>)
    requires i < |s|
    ensures |r| == |s| - 1
    ensures forall j :: 0 <= j < i ==> r[j] == s[j]
    ensures forall j :: i <= j < |r| ==> r[j] == s[j + 1]
  {
    s[..i] + s[i + 1..]
  }

  /** The position of the first element satisfying `p`, as a `findOne` with
      filter `p` picks it, or none when no element does. */
  function FirstMatch<T>(s: seq<T>, p: T -> bool): (r: Option<nat>)
    ensures r.Some? ==> r.value < |s| && p(s[r.value])
    ensures r.Some? ==> forall j :: 0 <= j < r.value ==> !p(s[j])
    ensures r.None? <==> forall j :: 0 <= j < |s| ==> !p(s[j])
  {
    if s == [] then None
    else if p(s[0]) then Some(0)
    else match FirstMatch(s[1..], p)
      case None => None
      case Some(k) => Some(k + 1)
  }
}
