/** The public `/auth` routes (AuthController). Both run ValidationPipe on
    the body first: a body missing its email or its password is a 400 and
    reaches no service. */
module AuthHttp {
  import opened Common
  import opened Auth

  /** The request body as received: either field may be missing. */
  datatype AuthBody = AuthBody(email: Option<string>, password: Option<string>)

  /** What POST /auth/login answers: `{token}` wrapped around the service's `{token}`. */
  datatype LoginBody = LoginBody(token: TokenBody)

  /** ValidationPipe on an AuthDto body. */
  function ValidateBody(body: AuthBody): (r: Result<AuthDto>)
    ensures r.Success? <==> body.email.Some? && body.password.Some?
    ensures r.Success? ==> r.value.email == body.email.value && r.value.password == body.password.value
    ensures r.Failure? ==> r.exception == BadRequest(InvalidBody)
  {
    if body.email.Some? && body.password.Some? then Success(AuthDto(body.email.value, body.password.value))
    else Failure(BadRequest(InvalidBody))
  }

  /** POST /auth/register: a check-then-insert on the email. */
  method Register(service: AuthService, body: AuthBody, newId: Id) returns (reply: Reply<Created>)
    modifies service
    ensures ValidateBody(body).Failure? ==>
              reply == Thrown(BadRequest(InvalidBody)) && service.users == old(service.users)
    ensures ValidateBody(body).Success? && old(service.FindUser(body.email.value)).Some? ==>
              reply == Thrown(BadRequest(UserAlreadyExist)) && service.users == old(service.users)
    ensures ValidateBody(body).Success? && old(service.FindUser(body.email.value)).None? ==>
              var dto := ValidateBody(body).value;
              && reply == Ok(CREATED, Created(dto.email, SUCCESS))
              && service.users == old(service.users) + [User(newId, dto.email, service.hash(dto.password))]
              && CountEmail(service.users, dto.email) == 1
              && service.ValidateUser(dto.email, dto.password) == Success(Identity(dto.email, newId))
    ensures UniqueEmails(old(service.users)) ==> UniqueEmails(service.users)
  {
    var validated := ValidateBody(body);
    if validated.Failure? {
      reply := Thrown(validated.exception);
      return;
    }
    var dto := validated.value;
    var oldUser := service.FindUser(dto.email);
    if oldUser.Some? {
      reply := Thrown(BadRequest(UserAlreadyExist));
      return;
    }
    CountEmailZero(service.users, dto.email);
    FindAppended(service.users, User(newId, dto.email, service.hash(dto.password)));
    var created := service.CreateUser(dto, newId);
    reply := Ok(CREATED, created);
  }

  /** Registering the same email twice in a row leaves exactly one user with it. */
  method RegisterTwice(service: AuthService, body: AuthBody, firstId: Id, secondId: Id)
    returns (first: Reply<Created>, second: Reply<Created>)
    requires body.email.Some? && body.password.Some? && service.FindUser(body.email.value).None?
    modifies service
    ensures first.Ok? && first.status == CREATED
    ensures second == Thrown(BadRequest(UserAlreadyExist))
    ensures CountEmail(service.users, body.email.value) == 1
  {
    first := Register(service, body, firstId);
    second := Register(service, body, secondId);
  }

  /** POST /auth/login (answers 200): validate, then sign the validated
      user's email and id. The `if (!user)` check after validateUser never
      fires, since validateUser either throws or answers a user. */
  function Login(service: AuthService, body: AuthBody): (reply: Reply<LoginBody>)
    reads service
    ensures ValidateBody(body).Failure? ==> reply == Thrown(BadRequest(InvalidBody))
    ensures ValidateBody(body).Success? ==>
              var dto := ValidateBody(body).value;
              && (service.ValidateUser(dto.email, dto.password).Failure? ==>
                    reply == Thrown(service.ValidateUser(dto.email, dto.password).exception))
              && (reply.Ok? <==> service.ValidateUser(dto.email, dto.password).Success?)
    ensures reply.Ok? ==>
              && reply.status == OK
              && exists u :: u in service.users && u.email == body.email.value
                             && service.Compare(body.password.value, u.password)
                             && reply.body == LoginBody(TokenBody(service.sign(Payload(u.email, u.id))))
    ensures reply.Ok? ==>
              var v := service.ValidateUser(body.email.value, body.password.value).value;
              reply.body == LoginBody(service.Login(v.email, v.id))
  {
    match ValidateBody(body)
    case Failure(e) => Thrown(e)
    case Success(dto) =>
      match service.ValidateUser(dto.email, dto.password)
      case Failure(e) => Thrown(e)
      case Success(user) => Ok(OK, LoginBody(service.Login(user.email, user.id)))
  }
}
