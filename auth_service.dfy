/** The user collection and credential checks (AuthService). bcrypt and
    JwtService are outside this model: the service is given a `hash` and a
    `sign` function it treats as black boxes, and `Compare` holds exactly when
    the stored digest is the hash of the given password. */
module Auth {
  import opened Common

  /** A stored user; `password` holds the digest, never the plaintext. */
  datatype User = User(id: Id, email: string, password: string)

  /** The body of register and login once validated. */
  datatype AuthDto = AuthDto(email: string, password: string)

  /** What createUser answers: `{email, message}`. */
  datatype Created = Created(email: string, message: string)

  /** What validateUser answers: `Pick<User, 'email' | '_id'>`. */
  datatype Identity = Identity(email: string, id: Id)

  /** The claims signed into a token: `{email, userId}`. */
  datatype Payload = Payload(email: string, userId: Id)

  /** What login answers: `{token}`. */
  datatype TokenBody = TokenBody(token: string)

  const SUCCESS: string := "success"

  /** No two stored users share an email. */
  ghost predicate UniqueEmails(s: seq<User>) {
    forall i, j :: 0 <= i < j < |s| ==> s[i].email != s[j].email
  }

  /** `findOne({email})`: the position of the first user whose email is literally `email`. */
  function FindByEmail(s: seq<User>, email: string): (r: Option<nat>)
    ensures r.Some? ==> r.value < |s| && s[r.value].email == email
    ensures r.Some? ==> forall j :: 0 <= j < r.value ==> s[j].email != email
    ensures r.None? <==> forall j :: 0 <= j < |s| ==> s[j].email != email
  {
    FirstMatch(s, (u: User) => u.email == email)
  }

  /** How many stored users have the email `email`. */
  function CountEmail(s: seq<User>, email: string): nat {
    if s == [] then 0
    else (if s[0].email == email then 1 else 0) + CountEmail(s[1..], email)
  }

  lemma {:induction false} CountEmailZero(s: seq<User>, email: string)
    ensures CountEmail(s, email) == 0 <==> FindByEmail(s, email).None?
  {
    if s != [] {
      CountEmailZero(s[1..], email);
    }
  }

  lemma {:induction false} CountEmailAppend(s: seq<User>, u: User, email: string)
    ensures CountEmail(s + [u], email) == CountEmail(s, email) + (if u.email == email then 1 else 0)
  {
    if s == [] {
      assert s + [u] == [u];
    } else {
      assert (s + [u])[1..] == s[1..] + [u];
      CountEmailAppend(s[1..], u, email);
    }
  }

  /** A user appended under an email no one has is the one `findOne` finds. */
  lemma {:induction false} FindAppended(s: seq<User>, u: User)
    requires FindByEmail(s, u.email).None?
    ensures FindByEmail(s + [u], u.email) == Some(|s|)
  {
    if s == [] {
      assert s + [u] == [u];
    } else {
      assert (s + [u])[1..] == s[1..] + [u];
      FindAppended(s[1..], u);
    }
  }

  class AuthService {
    /** The user collection. */
    var users: seq<User>
    /** bcrypt's `hash(password, salt)`, abstracted. */
    const hash: string -> string
    /** `JwtService.signAsync`, abstracted. */
    const sign: Payload -> string

    constructor (hash: string -> string, sign: Payload -> string)
      ensures users == [] && this.hash == hash && this.sign == sign
    {
      this.hash, this.sign := hash, sign;
      users := [];
    }

    /** bcrypt's `compare(password, digest)`. */
    predicate Compare(password: string, digest: string) {
      hash(password) == digest
    }

    /** `createUser(dto)`: store the email with the hash of the password.
        It does no duplicate check of its own. `newId` is the `_id` the database assigns. */
    method CreateUser(dto: AuthDto, newId: Id) returns (r: Created)
      modifies this
      ensures users == old(users) + [User(newId, dto.email, hash(dto.password))]
      ensures r == Created(dto.email, SUCCESS)
      ensures CountEmail(users, dto.email) == CountEmail(old(users), dto.email) + 1
    {
      var user := User(newId, dto.email, hash(dto.password));
      CountEmailAppend(users, user, dto.email);
      users := users + [user];
      r := Created(dto.email, SUCCESS);
    }

    /** `findUser(email)`: a user whose email is literally `email`, or null. */
    function FindUser(email: string): (r: Option<User>)
      reads this
      ensures r.Some? ==> r.value in users && r.value.email == email
      ensures r.None? <==> forall u :: u in users ==> u.email != email
    {
      match FindByEmail(users, email)
      case None => None
      case Some(i) => Some(users[i])
    }

    /** `validateUser(email, password)`: Unauthorized(USER_NOT_FOUND) for an
        unknown email, Unauthorized(WRONG_PASSWORD) when the digest does not
        match, and otherwise the user's `{email, _id}`. */
    function ValidateUser(email: string, password: string): (r: Result<Identity>)
      reads this
      ensures r == Failure(Unauthorized(UserNotFound)) <==> forall u :: u in users ==> u.email != email
      ensures r.Success? ==>
                r.value.email == email &&
                exists u :: u in users && u.email == email && u.id == r.value.id && Compare(password, u.password)
      ensures r.Failure? ==> r.exception in {Unauthorized(UserNotFound), Unauthorized(WrongPassword)}
      ensures FindByEmail(users, email).Some? ==>
                var u := users[FindByEmail(users, email).value];
                && (r.Success? <==> Compare(password, u.password))
                && (r.Success? ==> r.value == Identity(u.email, u.id))
    {
      match FindUser(email)
      case None => Failure(Unauthorized(UserNotFound))
      case Some(user) =>
        if !Compare(password, user.password) then Failure(Unauthorized(WrongPassword))
        else Success(Identity(user.email, user.id))
    }

    /** When emails are unique, validation succeeds exactly for a stored
        user's email together with a password whose hash is that user's digest. */
    lemma ValidateUserExactly(email: string, password: string)
      requires UniqueEmails(users)
      ensures ValidateUser(email, password).Success? <==>
              exists u :: u in users && u.email == email && Compare(password, u.password)
    {
      if u :| u in users && u.email == email && Compare(password, u.password) {
        var i := FindByEmail(users, email).value;
        var k :| 0 <= k < |users| && users[k] == u;
        assert i == k;
      }
    }

    /** `login(email, userId)`: sign `{email, userId}` and answer `{token}`. */
    function Login(email: string, userId: Id): (r: TokenBody)
      reads this
      ensures r.token == sign(Payload(email, userId))
    {
      TokenBody(sign(Payload(email, userId)))
    }
  }
}
