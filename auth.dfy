/**
 * The credential rules of the auth service (`AuthService`): email lookup,
 * password validation, registration, login and token verification. bcrypt
 * and the JWT service are the service's collaborators and appear here as
 * functions it is given, about which nothing is known.
 */
module Auth {
  import opened Wrappers
  import opened Messages

  const EMAIL_TAKEN: string := "An account with that email already exist"
  const BAD_CREDENTIALS: string := "Bad credentials"
  const TOKEN_MISSING: string := "Token is missing"
  const VERIFY_FAILED: string := "Something went wrong with the verify token"

  /**
   * A row of the user table. `password` is the bcrypt hash when the row is
   * read with the password column selected; `None` is the property removed
   * by `delete`.
   */
  datatype User = User(id: int, firstName: string, lastName: string, email: string, password: Option<string>)

  /** The registration payload. */
  datatype NewUser = NewUser(firstName: string, lastName: string, email: string, password: string)

  /** The login payload. */
  datatype Credentials = Credentials(email: string, password: string)

  /** The login reply `{ token }`. */
  datatype LoginReply = LoginReply(token: string)

  /** The two exceptions the service throws. */
  datatype AuthError = Unauthorized(message: string) | Conflict(message: string)

  class AuthService {
    /** The user table, keyed by its unique email column. */
    var users: map<string, User>
    /** The next value the table's generated primary key hands out. */
    var nextId: nat

    /** `bcrypt.hash(password, 12)`. */
    const hash: string -> string
    /** `bcrypt.compare(password, hashed)`. */
    const compare: (string, string) -> bool
    /** `jwtService.signAsync({ user })`. */
    const sign: User -> string
    /** `jwtService.verifyAsync(jwt)`: the decoded claims, or `None` when it throws. */
    const verify: string -> Option<Claims>

    /**
     * The table invariant: every row sits under its own email (so emails are
     * unique), carries a password hash, and has a distinct generated id below
     * `nextId`.
     */
    ghost predicate Valid()
      reads this
    {
      && 0 < nextId
      && (forall e :: e in users ==> users[e].email == e && users[e].password.Some?)
      && (forall e :: e in users ==> 0 < users[e].id < nextId)
      && (forall a, b :: a in users && b in users && users[a].id == users[b].id ==> a == b)
    }

    /** bcrypt accepts a password against its own hash. */
    ghost predicate HashSound()
    {
      forall p :: compare(p, hash(p))
    }

    /** A row that has this email and whose hash accepts this password. */
    ghost predicate Matches(u: User, email: string, password: string)
    {
      u.email == email && u.password.Some? && compare(password, u.password.value)
    }

    constructor (hash: string -> string, compare: (string, string) -> bool,
                 sign: User -> string, verify: string -> Option<Claims>)
      ensures Valid()
      ensures users == map[] && nextId == 1
      ensures this.hash == hash && this.compare == compare
      ensures this.sign == sign && this.verify == verify
    {
      this.hash, this.compare, this.sign, this.verify := hash, compare, sign, verify;
      users := map[];
      nextId := 1;
    }

    /** `findByEmail`: the row with this email, password included, or `null`. */
    function FindByEmail(email: string): (r: Option<User>)
      reads this
      requires Valid()
      ensures r.Some? <==> exists u :: u in users.Values && u.email == email
      ensures r.Some? ==> r.value in users.Values && r.value.email == email && r.value.password.Some?
    {
      if email in users then Some(users[email]) else None
    }

    /**
     * `validateUser`: `null` for an unknown email or a password the stored
     * hash rejects, and otherwise the stored row.
     */
    function ValidateUser(email: string, password: string): (r: Option<User>)
      reads this
      requires Valid()
      ensures FindByEmail(email).None? ==> r.None?
      ensures FindByEmail(email).Some? ==>
        (r.Some? <==> compare(password, FindByEmail(email).value.password.value))
      ensures r.Some? <==> exists u :: u in users.Values && Matches(u, email, password)
      ensures r.Some? ==> r.value in users.Values && Matches(r.value, email, password)
    {
      var user := FindByEmail(email);
      if user.None? then None
      else if !compare(password, user.value.password.value) then None
      else user
    }

    /**
     * `loginUser`: Unauthorized("Bad credentials") exactly when validation
     * fails, and otherwise `{ token }` signed over the validated row.
     */
    function LoginUser(payload: Credentials): (r: Result<LoginReply, AuthError>)
      reads this
      requires Valid()
      ensures r.Failure? <==> ValidateUser(payload.email, payload.password).None?
      ensures r.Failure? ==> r.error == Unauthorized(BAD_CREDENTIALS)
      ensures r.Success? ==>
        exists u :: u in users.Values && Matches(u, payload.email, payload.password) &&
                    r.value.token == sign(u)
    {
      var user := ValidateUser(payload.email, payload.password);
      if user.None? then Failure(Unauthorized(BAD_CREDENTIALS))
      else Success(LoginReply(sign(user.value)))
    }

    /**
     * `verifyJwt`: a falsy token is "Token is missing", a token the verifier
     * rejects is Unauthorized, and an accepted one gives back exactly its
     * `exp` claim.
     */
    function VerifyJwt(jwt: Jwt): (r: Result<ExpReply, AuthError>)
      ensures !Truthy(jwt) ==> r == Failure(Unauthorized(TOKEN_MISSING))
      ensures Truthy(jwt) && verify(jwt.value).None? ==> r == Failure(Unauthorized(VERIFY_FAILED))
      ensures r.Success? <==> Truthy(jwt) && verify(jwt.value).Some?
      ensures r.Success? ==> r.value == ExpReply(verify(jwt.value).value.exp)
      ensures r.Failure? ==> r.error.Unauthorized?
    {
      if !Truthy(jwt) then Failure(Unauthorized(TOKEN_MISSING))
      else
        match verify(jwt.value)
        case None => Failure(Unauthorized(VERIFY_FAILED))
        case Some(claims) => Success(ExpReply(claims.exp))
    }

    /**
     * `registerUser`: a taken email is a Conflict and changes nothing;
     * otherwise one new row is saved under the email with the hashed
     * password, and that row is returned with its password removed.
     */
    method RegisterUser(payload: NewUser) returns (r: Result<User, AuthError>)
      requires Valid()
      modifies this
      ensures Valid()
      ensures r.Failure? <==> old(FindByEmail(payload.email)).Some?
      ensures r.Failure? ==>
        r.error == Conflict(EMAIL_TAKEN) && users == old(users) && nextId == old(nextId)
      ensures r.Success? ==>
        var stored := User(old(nextId), payload.firstName, payload.lastName, payload.email,
                           Some(hash(payload.password)));
        && users == old(users)[payload.email := stored]
        && nextId == old(nextId) + 1
        && r.value == stored.(password := None)
      ensures r.Success? ==> |users| == |old(users)| + 1
      ensures forall e :: e in old(users) ==> e in users && users[e] == old(users)[e]
      ensures r.Success? && HashSound() ==>
        && ValidateUser(payload.email, payload.password) == Some(users[payload.email])
        && LoginUser(Credentials(payload.email, payload.password)) ==
           Success(LoginReply(sign(users[payload.email])))
    {
      var existing := FindByEmail(payload.email);
      if existing.Some? {
        return Failure(Conflict(EMAIL_TAKEN));
      }
      assert payload.email !in users;
      var hashed := hash(payload.password);
      var saved := User(nextId, payload.firstName, payload.lastName, payload.email, Some(hashed));
      users := users[payload.email := saved];
      nextId := nextId + 1;
      r := Success(saved.(password := None));
    }
  }

  /**
   * A row stored with the hash of a password validates with that password,
   * and logging in with it yields the token signed over that row.
   */
  lemma StoredPasswordLogsIn(s: AuthService, email: string, password: string)
    requires s.Valid() && s.HashSound()
    requires email in s.users && s.users[email].password == Some(s.hash(password))
    ensures s.ValidateUser(email, password) == Some(s.users[email])
    ensures s.LoginUser(Credentials(email, password)) == Success(LoginReply(s.sign(s.users[email])))
  {
  }

  /** Emails are unique across the table. */
  lemma EmailsUnique(s: AuthService, a: string, b: string)
    requires s.Valid()
    requires a in s.users && b in s.users && s.users[a].email == s.users[b].email
    ensures a == b
  {
  }

  /** A falsy token is rejected before the verifier is consulted: the verifier cannot change the result. */
  lemma MissingTokenSkipsVerifier(s1: AuthService, s2: AuthService, jwt: Jwt)
    requires !Truthy(jwt)
    ensures s1.VerifyJwt(jwt) == s2.VerifyJwt(jwt)
  {
  }

  /** Only the `exp` claim is passed on: tokens whose claims share `exp` give the same reply. */
  lemma VerifyJwtKeepsOnlyExp(s: AuthService, t1: string, t2: string)
    requires t1 != "" && t2 != ""
    requires s.verify(t1).Some? && s.verify(t2).Some?
    requires s.verify(t1).value.exp == s.verify(t2).value.exp
    ensures s.VerifyJwt(Str(t1)) == s.VerifyJwt(Str(t2))
  {
  }
}
