/**
 * The `/register` and `/login` handlers and the token they issue. Registration runs a fixed,
 * short-circuiting chain of checks and then saves one user; login is a read-only query that
 * reports an unknown email and a wrong password the same way.
 */
module AuthRoutes {
  import opened Wrappers
  import opened JsStrings
  import opened Users

  const ALL_FIELDS_REQUIRED := "All fields are required"
  const PASSWORD_TOO_SHORT := "Password should be at least 6 characters long"
  const USERNAME_TOO_SHORT := "Username should be at least 3 characters long"
  const EMAIL_EXISTS := "Email already exist"
  const USERNAME_EXISTS := "Username already exist"
  const INVALID_CREDENTIALS := "Invalid Credentials"
  const MIN_PASSWORD_LENGTH := 6
  const MIN_USERNAME_LENGTH := 3
  const AVATAR_PREFIX := "https://api.dicebear.com/9.x/avataaars/svg?seed="
  const TOKEN_LIFETIME := "15d"

  /** The payload a token carries. */
  datatype Claims = Claims(userId: UserId)

  /** What `jwt.sign` is given besides the secret: the payload and the `expiresIn` option. */
  datatype SignRequest = SignRequest(payload: Claims, expiresIn: string)

  /** `jwt.sign` under the server's secret, left uninterpreted. */
  type Signer = SignRequest -> string

  /** `comparePassword(stored, candidate)` of the User schema, left uninterpreted. */
  type PasswordCheck = (string, string) -> bool

  /** `generateToken(userId)`: a token for `{ userId }` that expires after 15 days. */
  function GenerateToken(sign: Signer, userId: UserId): (token: string)
    ensures token == sign(SignRequest(Claims(userId), "15d"))
  {
    sign(SignRequest(Claims(userId), TOKEN_LIFETIME))
  }

  datatype RegisterRequest = RegisterRequest(username: Option<string>, email: Option<string>, password: Option<string>)

  datatype LoginRequest = LoginRequest(email: Option<string>, password: Option<string>)

  /** `res.status(..).json({ token, user })` or `res.status(..).json({ message })`. */
  datatype AuthReply = AuthSuccess(status: nat, token: string, user: PublicUser) | AuthFailure(status: nat, message: string)

  /** The avatar URL derived from the username at registration. */
  function ProfileImage(username: string): string {
    AVATAR_PREFIX + username
  }

  predicate FieldsPresent(req: RegisterRequest) {
    Truthy(req.username) && Truthy(req.email) && Truthy(req.password)
  }

  /** Every check of the registration chain passes. */
  predicate Admissible(users: seq<User>, req: RegisterRequest) {
    && FieldsPresent(req)
    && |req.password.value| >= MIN_PASSWORD_LENGTH
    && |req.username.value| >= MIN_USERNAME_LENGTH
    && FindOne(users, ByEmail(req.email.value)).None?
    && FindOne(users, ByUsername(req.username.value)).None?
  }

  /** The document registration saves for a request with all fields present. */
  function NewUser(id: UserId, req: RegisterRequest): User
    requires FieldsPresent(req)
  {
    User(id, req.username.value, req.email.value, req.password.value, ProfileImage(req.username.value))
  }

  /** The user collection, with the counter that hands out fresh document ids. */
  class UserStore {
    var users: seq<User>
    var nextId: UserId

    ghost predicate Valid()
      reads this
    {
      Unique(users) && forall u :: u in users ==> u.id < nextId
    }

    constructor ()
      ensures Valid() && users == [] && nextId == 0
    {
      users := [];
      nextId := 0;
    }

    /** `POST /register`. */
    method Register(req: RegisterRequest, sign: Signer) returns (r: AuthReply)
      requires Valid()
      modifies this
      ensures Valid()
      // presence is checked first
      ensures !FieldsPresent(req) ==>
        r == AuthFailure(400, ALL_FIELDS_REQUIRED) && unchanged(this)
      // then the password length, before the username length
      ensures FieldsPresent(req) && |req.password.value| < MIN_PASSWORD_LENGTH ==>
        r == AuthFailure(400, PASSWORD_TOO_SHORT) && unchanged(this)
      ensures FieldsPresent(req) && |req.password.value| >= MIN_PASSWORD_LENGTH && |req.username.value| < MIN_USERNAME_LENGTH ==>
        r == AuthFailure(400, USERNAME_TOO_SHORT) && unchanged(this)
      // then the email, before the username
      ensures FieldsPresent(req) && |req.password.value| >= MIN_PASSWORD_LENGTH && |req.username.value| >= MIN_USERNAME_LENGTH
              && FindOne(old(users), ByEmail(req.email.value)).Some? ==>
        r == AuthFailure(400, EMAIL_EXISTS) && unchanged(this)
      ensures FieldsPresent(req) && |req.password.value| >= MIN_PASSWORD_LENGTH && |req.username.value| >= MIN_USERNAME_LENGTH
              && FindOne(old(users), ByEmail(req.email.value)).None? && FindOne(old(users), ByUsername(req.username.value)).Some? ==>
        r == AuthFailure(400, USERNAME_EXISTS) && unchanged(this)
      // on success exactly one user is saved and returned with a token for its id
      ensures Admissible(old(users), req) ==>
        && users == old(users) + [NewUser(old(nextId), req)]
        && nextId == old(nextId) + 1
        && r == AuthSuccess(201, GenerateToken(sign, old(nextId)), Public(NewUser(old(nextId), req)))
    {
      if !Truthy(req.username) || !Truthy(req.email) || !Truthy(req.password) {
        return AuthFailure(400, ALL_FIELDS_REQUIRED);
      }
      var username, email, password := req.username.value, req.email.value, req.password.value;
      if |password| < MIN_PASSWORD_LENGTH {
        return AuthFailure(400, PASSWORD_TOO_SHORT);
      }
      if |username| < MIN_USERNAME_LENGTH {
        return AuthFailure(400, USERNAME_TOO_SHORT);
      }
      var existingEmail := FindOne(users, ByEmail(email));
      if existingEmail.Some? {
        return AuthFailure(400, EMAIL_EXISTS);
      }
      var existingUsername := FindOne(users, ByUsername(username));
      if existingUsername.Some? {
        return AuthFailure(400, USERNAME_EXISTS);
      }
      var user := User(nextId, username, email, password, ProfileImage(username));
      RegisterKeepsUnique(users, nextId, req);
      users := users + [user];
      nextId := nextId + 1;
      r := AuthSuccess(201, GenerateToken(sign, user.id), Public(user));
    }
  }

  /** `POST /login`, a query over the user collection. */
  function Login(users: seq<User>, req: LoginRequest, compare: PasswordCheck, sign: Signer): (r: AuthReply)
    ensures !(Truthy(req.email) && Truthy(req.password)) ==> r == AuthFailure(400, ALL_FIELDS_REQUIRED)
    // an unknown email and a rejected password give the one generic failure
    ensures Truthy(req.email) && Truthy(req.password) && r.AuthFailure? ==> r == AuthFailure(400, INVALID_CREDENTIALS)
    ensures Truthy(req.email) && (forall u :: u in users ==> u.email != req.email.value) ==> r.AuthFailure?
    // success names a stored user with that email whose password check passed, and a token for its id
    ensures r.AuthSuccess? ==>
      && r.status == 200
      && exists u :: u in users && u.email == req.email.value && compare(u.password, req.password.value)
                     && r.user == Public(u) && r.token == GenerateToken(sign, u.id)
  {
    if !Truthy(req.email) || !Truthy(req.password) then AuthFailure(400, ALL_FIELDS_REQUIRED)
    else match FindOne(users, ByEmail(req.email.value))
      case None => AuthFailure(400, INVALID_CREDENTIALS)
      case Some(u) =>
        if !compare(u.password, req.password.value) then AuthFailure(400, INVALID_CREDENTIALS)
        else AuthSuccess(200, GenerateToken(sign, u.id), Public(u))
  }

  /** The reply does not tell an unknown email from a known email with a wrong password. */
  lemma LoginHidesCause(users: seq<User>, unknown: LoginRequest, wrong: LoginRequest, compare: PasswordCheck, sign: Signer)
    requires Truthy(unknown.email) && Truthy(unknown.password)
    requires forall u :: u in users ==> u.email != unknown.email.value
    requires Truthy(wrong.email) && Truthy(wrong.password)
    requires FindOne(users, ByEmail(wrong.email.value)).Some?
    requires !compare(FindOne(users, ByEmail(wrong.email.value)).value.password, wrong.password.value)
    ensures Login(users, unknown, compare, sign) == Login(users, wrong, compare, sign) == AuthFailure(400, INVALID_CREDENTIALS)
  {
  }

  /** A stored user whose password check passes logs in as itself (emails being unique). */
  lemma LoginSucceeds(users: seq<User>, k: nat, password: string, compare: PasswordCheck, sign: Signer)
    requires Unique(users) && k < |users|
    requires users[k].email != "" && password != ""
    requires compare(users[k].password, password)
    ensures Login(users, LoginRequest(Some(users[k].email), Some(password)), compare, sign)
            == AuthSuccess(200, GenerateToken(sign, users[k].id), Public(users[k]))
  {
    FindOneFindsUnique(users, k, ByEmail(users[k].email));
  }

  /** Registration followed by login with the same credentials yields the registered user. */
  lemma LoginAfterRegister(users: seq<User>, id: UserId, req: RegisterRequest, compare: PasswordCheck, sign: Signer)
    requires Unique(users) && forall u :: u in users ==> u.id < id
    requires Admissible(users, req)
    requires compare(req.password.value, req.password.value)
    ensures var u := NewUser(id, req);
            Login(users + [u], LoginRequest(req.email, req.password), compare, sign)
            == AuthSuccess(200, GenerateToken(sign, id), Public(u))
  {
    var u := NewUser(id, req);
    var after := users + [u];
    RegisterKeepsUnique(users, id, req);
    LoginSucceeds(after, |users|, req.password.value, compare, sign);
  }

  /** Saving an admissible registration keeps ids, emails and usernames unique. */
  lemma RegisterKeepsUnique(users: seq<User>, id: UserId, req: RegisterRequest)
    requires Unique(users) && forall u :: u in users ==> u.id < id
    requires Admissible(users, req)
    ensures Unique(users + [NewUser(id, req)])
  {
    var after := users + [NewUser(id, req)];
    forall i, j | 0 <= i < j < |after|
      ensures after[i].id != after[j].id && after[i].email != after[j].email && after[i].username != after[j].username
    {
      if j == |users| {
        assert after[i] in users;
        assert !Matches(after[i], ByEmail(req.email.value));
        assert !Matches(after[i], ByUsername(req.username.value));
      }
    }
  }
}
