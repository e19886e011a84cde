/**
 * `protectRoute`: takes the token out of the Authorization header, verifies it, looks the
 * user up and either attaches the user to the request and passes control on, or answers 401.
 * Everything the try block throws lands in one catch, which also answers 401.
 */
module AuthMiddleware {
  import opened Wrappers
  import opened JsStrings
  import opened Http
  import opened Users
  import opened AuthRoutes

  const BEARER_PREFIX := "Bearer "
  const NO_TOKEN := "No authentication token, access denied"
  const TOKEN_NOT_VALID := "Token is not valid"

  /** `jwt.verify` under the server's secret, left uninterpreted: None when it throws (bad signature, malformed, expired). */
  type Verifier = string -> Option<Claims>

  /** Where a run of the gate ends: `next()` with the user attached, a reply, or an exception. */
  datatype Step = Next(user: PublicUser) | Respond(reply: Reply) | Throw

  /** `header.replace("Bearer ", "")`. */
  function StripBearer(header: string): (token: string)
    // the first "Bearer ", wherever it starts, is cut out and everything around it is kept
    ensures forall i: nat :: MatchesAt(header, BEARER_PREFIX, i) && (forall j: nat :: j < i ==> !MatchesAt(header, BEARER_PREFIX, j)) ==>
      i + |BEARER_PREFIX| <= |header| && token == header[..i] + header[i + |BEARER_PREFIX|..]
  {
    ReplaceFirst(header, BEARER_PREFIX, "")
  }

  /**
   * The try block, with the header read as an optional string and the user looked up by id.
   * An absent header throws, since `.replace` is then called on undefined.
   */
  function GuardBody(header: Option<string>, verify: Verifier, users: seq<User>): Step {
    match header
    case None => Throw
    case Some(h) =>
      var token := StripBearer(h);
      if token == "" then Respond(Reply(401, NO_TOKEN))
      else match verify(token)
        case None => Throw
        case Some(decoded) =>
          match FindOne(users, ById(decoded.userId))
          case None => Respond(Reply(401, TOKEN_NOT_VALID))
          case Some(u) => Next(Public(u))
  }

  /** The catch block: any exception becomes 401 "Token is not valid". */
  function Catch(s: Step): (r: Step)
    ensures !r.Throw?
    ensures s.Throw? ==> r == Respond(Reply(401, TOKEN_NOT_VALID))
    ensures !s.Throw? ==> r == s
  {
    if s.Throw? then Respond(Reply(401, TOKEN_NOT_VALID)) else s
  }

  /** The gate's decision for a request carrying `header`. */
  function Authenticate(header: Option<string>, verify: Verifier, users: seq<User>): (r: Step)
    ensures !r.Throw?
    // every failure is a 401
    ensures r.Respond? ==> r.reply.status == 401
    ensures header.None? ==> r == Respond(Reply(401, TOKEN_NOT_VALID))
    ensures header.Some? && StripBearer(header.value) == "" ==> r == Respond(Reply(401, NO_TOKEN))
    ensures header.Some? && StripBearer(header.value) != "" && verify(StripBearer(header.value)).None? ==>
      r == Respond(Reply(401, TOKEN_NOT_VALID))
    ensures header.Some? && StripBearer(header.value) != "" && verify(StripBearer(header.value)).Some?
            && (forall u :: u in users ==> u.id != verify(StripBearer(header.value)).value.userId) ==>
      r == Respond(Reply(401, TOKEN_NOT_VALID))
    // the request proceeds exactly when the verified token names a stored user, and then as that user
    ensures r.Next? <==>
      header.Some? && StripBearer(header.value) != "" && verify(StripBearer(header.value)).Some?
      && exists u :: u in users && u.id == verify(StripBearer(header.value)).value.userId
    ensures r.Next? ==> exists u :: u in users && u.id == verify(StripBearer(header.value)).value.userId && r.user == Public(u)
  {
    Catch(GuardBody(header, verify, users))
  }

  /** With a verifier that accepts what the signer issues, a token names the user it was made for. */
  lemma TokenNamesUser(sign: Signer, verify: Verifier, userId: UserId)
    requires forall req: SignRequest :: verify(sign(req)) == Some(req.payload)
    ensures verify(GenerateToken(sign, userId)) == Some(Claims(userId))
  {
  }

  /** A token issued for a stored user, presented as `Bearer <token>`, lets the request through as that user. */
  lemma IssuedTokenAuthenticates(users: seq<User>, k: nat, sign: Signer, verify: Verifier)
    requires Unique(users) && k < |users|
    requires GenerateToken(sign, users[k].id) != ""
    requires verify(GenerateToken(sign, users[k].id)) == Some(Claims(users[k].id))
    ensures Authenticate(Some(BEARER_PREFIX + GenerateToken(sign, users[k].id)), verify, users) == Next(Public(users[k]))
  {
    var token := GenerateToken(sign, users[k].id);
    ReplaceFirstOfPrefixed(BEARER_PREFIX, token);
    FindOneFindsUnique(users, k, ById(users[k].id));
  }

  /** A header that does not contain "Bearer " is used as the token unchanged. */
  lemma UnprefixedHeaderIsTheToken(h: string)
    requires forall j: nat :: !MatchesAt(h, BEARER_PREFIX, j)
    ensures StripBearer(h) == h
  {
    ReplaceFirstAbsent(h, BEARER_PREFIX, "");
  }

  /** Only the first "Bearer " is removed: `Bearer Bearer t` yields `Bearer t`. */
  lemma OnlyFirstBearerRemoved(t: string)
    ensures StripBearer(BEARER_PREFIX + BEARER_PREFIX + t) == BEARER_PREFIX + t
  {
    assert BEARER_PREFIX + BEARER_PREFIX + t == BEARER_PREFIX + (BEARER_PREFIX + t);
    ReplaceFirstOfPrefixed(BEARER_PREFIX, BEARER_PREFIX + t);
  }

  /** The prefix is not anchored: `Token Bearer t` yields `Token t`. */
  lemma BearerRemovedAnywhere(t: string)
    ensures StripBearer("Token " + BEARER_PREFIX + t) == "Token " + t
  {
    forall j: nat | j < |"Token "|
      ensures !MatchesAt("Token " + BEARER_PREFIX, BEARER_PREFIX, j)
    {
      assert ("Token " + BEARER_PREFIX)[j] != BEARER_PREFIX[0];
    }
    ReplaceFirstCutsFirstOccurrence("Token ", BEARER_PREFIX, t);
  }

  /**
   * The try block as the source writes it: `req.headers` is the request's header object,
   * not a function, so `req.headers("Authorization")` throws before anything else runs.
   */
  function GuardBodyAsWritten(header: Option<string>, verify: Verifier, users: seq<User>): Step {
    Throw
  }

  function AuthenticateAsWritten(header: Option<string>, verify: Verifier, users: seq<User>): (r: Step)
    ensures r == Respond(Reply(401, TOKEN_NOT_VALID))
  {
    Catch(GuardBodyAsWritten(header, verify, users))
  }

  /** As written, even a valid token for a stored user is refused, where the corrected gate lets it through. */
  lemma AsWrittenRefusesIssuedToken(users: seq<User>, k: nat, sign: Signer, verify: Verifier)
    requires Unique(users) && k < |users|
    requires GenerateToken(sign, users[k].id) != ""
    requires verify(GenerateToken(sign, users[k].id)) == Some(Claims(users[k].id))
    ensures var header := Some(BEARER_PREFIX + GenerateToken(sign, users[k].id));
            && AuthenticateAsWritten(header, verify, users) == Respond(Reply(401, TOKEN_NOT_VALID))
            && Authenticate(header, verify, users) == Next(Public(users[k]))
  {
    IssuedTokenAuthenticates(users, k, sign, verify);
  }

  /** One request/response pair as the gate sees it. */
  class Exchange {
    /** The Authorization header, if the request has one. */
    const authorization: Option<string>
    /** `req.user`. */
    var user: Option<PublicUser>
    /** What was sent with `res.status(..).json(..)`, if anything. */
    var reply: Option<Reply>
    /** Whether `next()` was called. */
    var forwarded: bool

    constructor (authorization: Option<string>)
      ensures this.authorization == authorization
      ensures user.None? && reply.None? && !forwarded
    {
      this.authorization := authorization;
      user := None;
      reply := None;
      forwarded := false;
    }
  }

  /** `protectRoute(req, res, next)`. */
  method ProtectRoute(ex: Exchange, verify: Verifier, users: seq<User>)
    modifies ex
    ensures var outcome := Authenticate(ex.authorization, verify, users);
      match outcome
      case Next(u) => ex.user == Some(u) && ex.forwarded && ex.reply == old(ex.reply)
      case Respond(rep) => ex.reply == Some(rep) && ex.forwarded == old(ex.forwarded) && ex.user == old(ex.user)
      case Throw => false
  {
    if ex.authorization.None? {
      // `.replace` on undefined throws; the catch answers
      ex.reply := Some(Reply(401, TOKEN_NOT_VALID));
      return;
    }
    var token := StripBearer(ex.authorization.value);
    if token == "" {
      ex.reply := Some(Reply(401, NO_TOKEN));
      return;
    }
    var decoded := verify(token);
    if decoded.None? {
      // `jwt.verify` throws; the catch answers
      ex.reply := Some(Reply(401, TOKEN_NOT_VALID));
      return;
    }
    var found := FindOne(users, ById(decoded.value.userId));
    if found.None? {
      ex.reply := Some(Reply(401, TOKEN_NOT_VALID));
      return;
    }
    ex.user := Some(Public(found.value));
    ex.forwarded := true;
  }
}
