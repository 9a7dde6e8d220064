/** The authentication middleware: reads a bearer token from the
    `Authorization` header, verifies it, and attaches the user it names to
    the request, provided that user still exists. */
module AuthMiddleware {
  import opened Common
  import opened Text
  import opened Store
  import opened AuthController

  /** What the middleware puts on `req.user`. */
  datatype RequestUser = RequestUser(id: nat, username: string, email: string)

  const AuthRequired := Failure(401, "Authentication required. Please log in.")
  const InvalidToken := Failure(401, "Invalid token. Please log in again.")
  const TokenExpired := Failure(401, "Token expired. Please log in again.")
  const UserGone := Failure(401, "User no longer exists.")

  /** `authHeader.split(' ')[1]` for a header that starts with "Bearer ":
      the text after the prefix, up to the next space. */
  function BearerToken(h: string): (t: string)
    requires StartsWith(h, "Bearer ")
    ensures ' ' !in t
    ensures t == Split(h[7..], ' ')[0]
  {
    assert h == "Bearer" + [' '] + h[7..];
    SplitAfterSeparator("Bearer", h[7..], ' ');
    SplitPiecesFree(h, ' ');
    Split(h, ' ')[1]
  }

  /** The token is the text after "Bearer " up to the next space. */
  lemma BearerTokenOfHeader(t: string, rest: string)
    requires ' ' !in t
    requires rest == [] || rest[0] == ' '
    ensures BearerToken("Bearer " + t + rest) == t
  {
    var h := "Bearer " + t + rest;
    assert h[7..] == t + rest;
    if rest == [] {
      assert t + rest == t;
      SplitFirstPiece(t, ' ');
    } else {
      assert t + rest == t + [' '] + rest[1..];
      SplitAfterSeparator(t, rest[1..], ' ');
    }
  }

  /** The error the catch block forwards for a failed verification. */
  function VerifyFailure(name: string, message: string): (f: Failure)
    ensures name == "JsonWebTokenError" ==> f == InvalidToken
    ensures name == "TokenExpiredError" ==> f == TokenExpired
    ensures name != "JsonWebTokenError" && name != "TokenExpiredError" ==> f == Failure(0, message)
    // the middleware answers 401 for exactly the two errors it knows, and
    // hands every other one on with its message
    ensures f.statusCode == 401 <==> name == "JsonWebTokenError" || name == "TokenExpiredError"
    ensures f.statusCode != 401 ==> f.statusCode == 0 && f.message == message
  {
    if name == "JsonWebTokenError" then InvalidToken
    else if name == "TokenExpiredError" then TokenExpired
    else Failure(0, message)
  }

  /** The middleware as a function of the header, the users table, the
      verifier and the clock. */
  function Authenticate(header: Option<string>, users: seq<User>, verify: (string, nat) -> Verified, now: nat): (r: Result<RequestUser>)
    ensures r.Ok? ==> header.Some? && StartsWith(header.value, "Bearer ")
    ensures r.Ok? ==> exists u | u in users :: u.id == r.value.id && u.username == r.value.username && u.email == r.value.email
    ensures (header.None? || !StartsWith(header.value, "Bearer ")) ==> r == Err(AuthRequired)
    ensures r.Err? ==> r.error.statusCode == 401 || r.error.statusCode == 0
    ensures header.Some? && StartsWith(header.value, "Bearer ") && BearerToken(header.value) == "" ==> r == Err(AuthRequired)
    ensures header.Some? && StartsWith(header.value, "Bearer ") && BearerToken(header.value) != "" && verify(BearerToken(header.value), now).VerifyError? ==>
      r == Err(VerifyFailure(verify(BearerToken(header.value), now).name, verify(BearerToken(header.value), now).message))
    ensures r.Ok? ==> verify(BearerToken(header.value), now) == Decoded(r.value.id)
    ensures r.Ok? ==> (FindUserById(users, r.value.id).Some? &&
                       var u := FindUserById(users, r.value.id).value; r.value == RequestUser(u.id, u.username, u.email))
    ensures header.Some? && StartsWith(header.value, "Bearer ") && BearerToken(header.value) != "" && verify(BearerToken(header.value), now).Decoded? ==>
      (r.Ok? <==> FindUserById(users, verify(BearerToken(header.value), now).id).Some?)
  {
    if header.None? || header.value == "" || !StartsWith(header.value, "Bearer ") then Err(AuthRequired)
    else
      var token := BearerToken(header.value);
      if token == "" then Err(AuthRequired)
      else match verify(token, now)
        case VerifyError(name, message) => Err(VerifyFailure(name, message))
        case Decoded(id) =>
          var u := FindUserById(users, id);
          if u.None? then Err(UserGone)
          else Ok(RequestUser(u.value.id, u.value.username, u.value.email))
  }

  /** A well-formed header carrying a token the verifier accepts for a user
      who exists attaches exactly that user. */
  lemma AuthenticateAccepts(users: seq<User>, nextId: nat, u: User, token: string, verify: (string, nat) -> Verified, now: nat)
    requires UsersValid(users, nextId)
    requires u in users
    requires token != [] && ' ' !in token
    requires verify(token, now) == Decoded(u.id)
    ensures Authenticate(Some("Bearer " + token), users, verify, now) == Ok(RequestUser(u.id, u.username, u.email))
  {
    BearerTokenOfHeader(token, []);
    assert "Bearer " + token + [] == "Bearer " + token;
    assert StartsWith("Bearer " + token, "Bearer ");
    FindUserByIdUnique(users, nextId, u);
  }

  /** Once its user is gone, a token that still verifies is refused. */
  lemma AuthenticateRefusesDeletedUser(header: string, users: seq<User>, verify: (string, nat) -> Verified, now: nat, id: int)
    requires StartsWith(header, "Bearer ") && BearerToken(header) != ""
    requires verify(BearerToken(header), now) == Decoded(id)
    requires forall u :: u in users ==> u.id != id
    ensures Authenticate(Some(header), users, verify, now) == Err(UserGone)
  {
  }

  /** The token a registration or a login hands out opens the protected
      routes for that user, as long as the verifier accepts what the signer
      issued. */
  lemma SessionTokenAuthenticates(users: seq<User>, nextId: nat, u: User, p: Primitives, t0: nat, t1: nat)
    requires UsersValid(users, nextId)
    requires u in users
    requires p.sign(u.id, t0) != [] && ' ' !in p.sign(u.id, t0)
    requires p.verify(p.sign(u.id, t0), t1) == Decoded(u.id)
    ensures Authenticate(Some("Bearer " + p.sign(u.id, t0)), users, p.verify, t1) == Ok(RequestUser(u.id, u.username, u.email))
  {
    AuthenticateAccepts(users, nextId, u, p.sign(u.id, t0), p.verify, t1);
  }
}
