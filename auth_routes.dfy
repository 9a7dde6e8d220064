/** The auth router: the register and login validation chains, and which
    routes run `authenticate` before their handler. */
module AuthRoutes {
  import opened Common
  import opened Text
  import opened Validation

  // ---------------------------------------------------------------------
  // routes

  datatype AuthEndpoint = RegisterEndpoint | LoginEndpoint | LogoutEndpoint | MeEndpoint

  const AuthRouteTable: seq<Route<AuthEndpoint>> := [
    Route(Post, [Lit("register")], false, RegisterEndpoint),
    Route(Post, [Lit("login")], false, LoginEndpoint),
    Route(Post, [Lit("logout")], true, LogoutEndpoint),
    Route(Get, [Lit("me")], true, MeEndpoint)
  ]

  /** How the router handles a request below `/api/auth`: the route it
      reaches, and whether `authenticate` runs before the handler. A request
      that matches no route passes on unauthenticated. */
  datatype AuthHandling = AuthHandling(authenticateFirst: bool, endpoint: Option<AuthEndpoint>)

  function AuthDispatch(verb: Verb, path: seq<string>): (h: AuthHandling)
    ensures h.endpoint.Some? <==> exists k :: 0 <= k < |AuthRouteTable| && RouteMatches(AuthRouteTable[k], verb, path)
    ensures h.endpoint.None? ==> !h.authenticateFirst
  {
    var m := FirstMatch(AuthRouteTable, verb, path);
    if m.None? then AuthHandling(false, None)
    else AuthHandling(AuthRouteTable[m.value].guarded, Some(AuthRouteTable[m.value].handler))
  }

  /** Each endpoint is reached by its own verb and path, in any case. */
  lemma AuthRoutesReached(word: string)
    ensures EqualsIgnoringCase(word, "register") ==> AuthDispatch(Post, [word]) == AuthHandling(false, Some(RegisterEndpoint))
    ensures EqualsIgnoringCase(word, "login") ==> AuthDispatch(Post, [word]) == AuthHandling(false, Some(LoginEndpoint))
    ensures EqualsIgnoringCase(word, "logout") ==> AuthDispatch(Post, [word]) == AuthHandling(true, Some(LogoutEndpoint))
    ensures EqualsIgnoringCase(word, "me") ==> AuthDispatch(Get, [word]) == AuthHandling(true, Some(MeEndpoint))
  {
    if EqualsIgnoringCase(word, "register") {
      RegisterRouteFirst(word);
    } else if EqualsIgnoringCase(word, "login") {
      LoginRouteSecond(word);
    } else if EqualsIgnoringCase(word, "logout") {
      LogoutRouteThird(word);
    } else if EqualsIgnoringCase(word, "me") {
      MeRouteLast(word);
    }
  }

  lemma RegisterRouteFirst(word: string)
    requires EqualsIgnoringCase(word, "register")
    ensures FirstMatch(AuthRouteTable, Post, [word]) == Some(0)
  {
    assert RouteMatches(AuthRouteTable[0], Post, [word]);
  }

  lemma LoginRouteSecond(word: string)
    requires EqualsIgnoringCase(word, "login")
    ensures FirstMatch(AuthRouteTable, Post, [word]) == Some(1)
  {
    OneSegmentMismatch(AuthRouteTable[0], Post, word);
    assert RouteMatches(AuthRouteTable[1], Post, [word]);
  }

  lemma LogoutRouteThird(word: string)
    requires EqualsIgnoringCase(word, "logout")
    ensures FirstMatch(AuthRouteTable, Post, [word]) == Some(2)
  {
    OneSegmentMismatch(AuthRouteTable[0], Post, word);
    OneSegmentMismatch(AuthRouteTable[1], Post, word);
    assert RouteMatches(AuthRouteTable[2], Post, [word]);
  }

  lemma MeRouteLast(word: string)
    requires EqualsIgnoringCase(word, "me")
    ensures FirstMatch(AuthRouteTable, Get, [word]) == Some(3)
  {
    assert RouteMatches(AuthRouteTable[3], Get, [word]);
  }

  /** A trailing slash reaches the route the path without it reaches. */
  lemma AuthTrailingSlash(verb: Verb, path: seq<string>)
    requires path == [] || path[|path| - 1] != ""
    ensures AuthDispatch(verb, path + [""]) == AuthDispatch(verb, path)
  {
    TrailingSlashIgnored(AuthRouteTable, verb, path);
  }

  /** Exactly logout and the profile need a valid token; register and
      login are open. */
  lemma GuardedExactlyLogoutAndMe(verb: Verb, path: seq<string>)
    ensures AuthDispatch(verb, path).authenticateFirst <==>
      AuthDispatch(verb, path).endpoint == Some(LogoutEndpoint) || AuthDispatch(verb, path).endpoint == Some(MeEndpoint)
  {
  }

  // ---------------------------------------------------------------------
  // POST /register

  /** The messages of the register and login chains. */
  const UsernameLength := "Username must be between 3 and 30 characters"
  const UsernameCharacters := "Username can only contain letters, numbers, and underscores"
  const EmailInvalid := "Please provide a valid email"
  const PasswordTooShort := "Password must be at least 6 characters"
  const PasswordRequired := "Password is required"

  datatype RegisterBody = RegisterBody(username: Value, email: Value, password: Value)

  predicate RegisterAcceptable(b: RegisterBody, ch: Checkers) {
    var name := Trim(ToText(b.username));
    && 3 <= VisibleLength(name) <= 30
    && IsWord(name)
    && ch.isEmail(ToText(b.email))
    && VisibleLength(ToText(b.password)) >= 6
  }

  function UsernameErrors(name: string): (r: seq<FieldError>)
    ensures r == [] <==> 3 <= VisibleLength(name) <= 30 && IsWord(name)
  {
    Check(3 <= VisibleLength(name) <= 30, "username", UsernameLength)
    + Check(IsWord(name), "username", UsernameCharacters)
  }

  /** The messages of the register chain, in the order its validators run. */
  function RegisterErrors(b: RegisterBody, ch: Checkers): (r: seq<FieldError>)
    ensures r == [] <==> RegisterAcceptable(b, ch)
  {
    var username := UsernameErrors(Trim(ToText(b.username)));
    var email := Check(ch.isEmail(ToText(b.email)), "email", EmailInvalid);
    var password := Check(VisibleLength(ToText(b.password)) >= 6, "password", PasswordTooShort);
    assert |username + email + password| == |username| + |email| + |password|;
    username + email + password
  }

  /** The register chain: the username is trimmed and the email
      normalised; the password is passed on as sent. */
  function ValidateRegister(b: RegisterBody, ch: Checkers): (r: Outcome<RegisterBody>)
    ensures r.Passed? <==> RegisterAcceptable(b, ch)
    ensures r.Passed? ==> r.body == RegisterBody(Str(Trim(ToText(b.username))), Str(ch.normalizeEmail(ToText(b.email))), b.password)
    ensures r.Rejected? ==> r.errors != []
  {
    var errors := RegisterErrors(b, ch);
    if errors == [] then Passed(RegisterBody(Str(Trim(ToText(b.username))), Str(ch.normalizeEmail(ToText(b.email))), b.password))
    else Rejected(errors)
  }

  /** A username that reaches the handler is 3 to 30 letters, digits or
      underscores: no white space, no variation selectors. */
  lemma RegisteredUsernameShape(b: RegisterBody, ch: Checkers)
    requires ValidateRegister(b, ch).Passed?
    ensures var u := ValidateRegister(b, ch).body.username;
      u.Str? && 3 <= |u.s| <= 30 && forall k :: 0 <= k < |u.s| ==> IsWordChar(u.s[k]) && !IsSpace(u.s[k])
  {
    var name := Trim(ToText(b.username));
    assert 3 <= VisibleLength(name) <= 30 && IsWord(name);
    WordShape(name);
  }

  /** A word has no white space and no variation selector, so its visible
      length is its length. */
  lemma WordShape(name: string)
    requires IsWord(name)
    ensures VisibleLength(name) == |name|
    ensures forall k :: 0 <= k < |name| ==> IsWordChar(name[k]) && !IsSpace(name[k])
  {
    forall k | 0 <= k < |name| ensures !IsVariationSelector(name[k]) && !IsSpace(name[k]) {
      assert IsWordChar(name[k]);
    }
  }

  /** A username breaking both rules gets both messages, before any
      other. */
  lemma BadUsernameTwoErrors(b: RegisterBody, ch: Checkers)
    requires VisibleLength(Trim(ToText(b.username))) < 3
    requires exists k :: 0 <= k < |Trim(ToText(b.username))| && !IsWordChar(Trim(ToText(b.username))[k])
    ensures ValidateRegister(b, ch).Rejected? && |ValidateRegister(b, ch).errors| >= 2
    ensures ValidateRegister(b, ch).errors[0] == FieldError("username", UsernameLength)
    ensures ValidateRegister(b, ch).errors[1] == FieldError("username", UsernameCharacters)
  {
    BadUsernameErrors(Trim(ToText(b.username)));
    RegisterErrorsStartWithUsername(b, ch);
  }

  /** The username messages come first. */
  lemma RegisterErrorsStartWithUsername(b: RegisterBody, ch: Checkers)
    ensures UsernameErrors(Trim(ToText(b.username))) <= RegisterErrors(b, ch)
  {
  }

  lemma BadUsernameErrors(name: string)
    requires VisibleLength(name) < 3
    requires exists k :: 0 <= k < |name| && !IsWordChar(name[k])
    ensures |UsernameErrors(name)| == 2
    ensures UsernameErrors(name)[0] == FieldError("username", UsernameLength)
    ensures UsernameErrors(name)[1] == FieldError("username", UsernameCharacters)
  {
    assert !IsWord(name);
  }

  /** A single character that is neither white space nor a word character
      is such a username. */
  lemma OddCharUsername(c: char)
    requires !IsSpace(c) && !IsWordChar(c)
    ensures VisibleLength(Trim([c])) < 3
    ensures 0 < |Trim([c])| && !IsWordChar(Trim([c])[0])
  {
    TrimKeepsUnpadded([c]);
  }

  // ---------------------------------------------------------------------
  // POST /login

  datatype LoginBody = LoginBody(email: Value, password: Value)

  predicate LoginAcceptable(b: LoginBody, ch: Checkers) {
    ch.isEmail(ToText(b.email)) && ToText(b.password) != ""
  }

  function LoginErrors(b: LoginBody, ch: Checkers): (r: seq<FieldError>)
    ensures r == [] <==> LoginAcceptable(b, ch)
  {
    Check(ch.isEmail(ToText(b.email)), "email", EmailInvalid)
    + Check(ToText(b.password) != "", "password", PasswordRequired)
  }

  /** The login chain: the email is normalised, the password kept. White
      space alone counts as a password. */
  function ValidateLogin(b: LoginBody, ch: Checkers): (r: Outcome<LoginBody>)
    ensures r.Passed? <==> LoginAcceptable(b, ch)
    ensures r.Passed? ==> r.body == LoginBody(Str(ch.normalizeEmail(ToText(b.email))), b.password)
    ensures r.Rejected? ==> r.errors != []
  {
    var errors := LoginErrors(b, ch);
    if errors == [] then Passed(LoginBody(Str(ch.normalizeEmail(ToText(b.email))), b.password))
    else Rejected(errors)
  }

  /** Both chains normalise the email the same way, so the address a user
      registered with is the one login looks up. */
  lemma SameEmailAfterValidation(r: RegisterBody, l: LoginBody, ch: Checkers)
    requires ValidateRegister(r, ch).Passed? && ValidateLogin(l, ch).Passed?
    requires ToText(r.email) == ToText(l.email)
    ensures ValidateRegister(r, ch).body.email == ValidateLogin(l, ch).body.email
  {
  }

  /** A JSON number passes the password rule, since its text is not empty,
      and reaches the handler as a number. */
  lemma NumericPasswordPassesLogin(b: LoginBody, ch: Checkers)
    requires b.password.Num? && ch.isEmail(ToText(b.email))
    ensures ValidateLogin(b, ch).Passed? && ValidateLogin(b, ch).body.password == b.password
  {
  }

  /** A null or missing password is refused with `PasswordRequired`. */
  lemma MissingPasswordRefused(b: LoginBody, ch: Checkers)
    requires b.password == Undefined || b.password == Null
    ensures ValidateLogin(b, ch).Rejected?
    ensures FieldError("password", PasswordRequired) in ValidateLogin(b, ch).errors
  {
  }
}
