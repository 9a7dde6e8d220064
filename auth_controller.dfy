/** The handlers behind `/api/auth`: register, login, logout and the
    profile with its job statistics. Password hashing and token signing are
    library calls; they are parameters of the model, bundled in
    `Primitives`. */
module AuthController {
  import opened Common
  import opened Store

  /** The outcome of `jwt.verify`: the payload's id, or the error thrown
      with its `name` and `message`. */
  datatype Verified = Decoded(id: int) | VerifyError(name: string, message: string)

  /** The library functions the handlers call. `hash(password, salt)` is
      bcrypt's hash, `compare(password, digest)` its check,
      `sign(id, now)` issues a JSON Web Token whose payload is `{ id }`, and
      `verify(token, now)` checks one. The secret and the expiry setting are
      fixed inside these functions. */
  datatype Primitives = Primitives(
    hash: (string, string) -> Digest,
    compare: (string, Digest) -> bool,
    sign: (nat, nat) -> string,
    verify: (string, nat) -> Verified)

  /** The columns of a user that responses carry; never the digest. */
  datatype PublicUser = PublicUser(id: nat, username: string, email: string, createdAt: nat)

  datatype Session = Session(user: PublicUser, token: string)

  const UserExists := Failure(409, "User with this email or username already exists")
  const InvalidCredentials := Failure(401, "Invalid email or password")
  const LogoutMessage := "Logged out successfully. Please remove the token from client storage."

  /** JavaScript's `typeof` for the values a body field can hold. */
  function TypeOf(v: Value): string {
    match v
    case Undefined => "undefined"
    case Null => "object"
    case Str(_) => "string"
    case Num(_) => "number"
  }

  /** The error bcryptjs raises when `hash` or `compare` is given a
      password that is not a string (the second argument, the salt or the
      digest, is always one). It carries no status code. */
  function IllegalArguments(password: Value): (f: Failure)
    ensures f.statusCode == 0 && f != InvalidCredentials
  {
    Failure(0, "Illegal arguments: " + TypeOf(password) + ", string")
  }

  function Public(u: User): (p: PublicUser)
    ensures p.id == u.id && p.username == u.username && p.email == u.email && p.createdAt == u.createdAt
  {
    PublicUser(u.id, u.username, u.email, u.createdAt)
  }

  /** Two user rows give the same public user exactly when they differ in
      nothing but the password digest. */
  lemma PublicHidesOnlyDigest(u: User, v: User)
    ensures Public(u) == Public(v) <==> u.(password := v.password) == v
  {
  }

  /** `SELECT id FROM users WHERE email = ? OR username = ?` finds a row. */
  predicate Taken(users: seq<User>, email: string, username: string) {
    exists u | u in users :: u.email == email || u.username == username
  }

  // ---------------------------------------------------------------------
  // POST /api/auth/register

  /** Refuses an email or username already in use; otherwise stores the
      bcrypt digest of the password under the next id, reads the row back by
      email and signs a token for its id. A password that is not a string
      makes bcrypt's hash fail before anything is stored. */
  method Register(db: Database, username: string, email: string, password: Value, p: Primitives, salt: string, now: nat)
    returns (r: Result<Session>)
    requires db.Valid()
    modifies db
    ensures db.Valid()
    ensures db.jobs == old(db.jobs) && db.nextJobId == old(db.nextJobId)
    ensures Taken(old(db.users), email, username) ==> r == Err(UserExists) && unchanged(db)
    ensures !Taken(old(db.users), email, username) && !password.Str? ==> r == Err(IllegalArguments(password)) && unchanged(db)
    ensures !Taken(old(db.users), email, username) && password.Str? ==>
      var u := User(old(db.nextUserId), username, email, p.hash(password.s, salt), now);
      && db.users == old(db.users) + [u]
      && db.nextUserId == old(db.nextUserId) + 1
      && r == Ok(Session(Public(u), p.sign(u.id, now)))
  {
    if Taken(db.users, email, username) {
      return Err(UserExists);
    }
    if !password.Str? {
      return Err(IllegalArguments(password));
    }
    var digest := p.hash(password.s, salt);
    var u := User(db.nextUserId, username, email, digest, now);
    var users := db.users + [u];
    assert UsersValid(users, db.nextUserId + 1) by {
      forall a, c | 0 <= a < c < |users|
        ensures users[a].id != users[c].id && users[a].username != users[c].username && users[a].email != users[c].email
      {
        assert users[a] == db.users[a];
        if c < |db.users| {
          assert users[c] == db.users[c];
        } else {
          assert users[a] in db.users;
        }
      }
    }
    assert ForeignKeysHold(users, db.jobs) by {
      forall k | 0 <= k < |db.jobs| ensures HasUser(users, db.jobs[k].userId) {
        var w :| w in db.users && w.id == db.jobs[k].userId;
        assert w in users;
      }
    }
    db.users := users;
    db.nextUserId := db.nextUserId + 1;
    // SELECT id, username, email, created_at FROM users WHERE email = ?
    FindUserByEmailUnique(db.users, db.nextUserId, u);
    var created := FindUserByEmail(db.users, email).value;
    r := Ok(Session(Public(created), p.sign(created.id, now)));
  }

  // ---------------------------------------------------------------------
  // POST /api/auth/login

  /** Looks the user up by email and checks the password against the stored
      digest. An unknown email and a wrong string password fail alike; a
      password that is not a string makes bcrypt's compare fail, but only
      once the email has been found. */
  function Login(users: seq<User>, email: string, password: Value, p: Primitives, now: nat): (r: Result<Session>)
    ensures (forall u :: u in users ==> u.email != email) ==> r == Err(InvalidCredentials)
    ensures r.Err? ==> r.error == InvalidCredentials || (!password.Str? && r.error == IllegalArguments(password))
    ensures (exists u | u in users :: u.email == email) && !password.Str? ==> r == Err(IllegalArguments(password))
    ensures r.Ok? ==> password.Str? && exists u | u in users :: u.email == email && p.compare(password.s, u.password) && r.value.user == Public(u)
    ensures r.Ok? ==> r.value.token == p.sign(r.value.user.id, now)
  {
    var found := FindUserByEmail(users, email);
    if found.None? then Err(InvalidCredentials)
    else if !password.Str? then Err(IllegalArguments(password))
    else if !p.compare(password.s, found.value.password) then Err(InvalidCredentials)
    else Ok(Session(Public(found.value), p.sign(found.value.id, now)))
  }

  /** With unique emails, a login succeeds exactly when the password matches
      the digest stored for that email. */
  lemma LoginSucceedsIffPasswordMatches(users: seq<User>, nextId: nat, u: User, password: string, p: Primitives, now: nat)
    requires UsersValid(users, nextId)
    requires u in users
    ensures Login(users, u.email, Str(password), p, now).Ok? <==> p.compare(password, u.password)
    ensures p.compare(password, u.password) ==> Login(users, u.email, Str(password), p, now) == Ok(Session(Public(u), p.sign(u.id, now)))
    ensures !p.compare(password, u.password) ==> Login(users, u.email, Str(password), p, now) == Err(InvalidCredentials)
  {
    FindUserByEmailUnique(users, nextId, u);
  }

  /** A password that is not a string tells a registered email from an
      unknown one: the first gets bcrypt's error (a 500), the second the
      401 every other failed login gets. */
  lemma LoginTellsRegisteredEmails(users: seq<User>, u: User, unknown: string, password: Value, p: Primitives, now: nat)
    requires u in users && !password.Str?
    requires forall w :: w in users ==> w.email != unknown
    ensures Login(users, u.email, password, p, now) == Err(IllegalArguments(password))
    ensures Login(users, unknown, password, p, now) == Err(InvalidCredentials)
    ensures Login(users, u.email, password, p, now) != Login(users, unknown, password, p, now)
  {
  }

  /** A user who has just registered can log in with the same email and
      password, provided bcrypt accepts a password against its own digest. */
  lemma RegisterThenLogin(users: seq<User>, nextId: nat, username: string, email: string, password: string,
                          p: Primitives, salt: string, t0: nat, t1: nat)
    requires UsersValid(users + [User(nextId, username, email, p.hash(password, salt), t0)], nextId + 1)
    requires p.compare(password, p.hash(password, salt))
    ensures var u := User(nextId, username, email, p.hash(password, salt), t0);
      Login(users + [u], email, Str(password), p, t1) == Ok(Session(Public(u), p.sign(nextId, t1)))
  {
    var u := User(nextId, username, email, p.hash(password, salt), t0);
    LoginSucceedsIffPasswordMatches(users + [u], nextId + 1, u, password, p, t1);
  }

  // ---------------------------------------------------------------------
  // POST /api/auth/logout

  /** The server keeps no session: logging out only answers with a fixed
      message, and the token stays valid until it expires. */
  function Logout(): (message: string)
    ensures message == LogoutMessage
  {
    LogoutMessage
  }

  // ---------------------------------------------------------------------
  // GET /api/auth/me

  /** The aggregate row of the statistics query. `SUM` over no rows is NULL,
      so the five per-status figures are `None` when the user has no jobs. */
  datatype Stats = Stats(
    totalJobs: nat,
    applied: Option<nat>,
    interviews: Option<nat>,
    offers: Option<nat>,
    rejected: Option<nat>,
    accepted: Option<nat>)

  datatype Profile = Profile(user: Option<PublicUser>, stats: Stats)

  /** `COUNT(*) ... WHERE user_id = ?`. */
  function CountOwned(jobs: seq<Job>, userId: nat): (n: nat)
    ensures n <= |jobs|
    ensures n == 0 <==> forall j :: j in jobs ==> j.userId != userId
    decreases |jobs|
  {
    if jobs == [] then 0
    else CountOwned(jobs[1..], userId) + (if jobs[0].userId == userId then 1 else 0)
  }

  /** `SUM(CASE WHEN status = s THEN 1 ELSE 0 END) ... WHERE user_id = ?`,
      read as a count. */
  function CountStatus(jobs: seq<Job>, userId: nat, s: string): nat
    decreases |jobs|
  {
    if jobs == [] then 0
    else CountStatus(jobs[1..], userId, s) + (if jobs[0].userId == userId && jobs[0].status == Some(s) then 1 else 0)
  }

  function Sum(jobs: seq<Job>, userId: nat, s: string): (r: Option<nat>)
    ensures r.None? <==> forall j :: j in jobs ==> j.userId != userId
    ensures r.Some? ==> r.value == CountStatus(jobs, userId, s)
  {
    if CountOwned(jobs, userId) == 0 then None else Some(CountStatus(jobs, userId, s))
  }

  function JobStats(jobs: seq<Job>, userId: nat): Stats {
    Stats(CountOwned(jobs, userId),
          Sum(jobs, userId, "applied"), Sum(jobs, userId, "interview"), Sum(jobs, userId, "offer"),
          Sum(jobs, userId, "rejected"), Sum(jobs, userId, "accepted"))
  }

  /** The profile of the requesting user and the statistics of their jobs.
      A missing user row reads back as an empty object, here `None`. */
  function GetMe(users: seq<User>, jobs: seq<Job>, userId: nat): (r: Profile)
    ensures r.user.Some? <==> HasUser(users, userId)
    ensures r.user.Some? ==> r.user.value.id == userId && Public(FindUserById(users, userId).value) == r.user.value
    ensures r.stats == JobStats(jobs, userId)
  {
    var u := FindUserById(users, userId);
    Profile(if u.Some? then Some(Public(u.value)) else None, JobStats(jobs, userId))
  }

  /** No per-status figure exceeds the total. */
  lemma {:induction false} CountStatusBounded(jobs: seq<Job>, userId: nat, s: string)
    ensures CountStatus(jobs, userId, s) <= CountOwned(jobs, userId)
    decreases |jobs|
  {
    if jobs != [] {
      CountStatusBounded(jobs[1..], userId, s);
    }
  }

  /** A job has one status, so the five figures together never exceed the
      total. */
  lemma {:induction false} StatusFiguresBounded(jobs: seq<Job>, userId: nat)
    ensures CountStatus(jobs, userId, "applied") + CountStatus(jobs, userId, "interview")
          + CountStatus(jobs, userId, "offer") + CountStatus(jobs, userId, "rejected")
          + CountStatus(jobs, userId, "accepted") <= CountOwned(jobs, userId)
    decreases |jobs|
  {
    if jobs != [] {
      StatusFiguresBounded(jobs[1..], userId);
    }
  }

  lemma {:induction false} CountsIgnoreOtherUsers(jobs: seq<Job>, j: Job, userId: nat, s: string)
    requires j.userId != userId
    ensures CountOwned(jobs + [j], userId) == CountOwned(jobs, userId)
    ensures CountStatus(jobs + [j], userId, s) == CountStatus(jobs, userId, s)
    decreases |jobs|
  {
    if jobs == [] {
      assert ([] + [j])[1..] == [];
    } else {
      assert (jobs + [j])[1..] == jobs[1..] + [j];
      CountsIgnoreOtherUsers(jobs[1..], j, userId, s);
    }
  }

  /** The figures count the user's own jobs only: rows of other users can be
      added without changing them. */
  lemma StatsIgnoreOtherUsers(jobs: seq<Job>, j: Job, userId: nat)
    requires j.userId != userId
    ensures JobStats(jobs + [j], userId) == JobStats(jobs, userId)
  {
    CountsIgnoreOtherUsers(jobs, j, userId, "applied");
    CountsIgnoreOtherUsers(jobs, j, userId, "interview");
    CountsIgnoreOtherUsers(jobs, j, userId, "offer");
    CountsIgnoreOtherUsers(jobs, j, userId, "rejected");
    CountsIgnoreOtherUsers(jobs, j, userId, "accepted");
  }

  /** The user's own rows, in table order. */
  function Owned(jobs: seq<Job>, userId: nat): (r: seq<Job>)
    ensures forall k :: 0 <= k < |r| ==> r[k].userId == userId
    ensures forall j :: j in r <==> j in jobs && j.userId == userId
    decreases |jobs|
  {
    if jobs == [] then []
    else (if jobs[0].userId == userId then [jobs[0]] else []) + Owned(jobs[1..], userId)
  }

  lemma {:induction false} CountsOfOwnedRows(jobs: seq<Job>, userId: nat, s: string)
    ensures CountOwned(jobs, userId) == |Owned(jobs, userId)| == CountOwned(Owned(jobs, userId), userId)
    ensures CountStatus(Owned(jobs, userId), userId, s) == CountStatus(jobs, userId, s)
    decreases |jobs|
  {
    if jobs != [] {
      CountsOfOwnedRows(jobs[1..], userId, s);
      var t := Owned(jobs[1..], userId);
      if jobs[0].userId == userId {
        var r := [jobs[0]] + t;
        assert r[0] == jobs[0] && r[1..] == t;
      } else {
        assert [] + t == t;
      }
    }
  }

  /** The figures are those of the user's own rows: rows of other users,
      wherever they stand in the table, change nothing. */
  lemma StatsOfOwnedRows(jobs: seq<Job>, userId: nat)
    ensures JobStats(jobs, userId) == JobStats(Owned(jobs, userId), userId)
  {
    CountsOfOwnedRows(jobs, userId, "applied");
    CountsOfOwnedRows(jobs, userId, "interview");
    CountsOfOwnedRows(jobs, userId, "offer");
    CountsOfOwnedRows(jobs, userId, "rejected");
    CountsOfOwnedRows(jobs, userId, "accepted");
  }

  /** Two tables that hold the same rows of a user, in the same order, give
      that user the same figures. */
  lemma StatsDependOnOwnedRows(a: seq<Job>, b: seq<Job>, userId: nat)
    requires Owned(a, userId) == Owned(b, userId)
    ensures JobStats(a, userId) == JobStats(b, userId)
  {
    StatsOfOwnedRows(a, userId);
    StatsOfOwnedRows(b, userId);
  }

  /** Creating a job with status `s` adds one to the total and one to the
      figure for `s`. */
  lemma {:induction false} StatsCountNewJob(jobs: seq<Job>, j: Job, s: string)
    ensures CountOwned(jobs + [j], j.userId) == CountOwned(jobs, j.userId) + 1
    ensures CountStatus(jobs + [j], j.userId, s) == CountStatus(jobs, j.userId, s) + (if j.status == Some(s) then 1 else 0)
    decreases |jobs|
  {
    if jobs == [] {
      assert ([] + [j])[1..] == [];
    } else {
      assert (jobs + [j])[1..] == jobs[1..] + [j];
      StatsCountNewJob(jobs[1..], j, s);
    }
  }
}
