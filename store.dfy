/** The two tables of the database image and the constraints its schema
    declares: AUTOINCREMENT primary keys, UNIQUE username and email, the
    CHECK sets on a job's status and type, and the foreign key from a job to
    its owner. Flushing the image to disk has no observable effect on the
    tables and is not part of the model. */
module Store {
  import opened Common

  datatype User = User(id: nat, username: string, email: string, password: Digest, createdAt: nat)

  /** A row of the jobs table. TEXT columns that may be NULL are options;
      `company` and `position` are NOT NULL. Times are abstract ticks. */
  datatype Job = Job(
    id: nat,
    userId: nat,
    company: string,
    position: string,
    status: Option<string>,
    location: Option<string>,
    salaryMin: Cell,
    salaryMax: Cell,
    jobType: Option<string>,
    url: Option<string>,
    notes: Option<string>,
    appliedDate: Option<string>,
    deadline: Option<string>,
    createdAt: nat,
    updatedAt: nat)

  /** CHECK(status IN (...)): SQL's three-valued logic lets NULL pass. */
  predicate StatusAllowed(s: Option<string>) {
    s.None? || s.value in Statuses
  }

  /** CHECK(job_type IN (...)), with the same treatment of NULL. */
  predicate JobTypeAllowed(t: Option<string>) {
    t.None? || t.value in JobTypes
  }

  predicate RowChecksPass(j: Job) {
    StatusAllowed(j.status) && JobTypeAllowed(j.jobType)
  }

  /** Primary key, UNIQUE username and UNIQUE email; ids come from the
      AUTOINCREMENT counter, so every id is below the next one to be issued. */
  ghost predicate UsersValid(users: seq<User>, nextId: nat) {
    && nextId >= 1
    && (forall i :: 0 <= i < |users| ==> 1 <= users[i].id < nextId)
    && (forall i, k :: 0 <= i < k < |users| ==>
          users[i].id != users[k].id && users[i].username != users[k].username && users[i].email != users[k].email)
  }

  /** The primary key of the jobs table. */
  predicate UniqueJobIds(jobs: seq<Job>) {
    forall i, k :: 0 <= i < k < |jobs| ==> jobs[i].id != jobs[k].id
  }

  ghost predicate JobsValid(jobs: seq<Job>, nextId: nat) {
    && nextId >= 1
    && (forall i :: 0 <= i < |jobs| ==> 1 <= jobs[i].id < nextId && RowChecksPass(jobs[i]))
    && UniqueJobIds(jobs)
  }

  predicate HasUser(users: seq<User>, id: int) {
    exists u | u in users :: u.id == id
  }

  /** FOREIGN KEY (user_id) REFERENCES users(id). */
  ghost predicate ForeignKeysHold(users: seq<User>, jobs: seq<Job>) {
    forall k :: 0 <= k < |jobs| ==> HasUser(users, jobs[k].userId)
  }

  /** An insert with the next AUTOINCREMENT id keeps the jobs table valid. */
  lemma JobsValidAppend(jobs: seq<Job>, nextId: nat, row: Job)
    requires JobsValid(jobs, nextId)
    requires row.id == nextId && RowChecksPass(row)
    ensures JobsValid(jobs + [row], nextId + 1)
  {
    var r := jobs + [row];
    forall a, c | 0 <= a < c < |r| ensures r[a].id != r[c].id {
      assert r[a] == jobs[a];
      if c < |jobs| {
        assert r[c] == jobs[c];
      }
    }
  }

  /** Rewriting one row without touching its id keeps the jobs table valid
      as long as the new row passes the CHECK constraints. */
  lemma JobsValidReplace(jobs: seq<Job>, nextId: nat, i: nat, row: Job)
    requires JobsValid(jobs, nextId)
    requires i < |jobs| && row.id == jobs[i].id && RowChecksPass(row)
    ensures JobsValid(jobs[i := row], nextId)
  {
    var r := jobs[i := row];
    forall a, c | 0 <= a < c < |r| ensures r[a].id != r[c].id {
      assert jobs[a].id != jobs[c].id;
    }
  }

  /** Removing one row keeps the jobs table valid. */
  lemma JobsValidRemove(jobs: seq<Job>, nextId: nat, i: nat)
    requires JobsValid(jobs, nextId)
    requires i < |jobs|
    ensures JobsValid(jobs[..i] + jobs[i + 1..], nextId)
  {
    var r := jobs[..i] + jobs[i + 1..];
    forall a | 0 <= a < |r| ensures r[a] == jobs[if a < i then a else a + 1] {
    }
    forall a, c | 0 <= a < c < |r| ensures r[a].id != r[c].id {
      assert r[a] == jobs[if a < i then a else a + 1];
      assert r[c] == jobs[if c < i then c else c + 1];
    }
  }

  class Database {
    var users: seq<User>
    var jobs: seq<Job>
    /** The AUTOINCREMENT counters: the id the next successful insert gets. */
    var nextUserId: nat
    var nextJobId: nat

    ghost predicate Valid()
      reads this
    {
      UsersValid(users, nextUserId) && JobsValid(jobs, nextJobId) && ForeignKeysHold(users, jobs)
    }

    /** A fresh database image: both tables empty. */
    constructor ()
      ensures Valid()
      ensures users == [] && jobs == [] && nextUserId == 1 && nextJobId == 1
    {
      users, jobs := [], [];
      nextUserId, nextJobId := 1, 1;
    }

    /** Commits the jobs table a scoped UPDATE or DELETE produced; the users
        table and both counters stay as they were. */
    method CommitJobs(rows: seq<Job>)
      requires Valid()
      requires JobsValid(rows, nextJobId) && ForeignKeysHold(users, rows)
      modifies this
      ensures Valid()
      ensures jobs == rows && users == old(users) && nextUserId == old(nextUserId) && nextJobId == old(nextJobId)
    {
      jobs := rows;
    }
  }

  /** `SELECT ... FROM users WHERE id = ?`: the first matching row. */
  function FindUserById(users: seq<User>, id: int): (r: Option<User>)
    ensures r.Some? ==> r.value in users && r.value.id == id
    ensures r.None? <==> !HasUser(users, id)
    decreases |users|
  {
    if users == [] then None
    else if users[0].id == id then Some(users[0])
    else
      var r := FindUserById(users[1..], id);
      assert forall u :: u in users[1..] ==> u in users;
      assert forall u :: u in users ==> u == users[0] || u in users[1..];
      r
  }

  /** `SELECT ... FROM users WHERE email = ?`: the first matching row. */
  function FindUserByEmail(users: seq<User>, email: string): (r: Option<User>)
    ensures r.Some? ==> r.value in users && r.value.email == email
    ensures r.None? <==> forall u :: u in users ==> u.email != email
    decreases |users|
  {
    if users == [] then None
    else if users[0].email == email then Some(users[0])
    else
      var r := FindUserByEmail(users[1..], email);
      assert forall u :: u in users ==> u == users[0] || u in users[1..];
      r
  }

  /** With unique ids (the primary key), the lookup by id finds the one row
      that has it. */
  lemma FindUserByIdUnique(users: seq<User>, nextId: nat, u: User)
    requires UsersValid(users, nextId)
    requires u in users
    ensures FindUserById(users, u.id) == Some(u)
  {
    var r := FindUserById(users, u.id);
    var i :| 0 <= i < |users| && users[i] == u;
    var k :| 0 <= k < |users| && users[k] == r.value;
    if i != k {
      assert users[i].id != users[k].id;
    }
  }

  /** With unique emails, the lookup by email finds the one row that has it. */
  lemma FindUserByEmailUnique(users: seq<User>, nextId: nat, u: User)
    requires UsersValid(users, nextId)
    requires u in users
    ensures FindUserByEmail(users, u.email) == Some(u)
  {
    var r := FindUserByEmail(users, u.email);
    var i :| 0 <= i < |users| && users[i] == u;
    var k :| 0 <= k < |users| && users[k] == r.value;
    if i != k {
      assert users[i].email != users[k].email;
    }
  }
}
