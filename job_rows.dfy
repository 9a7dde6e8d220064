/** The SQL statements the job controller runs, as functions over the rows
    of the jobs table: the ownership-scoped lookup `WHERE id = ? AND
    user_id = ?`, the INSERT with its defaults and constraint checks, the
    COALESCE update, and the scoped UPDATE and DELETE. */
module JobRows {
  import opened Common
  import opened Store

  /** The fields of a create or update request body. `email` is only ever
      looked at by the create validator. */
  datatype JobBody = JobBody(
    company: Value,
    position: Value,
    status: Value,
    location: Value,
    salaryMin: Value,
    salaryMax: Value,
    jobType: Value,
    url: Value,
    notes: Value,
    appliedDate: Value,
    deadline: Value,
    email: Value)

  // Errors the database engine raises. They carry no status code.
  const NotNullCompany := Failure(0, "NOT NULL constraint failed: jobs.company")
  const NotNullPosition := Failure(0, "NOT NULL constraint failed: jobs.position")
  /** sql.js refuses to bind `undefined` and throws a bare string, which has
      neither a status code nor a message. */
  const UnboundValue := Failure(0, "")
  const CheckFailed := Failure(0, "CHECK constraint failed: jobs")
  const ForeignKeyFailed := Failure(0, "FOREIGN KEY constraint failed")

  // ---------------------------------------------------------------------
  // the ownership guard

  /** `WHERE id = ? AND user_id = ?`. */
  predicate Matches(j: Job, id: int, userId: nat) {
    j.id == id && j.userId == userId
  }

  /** Some row has this id and belongs to this user. */
  predicate Owns(rows: seq<Job>, id: int, userId: nat) {
    exists j | j in rows :: Matches(j, id, userId)
  }

  /** The position of the first row with this id owned by this user. A
      missing id and an id owned by someone else both give `None`. */
  function OwnedIndex(rows: seq<Job>, id: int, userId: nat): (r: Option<nat>)
    ensures r.Some? ==> r.value < |rows| && Matches(rows[r.value], id, userId)
    ensures r.None? <==> !Owns(rows, id, userId)
    decreases |rows|
  {
    if rows == [] then None
    else if Matches(rows[0], id, userId) then Some(0)
    else
      var r := OwnedIndex(rows[1..], id, userId);
      assert forall j :: j in rows ==> j == rows[0] || j in rows[1..];
      if r.Some? then Some(r.value + 1) else None
  }

  /** Under the primary key the guard names the one row with that id. */
  lemma OwnedIndexUnique(rows: seq<Job>, id: int, userId: nat, i: nat)
    requires UniqueJobIds(rows)
    requires i < |rows| && Matches(rows[i], id, userId)
    ensures OwnedIndex(rows, id, userId) == Some(i)
  {
    var k := OwnedIndex(rows, id, userId).value;
    assert rows[k].id == rows[i].id;
  }

  /** A record is visible to its owner only: for anyone else the guard
      answers exactly as for an id that does not exist. */
  lemma ForeignRecordLooksMissing(rows: seq<Job>, i: nat, other: nat)
    requires UniqueJobIds(rows)
    requires i < |rows| && rows[i].userId != other
    ensures OwnedIndex(rows, rows[i].id, other) == None
  {
    forall k | 0 <= k < |rows| ensures !Matches(rows[k], rows[i].id, other) {
      if k != i {
        assert rows[k].id != rows[i].id by {
          if k < i {
            assert rows[k].id != rows[i].id;
          } else {
            assert rows[i].id != rows[k].id;
          }
        }
      }
    }
  }

  /** `SELECT * FROM jobs WHERE id = ?`: the first row with that id. */
  function FindById(rows: seq<Job>, id: int): (r: Option<Job>)
    ensures r.Some? ==> r.value in rows && r.value.id == id
    ensures r.None? <==> forall j :: j in rows ==> j.id != id
    decreases |rows|
  {
    if rows == [] then None
    else if rows[0].id == id then Some(rows[0])
    else
      var r := FindById(rows[1..], id);
      assert forall j :: j in rows ==> j == rows[0] || j in rows[1..];
      r
  }

  lemma FindByIdUnique(rows: seq<Job>, i: nat)
    requires UniqueJobIds(rows)
    requires i < |rows|
    ensures FindById(rows, rows[i].id) == Some(rows[i])
  {
    var r := FindById(rows, rows[i].id).value;
    var k :| 0 <= k < |rows| && rows[k] == r;
    assert rows[k].id == rows[i].id;
  }

  // ---------------------------------------------------------------------
  // INSERT

  /** `status = 'applied'` in the destructuring: the default replaces only
      an absent field, so an explicit null is bound as NULL. */
  function InitialStatus(v: Value): Option<string> {
    if v == Undefined then Some("applied") else TextColumn(v)
  }

  /** `job_type = 'full-time'`, with the same rule. */
  function InitialJobType(v: Value): Option<string> {
    if v == Undefined then Some("full-time") else TextColumn(v)
  }

  /** The row `INSERT INTO jobs (...) VALUES (...)` adds for the body, or the
      error raised: binding an absent company or position fails before the
      statement runs; then SQLite checks NOT NULL first, then CHECK. */
  function InsertedRow(id: nat, userId: nat, b: JobBody, now: nat): (r: Result<Job>)
    ensures r.Ok? <==>
      && b.company != Undefined && b.company != Null
      && b.position != Undefined && b.position != Null
      && StatusAllowed(InitialStatus(b.status))
      && JobTypeAllowed(InitialJobType(b.jobType))
    ensures r.Err? ==> r.error in {UnboundValue, NotNullCompany, NotNullPosition, CheckFailed}
    ensures b.company == Undefined || b.position == Undefined ==> r == Err(UnboundValue)
    ensures b.company != Undefined && b.position != Undefined && (b.company == Null || b.position == Null) ==>
      r == Err(if b.company == Null then NotNullCompany else NotNullPosition)
    ensures r.Ok? ==>
      && r.value.id == id && r.value.userId == userId
      && r.value.company == ToText(b.company) && r.value.position == ToText(b.position)
      && r.value.status == InitialStatus(b.status)
      && r.value.jobType == InitialJobType(b.jobType)
      && r.value.createdAt == now && r.value.updatedAt == now
      && RowChecksPass(r.value)
    // every optional field that is falsy is stored as NULL, every truthy one as given
    ensures r.Ok? ==>
      && (r.value.location.None? <==> !Truthy(b.location))
      && (r.value.salaryMin.NullCell? <==> !Truthy(b.salaryMin))
      && (r.value.salaryMax.NullCell? <==> !Truthy(b.salaryMax))
      && (r.value.url.None? <==> !Truthy(b.url))
      && (r.value.notes.None? <==> !Truthy(b.notes))
      && (r.value.appliedDate.None? <==> !Truthy(b.appliedDate))
      && (r.value.deadline.None? <==> !Truthy(b.deadline))
    // and every truthy one is stored as the text or number it was sent as
    ensures r.Ok? ==>
      && (Truthy(b.location) ==> r.value.location == Some(ToText(b.location)))
      && (Truthy(b.url) ==> r.value.url == Some(ToText(b.url)))
      && (Truthy(b.notes) ==> r.value.notes == Some(ToText(b.notes)))
      && (Truthy(b.appliedDate) ==> r.value.appliedDate == Some(ToText(b.appliedDate)))
      && (Truthy(b.deadline) ==> r.value.deadline == Some(ToText(b.deadline)))
      && (Truthy(b.salaryMin) ==> r.value.salaryMin == (if b.salaryMin.Num? then IntCell(b.salaryMin.n) else TextCell(b.salaryMin.s)))
      && (Truthy(b.salaryMax) ==> r.value.salaryMax == (if b.salaryMax.Num? then IntCell(b.salaryMax.n) else TextCell(b.salaryMax.s)))
  {
    var company := TextColumn(b.company);
    var position := TextColumn(b.position);
    var status := InitialStatus(b.status);
    var jobType := InitialJobType(b.jobType);
    if b.company == Undefined || b.position == Undefined then Err(UnboundValue)
    else if company.None? then Err(NotNullCompany)
    else if position.None? then Err(NotNullPosition)
    else if !StatusAllowed(status) || !JobTypeAllowed(jobType) then Err(CheckFailed)
    else Ok(Job(id, userId, company.value, position.value, status,
                TextOrNull(b.location), CellOrNull(b.salaryMin), CellOrNull(b.salaryMax),
                jobType, TextOrNull(b.url), TextOrNull(b.notes),
                TextOrNull(b.appliedDate), TextOrNull(b.deadline), now, now))
  }

  /** A body that names neither status nor job type gets 'applied' and
      'full-time'. */
  lemma InsertDefaults(id: nat, userId: nat, b: JobBody, now: nat)
    requires b.status == Undefined && b.jobType == Undefined
    requires b.company.Str? && b.position.Str?
    ensures InsertedRow(id, userId, b, now).Ok?
    ensures InsertedRow(id, userId, b, now).value.status == Some("applied")
    ensures InsertedRow(id, userId, b, now).value.jobType == Some("full-time")
  {
    assert "applied" == Statuses[1];
    assert "full-time" == JobTypes[0];
  }

  // ---------------------------------------------------------------------
  // UPDATE ... SET col = COALESCE(?, col)

  function CoalesceText(given: Option<string>, current: string): string {
    if given.Some? then given.value else current
  }

  function Coalesce(given: Option<string>, current: Option<string>): Option<string> {
    if given.Some? then given else current
  }

  function CoalesceCell(given: Cell, current: Cell): Cell {
    if given.NullCell? then current else given
  }

  /** The row after `UPDATE jobs SET col = COALESCE(v || null, col), ...,
      updated_at = CURRENT_TIMESTAMP`: a field takes the supplied value when
      that value is truthy and otherwise keeps the stored one. */
  function Merge(j: Job, b: JobBody, now: nat): (r: Job)
    ensures r.id == j.id && r.userId == j.userId && r.createdAt == j.createdAt
    ensures r.updatedAt == now
    ensures r.company == (if Truthy(b.company) then ToText(b.company) else j.company)
    ensures r.position == (if Truthy(b.position) then ToText(b.position) else j.position)
    ensures r.status == (if Truthy(b.status) then Some(ToText(b.status)) else j.status)
    ensures r.location == (if Truthy(b.location) then Some(ToText(b.location)) else j.location)
    ensures r.salaryMin == (if Truthy(b.salaryMin) then CellOrNull(b.salaryMin) else j.salaryMin)
    ensures r.salaryMax == (if Truthy(b.salaryMax) then CellOrNull(b.salaryMax) else j.salaryMax)
    ensures r.jobType == (if Truthy(b.jobType) then Some(ToText(b.jobType)) else j.jobType)
    ensures r.url == (if Truthy(b.url) then Some(ToText(b.url)) else j.url)
    ensures r.notes == (if Truthy(b.notes) then Some(ToText(b.notes)) else j.notes)
    ensures r.appliedDate == (if Truthy(b.appliedDate) then Some(ToText(b.appliedDate)) else j.appliedDate)
    ensures r.deadline == (if Truthy(b.deadline) then Some(ToText(b.deadline)) else j.deadline)
  {
    j.(company := CoalesceText(TextOrNull(b.company), j.company),
       position := CoalesceText(TextOrNull(b.position), j.position),
       status := Coalesce(TextOrNull(b.status), j.status),
       location := Coalesce(TextOrNull(b.location), j.location),
       salaryMin := CoalesceCell(CellOrNull(b.salaryMin), j.salaryMin),
       salaryMax := CoalesceCell(CellOrNull(b.salaryMax), j.salaryMax),
       jobType := Coalesce(TextOrNull(b.jobType), j.jobType),
       url := Coalesce(TextOrNull(b.url), j.url),
       notes := Coalesce(TextOrNull(b.notes), j.notes),
       appliedDate := Coalesce(TextOrNull(b.appliedDate), j.appliedDate),
       deadline := Coalesce(TextOrNull(b.deadline), j.deadline),
       updatedAt := now)
  }

  /** No body can clear a column: a field that holds a value keeps one. */
  lemma MergeNeverClears(j: Job, b: JobBody, now: nat)
    ensures var r := Merge(j, b, now);
      && (j.status.Some? ==> r.status.Some?)
      && (j.location.Some? ==> r.location.Some?)
      && (!j.salaryMin.NullCell? ==> !r.salaryMin.NullCell?)
      && (!j.salaryMax.NullCell? ==> !r.salaryMax.NullCell?)
      && (j.jobType.Some? ==> r.jobType.Some?)
      && (j.url.Some? ==> r.url.Some?)
      && (j.notes.Some? ==> r.notes.Some?)
      && (j.appliedDate.Some? ==> r.appliedDate.Some?)
      && (j.deadline.Some? ==> r.deadline.Some?)
  {
  }

  /** A body of null, "" and 0 only refreshes `updated_at`. */
  lemma MergeFalsyBodyOnlyTouches(j: Job, b: JobBody, now: nat)
    requires !Truthy(b.company) && !Truthy(b.position) && !Truthy(b.status) && !Truthy(b.location)
    requires !Truthy(b.salaryMin) && !Truthy(b.salaryMax) && !Truthy(b.jobType) && !Truthy(b.url)
    requires !Truthy(b.notes) && !Truthy(b.appliedDate) && !Truthy(b.deadline)
    ensures Merge(j, b, now) == j.(updatedAt := now)
  {
  }

  /** Applying the same update twice is applying it once. */
  lemma MergeIdempotent(j: Job, b: JobBody, now: nat)
    ensures Merge(Merge(j, b, now), b, now) == Merge(j, b, now)
  {
  }

  /** The merged row passes the CHECK constraints exactly when the supplied
      status and job type, if truthy, are in their sets. */
  lemma MergeChecks(j: Job, b: JobBody, now: nat)
    requires RowChecksPass(j)
    ensures RowChecksPass(Merge(j, b, now)) <==>
      (!Truthy(b.status) || ToText(b.status) in Statuses) && (!Truthy(b.jobType) || ToText(b.jobType) in JobTypes)
  {
  }

  // ---------------------------------------------------------------------
  // scoped UPDATE and DELETE

  /** `UPDATE jobs SET ... WHERE id = ? AND user_id = ?`. */
  function UpdateWhere(rows: seq<Job>, id: int, userId: nat, f: Job -> Job): (r: seq<Job>)
    ensures |r| == |rows|
    ensures forall k :: 0 <= k < |r| && !Matches(rows[k], id, userId) ==> r[k] == rows[k]
  {
    seq(|rows|, k requires 0 <= k < |rows| => if Matches(rows[k], id, userId) then f(rows[k]) else rows[k])
  }

  /** Under the primary key the scoped UPDATE rewrites exactly the owned row
      and leaves every other row as it was. */
  lemma UpdateWhereOneRow(rows: seq<Job>, id: int, userId: nat, f: Job -> Job, i: nat)
    requires UniqueJobIds(rows)
    requires i < |rows| && Matches(rows[i], id, userId)
    ensures UpdateWhere(rows, id, userId, f) == rows[i := f(rows[i])]
  {
    var r := UpdateWhere(rows, id, userId, f);
    forall k | 0 <= k < |rows| ensures r[k] == rows[i := f(rows[i])][k] {
      if k < i {
        assert rows[k].id != rows[i].id;
      } else if i < k {
        assert rows[i].id != rows[k].id;
      }
    }
  }

  /** `DELETE FROM jobs WHERE id = ? AND user_id = ?`: the rows that do not
      match, in their order. */
  function DeleteWhere(rows: seq<Job>, id: int, userId: nat): (r: seq<Job>)
    ensures forall k :: 0 <= k < |r| ==> !Matches(r[k], id, userId)
    ensures |r| <= |rows|
    decreases |rows|
  {
    if rows == [] then []
    else
      var rest := DeleteWhere(rows[1..], id, userId);
      if Matches(rows[0], id, userId) then rest else [rows[0]] + rest
  }

  /** The scoped DELETE keeps exactly the rows that do not match. */
  lemma {:induction false} DeleteWhereKeeps(rows: seq<Job>, id: int, userId: nat)
    ensures forall j :: j in DeleteWhere(rows, id, userId) <==> j in rows && !Matches(j, id, userId)
    decreases |rows|
  {
    if rows != [] {
      DeleteWhereKeeps(rows[1..], id, userId);
      assert forall j :: j in rows <==> j == rows[0] || j in rows[1..];
    }
  }

  lemma {:induction false} DeleteWhereNoMatch(rows: seq<Job>, id: int, userId: nat)
    requires forall k :: 0 <= k < |rows| ==> !Matches(rows[k], id, userId)
    ensures DeleteWhere(rows, id, userId) == rows
    decreases |rows|
  {
    if rows != [] {
      DeleteWhereNoMatch(rows[1..], id, userId);
    }
  }

  /** Under the primary key the scoped DELETE removes exactly the owned row
      and keeps all others in order. */
  lemma {:induction false} DeleteWhereOneRow(rows: seq<Job>, id: int, userId: nat, i: nat)
    requires UniqueJobIds(rows)
    requires i < |rows| && Matches(rows[i], id, userId)
    ensures DeleteWhere(rows, id, userId) == rows[..i] + rows[i + 1..]
    decreases |rows|
  {
    if i == 0 {
      forall k | 0 <= k < |rows[1..]| ensures !Matches(rows[1..][k], id, userId) {
        assert rows[0].id != rows[k + 1].id;
      }
      DeleteWhereNoMatch(rows[1..], id, userId);
    } else {
      assert rows[0].id != rows[i].id;
      assert UniqueJobIds(rows[1..]) by {
        forall a, c | 0 <= a < c < |rows[1..]| ensures rows[1..][a].id != rows[1..][c].id {
          assert rows[a + 1].id != rows[c + 1].id;
        }
      }
      DeleteWhereOneRow(rows[1..], id, userId, i - 1);
      assert rows[1..][..i - 1] == rows[1..i];
      assert rows[1..][i..] == rows[i + 1..];
      assert [rows[0]] + rows[1..i] == rows[..i];
    }
  }
}
