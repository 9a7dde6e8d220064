/** The handlers behind `/api/jobs`. Each runs for an authenticated user
    (`userId`, the id the authentication middleware put on the request) and
    touches only that user's rows. Path parameters arrive as text and go
    through `parseInt`; a NaN binds as NULL, and `id = NULL` holds for no
    row. A handler that fails leaves the database as it was. */
module JobController {
  import opened Common
  import opened Text
  import opened Numbers
  import opened Store
  import opened Ordering
  import opened Paging
  import opened JobRows

  const NotFound := Failure(404, "Job application not found")
  const InvalidStatus := Failure(400, "Invalid status. Must be one of: wishlist, applied, phone_screen, interview, offer, rejected, withdrawn, accepted")
  /** SQLite's answer to a LIMIT or OFFSET that is NULL (from a NaN page
      or limit) or not a 64-bit integer. */
  const DatatypeMismatch := Failure(0, "datatype mismatch")

  /** A number SQLite accepts as LIMIT or OFFSET: sql.js binds a number
      outside the 32-bit range as REAL, and the engine takes a REAL there
      only when it converts to a 64-bit integer without loss. */
  predicate SqlInteger(n: int) {
    -0x8000_0000_0000_0000 <= n < 0x8000_0000_0000_0000
  }

  // ---------------------------------------------------------------------
  // GET /api/jobs

  /** The query string of the list endpoint; `None` is an absent key. */
  datatype ListQuery = ListQuery(
    page: Option<string>,
    limit: Option<string>,
    status: Option<string>,
    jobType: Option<string>,
    search: Option<string>,
    sortBy: Option<string>,
    sortOrder: Option<string>)

  datatype Pagination = Pagination(page: int, limit: int, total: nat, pages: Option<int>)

  datatype JobPage = JobPage(data: seq<Job>, pagination: Pagination)

  /** A query value used as a condition: present and not the empty string. */
  predicate Given(o: Option<string>) {
    o.Some? && o.value != ""
  }

  /** `parseInt(page)`, where an absent page defaults to the number 1. */
  function PageOf(q: ListQuery): Option<int> {
    if q.page.None? then Some(1) else ParseInt(q.page.value)
  }

  /** `parseInt(limit)`, where an absent limit defaults to the number 20. */
  function LimitOf(q: ListQuery): Option<int> {
    if q.limit.None? then Some(20) else ParseInt(q.limit.value)
  }

  /** One conjunct of the WHERE clause the handler assembles. */
  datatype Condition =
    | OwnedBy(userId: nat)
    | StatusIs(status: string)
    | JobTypeIs(jobType: string)
    | CompanyOrPositionLike(pattern: string)

  predicate Holds(c: Condition, j: Job) {
    match c
    case OwnedBy(u) => j.userId == u
    case StatusIs(s) => j.status == Some(s)
    case JobTypeIs(t) => j.jobType == Some(t)
    case CompanyOrPositionLike(p) => Like(p, j.company) || Like(p, j.position)
  }

  predicate HoldsAll(conds: seq<Condition>, j: Job) {
    forall k :: 0 <= k < |conds| ==> Holds(conds[k], j)
  }

  /** `WHERE user_id = ?`, then one conjunct per filter that is given. */
  function WhereClause(userId: nat, q: ListQuery): seq<Condition> {
    [OwnedBy(userId)]
    + (if Given(q.status) then [StatusIs(q.status.value)] else [])
    + (if Given(q.jobType) then [JobTypeIs(q.jobType.value)] else [])
    + (if Given(q.search) then [CompanyOrPositionLike("%" + q.search.value + "%")] else [])
  }

  /** What the list endpoint promises to select: the user's own rows, with
      the given status, the given job type, and the search text in the
      company or the position. */
  predicate Selected(j: Job, userId: nat, q: ListQuery) {
    && j.userId == userId
    && (Given(q.status) ==> j.status == q.status)
    && (Given(q.jobType) ==> j.jobType == q.jobType)
    && (Given(q.search) ==> Like("%" + q.search.value + "%", j.company) || Like("%" + q.search.value + "%", j.position))
  }

  /** The assembled WHERE clause selects exactly the promised rows. */
  lemma WhereClauseSelects(userId: nat, q: ListQuery, j: Job)
    ensures HoldsAll(WhereClause(userId, q), j) <==> Selected(j, userId, q)
  {
    var conds := WhereClause(userId, q);
    if Selected(j, userId, q) {
      forall k | 0 <= k < |conds| ensures Holds(conds[k], j) {
      }
    } else {
      var s := if Given(q.status) then 1 else 0;
      var t := s + if Given(q.jobType) then 1 else 0;
      if j.userId != userId {
        assert !Holds(conds[0], j);
      } else if Given(q.status) && j.status != q.status {
        assert !Holds(conds[1], j);
      } else if Given(q.jobType) && j.jobType != q.jobType {
        assert !Holds(conds[1 + s], j);
      } else {
        assert !Holds(conds[1 + t], j);
      }
    }
  }

  /** With a wildcard-free search text the search is a case-insensitive
      substring test on company or position. */
  lemma SearchIsSubstring(j: Job, userId: nat, q: ListQuery)
    requires Given(q.search) && NoWildcards(q.search.value)
    ensures Selected(j, userId, q) <==>
      && j.userId == userId
      && (Given(q.status) ==> j.status == q.status)
      && (Given(q.jobType) ==> j.jobType == q.jobType)
      && (ContainsIgnoringCase(j.company, q.search.value) || ContainsIgnoringCase(j.position, q.search.value))
  {
    SearchPatternIsSubstring(q.search.value, j.company);
    SearchPatternIsSubstring(q.search.value, j.position);
  }

  /** The rows a WHERE clause selects, in table order. */
  function Filter(rows: seq<Job>, conds: seq<Condition>): (r: seq<Job>)
    ensures forall j :: j in r <==> j in rows && HoldsAll(conds, j)
    ensures |r| <= |rows|
    decreases |rows|
  {
    if rows == [] then []
    else
      var init := rows[..|rows| - 1];
      var last := rows[|rows| - 1];
      assert rows == init + [last];
      Filter(init, conds) + (if HoldsAll(conds, last) then [last] else [])
  }

  /** `allowedSortColumns.includes(sort_by) ? sort_by : 'created_at'`. */
  function SortColumnFor(sortBy: Option<string>): (c: Column)
    ensures sortBy.Some? && sortBy.value in SortColumnNames ==> ColumnName(c) == sortBy.value
    ensures !(sortBy.Some? && sortBy.value in SortColumnNames) ==> c == CreatedAt
  {
    if sortBy.None? then CreatedAt
    else match sortBy.value
      case "updated_at" => UpdatedAt
      case "company" => Company
      case "position" => Position
      case "status" => StatusColumn
      case "applied_date" => AppliedDate
      case _ => CreatedAt
  }

  /** `sort_order.toUpperCase() === 'ASC' ? 'ASC' : 'DESC'`, where an absent
      order defaults to 'DESC'. */
  function SortDirectionFor(sortOrder: Option<string>): (d: Direction)
    ensures d == Asc <==> sortOrder.Some? && EqualsIgnoringCase(sortOrder.value, "asc")
  {
    if sortOrder.None? then Desc
    else
      ToUpperIsCaseInsensitive(sortOrder.value);
      if ToUpper(sortOrder.value) == "ASC" then Asc else Desc
  }

  /** Every row the list endpoint selects, in the requested order. Pages are
      windows of this sequence. */
  function Listing(rows: seq<Job>, userId: nat, q: ListQuery): seq<Job> {
    SortRows(Filter(rows, WhereClause(userId, q)), SortColumnFor(q.sortBy), SortDirectionFor(q.sortOrder))
  }

  lemma ListingRows(rows: seq<Job>, userId: nat, q: ListQuery)
    ensures forall j :: j in Listing(rows, userId, q) <==> j in rows && Selected(j, userId, q)
    ensures |Listing(rows, userId, q)| == |Filter(rows, WhereClause(userId, q))|
    ensures Sorted(Listing(rows, userId, q), SortColumnFor(q.sortBy), SortDirectionFor(q.sortOrder))
  {
    var conds := WhereClause(userId, q);
    SortRowsSameRows(Filter(rows, conds), SortColumnFor(q.sortBy), SortDirectionFor(q.sortOrder));
    forall j ensures HoldsAll(conds, j) <==> Selected(j, userId, q) {
      WhereClauseSelects(userId, q, j);
    }
  }

  /** Reading pages 1, 2, ... up to `pagination.pages` in turn yields every
      selected row exactly once, in order. */
  lemma PagesCoverListing(rows: seq<Job>, userId: nat, q: ListQuery)
    requires LimitOf(q).Some? && LimitOf(q).value >= 1
    ensures var all := Listing(rows, userId, q);
      ConcatPages(all, LimitOf(q).value, 0, PageCount(|all|, LimitOf(q).value)) == all
  {
    AllPagesReassemble(Listing(rows, userId, q), LimitOf(q).value);
  }

  /** `SELECT COUNT(*) FROM jobs <where>`. */
  method CountRows(rows: seq<Job>, conds: seq<Condition>) returns (total: nat)
    ensures total == |Filter(rows, conds)|
  {
    total := 0;
    var i := 0;
    while i < |rows|
      invariant 0 <= i <= |rows|
      invariant total == |Filter(rows[..i], conds)|
    {
      assert rows[..i + 1][..i] == rows[..i];
      if HoldsAll(conds, rows[i]) {
        total := total + 1;
      }
      i := i + 1;
    }
    assert rows[..i] == rows;
  }

  /** Steps through the result of `... LIMIT limit OFFSET offset`, pushing
      each row. */
  method ReadWindow(rows: seq<Job>, offset: int, limit: int) returns (data: seq<Job>)
    ensures data == LimitOffset(rows, offset, limit)
  {
    var start := if Start(offset) > |rows| then |rows| else Start(offset);
    data := [];
    var k := start;
    while k < |rows| && (limit < 0 || |data| < limit)
      invariant start <= k <= |rows|
      invariant data == rows[start..k]
      invariant limit >= 0 ==> |data| <= limit
    {
      data := data + [rows[k]];
      k := k + 1;
    }
  }

  /** A window of a sorted listing is sorted and holds listed rows only. */
  lemma WindowOfSorted(rows: seq<Job>, offset: int, limit: int, c: Column, d: Direction)
    requires Sorted(rows, c, d)
    ensures Sorted(LimitOffset(rows, offset, limit), c, d)
    ensures forall j :: j in LimitOffset(rows, offset, limit) ==> j in rows
  {
    var w := LimitOffset(rows, offset, limit);
    var start := Start(offset);
    LimitOffsetAt(rows, offset, limit);
    RunOfSorted(rows, w, start, c, d);
    LimitOffsetWithin(rows, offset, limit);
  }

  /** `GET /api/jobs`: counts the selected rows, then reads one window of
      them in the requested order. */
  method GetJobs(db: Database, userId: nat, q: ListQuery) returns (res: Result<JobPage>)
    ensures res.Err? <==>
      || PageOf(q).None? || LimitOf(q).None?
      || !SqlInteger(LimitOf(q).value) || !SqlInteger((PageOf(q).value - 1) * LimitOf(q).value)
    ensures res.Err? ==> res.error == DatatypeMismatch
    ensures res.Ok? ==>
      var page := PageOf(q).value;
      var limit := LimitOf(q).value;
      var total := |Filter(db.jobs, WhereClause(userId, q))|;
      && res.value.data == LimitOffset(Listing(db.jobs, userId, q), (page - 1) * limit, limit)
      && res.value.pagination == Pagination(page, limit, total, Pages(total, limit))
    ensures res.Ok? ==> forall j :: j in res.value.data ==> j in db.jobs && Selected(j, userId, q)
    ensures res.Ok? ==> Sorted(res.value.data, SortColumnFor(q.sortBy), SortDirectionFor(q.sortOrder))
    ensures res.Ok? && res.value.pagination.limit >= 0 ==> |res.value.data| <= res.value.pagination.limit
  {
    var conds := WhereClause(userId, q);
    var total := CountRows(db.jobs, conds);
    var pageOpt := PageOf(q);
    var limitOpt := LimitOf(q);
    if pageOpt.None? || limitOpt.None? {
      return Err(DatatypeMismatch);
    }
    var page := pageOpt.value;
    var limit := limitOpt.value;
    var offset := (page - 1) * limit;
    if !SqlInteger(limit) || !SqlInteger(offset) {
      return Err(DatatypeMismatch);
    }
    var rows := Listing(db.jobs, userId, q);
    var data := ReadWindow(rows, offset, limit);
    ListingRows(db.jobs, userId, q);
    WindowOfSorted(rows, offset, limit, SortColumnFor(q.sortBy), SortDirectionFor(q.sortOrder));
    res := Ok(JobPage(data, Pagination(page, limit, total, Pages(total, limit))));
  }

  // ---------------------------------------------------------------------
  // GET /api/jobs/:id

  /** The row a path id names for this user, if it owns one. */
  function Lookup(rows: seq<Job>, idText: string, userId: nat): (r: Option<nat>)
    ensures r.Some? ==> ParseInt(idText).Some? && r.value < |rows| && Matches(rows[r.value], ParseInt(idText).value, userId)
    ensures r.None? <==> ParseInt(idText).None? || !Owns(rows, ParseInt(idText).value, userId)
  {
    var id := ParseInt(idText);
    if id.None? then None else OwnedIndex(rows, id.value, userId)
  }

  method GetJob(db: Database, userId: nat, idText: string) returns (r: Result<Job>)
    ensures r.Ok? <==> ParseInt(idText).Some? && Owns(db.jobs, ParseInt(idText).value, userId)
    ensures r.Err? ==> r.error == NotFound
    ensures r.Ok? ==> r.value in db.jobs && Matches(r.value, ParseInt(idText).value, userId)
  {
    var i := Lookup(db.jobs, idText, userId);
    if i.None? {
      return Err(NotFound);
    }
    r := Ok(db.jobs[i.value]);
  }

  // ---------------------------------------------------------------------
  // POST /api/jobs

  /** Inserts a row for the user, then reads it back by its new id. The
      statement is rolled back as a whole when a constraint fails, so a
      failed insert consumes no id. */
  method CreateJob(db: Database, userId: nat, b: JobBody, now: nat) returns (r: Result<Job>)
    requires db.Valid()
    modifies db
    ensures db.Valid()
    ensures db.users == old(db.users) && db.nextUserId == old(db.nextUserId)
    ensures r.Ok? <==> InsertedRow(old(db.nextJobId), userId, b, now).Ok? && HasUser(db.users, userId)
    ensures r.Err? ==> unchanged(db)
    ensures r.Err? && InsertedRow(old(db.nextJobId), userId, b, now).Ok? ==> r.error == ForeignKeyFailed
    ensures r.Err? && InsertedRow(old(db.nextJobId), userId, b, now).Err? ==> r == InsertedRow(old(db.nextJobId), userId, b, now)
    ensures r.Ok? ==>
      && r.value == InsertedRow(old(db.nextJobId), userId, b, now).value
      && db.jobs == old(db.jobs) + [r.value]
      && db.nextJobId == old(db.nextJobId) + 1
  {
    var id := db.nextJobId;
    var row := InsertedRow(id, userId, b, now);
    if row.Err? {
      return row;
    }
    if !HasUser(db.users, userId) {
      return Err(ForeignKeyFailed);
    }
    var jobs := db.jobs + [row.value];
    JobsValidAppend(db.jobs, id, row.value);
    assert ForeignKeysHold(db.users, jobs);
    db.jobs := jobs;
    db.nextJobId := id + 1;
    // SELECT * FROM jobs WHERE id = last_insert_rowid()
    FindByIdUnique(db.jobs, |db.jobs| - 1);
    var created := FindById(db.jobs, id);
    r := Ok(created.value);
  }

  // ---------------------------------------------------------------------
  // the table after a scoped UPDATE or DELETE

  /** Replacing the owned row by one with the same id and owner keeps the
      schema, and reading back by id finds the new row. */
  lemma ReplaceOwned(users: seq<User>, jobs: seq<Job>, nextId: nat, id: int, userId: nat, i: nat, row: Job)
    requires JobsValid(jobs, nextId) && ForeignKeysHold(users, jobs)
    requires i < |jobs| && Matches(jobs[i], id, userId)
    requires row.id == jobs[i].id && row.userId == jobs[i].userId && RowChecksPass(row)
    ensures JobsValid(jobs[i := row], nextId) && ForeignKeysHold(users, jobs[i := row])
    ensures FindById(jobs[i := row], id) == Some(row)
  {
    var r := jobs[i := row];
    JobsValidReplace(jobs, nextId, i, row);
    forall n | 0 <= n < |r| ensures HasUser(users, r[n].userId) {
      assert r[n].userId == jobs[n].userId;
    }
    FindByIdUnique(r, i);
  }

  /** Removing the owned row keeps the schema. */
  lemma RemoveOwned(users: seq<User>, jobs: seq<Job>, nextId: nat, id: int, userId: nat, i: nat)
    requires JobsValid(jobs, nextId) && ForeignKeysHold(users, jobs)
    requires i < |jobs| && Matches(jobs[i], id, userId)
    ensures DeleteWhere(jobs, id, userId) == jobs[..i] + jobs[i + 1..]
    ensures JobsValid(DeleteWhere(jobs, id, userId), nextId) && ForeignKeysHold(users, DeleteWhere(jobs, id, userId))
  {
    DeleteWhereOneRow(jobs, id, userId, i);
    JobsValidRemove(jobs, nextId, i);
    var r := jobs[..i] + jobs[i + 1..];
    forall a | 0 <= a < |r| ensures HasUser(users, r[a].userId) {
      assert r[a] == jobs[if a < i then a else a + 1];
    }
  }

  // ---------------------------------------------------------------------
  // PUT /api/jobs/:id

  /** Checks ownership, applies the COALESCE update to the owned row, and
      reads the row back by id. A merged row that breaks a CHECK constraint
      aborts the statement. */
  method UpdateJob(db: Database, userId: nat, idText: string, b: JobBody, now: nat) returns (r: Result<Job>)
    requires db.Valid()
    modifies db
    ensures db.Valid()
    ensures db.users == old(db.users) && db.nextUserId == old(db.nextUserId) && db.nextJobId == old(db.nextJobId)
    ensures Lookup(old(db.jobs), idText, userId).None? ==> r == Err(NotFound) && unchanged(db)
    ensures Lookup(old(db.jobs), idText, userId).Some? ==>
      var i := Lookup(old(db.jobs), idText, userId).value;
      var merged := Merge(old(db.jobs)[i], b, now);
      && (!RowChecksPass(merged) ==> r == Err(CheckFailed) && unchanged(db))
      && (RowChecksPass(merged) ==> r == Ok(merged) && db.jobs == old(db.jobs)[i := merged])
  {
    var i := Lookup(db.jobs, idText, userId);
    if i.None? {
      return Err(NotFound);
    }
    var id := ParseInt(idText).value;
    var merged := Merge(db.jobs[i.value], b, now);
    if !RowChecksPass(merged) {
      return Err(CheckFailed);
    }
    var f := (j: Job) => Merge(j, b, now);
    UpdateWhereOneRow(db.jobs, id, userId, f, i.value);
    ReplaceOwned(db.users, db.jobs, db.nextJobId, id, userId, i.value, merged);
    db.CommitJobs(UpdateWhere(db.jobs, id, userId, f));
    // SELECT * FROM jobs WHERE id = ?
    var updated := FindById(db.jobs, id);
    r := Ok(updated.value);
  }

  // ---------------------------------------------------------------------
  // PATCH /api/jobs/:id/status

  datatype StatusChange = StatusChange(job: Job, message: string)

  /** `validStatuses.includes(status)`: strict equality, so only a string
      from the list passes. */
  predicate IsListedStatus(v: Value) {
    v.Str? && v.s in Statuses
  }

  /** A status as a template literal renders it: NULL becomes "null". */
  function StatusText(s: Option<string>): string {
    if s.Some? then s.value else "null"
  }

  function StatusMessage(before: Option<string>, after: string): string {
    "Status changed from '" + StatusText(before) + "' to '" + after + "'"
  }

  /** Validates the status before the ownership check, then sets it and
      refreshes `updated_at`; nothing else in the row changes. */
  method UpdateJobStatus(db: Database, userId: nat, idText: string, status: Value, now: nat) returns (r: Result<StatusChange>)
    requires db.Valid()
    modifies db
    ensures db.Valid()
    ensures db.users == old(db.users) && db.nextUserId == old(db.nextUserId) && db.nextJobId == old(db.nextJobId)
    ensures !IsListedStatus(status) ==> r == Err(InvalidStatus) && unchanged(db)
    ensures IsListedStatus(status) && Lookup(old(db.jobs), idText, userId).None? ==> r == Err(NotFound) && unchanged(db)
    ensures IsListedStatus(status) && Lookup(old(db.jobs), idText, userId).Some? ==>
      var i := Lookup(old(db.jobs), idText, userId).value;
      var changed := old(db.jobs)[i].(status := Some(status.s), updatedAt := now);
      && db.jobs == old(db.jobs)[i := changed]
      && r == Ok(StatusChange(changed, StatusMessage(old(db.jobs)[i].status, status.s)))
  {
    if !IsListedStatus(status) {
      return Err(InvalidStatus);
    }
    var i := Lookup(db.jobs, idText, userId);
    if i.None? {
      return Err(NotFound);
    }
    var id := ParseInt(idText).value;
    var current := db.jobs[i.value];
    var f := (j: Job) => j.(status := Some(status.s), updatedAt := now);
    UpdateWhereOneRow(db.jobs, id, userId, f, i.value);
    ReplaceOwned(db.users, db.jobs, db.nextJobId, id, userId, i.value, f(current));
    db.CommitJobs(UpdateWhere(db.jobs, id, userId, f));
    var updated := FindById(db.jobs, id);
    r := Ok(StatusChange(updated.value, StatusMessage(current.status, status.s)));
  }

  // ---------------------------------------------------------------------
  // DELETE /api/jobs/:id

  function DeletedMessage(j: Job): string {
    "Job application at '" + j.company + "' for '" + j.position + "' deleted successfully"
  }

  /** Runs the scoped DELETE on the owned row; by `DeleteWhereOneRow` that
      removes it and keeps every other row, in order. AUTOINCREMENT never
      hands the id out again. */
  method DeleteJob(db: Database, userId: nat, idText: string) returns (r: Result<string>)
    requires db.Valid()
    modifies db
    ensures db.Valid()
    ensures db.users == old(db.users) && db.nextUserId == old(db.nextUserId) && db.nextJobId == old(db.nextJobId)
    ensures Lookup(old(db.jobs), idText, userId).None? ==> r == Err(NotFound) && unchanged(db)
    ensures Lookup(old(db.jobs), idText, userId).Some? ==>
      var i := Lookup(old(db.jobs), idText, userId).value;
      && db.jobs == DeleteWhere(old(db.jobs), ParseInt(idText).value, userId)
      && r == Ok(DeletedMessage(old(db.jobs)[i]))
  {
    var i := Lookup(db.jobs, idText, userId);
    if i.None? {
      return Err(NotFound);
    }
    var id := ParseInt(idText).value;
    var job := db.jobs[i.value];
    RemoveOwned(db.users, db.jobs, db.nextJobId, id, userId, i.value);
    db.CommitJobs(DeleteWhere(db.jobs, id, userId));
    r := Ok(DeletedMessage(job));
  }

  // ---------------------------------------------------------------------
  // properties across handlers

  /** A record is invisible to every other user: they get the same 404 as
      for an id that was never issued. */
  lemma OtherUsersSeeNotFound(rows: seq<Job>, i: nat, other: nat)
    requires UniqueJobIds(rows)
    requires i < |rows| && rows[i].userId != other
    ensures Lookup(rows, IntText(rows[i].id), other).None?
  {
    ParseIntText(rows[i].id);
    ForeignRecordLooksMissing(rows, i, other);
  }

  /** The path `/api/jobs/<id>` with the decimal id of an owned row finds
      that row. */
  lemma OwnerFindsOwnRow(rows: seq<Job>, i: nat)
    requires UniqueJobIds(rows)
    requires i < |rows|
    ensures Lookup(rows, IntText(rows[i].id), rows[i].userId) == Some(i)
  {
    ParseIntText(rows[i].id);
    OwnedIndexUnique(rows, rows[i].id, rows[i].userId, i);
  }

  /** After a delete the id names no row for anyone. */
  lemma DeletedRowIsGone(rows: seq<Job>, i: nat, u: nat)
    requires UniqueJobIds(rows)
    requires i < |rows|
    ensures !Owns(rows[..i] + rows[i + 1..], rows[i].id, u)
  {
    var rest := rows[..i] + rows[i + 1..];
    forall j | j in rest ensures !Matches(j, rows[i].id, u) {
      var n :| 0 <= n < |rest| && rest[n] == j;
      var n' := if n < i then n else n + 1;
      assert j == rows[n'];
      assert n' != i;
      if n' < i {
        assert rows[n'].id != rows[i].id;
      } else {
        assert rows[i].id != rows[n'].id;
      }
    }
  }

  /** Creating a job and reading it back returns the created row; no other
      user can read it. */
  method CreateThenRead(db: Database, userId: nat, other: nat, b: JobBody, now: nat) returns (created: Result<Job>, mine: Result<Job>, theirs: Result<Job>)
    requires db.Valid()
    requires other != userId
    modifies db
    ensures created.Ok? ==> mine == created && theirs == Err(NotFound)
  {
    created := CreateJob(db, userId, b, now);
    if created.Err? {
      return created, created, created;
    }
    OwnerFindsOwnRow(db.jobs, |db.jobs| - 1);
    OtherUsersSeeNotFound(db.jobs, |db.jobs| - 1, other);
    mine := GetJob(db, userId, IntText(created.value.id));
    theirs := GetJob(db, other, IntText(created.value.id));
  }
}
