/** The job router: `authenticate` for every request that reaches it, the
    route table, and the validation chains of create, update and the status
    change. */
module JobRoutes {
  import opened Common
  import opened Text
  import opened Store
  import opened JobRows
  import opened Validation

  // ---------------------------------------------------------------------
  // routes

  datatype JobEndpoint = ListEndpoint | ShowEndpoint | CreateEndpoint | UpdateEndpoint | StatusEndpoint | DeleteEndpoint

  /** The table in declaration order. `router.use(authenticate)` comes
      first, so every route is guarded. */
  const JobRouteTable: seq<Route<JobEndpoint>> := [
    Route(Get, [], true, ListEndpoint),
    Route(Get, [Param("id")], true, ShowEndpoint),
    Route(Post, [], true, CreateEndpoint),
    Route(Put, [Param("id")], true, UpdateEndpoint),
    Route(Patch, [Param("id"), Lit("status")], true, StatusEndpoint),
    Route(Delete, [Param("id")], true, DeleteEndpoint)
  ]

  /** How the router handles a request below `/api/jobs`: authentication
      always runs first, then the first matching route if any (a request
      that matches none falls through to the 404 handler). */
  datatype Handling = Handling(authenticateFirst: bool, endpoint: Option<JobEndpoint>, id: Option<string>)

  function Dispatch(verb: Verb, path: seq<string>): (h: Handling)
    ensures h.authenticateFirst
    ensures h.endpoint.Some? <==> exists k :: 0 <= k < |JobRouteTable| && RouteMatches(JobRouteTable[k], verb, path)
    ensures h.id.Some? ==> |path| >= 1 && h.id.value == path[0] && path[0] != ""
  {
    var m := FirstMatch(JobRouteTable, verb, path);
    if m.None? then Handling(true, None, None)
    else
      var r := JobRouteTable[m.value];
      if |r.pattern| >= 1 && r.pattern[0].Param? then
        ParamBindsFirstSegment(r, verb, path);
        Handling(r.guarded, Some(r.handler), Some(path[0]))
      else Handling(r.guarded, Some(r.handler), None)
  }

  /** `PATCH /<id>/status`, with "status" in any case, is not shadowed by
      any earlier route. */
  lemma StatusRouteReached(id: string, word: string)
    requires id != "" && EqualsIgnoringCase(word, "status")
    ensures Dispatch(Patch, [id, word]) == Handling(true, Some(StatusEndpoint), Some(id))
  {
    assert RouteMatches(JobRouteTable[4], Patch, [id, word]);
  }

  lemma JobRoutesNoEmptySegment()
    ensures NoEmptySegment(JobRouteTable)
  {
    assert !SegmentMatches(Lit("status"), "");
  }

  /** A trailing slash reaches the route the path without it reaches, with
      the same id. */
  lemma JobTrailingSlash(verb: Verb, path: seq<string>)
    requires path == [] || path[|path| - 1] != ""
    ensures Dispatch(verb, path + [""]) == Dispatch(verb, path)
  {
    JobRoutesNoEmptySegment();
    TrailingSlashIgnored(JobRouteTable, verb, path);
    if path != [] {
      assert (path + [""])[0] == path[0];
    }
  }

  /** `GET /<id>` shows the job with that path id, whatever text it is. */
  lemma ShowRouteReached(id: string)
    requires id != ""
    ensures Dispatch(Get, [id]) == Handling(true, Some(ShowEndpoint), Some(id))
  {
    assert !RouteMatches(JobRouteTable[0], Get, [id]);
    assert RouteMatches(JobRouteTable[1], Get, [id]);
  }

  // ---------------------------------------------------------------------
  // POST / (create)

  /** The messages of the job chains. */
  const CompanyRequired := "Company name is required"
  const CompanyTooLong := "Company name must be less than 200 characters"
  const PositionRequired := "Position is required"
  const PositionTooLong := "Position must be less than 200 characters"
  const StatusRequired := "Status is required"
  const StatusInvalid := "Invalid status"
  const JobTypeInvalid := "Invalid job type"
  const SalaryMinInvalid := "Minimum salary must be a positive number"
  const SalaryMaxInvalid := "Maximum salary must be a positive number"
  const UrlInvalid := "Please provide a valid URL"
  const EmailInvalid := "Please provide a valid email"

  function TrimmedText(v: Value): string {
    Trim(ToText(v))
  }

  predicate AbsentOrNull(v: Value) {
    v == Undefined || v == Null
  }

  /** A required text field: trimmed, not empty, at most 200 characters. */
  function RequiredText(t: string, field: string, missing: string, tooLong: string): (r: seq<FieldError>)
    ensures r == [] <==> t != "" && VisibleLength(t) <= 200
  {
    Check(t != "", field, missing) + Check(VisibleLength(t) <= 200, field, tooLong)
  }

  /** An optional field whose text must be one of `allowed`. */
  function OptionalIn(v: Value, allowed: seq<string>, field: string, message: string): (r: seq<FieldError>)
    ensures r == [] <==> v == Undefined || ToText(v) in allowed
  {
    if v == Undefined then [] else Check(ToText(v) in allowed, field, message)
  }

  /** An optional, nullable salary: an integer text of value at least 0. */
  function OptionalSalary(v: Value, field: string, message: string): (r: seq<FieldError>)
    ensures r == [] <==> AbsentOrNull(v) || IsNonNegIntText(ToText(v))
  {
    if AbsentOrNull(v) then [] else Check(IsNonNegIntText(ToText(v)), field, message)
  }

  /** An optional, nullable field checked by a library validator. */
  function OptionalChecked(v: Value, valid: string -> bool, field: string, message: string): (r: seq<FieldError>)
    ensures r == [] <==> AbsentOrNull(v) || valid(ToText(v))
  {
    if AbsentOrNull(v) then [] else Check(valid(ToText(v)), field, message)
  }

  predicate NamesAcceptable(b: JobBody) {
    && TrimmedText(b.company) != "" && VisibleLength(TrimmedText(b.company)) <= 200
    && TrimmedText(b.position) != "" && VisibleLength(TrimmedText(b.position)) <= 200
  }

  predicate ListedAcceptable(b: JobBody) {
    && (b.status == Undefined || ToText(b.status) in Statuses)
    && (b.jobType == Undefined || ToText(b.jobType) in JobTypes)
  }

  predicate SalariesAcceptable(b: JobBody) {
    && (AbsentOrNull(b.salaryMin) || IsNonNegIntText(ToText(b.salaryMin)))
    && (AbsentOrNull(b.salaryMax) || IsNonNegIntText(ToText(b.salaryMax)))
  }

  predicate ContactsAcceptable(b: JobBody, ch: Checkers) {
    && (AbsentOrNull(b.url) || ch.isURL(ToText(b.url)))
    && (AbsentOrNull(b.email) || ch.isEmail(ToText(b.email)))
  }

  /** The rules the create chain enforces, field by field. */
  predicate CreateAcceptable(b: JobBody, ch: Checkers) {
    NamesAcceptable(b) && ListedAcceptable(b) && SalariesAcceptable(b) && ContactsAcceptable(b, ch)
  }

  function NameErrors(b: JobBody): (r: seq<FieldError>)
    ensures r == [] <==> NamesAcceptable(b)
  {
    RequiredText(TrimmedText(b.company), "company", CompanyRequired, CompanyTooLong)
    + RequiredText(TrimmedText(b.position), "position", PositionRequired, PositionTooLong)
  }

  function ListedErrors(b: JobBody): (r: seq<FieldError>)
    ensures r == [] <==> ListedAcceptable(b)
  {
    OptionalIn(b.status, Statuses, "status", StatusInvalid)
    + OptionalIn(b.jobType, JobTypes, "job_type", JobTypeInvalid)
  }

  function SalaryErrors(b: JobBody): (r: seq<FieldError>)
    ensures r == [] <==> SalariesAcceptable(b)
  {
    OptionalSalary(b.salaryMin, "salary_min", SalaryMinInvalid)
    + OptionalSalary(b.salaryMax, "salary_max", SalaryMaxInvalid)
  }

  function ContactErrors(b: JobBody, ch: Checkers): (r: seq<FieldError>)
    ensures r == [] <==> ContactsAcceptable(b, ch)
  {
    OptionalChecked(b.url, ch.isURL, "url", UrlInvalid)
    + OptionalChecked(b.email, ch.isEmail, "email", EmailInvalid)
  }

  /** The messages of the create chain, in the order its validators run. */
  function CreateErrors(b: JobBody, ch: Checkers): (r: seq<FieldError>)
    ensures r == [] <==> CreateAcceptable(b, ch)
  {
    var names := NameErrors(b);
    var listed := ListedErrors(b);
    var salaries := SalaryErrors(b);
    var contacts := ContactErrors(b, ch);
    assert |names + listed + salaries + contacts| == |names| + |listed| + |salaries| + |contacts|;
    names + listed + salaries + contacts
  }

  /** The create chain: company and position are trimmed in place. */
  function ValidateCreate(b: JobBody, ch: Checkers): (r: Outcome<JobBody>)
    ensures r.Passed? <==> CreateAcceptable(b, ch)
    ensures r.Passed? ==> r.body == b.(company := Str(TrimmedText(b.company)), position := Str(TrimmedText(b.position)))
    ensures r.Rejected? ==> r.errors != []
  {
    var errors := CreateErrors(b, ch);
    if errors == [] then Passed(b.(company := Str(TrimmedText(b.company)), position := Str(TrimmedText(b.position))))
    else Rejected(errors)
  }

  /** A company of only white space gets the "required" message, first of
      all. */
  lemma BlankCompanyRejected(b: JobBody, ch: Checkers)
    requires b.company.Str? && forall k :: 0 <= k < |b.company.s| ==> IsSpace(b.company.s[k])
    ensures ValidateCreate(b, ch).Rejected?
    ensures ValidateCreate(b, ch).errors[0] == FieldError("company", CompanyRequired)
  {
    TrimAllSpace(b.company.s);
    BlankCompanyNameErrors(b);
    CreateErrorsStartWithNames(b, ch);
  }

  lemma BlankCompanyNameErrors(b: JobBody)
    requires TrimmedText(b.company) == ""
    ensures NameErrors(b) != [] && NameErrors(b)[0] == FieldError("company", CompanyRequired)
  {
    BlankNameErrors("company", CompanyRequired, CompanyTooLong);
  }

  lemma BlankNameErrors(field: string, missing: string, tooLong: string)
    ensures RequiredText("", field, missing, tooLong) == [FieldError(field, missing)]
  {
    assert Check(VisibleLength("") <= 200, field, tooLong) == [];
  }

  /** The company and position messages come first. */
  lemma CreateErrorsStartWithNames(b: JobBody, ch: Checkers)
    ensures NameErrors(b) <= CreateErrors(b, ch)
  {
  }

  /** With both names present, a body whose status and job type pass the
      chain passes both CHECK constraints as well. */
  lemma ListedBodyInserts(s: JobBody, id: nat, userId: nat, now: nat)
    requires s.company.Str? && s.position.Str?
    requires ListedAcceptable(s)
    ensures InsertedRow(id, userId, s, now).Ok?
    ensures InsertedRow(id, userId, s, now).value.company == s.company.s
    ensures InsertedRow(id, userId, s, now).value.position == s.position.s
  {
    if s.status != Undefined {
      if s.status.Num? {
        NumberTextNotListed(s.status.n);
      }
    } else {
      assert "applied" == Statuses[1];
    }
    if s.jobType != Undefined {
      if s.jobType.Num? {
        NumberTextNotListed(s.jobType.n);
      }
    } else {
      assert "full-time" == JobTypes[0];
    }
  }

  /** A body the create chain lets through can no longer trip a NOT NULL
      or CHECK constraint: the insert succeeds, with the trimmed names. */
  lemma ValidatedCreateInserts(b: JobBody, ch: Checkers, id: nat, userId: nat, now: nat)
    requires ValidateCreate(b, ch).Passed?
    ensures var row := InsertedRow(id, userId, ValidateCreate(b, ch).body, now);
      && row.Ok?
      && row.value.company == TrimmedText(b.company) && row.value.position == TrimmedText(b.position)
  {
    var s := ValidateCreate(b, ch).body;
    PassedCreateBody(b, ch);
    ListedBodyInserts(s, id, userId, now);
  }

  lemma PassedCreateBody(b: JobBody, ch: Checkers)
    requires ValidateCreate(b, ch).Passed?
    ensures var s := ValidateCreate(b, ch).body;
      && ListedAcceptable(s)
      && s.company == Str(TrimmedText(b.company)) && s.position == Str(TrimmedText(b.position))
  {
    assert ListedAcceptable(b);
  }

  /** A salary sent as a JSON number passes exactly when it is not
      negative. */
  lemma SalaryNumberRule(n: int, field: string, message: string)
    ensures OptionalSalary(Num(n), field, message) == [] <==> n >= 0
  {
    NonNegIntTextOfNumber(n);
  }

  // ---------------------------------------------------------------------
  // PUT /:id (update)

  predicate UpdateAcceptable(b: JobBody) {
    && (b.company == Undefined || VisibleLength(TrimmedText(b.company)) <= 200)
    && (b.position == Undefined || VisibleLength(TrimmedText(b.position)) <= 200)
    && (b.status == Undefined || ToText(b.status) in Statuses)
    && (b.jobType == Undefined || ToText(b.jobType) in JobTypes)
  }

  /** An optional text field: trimmed, at most 200 characters. */
  function OptionalText(v: Value, field: string, tooLong: string): (r: seq<FieldError>)
    ensures r == [] <==> v == Undefined || VisibleLength(TrimmedText(v)) <= 200
  {
    if v == Undefined then [] else Check(VisibleLength(TrimmedText(v)) <= 200, field, tooLong)
  }

  function UpdateErrors(b: JobBody): (r: seq<FieldError>)
    ensures r == [] <==> UpdateAcceptable(b)
  {
    var company := OptionalText(b.company, "company", CompanyTooLong);
    var position := OptionalText(b.position, "position", PositionTooLong);
    var status := OptionalIn(b.status, Statuses, "status", StatusInvalid);
    var jobType := OptionalIn(b.jobType, JobTypes, "job_type", JobTypeInvalid);
    var r := company + position + status + jobType;
    assert |r| == |company| + |position| + |status| + |jobType|;
    r
  }

  function TrimIfPresent(v: Value): Value {
    if v == Undefined then Undefined else Str(TrimmedText(v))
  }

  /** The update chain: every field is optional; a company or position that
      is present is trimmed, and may end up empty. */
  function ValidateUpdate(b: JobBody): (r: Outcome<JobBody>)
    ensures r.Passed? <==> UpdateAcceptable(b)
    ensures r.Passed? ==> r.body == b.(company := TrimIfPresent(b.company), position := TrimIfPresent(b.position))
    ensures r.Rejected? ==> r.errors != []
  {
    var errors := UpdateErrors(b);
    if errors == [] then Passed(b.(company := TrimIfPresent(b.company), position := TrimIfPresent(b.position)))
    else Rejected(errors)
  }

  /** Behind the update chain the merged row always passes the CHECK
      constraints, so the update cannot fail on them. */
  lemma ValidatedUpdateKeepsChecks(b: JobBody, j: Job, now: nat)
    requires ValidateUpdate(b).Passed?
    requires RowChecksPass(j)
    ensures RowChecksPass(Merge(j, ValidateUpdate(b).body, now))
  {
    MergeChecks(j, ValidateUpdate(b).body, now);
  }

  /** A company of only spaces passes the update chain, is trimmed to "",
      and so leaves the stored company as it was. */
  lemma BlankCompanyUpdateKeepsCompany(b: JobBody, j: Job, now: nat)
    requires ValidateUpdate(b).Passed?
    requires b.company.Str? && forall k :: 0 <= k < |b.company.s| ==> IsSpace(b.company.s[k])
    ensures Merge(j, ValidateUpdate(b).body, now).company == j.company
  {
    TrimAllSpace(b.company.s);
  }

  // ---------------------------------------------------------------------
  // PATCH /:id/status

  function PatchErrors(status: Value): seq<FieldError> {
    Check(ToText(status) != "", "status", StatusRequired)
    + Check(ToText(status) in Statuses, "status", StatusInvalid)
  }

  function ValidatePatch(status: Value): (r: Outcome<Value>)
    ensures r.Passed? ==> r.body == status
    ensures r.Rejected? ==> r.errors != []
  {
    var errors := PatchErrors(status);
    if errors == [] then Passed(status) else Rejected(errors)
  }

  /** The chain accepts exactly the statuses the handler accepts, so the
      handler's own 400 is unreachable behind the route. */
  lemma PatchChainMatchesHandlerCheck(status: Value)
    ensures ValidatePatch(status).Passed? <==> status.Str? && status.s in Statuses
  {
    if status.Num? {
      NumberTextNotListed(status.n);
    }
  }

  /** A missing status fails both validators of the chain. */
  lemma MissingStatusTwoErrors()
    ensures ValidatePatch(Undefined) == Rejected([FieldError("status", StatusRequired), FieldError("status", StatusInvalid)])
  {
    assert "" !in Statuses;
  }
}
