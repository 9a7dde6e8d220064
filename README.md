# Job application tracker — a verified model of its API core

The tracker is an Express application over an embedded SQLite database. A
user registers or logs in and gets a JSON Web Token. With that token they
create, list, read, update, re-status and delete their own job
applications, and read a profile with counts per status. This project
models the request-handling core in Dafny:

- the two tables and their constraints (`Store`, `JobRows`);
- the job handlers (`JobController`);
- the auth handlers (`AuthController`);
- the authentication middleware (`AuthMiddleware`);
- the global error handler (`ErrorHandler`);
- the validation chains and route tables of both routers (`Validation`,
  `JobRoutes`, `AuthRoutes`).

Supporting modules:

- `Common`: shared value types;
- `Text`: string functions, SQL `LIKE` and trimming;
- `Numbers`: JavaScript `parseInt`;
- `Ordering`: `ORDER BY`;
- `Paging`: `LIMIT`/`OFFSET` and the page count.

The database is one object, `Store.Database`. Its fields are the users
table, the jobs table and the two AUTOINCREMENT counters. `Valid()` states
the schema:

- unique ids;
- unique usernames and emails;
- the CHECK sets on `status` and `job_type`;
- every job's `user_id` names an existing user.

The handlers that write are methods that modify this object. Each proves
that `Valid()` is kept and states the new tables exactly. Read-only
handlers are methods with loops (`GetJobs`) or functions (`Login`,
`GetMe`, `Authenticate`).

Each SQL statement is a function over the table, for example `Filter`,
`SortRows`, `LimitOffset`, `Merge`, `UpdateWhere` and `DeleteWhere`.
Lemmas about those functions carry the properties.

Request values are JavaScript values. `Common.Value` covers `undefined`,
`null`, strings and integers, with JavaScript truthiness and SQLite's
TEXT affinity.

Library calls become parameters of the model:

- bcrypt's hash and compare, and JWT sign and verify
  (`AuthController.Primitives`);
- validator.js `isEmail`, `isURL` and `normalizeEmail`
  (`Validation.Checkers`);
- the clock (`now`).

Points where the code differs from the written design, and where the
model follows the code:

- The list search passes the user's text into `LIKE '%text%'` without
  escaping. `%` and `_` in the search therefore act as wildcards.
  `Text.UnderscoreSearchMatchesAnyText` shows that searching for "_"
  matches every non-empty company or position.
  `JobController.SearchIsSubstring` gives the substring reading when the
  text has no wildcards.
- A limit that is not positive is not rejected:
  - `limit=0` selects nothing, and the page count (`Infinity`) is
    serialised as `null`;
  - a negative limit lifts the limit altogether;
  - a limit or page that `parseInt` cannot read binds NULL, and the
    engine raises "datatype mismatch";
  - so does a limit or offset beyond the 64-bit range: sql.js binds it
    as REAL, and SQLite takes a REAL there only when it converts to a
    64-bit integer without loss.

  `Paging.Pages`, `Paging.LimitOffset` and `JobController.GetJobs` model
  all of these cases.
- An unknown sort column falls back to `created_at`, but the direction
  stays as requested, descending only by default.
- The design says that deleting a user cascades to their jobs. No
  operation deletes a user, so the cascade never runs; the foreign key
  is kept as an invariant.
- `updateJobStatus` checks the status before ownership. An unlisted
  status therefore gets 400 even on another user's record.
- `login` answers an unknown email and a wrong password with the same
  401, but a password sent as a JSON number passes the login chain
  (`AuthRoutes.NumericPasswordPassesLogin`) and makes bcryptjs's
  `compare` raise "Illegal arguments", a 500, only when the email
  exists. Such a password therefore tells a registered email from an
  unknown one (`AuthController.LoginTellsRegisteredEmails`).
- `createJob` binds `company` and `position` as they come. sql.js
  refuses to bind `undefined` and throws a bare string, so a body
  without either is answered 500 "Internal Server Error" rather than
  with a NOT NULL error (`JobRows.InsertedRow`,
  `ErrorHandler.BareThrowIsInternalError`).
- The routers keep Express's defaults: literal path segments match in
  any ASCII case, and one trailing slash is allowed, so
  `PATCH /api/jobs/5/STATUS` and `GET /api/jobs/5/` reach their
  handlers.
- The route chains are stricter than the handlers. They make some
  handler errors unreachable (`JobRoutes.ValidatedCreateInserts`,
  `JobRoutes.PatchChainMatchesHandlerCheck`). The handlers are modelled
  as written. The job handlers accept any body. Register and login take
  the username and email as the text the chains leave, and the password
  as any value.

## Model

| member | source | states |
|---|---|---|
| Text.Split | src/middleware/auth.js:13 | `split(' ')` yields at least one piece |
| Text.SplitPiecesFree | src/middleware/auth.js:13 | no piece of a split contains the separator |
| Text.SplitAfterSeparator | src/middleware/auth.js:13 | splitting `a + " " + b` gives `a` followed by the pieces of `b` |
| Text.JoinSplit | src/middleware/auth.js:13 | joining the pieces with the separator restores the text |
| Text.ToUpper | src/controllers/job.controller.js:44 | the same text up to ASCII case, with no lower-case ASCII letter left and every other character kept |
| Text.ToUpperIsCaseInsensitive | src/controllers/job.controller.js:44 | `toUpperCase() === 'ASC'` holds exactly for the case-insensitive spellings of "asc" |
| Text.Trim | src/routes/job.routes.js:30 | `trim()` returns a slice of the input with no white space at either end, and cuts away only white space |
| Text.TrimAllSpace | src/routes/job.routes.js:30-31 | text made only of white space trims to "" |
| Text.TrimKeepsUnpadded | src/routes/auth.routes.js:14 | text without white space at its ends is unchanged by `trim()` |
| Text.LikePercentMatchesAll | src/controllers/job.controller.js:37-38 | `LIKE '%'` matches every text |
| Text.LikePrefix | src/controllers/job.controller.js:37-38 | a wildcard-free pattern followed by `%` matches exactly the texts that start with it, ignoring ASCII case |
| Text.LikeLeadingPercent | src/controllers/job.controller.js:37-38 | a leading `%` matches when the rest of the pattern matches some suffix |
| Text.Like | src/controllers/job.controller.js:37-38 | a pattern without wildcards matches exactly the texts equal to it ignoring ASCII case |
| Text.SearchPatternIsSubstring | src/controllers/job.controller.js:36-39 | for wildcard-free text `s`, `LIKE '%s%'` is a case-insensitive substring test |
| Text.UnderscoreSearchMatchesAnyText | src/controllers/job.controller.js:36-39 | searching for "_" matches every non-empty text, because the wildcard is not escaped |
| Numbers.DigitRun | src/controllers/job.controller.js:19 | `parseInt` reads the longest run of digits in the radix |
| Numbers.ParseInt | src/controllers/job.controller.js:19 | `parseInt` gives a number exactly when a digit of the selected base follows the white space, sign and prefix, and a negative one only after a minus |
| Numbers.ParseIntDecimal | src/controllers/job.controller.js:19 | a decimal digit string parses to its value |
| Numbers.ParseIntText | src/controllers/job.controller.js:87 | the decimal text of any integer parses back to that integer |
| Numbers.ParseIntIgnoresTail | src/controllers/job.controller.js:165 | digits followed by a non-digit that is not x or X parse to the digits' value, so "12abc" names job 12 |
| Store.JobsValidAppend | src/config/db.js:40-59 | appending a row with the next id and passing CHECKs keeps the jobs table valid |
| Store.JobsValidReplace | src/config/db.js:40-59 | replacing a row by one with the same id that passes the CHECKs keeps the table valid |
| Store.JobsValidRemove | src/config/db.js:40-59 | removing a row keeps the table valid |
| Store.FindUserById | src/middleware/auth.js:23-26 | `WHERE id = ?` finds a row with that id, and none exactly when no row has it |
| Store.FindUserByEmail | src/controllers/auth.controller.js:77-80 | `WHERE email = ?` finds a row with that email, and none exactly when no row has it |
| Store.FindUserByIdUnique | src/config/db.js:31-37 | with unique ids the lookup returns the one row with that id |
| Store.FindUserByEmailUnique | src/config/db.js:31-37 | with unique emails the lookup returns the one row with that email |
| Ordering.InOrderTotal | src/controllers/job.controller.js:56 | any two rows are ordered one way or the other for every column and direction |
| Ordering.InOrderTransitive | src/controllers/job.controller.js:56 | the row order is transitive (NULL < integer < text, then by value) |
| Ordering.InsertKeepsSorted | src/controllers/job.controller.js:56 | inserting a row into a sorted sequence keeps it sorted |
| Ordering.RunOfSorted | src/controllers/job.controller.js:56 | consecutive rows taken from a sorted sequence are still sorted |
| Ordering.SortRows | src/controllers/job.controller.js:56 | `ORDER BY col dir` returns a permutation of the rows, sorted by that column |
| Ordering.SortRowsSameRows | src/controllers/job.controller.js:56 | the ordered result has exactly the rows selected, and the same count |
| Paging.Window | src/controllers/job.controller.js:54-56 | `LIMIT n OFFSET o` is the slice of at most n rows starting at o, where a negative offset counts as 0 |
| Paging.LimitOffset | src/controllers/job.controller.js:54-56 | the consecutive rows from position max(offset, 0) on, as many as remain, but no more than `limit` when `limit` is not negative |
| Paging.LimitOffsetAt | src/controllers/job.controller.js:54-56 | the n-th row of a window is the row n places after the offset |
| Paging.LimitOffsetWithin | src/controllers/job.controller.js:54-56 | a window holds rows of the listing only |
| Paging.PageCount | src/controllers/job.controller.js:73 | `Math.ceil(total / limit)` is the least number of pages that holds all rows |
| Paging.Pages | src/controllers/job.controller.js:73 | the page count is null exactly for limit 0, the ceiling for a positive limit, and the ceiling for a negative one |
| Paging.PageCountUnique | src/controllers/job.controller.js:73 | only one number of pages satisfies the ceiling bounds |
| Paging.PageCountStep | src/controllers/job.controller.js:73 | one more page of rows adds exactly one page |
| Paging.PageCountZero | src/controllers/job.controller.js:73 | no rows means zero pages |
| Paging.AllPagesReassemble | src/controllers/job.controller.js:19-73 | pages 1 to `pages`, concatenated, give back the whole listing with no row lost or repeated |
| Paging.PagesPastTheEndEmpty | src/controllers/job.controller.js:19-56 | a page past the last one is empty |
| JobRows.OwnedIndex | src/controllers/job.controller.js:168-173 | `WHERE id = ? AND user_id = ?` finds a matching row, and none exactly when the user owns no row with that id |
| JobRows.OwnedIndexUnique | src/controllers/job.controller.js:168-173 | with unique ids the ownership check finds the one matching row |
| JobRows.ForeignRecordLooksMissing | src/controllers/job.controller.js:86-92 | another user's row is not found by the ownership check |
| JobRows.FindById | src/controllers/job.controller.js:224-227 | `WHERE id = ?` finds a row with that id iff there is one |
| JobRows.FindByIdUnique | src/controllers/job.controller.js:146-148 | with unique ids reading back by id returns the written row |
| JobRows.InsertedRow | src/controllers/job.controller.js:111-142 | an absent company or position fails to bind before the statement runs (an error with neither status code nor message); a null one fails NOT NULL; otherwise the INSERT succeeds iff both CHECKs pass; defaults apply only to absent fields; a falsy optional field is stored as NULL and a truthy one as its text, and a truthy salary as the integer or the text it was sent as |
| JobRows.InsertDefaults | src/controllers/job.controller.js:114-118 | a body naming no status or job type is stored as 'applied' and 'full-time' |
| JobRows.Merge | src/controllers/job.controller.js:190-219 | each column takes the body's value when it is truthy and keeps the stored one otherwise; `updated_at` becomes now; id, owner and `created_at` stay |
| JobRows.MergeNeverClears | src/controllers/job.controller.js:190-219 | an update can never clear a column that has a value |
| JobRows.MergeFalsyBodyOnlyTouches | src/controllers/job.controller.js:190-219 | a body of falsy values changes only `updated_at` |
| JobRows.MergeIdempotent | src/controllers/job.controller.js:190-219 | applying the same update twice gives the same row as once |
| JobRows.MergeChecks | src/controllers/job.controller.js:190-219 | the merged row passes the CHECKs when the old row does and the truthy status and job type are listed |
| JobRows.UpdateWhere | src/controllers/job.controller.js:190-204 | `UPDATE ... WHERE id = ? AND user_id = ?` keeps the row count and leaves every row that does not match as it was |
| JobRows.UpdateWhereOneRow | src/controllers/job.controller.js:190-204 | with unique ids the update rewrites the one owned row only |
| JobRows.DeleteWhere | src/controllers/job.controller.js:302 | `DELETE ... WHERE id = ? AND user_id = ?` leaves no matching row and never adds one |
| JobRows.DeleteWhereKeeps | src/controllers/job.controller.js:302 | a row survives the delete exactly when it was in the table and does not match |
| JobRows.DeleteWhereNoMatch | src/controllers/job.controller.js:302 | a delete that matches nothing leaves the table as it was |
| JobRows.DeleteWhereOneRow | src/controllers/job.controller.js:302 | with unique ids the delete removes the one owned row and keeps the rest in order |
| JobController.WhereClauseSelects | src/controllers/job.controller.js:20-39 | the assembled WHERE clause holds exactly for the user's rows matching every given filter |
| JobController.SearchIsSubstring | src/controllers/job.controller.js:36-39 | with a wildcard-free search, a row is selected iff it also contains the text in company or position, ignoring ASCII case |
| JobController.Filter | src/controllers/job.controller.js:47-56 | the statement selects exactly the rows satisfying the WHERE clause |
| JobController.SortColumnFor | src/controllers/job.controller.js:42-43 | an allowed sort column is used as given; any other falls back to `created_at` |
| JobController.SortDirectionFor | src/controllers/job.controller.js:44 | the order is ascending exactly when `sort_order` is "asc" in any case; absent or anything else is descending |
| JobController.ListingRows | src/controllers/job.controller.js:47-63 | the listing holds exactly the selected rows, as many as the count query reports, and sorted |
| JobController.PagesCoverListing | src/controllers/job.controller.js:66-75 | for a positive limit, reading pages 1 to `pages` returns every selected row once, in order |
| JobController.CountRows | src/controllers/job.controller.js:47-51 | the count loop's result equals the number of selected rows |
| JobController.ReadWindow | src/controllers/job.controller.js:58-64 | the step loop collects exactly `LIMIT limit OFFSET offset` of the listing |
| JobController.WindowOfSorted | src/controllers/job.controller.js:54-64 | a window of a sorted listing is sorted and holds listed rows only |
| JobController.GetJobs | src/controllers/job.controller.js:6-79 | fails with "datatype mismatch" iff page or limit is NaN or the limit or offset is outside the 64-bit range; otherwise returns the window at `(page-1)*limit` of the sorted listing, the full count and `ceil(total/limit)`; every row returned is the user's and matches the filters |
| JobController.Lookup | src/controllers/job.controller.js:86-89 | a path id finds a row iff `parseInt` reads it and the user owns a row with that id |
| JobController.GetJob | src/controllers/job.controller.js:83-104 | returns the owned row with the parsed id, or 404 exactly when there is none |
| JobController.CreateJob | src/controllers/job.controller.js:108-158 | succeeds iff the row passes NOT NULL, the CHECKs and the foreign key; then appends it under the next id and returns it; on failure the database is unchanged |
| JobController.UpdateJob | src/controllers/job.controller.js:162-237 | 404 when the user owns no such row; a merged row failing a CHECK aborts with nothing changed; otherwise only that row is replaced by the merge and returned |
| JobController.UpdateJobStatus | src/controllers/job.controller.js:241-283 | 400 for an unlisted status, checked first; 404 for a missing row; otherwise only status and `updated_at` of that row change, reporting the old and new status |
| JobController.DeleteJob | src/controllers/job.controller.js:287-312 | 404 when the user owns no such row; otherwise the table becomes the result of the scoped DELETE (which `JobRows.DeleteWhereOneRow` shows removes that row only, keeping the order), and the message names its company and position |
| JobController.OtherUsersSeeNotFound | src/controllers/job.controller.js:86-92 | another user asking for a record's id gets the same "not found" as for an id never issued |
| JobController.OwnerFindsOwnRow | src/controllers/job.controller.js:86-94 | the owner asking for the decimal id of their row finds that row |
| JobController.DeletedRowIsGone | src/controllers/job.controller.js:302 | after the delete the id names no row for any user |
| JobController.CreateThenRead | src/controllers/job.controller.js:146-148 | a created job reads back unchanged for its owner and is not found for anyone else |
| AuthController.PublicHidesOnlyDigest | src/controllers/auth.controller.js:54-59 | two user rows give the same user in responses exactly when they differ in nothing but the password digest |
| AuthController.Register | src/controllers/auth.controller.js:15-66 | 409 when the email or username is taken, with nothing changed; a password that is not a string then gets bcryptjs's "Illegal arguments" error, with nothing changed; otherwise appends the user with the bcrypt digest under the next id and returns it with a token signed for its id |
| AuthController.Login | src/controllers/auth.controller.js:70-112 | an unknown email gets the 401; for a known email a password that is not a string gets bcryptjs's "Illegal arguments" error; success only for a stored user with that email whose digest accepts the password; every other failure is the same 401 |
| AuthController.LoginSucceedsIffPasswordMatches | src/controllers/auth.controller.js:77-92 | with unique emails and a string password, login succeeds exactly when the password matches that user's digest, and otherwise gets the 401 |
| AuthController.RegisterThenLogin | src/controllers/auth.controller.js:31-38 | a user who has just registered can log in with the same email and password |
| AuthController.IllegalArguments | src/controllers/auth.controller.js:89 | bcryptjs's error for a password that is not a string has no status code and is not the 401 |
| AuthController.LoginTellsRegisteredEmails | src/controllers/auth.controller.js:77-92 | a password that is not a string gets bcryptjs's error for a registered email and the 401 for an unknown one, so the two answers differ |
| AuthController.Logout | src/controllers/auth.controller.js:116-121 | answers with the fixed message; it takes neither the database nor the token, so nothing the server holds changes |
| AuthController.Sum | src/controllers/auth.controller.js:138-142 | a `SUM` is NULL exactly when no row of the table belongs to the user, and otherwise counts the user's jobs with that status |
| AuthController.GetMe | src/controllers/auth.controller.js:125-160 | the profile is that user's public row, empty if the row is gone, with the statistics of their jobs |
| AuthController.CountStatusBounded | src/controllers/auth.controller.js:136-143 | no per-status figure exceeds the total |
| AuthController.StatusFiguresBounded | src/controllers/auth.controller.js:136-143 | the five per-status figures together never exceed the total |
| AuthController.CountsIgnoreOtherUsers | src/controllers/auth.controller.js:143 | another user's row changes neither the total nor any per-status count |
| AuthController.StatsIgnoreOtherUsers | src/controllers/auth.controller.js:143 | another user's rows do not change the statistics |
| AuthController.StatsCountNewJob | src/controllers/auth.controller.js:136-143 | a new job adds one to the total and one to the figure of its status |
| AuthController.Owned | src/controllers/auth.controller.js:143 | `WHERE user_id = ?` keeps exactly the user's rows: a row is in the result iff it is in the table and belongs to the user |
| AuthController.CountsOfOwnedRows | src/controllers/auth.controller.js:136-143 | the total is the number of the user's rows, and each status count is the same over the user's rows alone |
| AuthController.StatsOfOwnedRows | src/controllers/auth.controller.js:136-143 | the statistics of a table are those of the user's own rows, wherever other users' rows stand |
| AuthController.StatsDependOnOwnedRows | src/controllers/auth.controller.js:136-143 | two tables with the same rows of a user give that user the same statistics |
| AuthMiddleware.BearerToken | src/middleware/auth.js:13 | the token is the text after "Bearer " up to the next space, and holds no space |
| AuthMiddleware.BearerTokenOfHeader | src/middleware/auth.js:13 | "Bearer " followed by a token, then nothing or a space, yields that token |
| AuthMiddleware.VerifyFailure | src/middleware/auth.js:39-47 | the answer is 401 exactly for a malformed token ("Invalid token") or an expired one ("Token expired"); any other error passes on with its message and no status code |
| AuthMiddleware.Authenticate | src/middleware/auth.js:5-48 | a missing or non-Bearer header, or an empty token, is refused with 401 AuthRequired; a failed verification maps through `VerifyFailure`; for a decoded id it succeeds iff a user row has that id, and attaches exactly that row's id, username and email; every refusal is 401 or a passed-through error |
| AuthMiddleware.AuthenticateAccepts | src/middleware/auth.js:19-34 | a well-formed header whose token verifies for an existing user attaches exactly that user |
| AuthMiddleware.AuthenticateRefusesDeletedUser | src/middleware/auth.js:35-38 | a valid token for a user who no longer exists is refused |
| AuthMiddleware.SessionTokenAuthenticates | src/middleware/auth.js:19-34 | the token handed out at registration or login opens the protected routes for that user |
| ErrorHandler.DuplicateMessage | src/middleware/errorHandler.js:11-20 | the message is always one of three fixed texts, never the constraint text: email first, then username, else "Duplicate entry" |
| ErrorHandler.Handle | src/middleware/errorHandler.js:1-33 | CHECK violations become 400 and UNIQUE violations 409, CHECK taking precedence; other errors keep their status (500 if none) and message; a stack only in development |
| ErrorHandler.ConstraintTextNotLeaked | src/middleware/errorHandler.js:11-25 | the engine's constraint text never reaches the client |
| ErrorHandler.ApplicationErrorPassesThrough | src/middleware/errorHandler.js:2-3 | an error with its own status and message reaches the client unchanged |
| ErrorHandler.CheckFailureIsBadRequest | src/middleware/errorHandler.js:22-25 | the CHECK failure of a job row is reported as 400 |
| ErrorHandler.BareThrowIsInternalError | src/middleware/errorHandler.js:2-3 | a thrown value with neither status code nor message is answered 500 "Internal Server Error" |
| ErrorHandler.DuplicateEmailIsConflict | src/middleware/errorHandler.js:11-15 | a duplicate email is reported as 409 "Email already registered" |
| Validation.VisibleLength | src/routes/job.routes.js:33 | the length `isLength` measures is at most the character count and equals it when there are no variation selectors |
| Validation.NonNegIntTextExamples | src/routes/job.routes.js:51 | `isInt({min: 0})` accepts "0", "+15", "007" and "-0", and refuses "-1", "", "1.5" and "+" |
| Validation.NonNegIntTextOfNumber | src/routes/job.routes.js:51 | a number's text passes `isInt({min: 0})` exactly when the number is not negative |
| Validation.NumberTextNotListed | src/routes/job.routes.js:43-47 | no number passes `isIn` for the statuses or the job types |
| Validation.FirstMatch | src/routes/job.routes.js:19-112 | the router picks the first route, in declaration order, whose verb and path match; a literal segment matches in any ASCII case and one trailing slash is allowed |
| Validation.FirstMatchAlike | src/routes/job.routes.js:19-112 | two paths that every route matches alike reach the same route |
| Validation.TrailingSlashIgnored | src/routes/job.routes.js:14 | when no route segment matches the empty segment, a path with a trailing slash reaches the route the path without it reaches |
| JobRoutes.Dispatch | src/routes/job.routes.js:17-112 | every request entering the job router is authenticated first, matched or not; a route is reached iff one matches, and `:id` is the first path segment |
| JobRoutes.StatusRouteReached | src/routes/job.routes.js:98-109 | `PATCH /<id>/status`, with "status" in any case, reaches the status handler with that id |
| JobRoutes.JobTrailingSlash | src/routes/job.routes.js:14-112 | a trailing slash reaches the same job route with the same id |
| JobRoutes.ShowRouteReached | src/routes/job.routes.js:23 | `GET /<id>` reaches the read handler for any non-empty id |
| JobRoutes.CreateErrors | src/routes/job.routes.js:28-65 | the create chain reports no message exactly when the body meets every field rule |
| JobRoutes.ValidateCreate | src/routes/job.routes.js:26-68 | a body passes iff it meets every field rule, and passes on with company and position trimmed; otherwise at least one message |
| JobRoutes.BlankCompanyRejected | src/routes/job.routes.js:29-34 | a company of white space only is refused, first of all with "Company name is required" |
| JobRoutes.CreateErrorsStartWithNames | src/routes/job.routes.js:29-40 | the company and position messages come first |
| JobRoutes.ListedBodyInserts | src/routes/job.routes.js:41-48 | a status and job type accepted by the chain also pass the table's CHECKs |
| JobRoutes.ValidatedCreateInserts | src/routes/job.routes.js:26-68 | a body the create chain accepts is inserted without a NOT NULL or CHECK error, with the trimmed names |
| JobRoutes.SalaryNumberRule | src/routes/job.routes.js:49-52 | a salary sent as a number passes exactly when it is not negative |
| JobRoutes.UpdateErrors | src/routes/job.routes.js:73-92 | the update chain reports no message exactly when each present field meets its rule |
| JobRoutes.ValidateUpdate | src/routes/job.routes.js:71-95 | every field is optional; a body passes iff each present field meets its rule, with present names trimmed |
| JobRoutes.ValidatedUpdateKeepsChecks | src/routes/job.routes.js:84-91 | behind the update chain the merged row always passes the CHECKs |
| JobRoutes.BlankCompanyUpdateKeepsCompany | src/routes/job.routes.js:74-78 | a company of blanks passes the update chain, is trimmed to "", and leaves the stored company as it was |
| JobRoutes.ValidatePatch | src/routes/job.routes.js:98-109 | a status passes on unchanged, or is refused with at least one message |
| JobRoutes.PatchChainMatchesHandlerCheck | src/routes/job.routes.js:101-105 | the chain accepts exactly the listed status strings, so the handler's own 400 cannot occur behind it |
| JobRoutes.MissingStatusTwoErrors | src/routes/job.routes.js:101-105 | a missing status gets both "Status is required" and "Invalid status" |
| AuthRoutes.AuthDispatch | src/routes/auth.routes.js:9-51 | a route is reached iff one matches, and an unmatched request is not authenticated |
| AuthRoutes.AuthRoutesReached | src/routes/auth.routes.js:9-51 | register, login, logout and me are reached by their own verb and path, spelt in any case; only logout and me authenticate |
| AuthRoutes.AuthTrailingSlash | src/routes/auth.routes.js:7-51 | a trailing slash reaches the same auth route |
| AuthRoutes.GuardedExactlyLogoutAndMe | src/routes/auth.routes.js:47-51 | a request is authenticated exactly when it reaches logout or me |
| AuthRoutes.UsernameErrors | src/routes/auth.routes.js:13-18 | the username gets no message exactly when its trimmed form is 3 to 30 characters of letters, digits and underscores |
| AuthRoutes.RegisterErrors | src/routes/auth.routes.js:12-26 | the register chain reports no message exactly when username, email and password meet their rules |
| AuthRoutes.ValidateRegister | src/routes/auth.routes.js:10-29 | a body passes iff it meets the rules, and passes on with the username trimmed and the email normalised |
| AuthRoutes.RegisteredUsernameShape | src/routes/auth.routes.js:13-18 | a username that reaches the handler has 3 to 30 word characters and no white space |
| AuthRoutes.WordShape | src/routes/auth.routes.js:15-17 | a word has no white space and no variation selector, so `isLength` counts every character |
| AuthRoutes.RegisterErrorsStartWithUsername | src/routes/auth.routes.js:13-18 | the username messages come first |
| AuthRoutes.BadUsernameErrors | src/routes/auth.routes.js:13-18 | a short username with a non-word character gets both username messages |
| AuthRoutes.BadUsernameTwoErrors | src/routes/auth.routes.js:12-26 | such a username makes the whole body fail, with the two username messages first |
| AuthRoutes.OddCharUsername | src/routes/auth.routes.js:13-18 | any single character that is neither white space nor a word character is such a username |
| AuthRoutes.LoginErrors | src/routes/auth.routes.js:34-42 | the login chain reports no message exactly when the email is valid and the password is not empty |
| AuthRoutes.ValidateLogin | src/routes/auth.routes.js:32-45 | a body passes iff the email is valid and a password is given, with the email normalised |
| AuthRoutes.SameEmailAfterValidation | src/routes/auth.routes.js:19-38 | both chains normalise the same email to the same address |
| AuthRoutes.MissingPasswordRefused | src/routes/auth.routes.js:39-41 | a null or missing password is refused with "Password is required" |
| AuthRoutes.NumericPasswordPassesLogin | src/routes/auth.routes.js:39-41 | a password sent as a number passes `notEmpty` and reaches the handler as a number |

## Left out

- Persistence (`saveDatabase` writing the file), start-up and connection handling: I/O outside the request logic.
- Concurrency: handlers are modelled as running one at a time, which matches Node's single thread between awaits; interleaving around the awaits of bcrypt in `register` is not modelled.
- bcrypt, JWT signing and verification, `isEmail`, `isURL` and `normalizeEmail` are parameters, not definitions. The token's secret and expiry live inside them.
- Request values that are booleans, floats, objects or arrays, and arrays in the query string. The model's `Value` has `undefined`, `null`, strings and integers.
- Case and white space beyond ASCII. `toUpperCase`, `LIKE`'s case folding and `trim()` are modelled on ASCII only. JavaScript upper-cases "ſ" to "S", so "aſc" also sorts ascending.
- AuthController.Register and AuthController.Login: take the username and email as text, as the chains leave them. Called without the chains, the handlers would also see other values there, and that is not modelled.
- normalizeEmail: modelled as returning text. validator.js returns `false` when removing a gmail sub-address leaves the local part empty (as for "+tag@gmail.com"). sql.js binds `false` as 0, stored and compared as "0". An instantiation of `Checkers.normalizeEmail` that returns "0" for such addresses reproduces what follows, but the model does not fix that choice.
- ParseIntDecimal: the model's integers are exact. JavaScript numbers are doubles, so `parseInt` rounds a digit string above 2^53 (`parseInt("9007199254740993")` is 9007199254740992); the model gives the exact value.
- ParseIntText: for integers above 2^53 in magnitude the round trip holds in the model only; JavaScript rounds both the number and its text.
- ParseIntIgnoresTail: the same rounding above 2^53 is not modelled; the rule about the trailing text holds as stated.
- ParseInt: skips only ASCII white space before the number. JavaScript `parseInt` also skips other white space, such as the no-break space, U+FEFF and the line and paragraph separators.
- GetJobs: the page, the limit and the offset `(page - 1) * limit` are exact integers. In JavaScript they are doubles, rounded above 2^53, so the echoed `page` and `limit`, and the 64-bit boundary of LIMIT and OFFSET, can differ from the model's near and above that size.
- NonNegIntTextOfNumber: uses the decimal text of any integer. JavaScript writes numbers of 1e21 and above in exponent form ("1e+21"), which `isInt` refuses, so such a salary is refused, while the model accepts it.
- SalaryNumberRule: the same gap for salaries of 1e21 and above, which the model accepts and the chain refuses.
- JobRoutes.Dispatch, JobRoutes.ShowRouteReached and JobRoutes.StatusRouteReached: take `:id` as the raw path segment. Express percent-decodes route parameters, so `/api/jobs/%31` reads job 1, and it answers a malformed escape such as `%zz` with 400 "Failed to decode param" before any handler runs. Neither is modelled.
- Validation.VisibleLength: does not model surrogate pairs; every `char` counts as one code point.
- INTEGER affinity of `salary_min` and `salary_max`: numeric strings are stored as given, not converted.
- The exact wording of engine errors after "NOT NULL constraint failed", "CHECK constraint failed" and "FOREIGN KEY constraint failed".
- The order of rows that tie on the sort column. `Ordering.SortRows` fixes one order, and only sortedness and the permutation are claimed.
- `CURRENT_TIMESTAMP`: the clock is the parameter `now`, in whole units.
- `src/utils/APIError.js` and `src/middleware/validate.js` are not part of this model. An APIError is taken to be an error carrying a status code and a message. `validate` is taken to answer 400 with the chain's messages, which is the `Rejected` outcome; its response format is not modelled.
- Logout: the handler only answers with a fixed message (`AuthController.Logout`). The server keeps no session, so a token stays valid until it expires.
- The 404 handler for unmatched routes, static files and the front-end.
- ON DELETE CASCADE: no operation deletes a user.
