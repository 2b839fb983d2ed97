# Student registration API: table handlers, auth gate, field constraints and logins

This project models the logic inside a small FastAPI student-registration
backend. Pydantic checks the student fields, an SQLite `students` table holds
the records, four handlers create, list, update and delete them, a bearer-token
middleware guards the `/api/` routes, and two login endpoints hand out the
shared token.

- `students.dfy` (module `Students`) models the `students` table as a map from
  the `INTEGER PRIMARY KEY` id to the other five columns. For each handler, a
  function gives the reply and the table after the request: `AddOutcome`,
  `UpdateOutcome`, `DeleteOutcome` and `Listing`. Lemmas state the error
  precedence, "a failure changes nothing", "a success touches only its own
  row", what the listing shows afterwards, and that phone and email uniqueness
  (`Consistent`) is preserved. The class `StudentTable` holds the table as a
  field and carries out each request step by step (pre-check query, then the
  statement, then the `rowcount` test). Each of its methods is proved to match
  its function. A new row's id follows SQLite's rule for `INTEGER PRIMARY KEY`:
  one more than the largest id in use, or 1 in an empty table. So the id of a
  deleted last row is given out again. `AddOutcome` answers a new phone with a
  stored email with 500, as the code does. `AddOutcomeIntended` answers it with
  the 400 the handler means to raise (see "## Findings").
- `auth_middleware.dfy` (module `AuthMiddleware`) models `auth_middleware` as a
  pure decision, `Forward` or `Reject(401, error)`, over the path, the
  `Authorization` header and the `SECURITY_TOKEN` read at request time.
- `app.dfy` (module `App`) models `selective_auth`: only paths beginning with
  `/api/` go through the gate. It also proves that the mounted login route's
  token opens the API.
- `patterns.dfy` and `models.dfy` (modules `Patterns`, `Models`):
  - The two field patterns are modelled as written, as anchored regular
    expressions with their own matching semantics.
  - The name constraint is modelled as written: the length bounds plus the
    pattern.
  - Lemmas prove that these constraints mean "2 to 50 letters, white space or
    hyphens" and "ten characters, the first 5 to 9, then nine digits".
  - `StudentCreate` and `StudentUpdate` are the same type as `StudentBase`.
  - `StudentOut` is a `StudentBase` plus an id.
- `http.dfy`, `custom_auth.dfy` and `custom_login_route.dfy` hold the modules
  `Http`, `CustomAuth` and `CustomLoginRoute`.
  - They model the two `custom_login` handlers, each as a pure function from
    the JSON fields to a status and a JSON body.
  - `CustomLoginRoute` is the route the application mounts.
  - `CustomAuth` is the stricter variant, which is not mounted.
- `wrappers.dfy` holds `Option`.

Email syntax and date validity belong to the framework. They are parameters of
`Models.ValidStudent`, not definitions. The `SECURITY_TOKEN` and admin
credentials are parameters of the functions that read them: the environment
value, or `None` when unset.

`App.LoginTokenOpensApi` uses one value for two reads of `SECURITY_TOKEN`:
- custom_login_route.py:9 reads it once, at import time.
- middlewares/auth.py:29 reads it at every request.

The two reads agree. middlewares/auth.py runs `load_dotenv()` at line 7,
during its import at main.py:12. That is before main.py:13 imports the login
module, and nothing changes the environment afterwards.

Three facts about the code shape the model:
- `get_students` promises no order: its query (api/students.py:43) has no
  `ORDER BY`.
- Deleting a student removes only its row. `create_db` in database.py creates
  only `students`, and api/students.py has no subject handler.
- The gate exempts `/login`, `/custom-login`, `/` and every path beginning
  with `/static`. Under `selective_auth`, though, it only ever sees `/api/...`
  paths (`App.ApiPathsNeverExempt`).

## Model

| member | source | states |
|---|---|---|
| `Patterns.Matches` | models.py:6-8 | the anchored-pattern semantics the field constraints use; no contract of its own, specified by `Patterns.SinglePiece` and `Patterns.TwoPieces` |
| `Models.ValidName` | models.py:6-7 | the name constraint as declared (length 2 to 50 and the pattern); no contract of its own, specified by `Models.ValidNameChars` |
| `Models.ValidPhone` | models.py:8 | the phone constraint as declared; no contract of its own, specified by `Models.ValidPhoneShape` |
| `Models.ValidStudent` | models.py:5-16 | the `StudentBase` constraints, shared unchanged by `StudentCreate` and `StudentUpdate`; email syntax and date validity are parameters; no contract of its own, specified by `Models.ValidNameChars` and `Models.ValidPhoneShape` |
| `Students.AddOutcome` | api/students.py:13-36 | `add_student` as written, a stored email answered with 500; no contract of its own, specified by `Students.AddSucceedsIff`, `Students.AddStoredEmailAsWritten` and the add lemmas below |
| `Students.AddOutcomeIntended` | api/students.py:29-31 | `add_student` as intended, a stored email answered with 400; no contract of its own, specified by `Students.AddRejectsStoredEmail` and `Students.AddIntendedAgrees` |
| `Students.AddStoredEmailAsWritten` | api/students.py:29-34 | as written, a new phone with a stored email gives 500, because the `finally` clause closes a cursor whose connection the `except` clause already closed; the table is unchanged |
| `Students.AddIntendedAgrees` | api/students.py:22-34 | the as-written and intended adds leave the same table, and their replies differ exactly for a new phone with a stored email |
| `Students.AddEmailClashExample` | api/students.py:29-34 | a concrete second student with a new phone and an existing email gets 500 as written and 400 as intended |
| `Students.UpdateOutcome` | api/students.py:52-77 | `update_student`; no contract of its own, specified by `Students.UpdateSucceedsIff` and the update lemmas below |
| `Students.DeleteOutcome` | api/students.py:81-93 | `delete_student`; no contract of its own, specified by `Students.DeleteRemovesExactly` and `Students.DeleteThenList` |
| `Students.Listing` | api/students.py:40-48 | `get_students` as a set of records; no contract of its own, specified by `Students.ListingIsRows` |
| `AuthMiddleware.Authenticate` | middlewares/auth.py:12-37 | `auth_middleware` as a decision; no contract of its own, specified by `AuthMiddleware.ForwardIff` and the gate lemmas below |
| `App.SelectiveAuth` | main.py:37-43 | `selective_auth`; no contract of its own, specified by `App.OutsideApiForwards` and `App.ApiRequiresToken` |
| `CustomAuth.LoadConfig` | custom_auth.py:9-11 | the module-level settings; no contract of its own, specified by `CustomAuth.ConfigDefaults` and `CustomAuth.DefaultConfigLogin` |
| `CustomAuth.CustomLogin` | custom_auth.py:13-22 | the stricter login decision; no contract of its own, specified by `CustomAuth.RequiredFieldsFirst` and `CustomAuth.LoginOutcomes` |
| `CustomAuth.DefaultConfigLogin` | custom_auth.py:9-22 | with the environment unset, exactly `admin`/`admin123` gets 200, with token `mytoken` and username `admin` |
| `CustomLoginRoute.CustomLogin` | custom_login_route.py:15-23 | the mounted login decision; no contract of its own, specified by `CustomLoginRoute.LoginOutcomes` |
| `Models.ValidNameChars` | models.py:6-7 | a first or last name satisfies its declared constraint (length 2 to 50 and `^[A-Za-z\s-]+$`) exactly when it has 2 to 50 characters, each an ASCII letter, a Unicode white-space character or `-` |
| `Models.NamePatternNonEmpty` | models.py:6-7 | the name pattern by itself already refuses the empty string |
| `Models.ValidPhoneShape` | models.py:8 | a phone matches `^[5-9]\d{9}$` exactly when it has 10 characters, the first one of 5 to 9 and the other nine decimal digits |
| `Models.WithId` | models.py:18-19 | a `StudentOut` is the submitted `StudentBase` fields plus the id; dropping the id gives the fields back |
| `Patterns.SinglePiece` | models.py:6 | a one-piece anchored pattern such as `^[...]+$` matches a string exactly when its length is admitted and every character is in the class |
| `Patterns.TwoPieces` | models.py:8 | a pattern `^a b$` whose first piece takes one character matches exactly when the first character is in `a`'s class and the rest matches `b` |
| `Students.NextRowId` | database.py:15 | the id given to an inserted row is not in use, is larger than every id in use, is 1 in an empty table and is otherwise one more than the largest id |
| `Students.StudentTable.FreshRowId` | database.py:15 | the loop over the stored ids computes exactly that id |
| `Students.StudentTable.constructor` | database.py:13-21 | a new table is empty and consistent |
| `Students.AddRejectsStoredPhone` | api/students.py:17-20 | adding a phone equal to any stored row's `number` gives 400 "Phone number already exists" and leaves the table unchanged, whatever the email (the phone check runs first) |
| `Students.AddRejectsStoredEmail` | api/students.py:22-31 | as intended, with a new phone, adding an email already stored gives 400 "Email already exists" and leaves the table unchanged |
| `Students.AddSucceedsIff` | api/students.py:17-36 | add succeeds exactly when neither the phone nor the email is stored; every failure, the 500 included, leaves the table unchanged |
| `Students.AddInsertsOneRow` | api/students.py:22-27 | a successful add stores one new row under a fresh id with the submitted five fields; the table grows by one and every existing row is unchanged |
| `Students.AddPreservesConsistency` | api/students.py:17-31 | add keeps phones unique and emails unique across rows |
| `Students.AddThenList` | api/students.py:22-45 | after a successful add the listing is the old listing plus one record with the new id and the submitted fields, and it is the only record with those fields |
| `Students.AddThenDeleteRestores` | api/students.py:84-91 | deleting the row an add just inserted succeeds and gives back the table as it was |
| `Students.StudentTable.AddStudent` | api/students.py:13-36 | the in-place add, with the connection closed in the `except` clause and the cursor closed in the `finally` clause, returns the reply and leaves the table that `AddOutcome` (as written) specifies, and keeps the table consistent |
| `Students.ListingIsRows` | api/students.py:43-45 | the listing holds, for every row, that row's id and columns with `number` shown as `phone`, and nothing else |
| `Students.StudentTable.GetStudents` | api/students.py:40-48 | the returned sequence has one record per row and no two with the same id; each record shows its row with `number` as `phone`, and, taken as a set, the sequence is the listing; no order is promised |
| `Students.UpdateRejectsPhoneOfOther` | api/students.py:56-59 | update to a phone held by a row with a different id gives 400 "Phone number already exists", whether or not the id exists, and changes nothing |
| `Students.UpdateUnknownId` | api/students.py:56-69 | update of an id not in the table gives 404 "Student not found" and changes nothing, unless the phone is stored, in which case it gives 400 first |
| `Students.UpdateKeepsOwnPhone` | api/students.py:56-72 | when phones are unique, a student may keep their own phone: the update succeeds if no other row holds the email |
| `Students.UpdateRejectsEmailOfOther` | api/students.py:62-72 | once the phone and the id pass, an email held by another row gives 400 "Email already exists" and changes nothing |
| `Students.UpdateSucceedsIff` | api/students.py:56-77 | update succeeds exactly when no other row holds the phone, the id exists and no other row holds the email; a failure changes nothing; a success replaces all five fields of that row and no other row |
| `Students.UpdatePreservesConsistency` | api/students.py:56-72 | update keeps phones unique and emails unique across rows |
| `Students.UpdateThenList` | api/students.py:62-66 | after a successful update the listing shows the new fields in place of that row's old ones |
| `Students.UpdateIdempotent` | api/students.py:62-77 | repeating a successful update succeeds again and leaves the same table |
| `Students.StudentTable.UpdateStudent` | api/students.py:52-77 | the in-place update returns the reply and leaves the table that `UpdateOutcome` specifies, keeps the table consistent, and, relying on that, succeeds when a student keeps their own phone and no other row holds the email |
| `Students.DeleteRemovesExactly` | api/students.py:84-91 | delete of a stored id removes exactly that row and keeps every other row; an unknown id gives 404 "Student not found" and changes nothing |
| `Students.DeletePreservesConsistency` | api/students.py:84-88 | delete keeps phones unique and emails unique |
| `Students.DeleteThenList` | api/students.py:84-88 | after a successful delete the listing has lost that record and nothing else |
| `Students.StudentTable.DeleteStudent` | api/students.py:81-93 | the in-place delete returns the reply and leaves the table that `DeleteOutcome` specifies, and keeps the table consistent |
| `AuthMiddleware.ExemptPathsForward` | middlewares/auth.py:14-16 | an allow-listed path reaches the handler whatever the header and the configured token |
| `AuthMiddleware.ExemptPaths` | middlewares/auth.py:14 | the allow-list holds exactly `/login`, `/custom-login`, `/` and every path beginning with `/static`, `/staticx` included |
| `AuthMiddleware.RejectsMissingOrNonBearer` | middlewares/auth.py:19-24 | outside the allow-list, a missing header or one not beginning with exactly `Bearer ` gives 401 "Missing or invalid Authorization header" |
| `AuthMiddleware.SchemeIsCaseSensitive` | middlewares/auth.py:20-24 | a header beginning `bearer ` is refused as missing or invalid, even when the rest is the token |
| `AuthMiddleware.CheckedTokenIsRest` | middlewares/auth.py:26-33 | for a header `Bearer ` + t, the handler runs exactly when the configured token is t, otherwise 401 "Invalid or expired token" |
| `AuthMiddleware.NoTrimming` | middlewares/auth.py:26-33 | a second space after `Bearer` stays part of the token, which then no longer matches |
| `AuthMiddleware.UnsetTokenRejectsAll` | middlewares/auth.py:28-33 | with `SECURITY_TOKEN` unset, every request outside the allow-list is refused |
| `AuthMiddleware.ForwardIff` | middlewares/auth.py:12-37 | the handler runs exactly when the path is allow-listed or the header is `Bearer ` followed by the configured token; every refusal is a 401 |
| `App.OutsideApiForwards` | main.py:37-43 | a path not beginning with `/api/` goes straight to its handler, whatever the header |
| `App.UnprotectedPages` | main.py:41-43 | `/api` itself and the page routes `/students/...` are not checked |
| `App.ApiPathsNeverExempt` | main.py:41-42 | no `/api/` path is on the allow-list of `auth_middleware` |
| `App.ApiRequiresToken` | main.py:41-42 | every `/api/` request, including the student routes mounted at `/api/students`, reaches its handler exactly when it carries `Bearer ` followed by the configured token |
| `App.LoginTokenOpensApi` | custom_login_route.py:21-22 | with `SECURITY_TOKEN` set, the token returned for `admin`/`admin` opens every `/api/` path when sent back as a bearer header; while it is unset, the login returns `null` and every `/api/` request is refused |
| `CustomAuth.ConfigDefaults` | custom_auth.py:9-11 | unset variables fall back to `admin`, `admin123` and `mytoken`; set ones, even empty, are used as they are |
| `CustomAuth.RequiredFieldsFirst` | custom_auth.py:18-19 | a missing or empty username or password gives 400 "Username and password required", so never 401 |
| `CustomAuth.LoginOutcomes` | custom_auth.py:18-22 | the status is 200, 400 or 401; it is 200 exactly for the configured non-empty pair, with the configured token and the username in the body; two present fields that are not that pair give 401 "Invalid credentials" |
| `CustomLoginRoute.LoginOutcomes` | custom_login_route.py:18-23 | only `admin`/`admin` gives 200, whose body holds only the `token` (the module-load `SECURITY_TOKEN`, `null` if unset); every other input gives the same 401 "Invalid credentials" |
| `CustomLoginRoute.MissingFieldsUnauthorized` | custom_login_route.py:18-23 | missing fields give 401 on the mounted route, where the stricter variant gives 400 |
| `CustomLoginRoute.VariantsDisagree` | custom_login_route.py:21-22 | with the environment unset, the mounted route accepts `admin`/`admin` and refuses `admin`/`admin123`, and the stricter variant does the reverse |

## Left out

- Subjects and enrollment are not part of this model. `create_db` in database.py creates only `students`, and api/students.py has no subject handler.
- Connections, cursors, `commit`, `close`, logging, dotenv loading, CORS, templates and the page handlers are construction and I/O around the decisions. They are not modelled.
- Requests are modelled one at a time. A race between the phone pre-check and the insert belongs to SQLite's locking and is not modelled.
- The handlers' asynchronous chaining, `call_next` and the construction of response objects are left out. Only the outcome is modelled.
- `Students.NextRowId`: SQLite picks a random unused id once the largest id reaches 2^63 − 1. The model keeps adding one to unbounded integers, so it is silent there.
- Students.UpdateOutcome: an id outside SQLite's 64-bit integer range is answered with 400 or 404. The code answers 500 there, because binding the id at api/students.py:56 overflows; some pydantic versions answer 422 first.
- Students.DeleteOutcome: an id outside SQLite's 64-bit integer range is answered with 404. The code answers 500 there, because binding the id at api/students.py:84 overflows; some pydantic versions answer 422 first.
- `Students.StudentTable.AddStudent`: the class methods require `Valid()`, that is, phones and emails unique. This assumes the table was filled by this application, starting from the empty table. The functions `AddOutcome`, `UpdateOutcome`, `DeleteOutcome` and their lemmas are total and hold for any table.
- Email syntax (`EmailStr`), its normalisation, and date parsing are library behaviour. They are given to `Models.ValidStudent` as predicates. Email uniqueness is compared as exact strings, the way SQLite's default collation compares them.
- Whether pydantic enforces constraints written as `Annotated[str, constr(...)]`, and the framework rejecting invalid requests before a handler runs, are library behaviour. The model states the constraints as predicates and does not model the 422 reply.
- `Patterns.IsDigit`: `\d` is modelled as ASCII `0`–`9`. The Unicode-aware engine also accepts other scripts' decimal digits in the last nine phone positions.
- `$` is modelled as the end of the text, as in the regex engine pydantic 2 uses. Python's `re` would also accept a trailing newline.
- `get_students` passes its rows through `StudentOut` response validation. A stored row that failed it would give a server error; this is not modelled.
- Login request bodies that are not JSON objects raise framework errors. These are not modelled; a field is absent, `null`, a string or another JSON value.
- The HTTP server's trimming of header values and repeated `Authorization` headers are not modelled; the header is one optional string.
- `static/auth.js` (browser storage, redirects, `fetch`) is client-side I/O and is not modelled.
- The `/api/students` to `/api/students/` redirect performed by the router is not modelled.

## Findings

| source | as written | input that shows it | evidently intended | confidence | as-written member | corrected member |
|---|---|---|---|---|---|---|
| api/students.py:29-34 | on an email clash the `except` clause closes the connection and raises the 400; the `finally` clause then calls `cursor.close()` on the closed connection, which raises `sqlite3.ProgrammingError` and replaces the 400, so the reply is 500 | a table holding a row with email `ann@example.com`, and an add with a new phone and that email (`Students.AddEmailClashExample`) | 400 "Email already exists", with the table unchanged | not executed; follows from CPython's `Cursor.close()` checking that its connection is open | `Students.AddStoredEmailAsWritten` | `Students.AddRejectsStoredEmail` |
