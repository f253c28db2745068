# Attendance system: accounts, login and attendance, in Dafny

This project models the account and attendance logic of a school attendance system. The backend is
an Express server over a PostgreSQL database with four tables: `students`, `professors`,
`enrollments` and `attendance`. Three route files are modelled:

- the student router (`std.route.js`): student and professor registration, a login that filters
  on username and password together, reading, updating, listing and deleting students, and the
  attendance check-in;
- the authentication router (`registers.js`): a login that looks a username up and then compares
  the password, answering with a token, and its own copy of the two registrations;
- the professor router (`professor.route.js`): listing by id, reading, replacing and deleting
  professors.

The project also models the registration page of the React client (`Register.jsx`): its form
state, the ordered checks run before anything is sent, the choice of endpoint and payload, how the
answer is read, and the reset after a successful registration.

The database is the class `Database.Store`. It holds one sequence of rows per table and the two
serial counters that hand out `students.student_id` and `professors.id`. Its invariant `Valid()`
says that keys are strictly ascending in table order and lie below their serial's next value.
Each route is a module-level method that takes the `Store` as its `db` parameter, may modify it, and returns a `Reply`: `Success(status, body)` or
`Failure(status, err)`. The error messages of the source become the `ErrorCode` enumeration.
A request body field is `Option<string>`, where `None` stands for `undefined` or `null`.
`Truthy` is JavaScript's truthiness on such a field. Every `SELECT … LIMIT 1` and every
`rows[0]` takes the first matching row in table order (`Tables.FirstWhere`).

The registration guards are identical in the two route files, so they are defined once, in
module `Signup`. Each route module attaches its own status codes: the student router answers a
duplicate username or class id with a plain `res.json`, so status 200 with an `err` body; the
authentication router answers every refusal with 400.

The main results:

- every refused registration leaves the store unchanged;
- a successful registration appends exactly one row and keeps usernames unique across both tables;
- for string credentials, the two logins resolve the same user whenever usernames are unique
  within each table (`Registers.LoginsAgree`), and can differ when they are not;
- the student delete is all-or-nothing;
- the professor listing is a sorted permutation of the table, and equals the table as stored
  whenever the store is valid;
- a form the page accepts always gets past the server's field and length guards. The page is
  stricter about blank fields, and it leaves the phone format to the server.

## Model

| member | source | states |
|---|---|---|
| Tables.FirstWhere | backend/routes/registers.js:34-40 | the row a `WHERE … ` query's `rows[0]` denotes: the least index whose row satisfies the filter, and `None` exactly when no row does |
| Tables.Remove | backend/routes/std.route.js:278 | the rows a `DELETE … WHERE` leaves: never more than there were; what remains, and how often, is stated by `Tables.RemoveMembers` and `Tables.RemoveCounts` |
| Tables.RemoveCounts | backend/routes/std.route.js:278 | `DELETE … WHERE` as multisets: no matching row remains, and every other row remains exactly as often as it occurred, so identical surviving rows are not merged |
| Tables.RemoveMembers | backend/routes/std.route.js:278-288 | `DELETE … WHERE`: every remaining row was in the table and fails the filter, and every row that fails the filter remains |
| Tables.RemoveNoneMatch | backend/routes/std.route.js:281-290 | the delete leaves the table as it was when no row matches, and shrinks it when some row does, so the count of deleted rows is zero exactly when no row matched |
| Tables.RemoveSingle | backend/routes/std.route.js:281-288 | deleting by a key held by one row only removes exactly that row: the table becomes `rows[..i] + rows[i+1..]` |
| Tables.UpdateWhere | backend/routes/std.route.js:213-222 | `UPDATE … SET … WHERE`: the row count is kept, every row the filter rejects stays at its place unchanged, and every row it accepts is rewritten by the `SET` |
| Tables.UpdateWhereNone | backend/routes/std.route.js:213-226 | an `UPDATE … WHERE` that matches no row changes nothing |
| Tables.UpdateWhereSingle | backend/routes/std.route.js:213-226 | an update whose filter holds for one row only rewrites exactly that row |
| Signup.StudentSignupError | backend/routes/std.route.js:11-41 | the guard chain of `/create-std`: no error iff every field is truthy, the password has at least 6 characters, the username is in neither table and the class id is unused; each error is reported exactly when its guard fails and every earlier one passed |
| Signup.ProfessorSignupError | backend/routes/std.route.js:73-103 | the guard chain of `/create-professor`: fields, password length, a phone of a `0` and nine more digits, then the username in either table; same first-failure semantics |
| Records.IsTel | backend/routes/std.route.js:82 | the phone guard of `/create-professor` (a length test and the regular expression `^0\d{9}$`): a phone is accepted exactly when it has ten characters, a `0` and then a run of ASCII digits read as the regular expression `\d*` (`Records.DigitRun`) |
| Records.DigitRunIff | backend/routes/std.route.js:82 | the character-by-character reading of `\d*` matches exactly the strings all of whose characters are digits |
| Database.Store.constructor | backend/routes/std.route.js:43-52 | an empty database whose serials start at 1; it satisfies `Valid()`, keys ascending in table order and below their serial's next value |
| Database.StudentKeysUnique | backend/routes/std.route.js:281-288 | in a valid store no two students share a `student_id`, so the delete and update by id address at most one row |
| Database.ProfessorKeysUnique | backend/routes/professor.route.js:94 | the same for professor ids |
| Signup.NewStudent | backend/routes/std.route.js:43-52 | the row `/create-std` inserts: the serial's key, the class id, full name, username and password from the request, and major `IT` |
| Signup.NewProfessor | backend/routes/std.route.js:106-109 | the row `/create-professor` inserts: the serial's key and the request's full name, phone, username and password |
| Signup.StudentSignupKeepsUsernamesUnique | backend/routes/std.route.js:20-31 | a student registration that passes the guards keeps every username unique across both tables |
| Signup.ProfessorSignupKeepsUsernamesUnique | backend/routes/std.route.js:91-103 | the same for a professor registration |
| StdRoute.SignupStatus | backend/routes/std.route.js:29-41 | this router answers a duplicate username or class id with status 200, and every other refusal with 400 |
| StdRoute.CreateStd | backend/routes/std.route.js:7-65 | fails exactly when the guard chain fails, with that error and the store unchanged; otherwise appends one row with the next serial id and major `IT`, returns that whole row, password included, and touches no other table; keeps `Valid()` and username uniqueness |
| StdRoute.CreateProfessor | backend/routes/std.route.js:68-126 | the same for professors; the success body holds only the id, the full name and the username |
| StdRoute.ResolveByFilter | backend/routes/std.route.js:141-168 | a professor is returned iff some professor matches both username and password; a student iff no professor does and some student does; the returned values come from matching rows |
| StdRoute.Login | backend/routes/std.route.js:129-187 | a missing username or password gives 400 before any table is read; no match gives one uniform 401; otherwise status 200 with the resolved row, role 2 for a professor and 1 for a student, and the sign-in time |
| StdRoute.Coalesced | backend/routes/std.route.js:213-219 | an absent field keeps the stored value; a supplied one replaces it, the empty string included; id, class id, username and password are untouched |
| StdRoute.CoalesceOne | backend/routes/std.route.js:213-222 | in a table ascending by key, the update by a key one row holds coalesces that row only, and keys, order and the key bound are untouched |
| StdRoute.UpdateStudent | backend/routes/std.route.js:196-236 | no id gives 400; neither field truthy gives 400; an unknown id gives 404 with the table unchanged; otherwise only the row with that id is coalesced and its new name and major are returned; the other tables are untouched |
| StdRoute.ProfileOf | backend/routes/std.route.js:247 | the columns the student reads select: id, full name, class id, username and major, copied from the row |
| StdRoute.ProfileOmitsPassword | backend/routes/std.route.js:246-251 | the projection student reads return does not depend on the stored password |
| StdRoute.GetStudent | backend/routes/std.route.js:238-264 | no id gives 400; an unknown id gives 404; an id some student holds gives 200 with the password-free projection of a row with that id |
| StdRoute.ListStudents | backend/routes/std.route.js:310-333 | every student in table order, projected without password, with `total` equal to the row count |
| StdRoute.EnrollmentsNotOf | backend/routes/std.route.js:278 | after the enrollment delete, exactly the enrollments of other students remain, each as often as before, and none of the deleted student's |
| StdRoute.StudentsNotOf | backend/routes/std.route.js:281-290 | the student delete leaves the table unchanged, and deletes no row, exactly when no student has the id |
| StdRoute.StudentsNotOfOne | backend/routes/std.route.js:281-295 | in a table ascending by key, the delete by a key some row holds removes exactly that row, and the table stays ascending below the same key bound |
| StdRoute.DeleteStudent | backend/routes/std.route.js:266-308 | no id gives 400 with nothing changed; an unknown id gives 404 and the rollback restores students and enrollments exactly; a known id removes exactly that student and all of their enrollments, and changes nothing else |
| StdRoute.CheckClass | backend/routes/std.route.js:335-353 | appends exactly one attendance row with the given course, student, status, file path and time, and changes nothing else |
| Registers.CreateStd | backend/routes/registers.js:100-167 | fails exactly when the guard chain fails, always with 400 and the store unchanged; on success appends one row and returns only the id, full name and username |
| Registers.CreateProfessor | backend/routes/registers.js:170-231 | the same for professors, with the phone format guard |
| Registers.ResolveByLookup | backend/routes/registers.js:34-67 | a professor is returned iff the first professor with that username has that password; otherwise a student iff the first student with that username has it; a professor whose password differs does not stop the student lookup |
| Registers.TokenFor | backend/routes/registers.js:77-87 | the token's id is the professor `id` for role 2 and `student_id` for role 1; class id and major are null for a professor; the token has no password field |
| Registers.TokenOmitsPassword | backend/routes/registers.js:77-87 | the token does not depend on the stored password |
| Registers.Login | backend/routes/registers.js:19-97 | missing credentials give 400 before any lookup; an unknown username and a wrong password give the same 401; otherwise status 200 with the token of the resolved row |
| Registers.LoginsAgree | backend/routes/registers.js:34-67 | when usernames are unique within each table, this login and the filtering one resolve the same user, and so the same role, for every pair of string credentials |
| Registers.LoginsDisagreeOnDuplicateUsernames | backend/routes/registers.js:39-48 | with two professors sharing a username, the second one's password signs in through the filtering login only |
| ProfessorRoute.InsertByIdPermutes | backend/routes/professor.route.js:7 | inserting a row into a sequence adds exactly that row and loses none |
| ProfessorRoute.InsertByIdSorted | backend/routes/professor.route.js:7 | inserting into an id-sorted sequence keeps it sorted |
| ProfessorRoute.SortById | backend/routes/professor.route.js:7 | `ORDER BY id ASC` yields a sorted permutation of the table |
| ProfessorRoute.SortKeepsAscendingTable | backend/routes/professor.route.js:7 | a table already ascending by id is listed exactly as stored |
| ProfessorRoute.ListProfessors | backend/routes/professor.route.js:5-21 | every professor, sorted by ascending id, as a permutation of the table, with `total` equal to the row count; in a valid store, the table as stored |
| ProfessorRoute.GetProfessor | backend/routes/professor.route.js:24-46 | 404 exactly when no row has the id; otherwise a row of the table with that id |
| ProfessorRoute.UpdateProfessor | backend/routes/professor.route.js:52-88 | an unknown id gives 404 with nothing changed; otherwise that row is replaced by the supplied values, absent ones as null, keeping its id, and returned; no other row or table changes |
| ProfessorRoute.UpdateCanDuplicateUsername | backend/routes/professor.route.js:55-70 | applied through the update's own `UPDATE … SET … WHERE id`, a rename of professor 2 gives two professors one username and stores the phone `x` the registrations' phone guard refuses: the update checks neither |
| ProfessorRoute.DeleteOneProfessor | backend/routes/professor.route.js:94-95 | in a table ascending by id, the delete by an id some row holds removes exactly that row, keeps the table ascending, and keeps only rows that were there |
| ProfessorRoute.DeleteProfessor | backend/routes/professor.route.js:91-113 | an unknown id gives 404 with nothing changed; otherwise exactly the row with that id is removed and returned |
| RegisterPage.Validate | frontend/src/pages/Register.jsx:34-65 | the checks in order: full name, student id (student) or phone (professor), username, password, confirmation, length at least 6; each of the seven warnings is raised exactly when its check fails and every earlier one passed, so the username warning comes before the password warning and a mismatch before a short password |
| RegisterPage.RequestFor | frontend/src/pages/Register.jsx:70-86 | a student form goes to `/create-std` and a professor form to `/create-professor`, carrying the full name, username, password and the student id (student) or phone (professor) as typed |
| RegisterPage.RequestIgnoresUnsentFields | frontend/src/pages/Register.jsx:73-86 | the confirmation is never sent, and neither is the other user type's field |
| RegisterPage.AcceptedFormPassesServerFieldChecks | frontend/src/pages/Register.jsx:34-65 | a form the page accepts is never refused by the server for a missing field or a short password |
| RegisterPage.WhitespaceNameRefusedOnlyByPage | frontend/src/pages/Register.jsx:34-36 | a full name of spaces alone is refused by the page's trim check although the server's truthiness guard would register it |
| RegisterPage.PhoneFormatLeftToServer | frontend/src/pages/Register.jsx:43-45 | for every form the page accepts as a professor's, the server refuses its phone exactly when the phone is malformed: the page checks only that a phone was typed |
| RegisterPage.MalformedPhonePassesPage | frontend/src/pages/Register.jsx:43-45 | such a form exists: the phone `12345` passes the page and is refused by the server |
| RegisterPage.NoticeFor | frontend/src/pages/Register.jsx:88-120 | success is shown exactly for status 200 without `err`; a 2xx body with `err` is a registration failure; a non-2xx status goes to the error handler with the body's `err`, no answer with none; a 2xx other than 200 without `err` shows nothing |
| RegisterPage.RegisteredExactlyOnInsert | frontend/src/pages/Register.jsx:90-94 | for the replies of both routers, the page shows success exactly when the server inserted the account, including the refusals sent with status 200 |
| RegisterPage.RegisterForm.constructor | frontend/src/pages/Register.jsx:16-26 | the page starts as a student form with all six fields empty and not loading |
| RegisterPage.RegisterForm.SelectUserType | frontend/src/pages/Register.jsx:163 | switching the user type keeps what was typed |
| RegisterPage.RegisterForm.HandleChange | frontend/src/pages/Register.jsx:28-30 | one input changes and the others keep their text |
| RegisterPage.RegisterForm.HandleRegister | frontend/src/pages/Register.jsx:32-124 | a failed check sends nothing and changes nothing; otherwise exactly the chosen request is sent, the loading flag is cleared at the end, and the form is emptied only when the registration succeeded |

## Left out

- The `pg` pool, connections, `client.release()`, the connection settings and all console output.
- Every 500 path: database failures, a failed connection, and a non-numeric `:id` that PostgreSQL
  cannot cast. The path id of the student routes is `Option<int>`; `None` is the `!id` guard,
  which a routed request cannot reach: Express binds `:id` to a non-empty string.
  The professor routes have no such guard, so their id is an `int`.
- The `if (!result)` 400 of `/create-std` and of `/create-professor` in the student router
  (`std.route.js` lines 54 and 112): `pool.query` always returns a result, so neither branch can
  be taken.
- Foreign-key and uniqueness constraints of the schema, which is not part of this model. Username
  uniqueness is therefore a property the registrations preserve, not a database invariant;
  `ProfessorRoute.UpdateCanDuplicateUsername` shows why.
- Row order without `ORDER BY` is taken to be insertion order, so `LIMIT 1` and `rows[0]` pick
  the earliest inserted matching row.
- Concurrency: handlers run one at a time. The check-then-insert race between two registrations
  is not modelled.
- The multer upload of `/check-class`. Only the stored file path is modelled, as the `leaveFile`
  parameter. The `new Date()` clock is the `now` parameter of `CheckClass` and of both logins.
- bcrypt, which is imported (`registers.js` line 6) but used only in comments. Passwords are
  stored and compared as plain text, as in the code.
- The empty `/create-easy` handler.
- The Thai error messages, replaced by `ErrorCode`. The client's `Warning` values stand for its
  warning dialogs.
- `password.length` counts UTF-16 code units; the model counts characters. They differ only for
  characters outside the Basic Multilingual Plane.
- Which router serves `/create-std` and `/create-professor` when both are mounted depends on the
  server's mounting order, which is not part of this model; both routers are modelled.
- The SweetAlert dialogs, the navigation to `/` after a success, and the `disabled` state of the
  buttons. The page's HTTP call is the `reply` parameter of `HandleRegister`.
- `frontend/src/pages/Subject.jsx` is not part of this model.
- Request body values that are not strings. A body field is `Option<string>`, so a JSON number,
  boolean or object sent by a client is not modelled. Three consequences are lost: a numeric
  password such as `1` is truthy and `password.length` is `undefined`, so `undefined < 6` is
  false and the account is registered with it (`std.route.js` line 15, `registers.js` line 110);
  a numeric `tel` always fails `tel.length !== 10` and is refused (`std.route.js` line 82); and
  a numeric password signs in through the student router's login, whose query sends it to the
  database as text (`std.route.js` lines 133 and 159-162), but not through the authentication
  router's, whose `password === student.password` compares a number with a string and fails
  (`registers.js` line 62), so the two logins disagree on it.

## Differences between the two routers

The student router answers a duplicate username or class id with status 200 where the
authentication router answers 400. Its `/create-std` returns the inserted row, password
included, and its `/login` returns the whole matching row, password included; the
authentication router returns neither.
