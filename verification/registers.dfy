/**
 * The authentication router: a login that looks each table up by username and then compares
 * the password, answering with a token built from the resolved row; and the two registration
 * handlers, which answer every refusal with status 400 and never echo the password.
 */
module Registers {
  import opened Records
  import opened Tables
  import opened Signup
  import opened Database
  import StdRoute

  /** `POST /create-std`. */
  method CreateStd(db: Store, req: StudentSignup) returns (r: Reply<AccountSummary>)
    requires db.Valid()
    modifies db
    ensures db.Valid()
    ensures var e := StudentSignupError(old(db.students), old(db.professors), req);
      (e.Some? <==> r.Failure?) && (e.Some? ==> r == Failure(400, e.value))
    ensures r.Failure? ==> unchanged(db)
    ensures r.Success? ==>
      && r.status == 200
      && r.body == AccountSummary(old(db.nextStudentId), req.fullName.value, req.username.value)
      && db.students == old(db.students) + [NewStudent(old(db.nextStudentId), req)]
      && db.nextStudentId == old(db.nextStudentId) + 1
      && db.professors == old(db.professors) && db.nextProfessorId == old(db.nextProfessorId)
      && db.enrollments == old(db.enrollments) && db.attendance == old(db.attendance)
    ensures UsernamesUnique(old(db.students), old(db.professors)) ==> UsernamesUnique(db.students, db.professors)
  {
    // the guards, in order: fields, password length, username in either table, class id
    var e := StudentSignupError(db.students, db.professors, req);
    if e.Some? {
      return Failure(400, e.value);
    }
    var row := NewStudent(db.nextStudentId, req);
    if UsernamesUnique(db.students, db.professors) {
      StudentSignupKeepsUsernamesUnique(db.students, db.professors, req, db.nextStudentId);
    }
    db.students := db.students + [row];
    db.nextStudentId := db.nextStudentId + 1;
    return Success(200, AccountSummary(row.studentId, row.fullname, row.username));
  }

  /** `POST /create-professor`. */
  method CreateProfessor(db: Store, req: ProfessorSignup) returns (r: Reply<AccountSummary>)
    requires db.Valid()
    modifies db
    ensures db.Valid()
    ensures var e := ProfessorSignupError(old(db.students), old(db.professors), req);
      (e.Some? <==> r.Failure?) && (e.Some? ==> r == Failure(400, e.value))
    ensures r.Failure? ==> unchanged(db)
    ensures r.Success? ==>
      && r.status == 200
      && r.body == AccountSummary(old(db.nextProfessorId), req.fullName.value, req.username.value)
      && db.professors == old(db.professors) + [NewProfessor(old(db.nextProfessorId), req)]
      && db.nextProfessorId == old(db.nextProfessorId) + 1
      && db.students == old(db.students) && db.nextStudentId == old(db.nextStudentId)
      && db.enrollments == old(db.enrollments) && db.attendance == old(db.attendance)
    ensures UsernamesUnique(old(db.students), old(db.professors)) ==> UsernamesUnique(db.students, db.professors)
  {
    // the guards, in order: fields, password length, phone format, username in either table
    var e := ProfessorSignupError(db.students, db.professors, req);
    if e.Some? {
      return Failure(400, e.value);
    }
    var row := NewProfessor(db.nextProfessorId, req);
    if UsernamesUnique(db.students, db.professors) {
      ProfessorSignupKeepsUsernamesUnique(db.students, db.professors, req, db.nextProfessorId);
    }
    db.professors := db.professors + [row];
    db.nextProfessorId := db.nextProfessorId + 1;
    return Success(200, AccountSummary(row.id, row.fullname.value, row.username.value));
  }

  /** Row `i` is the first professor named `u`: the row `rows[0]` of the username query. */
  predicate FirstProfessorNamed(professors: seq<Professor>, u: string, i: int) {
    0 <= i < |professors| && professors[i].username == Some(u) &&
    forall j :: 0 <= j < i ==> professors[j].username != Some(u)
  }

  /** Row `j` is the first student named `u`. */
  predicate FirstStudentNamed(students: seq<Student>, u: string, j: int) {
    0 <= j < |students| && students[j].username == u &&
    forall k :: 0 <= k < j ==> students[k].username != u
  }

  /**
   * The user this router's login resolves: the first professor named `u` if that row's password
   * is `pw`; otherwise the first student named `u` if that row's password is `pw`. A professor
   * whose password differs does not stop the students from being consulted.
   */
  function ResolveByLookup(professors: seq<Professor>, students: seq<Student>, u: string, pw: string): (a: Option<Account>)
    ensures (a.Some? && a.value.ProfessorAccount?) <==>
      exists i :: FirstProfessorNamed(professors, u, i) && professors[i].password == Some(pw)
    ensures a.Some? && a.value.ProfessorAccount? ==>
      exists i :: FirstProfessorNamed(professors, u, i) && professors[i].password == Some(pw) &&
        a.value == ProfessorAccountOf(professors[i])
    ensures (a.Some? && a.value.StudentAccount?) <==>
      !(exists i :: FirstProfessorNamed(professors, u, i) && professors[i].password == Some(pw)) &&
      exists j :: FirstStudentNamed(students, u, j) && students[j].password == pw
    ensures a.Some? && a.value.StudentAccount? ==>
      exists j :: FirstStudentNamed(students, u, j) && students[j].password == pw && a.value.student == students[j]
  {
    var asProfessor :=
      match FirstWhere(professors, (p: Professor) => p.username == Some(u))
      case Some(i) => if professors[i].password == Some(pw) then Some(ProfessorAccountOf(professors[i])) else None
      case None => None;
    if asProfessor.Some? then asProfessor
    else
      match FirstWhere(students, (s: Student) => s.username == u)
      case Some(j) => if students[j].password == pw then Some(StudentAccount(students[j])) else None
      case None => None
  }

  /** The `data` of the login token; it has no password field. */
  datatype Token = Token(
    role: nat,
    username: Option<string>,
    fullname: Option<string>,
    id: nat,
    stdClassId: Option<string>,
    major: Option<string>,
    signInDate: Time)

  /**
   * The token built from a resolved row: the id is the professor's `id` or the student's
   * `student_id`; class id and major are set for a student and null for a professor.
   */
  function TokenFor(a: Account, now: Time): (t: Token)
    ensures t.role == RoleOf(a) && t.signInDate == now
    ensures a.ProfessorAccount? ==>
      t.id == a.id && t.username == a.username && t.fullname == a.fullname && t.stdClassId.None? && t.major.None?
    ensures a.StudentAccount? ==>
      && t.id == a.student.studentId && t.username == Some(a.student.username)
      && t.fullname == Some(a.student.fullname)
      && t.stdClassId == Some(a.student.classId) && t.major == Some(a.student.major)
  {
    match a
    case ProfessorAccount(id, fullname, username, _) => Token(ProfessorRole, username, fullname, id, None, None, now)
    case StudentAccount(s) =>
      Token(StudentRole, Some(s.username), Some(s.fullname), s.studentId, Some(s.classId), Some(s.major), now)
  }

  /** The same account with another stored password. */
  function WithPassword(a: Account, pw: string): Account {
    match a
    case ProfessorAccount(id, fullname, username, _) => ProfessorAccount(id, fullname, username, Some(pw))
    case StudentAccount(s) => StudentAccount(s.(password := pw))
  }

  /** The token does not depend on the stored password, so it never carries it. */
  lemma TokenOmitsPassword(a: Account, pw: string, now: Time)
    ensures TokenFor(WithPassword(a, pw), now) == TokenFor(a, now)
  {
  }

  /**
   * `POST /login`: missing credentials are refused before any table is read; a wrong password
   * and an unknown username give the same 401; otherwise the token of the resolved row.
   */
  method Login(db: Store, username: Field, password: Field, now: Time) returns (r: Reply<Token>)
    ensures !Truthy(username) || !Truthy(password) ==> r == Failure(400, MissingCredentials)
    ensures Truthy(username) && Truthy(password) ==>
      match ResolveByLookup(db.professors, db.students, username.value, password.value)
      case None => r == Failure(401, InvalidCredentials)
      case Some(a) => r == Success(200, TokenFor(a, now))
  {
    if !Truthy(username) || !Truthy(password) {
      return Failure(400, MissingCredentials);
    }
    var u, pw := username.value, password.value;
    var user: Option<Account> := None;
    var professorRow := FirstWhere(db.professors, (p: Professor) => p.username == Some(u));
    if professorRow.Some? {
      var professor := db.professors[professorRow.value];
      if professor.password == Some(pw) {
        user := Some(ProfessorAccountOf(professor));
      }
    }
    if user.None? {
      var studentRow := FirstWhere(db.students, (s: Student) => s.username == u);
      if studentRow.Some? {
        var student := db.students[studentRow.value];
        if student.password == pw {
          user := Some(StudentAccount(student));
        }
      }
    }
    if user.None? {
      return Failure(401, InvalidCredentials);
    }
    var token := TokenFor(user.value, now);
    return Success(200, token);
  }

  /**
   * When no username is held twice within a table, the two login handlers resolve the same
   * user, and so the same role, for every pair of credentials.
   */
  lemma LoginsAgree(professors: seq<Professor>, students: seq<Student>, u: string, pw: string)
    requires UsernamesUniqueWithinTables(students, professors)
    ensures StdRoute.ResolveByFilter(professors, students, u, pw) == ResolveByLookup(professors, students, u, pw)
  {
    var byFilter := StdRoute.ResolveByFilter(professors, students, u, pw);
    var byLookup := ResolveByLookup(professors, students, u, pw);
    if i :| 0 <= i < |professors| && professors[i].username == Some(u) && professors[i].password == Some(pw) {
      // the only professor named `u` is row `i`, so both handlers pick it
      assert FirstProfessorNamed(professors, u, i);
    } else if j :| 0 <= j < |students| && students[j].username == u && students[j].password == pw {
      // the only student named `u` is row `j`, so both handlers pick it
      assert FirstStudentNamed(students, u, j);
    }
  }

  /**
   * Without that uniqueness the handlers part ways: with two professors named alike, the
   * second one's password signs in through the filtering login and not through this one.
   */
  lemma LoginsDisagreeOnDuplicateUsernames()
    ensures var professors := [Professor(1, None, None, Some("ajarn"), Some("first-pw")),
                               Professor(2, None, None, Some("ajarn"), Some("second-pw"))];
      StdRoute.ResolveByFilter(professors, [], "ajarn", "second-pw") == Some(ProfessorAccountOf(professors[1])) &&
      ResolveByLookup(professors, [], "ajarn", "second-pw") == None
  {
    var professors := [Professor(1, None, None, Some("ajarn"), Some("first-pw")),
                       Professor(2, None, None, Some("ajarn"), Some("second-pw"))];
    assert FirstProfessorNamed(professors, "ajarn", 0);
    assert professors[1].username == Some("ajarn") && professors[1].password == Some("second-pw");
  }
}
