/**
 * The student router: registration of students and professors, the login that probes the
 * professors before the students with one combined username-and-password filter, the student
 * profile read, update and delete, the student listing, and the attendance check-in.
 */
module StdRoute {
  import opened Records
  import opened Tables
  import opened Signup
  import opened Database

  /** This router answers a duplicate username or class id with a plain `res.json`, that is status 200. */
  function SignupStatus(e: ErrorCode): (status: nat)
    ensures status == 200 <==> e == UsernameTaken || e == StudentIdTaken
    ensures status != 200 ==> status == 400
  {
    if e == UsernameTaken || e == StudentIdTaken then 200 else 400
  }

  /** `POST /create-std`. On success the whole inserted row, password included, is sent back. */
  method CreateStd(db: Store, req: StudentSignup) returns (r: Reply<Student>)
    requires db.Valid()
    modifies db
    ensures db.Valid()
    ensures var e := StudentSignupError(old(db.students), old(db.professors), req);
      (e.Some? <==> r.Failure?) &&
      (e.Some? ==> r == Failure(SignupStatus(e.value), e.value))
    ensures r.Failure? ==> unchanged(db)
    ensures r.Success? ==>
      && r.status == 200
      && r.body == NewStudent(old(db.nextStudentId), req)
      && r.body.major == "IT"
      && db.students == old(db.students) + [r.body]
      && db.nextStudentId == old(db.nextStudentId) + 1
      && db.professors == old(db.professors) && db.nextProfessorId == old(db.nextProfessorId)
      && db.enrollments == old(db.enrollments) && db.attendance == old(db.attendance)
    ensures UsernamesUnique(old(db.students), old(db.professors)) ==> UsernamesUnique(db.students, db.professors)
  {
    // the guards, in order: fields, password length, username in either table, class id
    var e := StudentSignupError(db.students, db.professors, req);
    if e.Some? {
      return Failure(SignupStatus(e.value), e.value);
    }
    var row := NewStudent(db.nextStudentId, req);
    if UsernamesUnique(db.students, db.professors) {
      StudentSignupKeepsUsernamesUnique(db.students, db.professors, req, db.nextStudentId);
    }
    db.students := db.students + [row];
    db.nextStudentId := db.nextStudentId + 1;
    return Success(200, row);
  }

  /** `POST /create-professor`. On success only the id, the full name and the username are sent back. */
  method CreateProfessor(db: Store, req: ProfessorSignup) returns (r: Reply<AccountSummary>)
    requires db.Valid()
    modifies db
    ensures db.Valid()
    ensures var e := ProfessorSignupError(old(db.students), old(db.professors), req);
      (e.Some? <==> r.Failure?) &&
      (e.Some? ==> r == Failure(SignupStatus(e.value), e.value))
    ensures r.Failure? ==> unchanged(db)
    ensures r.Success? ==>
      && r.status == 200
      && r.body == AccountSummary(old(db.nextProfessorId), req.fullName.value, req.username.value)
      && db.professors == old(db.professors) + [NewProfessor(old(db.nextProfessorId), req)]
      && db.nextProfessorId == old(db.nextProfessorId) + 1
      && db.students == old(db.students) && db.nextStudentId == old(db.nextStudentId)
      && db.enrollments == old(db.enrollments) && db.attendance == old(db.attendance)
    ensures UsernamesUnique(old(db.students), old(db.professors)) ==> UsernamesUnique(db.students, db.professors)
  {
    // the guards, in order: fields, password length, phone format, username in either table
    var e := ProfessorSignupError(db.students, db.professors, req);
    if e.Some? {
      return Failure(SignupStatus(e.value), e.value);
    }
    var row := NewProfessor(db.nextProfessorId, req);
    if UsernamesUnique(db.students, db.professors) {
      ProfessorSignupKeepsUsernamesUnique(db.students, db.professors, req, db.nextProfessorId);
    }
    db.professors := db.professors + [row];
    db.nextProfessorId := db.nextProfessorId + 1;
    return Success(200, AccountSummary(row.id, row.fullname.value, row.username.value));
  }

  /** The reply body of a successful login: the selected row, the role code and the sign-in time. */
  datatype SignIn = SignIn(user: Account, role: nat, signInDate: Time)

  /**
   * The user this router's login resolves: the first professor whose username and password
   * both match, and only when there is none, the first student whose username and password match.
   */
  function ResolveByFilter(professors: seq<Professor>, students: seq<Student>, u: string, pw: string): (a: Option<Account>)
    ensures (a.Some? && a.value.ProfessorAccount?) <==>
      exists i :: 0 <= i < |professors| && professors[i].username == Some(u) && professors[i].password == Some(pw)
    ensures a.Some? && a.value.ProfessorAccount? ==>
      exists i :: 0 <= i < |professors| && professors[i].username == Some(u) && professors[i].password == Some(pw) &&
        a.value == ProfessorAccountOf(professors[i])
    ensures (a.Some? && a.value.StudentAccount?) <==>
      (forall i :: 0 <= i < |professors| ==> !(professors[i].username == Some(u) && professors[i].password == Some(pw))) &&
      exists j :: 0 <= j < |students| && students[j].username == u && students[j].password == pw
    ensures a.Some? && a.value.StudentAccount? ==>
      a.value.student in students && a.value.student.username == u && a.value.student.password == pw
  {
    match FirstWhere(professors, (p: Professor) => p.username == Some(u) && p.password == Some(pw))
    case Some(i) => Some(ProfessorAccountOf(professors[i]))
    case None =>
      match FirstWhere(students, (s: Student) => s.username == u && s.password == pw)
      case Some(j) => Some(StudentAccount(students[j]))
      case None => None
  }

  /**
   * `POST /login`: missing credentials are refused before any table is read; otherwise the
   * professors are probed, then the students, and no match gives one uniform 401.
   */
  method Login(db: Store, username: Field, password: Field, now: Time) returns (r: Reply<SignIn>)
    ensures !Truthy(username) || !Truthy(password) ==> r == Failure(400, MissingCredentials)
    ensures Truthy(username) && Truthy(password) ==>
      match ResolveByFilter(db.professors, db.students, username.value, password.value)
      case None => r == Failure(401, InvalidCredentials)
      case Some(a) => r == Success(200, SignIn(a, RoleOf(a), now))
  {
    if !Truthy(username) || !Truthy(password) {
      return Failure(400, MissingCredentials);
    }
    var u, pw := username.value, password.value;
    var user: Option<Account> := None;
    var role: nat := 0;
    var professorRow := FirstWhere(db.professors, (p: Professor) => p.username == Some(u) && p.password == Some(pw));
    if professorRow.Some? {
      user := Some(ProfessorAccountOf(db.professors[professorRow.value]));
      role := ProfessorRole;
    }
    if user.None? {
      var studentRow := FirstWhere(db.students, (s: Student) => s.username == u && s.password == pw);
      if studentRow.Some? {
        user := Some(StudentAccount(db.students[studentRow.value]));
        role := StudentRole;
      }
    }
    if user.None? {
      return Failure(401, InvalidCredentials);
    }
    return Success(200, SignIn(user.value, role, now));
  }

  /** Full name and major, as the student update returns them. */
  datatype NameAndMajor = NameAndMajor(fullname: string, major: string)

  /**
   * `SET fullname = COALESCE($1, fullname), major = COALESCE($2, major)`: an absent field keeps
   * the stored value, a supplied one replaces it, the empty string included.
   */
  function Coalesced(s: Student, fullname: Field, major: Field): (t: Student)
    ensures t.studentId == s.studentId && t.classId == s.classId
    ensures t.username == s.username && t.password == s.password
    ensures fullname.None? ==> t.fullname == s.fullname
    ensures fullname.Some? ==> t.fullname == fullname.value
    ensures major.None? ==> t.major == s.major
    ensures major.Some? ==> t.major == major.value
  {
    var name := match fullname case Some(v) => v case None => s.fullname;
    var mj := match major case Some(v) => v case None => s.major;
    s.(fullname := name, major := mj)
  }

  /** `WHERE student_id = $id`: the filter of the student update and delete. */
  function HasStudentId(id: int): Student -> bool {
    (s: Student) => s.studentId == id
  }

  /** The row rewrite of the student update. */
  function CoalesceWith(fullname: Field, major: Field): Student -> Student {
    (s: Student) => Coalesced(s, fullname, major)
  }

  /**
   * In a table ascending by key, the update by the key row `k` holds rewrites exactly row `k`,
   * and the keys, hence the order and the bound, are untouched.
   */
  lemma CoalesceOne(students: seq<Student>, id: int, k: nat, fullname: Field, major: Field, bound: int)
    requires StudentIdsAscending(students)
    requires forall i :: 0 <= i < |students| ==> students[i].studentId < bound
    requires k < |students| && students[k].studentId == id
    ensures forall j :: 0 <= j < |students| && students[j].studentId == id ==>
      UpdateWhere(students, HasStudentId(id), CoalesceWith(fullname, major)) ==
      students[j := Coalesced(students[j], fullname, major)]
    ensures StudentIdsAscending(UpdateWhere(students, HasStudentId(id), CoalesceWith(fullname, major)))
    ensures forall i :: 0 <= i < |students| ==>
      UpdateWhere(students, HasStudentId(id), CoalesceWith(fullname, major))[i].studentId < bound
  {
    forall j | 0 <= j < |students| && j != k ensures !HasStudentId(id)(students[j]) {
      assert j < k || k < j;
    }
    UpdateWhereSingle(students, HasStudentId(id), CoalesceWith(fullname, major), k);
    var t := students[k := Coalesced(students[k], fullname, major)];
    assert forall i :: 0 <= i < |t| ==> t[i].studentId == students[i].studentId;
    forall j | 0 <= j < |students| && students[j].studentId == id
      ensures UpdateWhere(students, HasStudentId(id), CoalesceWith(fullname, major)) ==
              students[j := Coalesced(students[j], fullname, major)]
    {
      assert !(j < k || k < j);
    }
  }

  /** `PUT /students/:id`: a coalescing update of one student's full name and major. */
  method UpdateStudent(db: Store, id: Option<int>, fullname: Field, major: Field) returns (r: Reply<NameAndMajor>)
    requires db.Valid()
    modifies db
    ensures db.Valid()
    ensures db.professors == old(db.professors) && db.enrollments == old(db.enrollments)
    ensures db.attendance == old(db.attendance)
    ensures db.nextStudentId == old(db.nextStudentId) && db.nextProfessorId == old(db.nextProfessorId)
    ensures id.None? ==> r == Failure(400, MissingId) && unchanged(db)
    ensures id.Some? && !Truthy(fullname) && !Truthy(major) ==> r == Failure(400, NothingToUpdate) && unchanged(db)
    ensures id.Some? && (Truthy(fullname) || Truthy(major)) ==>
      && ((forall k :: 0 <= k < |old(db.students)| ==> old(db.students)[k].studentId != id.value) ==>
            r == Failure(404, StudentNotFound) && db.students == old(db.students))
      && (forall k :: 0 <= k < |old(db.students)| && old(db.students)[k].studentId == id.value ==>
            && db.students == old(db.students)[k := Coalesced(old(db.students)[k], fullname, major)]
            && r == Success(200, NameAndMajor(db.students[k].fullname, db.students[k].major)))
  {
    if id.None? {
      return Failure(400, MissingId);
    }
    if !Truthy(fullname) && !Truthy(major) {
      return Failure(400, NothingToUpdate);
    }
    var key := id.value;
    var updated := FirstWhere(db.students, HasStudentId(key));
    if updated.None? {
      UpdateWhereNone(db.students, HasStudentId(key), CoalesceWith(fullname, major));
    } else {
      CoalesceOne(db.students, key, updated.value, fullname, major, db.nextStudentId);
    }
    db.students := UpdateWhere(db.students, HasStudentId(key), CoalesceWith(fullname, major));
    if updated.None? {
      return Failure(404, StudentNotFound);
    }
    var row := db.students[updated.value];
    r := Success(200, NameAndMajor(row.fullname, row.major));
  }

  /** A student row without its password: what the student reads return. */
  datatype StudentProfile = StudentProfile(studentId: nat, fullname: string, classId: string, username: string, major: string)

  function ProfileOf(s: Student): (p: StudentProfile)
    ensures p.studentId == s.studentId && p.classId == s.classId && p.major == s.major
    ensures p.fullname == s.fullname && p.username == s.username
  {
    StudentProfile(s.studentId, s.fullname, s.classId, s.username, s.major)
  }

  /** The profile does not depend on the stored password, so a read can never leak it. */
  lemma ProfileOmitsPassword(s: Student, otherPassword: string)
    ensures ProfileOf(s.(password := otherPassword)) == ProfileOf(s)
  {
  }

  /** `GET /students/:id`. */
  method GetStudent(db: Store, id: Option<int>) returns (r: Reply<StudentProfile>)
    ensures id.None? ==> r == Failure(400, MissingId)
    ensures id.Some? && (forall k :: 0 <= k < |db.students| ==> db.students[k].studentId != id.value) ==>
      r == Failure(404, StudentNotFound)
    ensures id.Some? && (exists k :: 0 <= k < |db.students| && db.students[k].studentId == id.value) ==>
      r.Success?
    ensures r.Success? ==> r.status == 200
    ensures r.Success? ==> exists k :: 0 <= k < |db.students| && db.students[k].studentId == id.value && r.body == ProfileOf(db.students[k])
    ensures r.Failure? ==> r.err in {MissingId, StudentNotFound}
  {
    if id.None? {
      return Failure(400, MissingId);
    }
    var key := id.value;
    var found := FirstWhere(db.students, (s: Student) => s.studentId == key);
    if found.None? {
      return Failure(404, StudentNotFound);
    }
    return Success(200, ProfileOf(db.students[found.value]));
  }

  /** The body of `GET /students`. */
  datatype StudentList = StudentList(total: nat, data: seq<StudentProfile>)

  /** `GET /students`: every student, in table order, without passwords. */
  method ListStudents(db: Store) returns (r: Reply<StudentList>)
    ensures r.Success? && r.status == 200
    ensures r.body.total == |r.body.data| == |db.students|
    ensures forall k :: 0 <= k < |db.students| ==> r.body.data[k] == ProfileOf(db.students[k])
  {
    var rows := seq(|db.students|, k requires 0 <= k < |db.students| reads db => ProfileOf(db.students[k]));
    return Success(200, StudentList(|rows|, rows));
  }

  /** `DELETE FROM enrollments WHERE student_id = $1`: the enrollments of every other student, in order. */
  function EnrollmentsNotOf(enrollments: seq<Enrollment>, id: int): (r: seq<Enrollment>)
    ensures forall i :: 0 <= i < |r| ==> r[i] in enrollments && r[i].studentId != id
    ensures forall j :: 0 <= j < |enrollments| && enrollments[j].studentId != id ==> enrollments[j] in r
    ensures forall e :: multiset(r)[e] == if e.studentId == id then 0 else multiset(enrollments)[e]
  {
    var isKey := (e: Enrollment) => e.studentId == id;
    RemoveMembers(enrollments, isKey);
    RemoveCounts(enrollments, isKey);
    Remove(enrollments, isKey)
  }

  /** `DELETE FROM students WHERE student_id = $1`: the rows that remain, in order. */
  function StudentsNotOf(students: seq<Student>, id: int): (r: seq<Student>)
    ensures (forall k :: 0 <= k < |students| ==> students[k].studentId != id) <==> |r| == |students|
    ensures (forall k :: 0 <= k < |students| ==> students[k].studentId != id) <==> r == students
  {
    RemoveNoneMatch(students, HasStudentId(id));
    Remove(students, HasStudentId(id))
  }

  /**
   * In a table ascending by key, the delete by the key row `k` holds takes out exactly row `k`,
   * and the table stays ascending with every key below the same bound.
   */
  lemma StudentsNotOfOne(students: seq<Student>, id: int, k: nat, bound: int)
    requires StudentIdsAscending(students)
    requires forall i :: 0 <= i < |students| ==> students[i].studentId < bound
    requires k < |students| && students[k].studentId == id
    ensures forall j :: 0 <= j < |students| && students[j].studentId == id ==>
      StudentsNotOf(students, id) == students[..j] + students[j + 1..]
    ensures StudentIdsAscending(StudentsNotOf(students, id))
    ensures forall i :: 0 <= i < |StudentsNotOf(students, id)| ==> StudentsNotOf(students, id)[i].studentId < bound
  {
    forall j | 0 <= j < |students| && j != k ensures !HasStudentId(id)(students[j]) {
      assert j < k || k < j;
    }
    RemoveSingle(students, HasStudentId(id), k);
    DropKeepsStudentIdsAscending(students, k);
    var t := students[..k] + students[k + 1..];
    forall i | 0 <= i < |t| ensures t[i].studentId < bound {
      assert t[i] in t;
    }
    forall j | 0 <= j < |students| && students[j].studentId == id
      ensures StudentsNotOf(students, id) == students[..j] + students[j + 1..]
    {
      assert !(j < k || k < j);
    }
  }

  /**
   * `DELETE /students/:id`: inside one transaction, the student's enrollments are deleted, then
   * the student. When no student row was deleted the transaction is rolled back, so the pending
   * deletes never reach the tables; otherwise both are committed together.
   */
  method DeleteStudent(db: Store, id: Option<int>) returns (r: Reply<()>)
    requires db.Valid()
    modifies db
    ensures db.Valid()
    ensures db.professors == old(db.professors) && db.attendance == old(db.attendance)
    ensures db.nextStudentId == old(db.nextStudentId) && db.nextProfessorId == old(db.nextProfessorId)
    ensures id.None? ==> r == Failure(400, MissingId) && unchanged(db)
    ensures id.Some? && (forall k :: 0 <= k < |old(db.students)| ==> old(db.students)[k].studentId != id.value) ==>
      r == Failure(404, StudentNotFound) && unchanged(db)
    ensures id.Some? ==> forall k :: 0 <= k < |old(db.students)| && old(db.students)[k].studentId == id.value ==>
      && r == Success(200, ())
      && db.students == old(db.students)[..k] + old(db.students)[k + 1..]
      && db.enrollments == EnrollmentsNotOf(old(db.enrollments), id.value)
  {
    if id.None? {
      return Failure(400, MissingId);
    }
    var key := id.value;
    // BEGIN
    var enrollmentsLeft := EnrollmentsNotOf(db.enrollments, key);
    var studentsLeft := StudentsNotOf(db.students, key);
    var deletedCount := |db.students| - |studentsLeft|;
    if deletedCount == 0 {
      // ROLLBACK
      return Failure(404, StudentNotFound);
    }
    // COMMIT
    var k :| 0 <= k < |db.students| && db.students[k].studentId == key;
    StudentsNotOfOne(db.students, key, k, db.nextStudentId);
    db.students, db.enrollments := studentsLeft, enrollmentsLeft;
    return Success(200, ());
  }

  /**
   * `POST /check-class`: appends one attendance row stamped with `now`; `leaveFile` is where the
   * upload of a leave document was stored, if one was sent.
   */
  method CheckClass(db: Store, status: Field, classId: Field, stdId: Field, leaveFile: Option<string>, now: Time)
    returns (r: Reply<()>)
    requires db.Valid()
    modifies db
    ensures db.Valid()
    ensures r == Success(200, ())
    ensures db.attendance == old(db.attendance) + [Attendance(classId, stdId, now, status, leaveFile)]
    ensures db.students == old(db.students) && db.professors == old(db.professors)
    ensures db.enrollments == old(db.enrollments)
    ensures db.nextStudentId == old(db.nextStudentId) && db.nextProfessorId == old(db.nextProfessorId)
  {
    db.attendance := db.attendance + [Attendance(classId, stdId, now, status, leaveFile)];
    return Success(200, ());
  }
}
