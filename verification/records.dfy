/** Rows of the four tables, the request fields as the handlers see them, and the replies they send. */
module Records {

  datatype Option<+T> = None | Some(value: T)

  /** A clock reading (`new Date()`), taken as an input. */
  type Time = nat

  /** A field of a JSON request body: absent (`undefined` or `null`) or a string. */
  type Field = Option<string>

  /** JavaScript truthiness of a body field: present and not the empty string. */
  predicate Truthy(v: Field) {
    v.Some? && v.value != ""
  }

  /** A row of `students`; `studentId` is the serial key `student_id`, `classId` is `std_class_id`. */
  datatype Student = Student(
    studentId: nat,
    classId: string,
    fullname: string,
    username: string,
    password: string,
    major: string)

  /** A row of `professors`; every column but the serial `id` can be NULL after an update. */
  datatype Professor = Professor(
    id: nat,
    fullname: Option<string>,
    tel: Option<string>,
    username: Option<string>,
    password: Option<string>)

  /** A row of `enrollments`: a student taking a course. */
  datatype Enrollment = Enrollment(studentId: int, courseId: string)

  /** A row of `attendance`; the body fields are written as received, so each may be NULL. */
  datatype Attendance = Attendance(
    courseId: Field,
    studentId: Field,
    checkinTime: Time,
    status: Field,
    leaveFile: Option<string>)

  /** The `err` messages the handlers send, one per distinct message. */
  datatype ErrorCode =
    | MissingFields
    | PasswordTooShort
    | InvalidTel
    | UsernameTaken
    | StudentIdTaken
    | MissingCredentials
    | InvalidCredentials
    | MissingId
    | NothingToUpdate
    | StudentNotFound
    | ProfessorNotFound

  /** An HTTP reply: a status code with either a success body or an `{ err }` body. */
  datatype Reply<+T> = Success(status: nat, body: T) | Failure(status: nat, err: ErrorCode)

  /** The public fields a registration returns: `RETURNING id, fullname, username`. */
  datatype AccountSummary = AccountSummary(id: nat, fullname: string, username: string)

  /** A user row as the login queries select it: the professor query reads no `tel`. */
  datatype Account =
    | ProfessorAccount(id: nat, fullname: Option<string>, username: Option<string>, password: Option<string>)
    | StudentAccount(student: Student)

  const StudentRole: nat := 1
  const ProfessorRole: nat := 2

  function ProfessorAccountOf(p: Professor): (a: Account)
    ensures a.ProfessorAccount? && a.id == p.id && a.username == p.username && a.password == p.password
  {
    ProfessorAccount(p.id, p.fullname, p.username, p.password)
  }

  /** The role code a login assigns: 2 to a professor, 1 to a student. */
  function RoleOf(a: Account): nat {
    if a.ProfessorAccount? then ProfessorRole else StudentRole
  }

  predicate IsDigit(c: char) {
    '0' <= c <= '9'
  }

  /** `tel.length === 10 && /^0\d{9}$/.test(tel)`: ten ASCII digits, the first of them `0`. */
  predicate IsTel(t: string)
    ensures IsTel(t) <==> |t| == 10 && t[0] == '0' && DigitRun(t[1..])
  {
    |t| == 10 && t[0] == '0' &&
    (DigitRunIff(t[1..]);
     assert forall i :: 1 <= i < |t| ==> t[i] == t[1..][i - 1];
     forall i :: 1 <= i < |t| ==> IsDigit(t[i]))
  }

  /** The regular expression `\d*`, read one character at a time. */
  predicate DigitRun(s: string) {
    s == [] || (IsDigit(s[0]) && DigitRun(s[1..]))
  }

  lemma {:induction false} DigitRunIff(s: string)
    ensures DigitRun(s) <==> forall i :: 0 <= i < |s| ==> IsDigit(s[i])
  {
    if s != [] {
      DigitRunIff(s[1..]);
      assert forall i :: 1 <= i < |s| ==> s[i] == s[1..][i - 1];
    }
  }

  /** Some student or some professor already has the username `u` (the two duplicate probes). */
  predicate UsernameInUse(students: seq<Student>, professors: seq<Professor>, u: string) {
    (exists i :: 0 <= i < |students| && students[i].username == u) ||
    (exists j :: 0 <= j < |professors| && professors[j].username == Some(u))
  }

  /** Some student already has the class id `c` (the `std_class_id` probe). */
  predicate ClassIdInUse(students: seq<Student>, c: string) {
    exists i :: 0 <= i < |students| && students[i].classId == c
  }

  /** No username is held twice within a table. */
  predicate UsernamesUniqueWithinTables(students: seq<Student>, professors: seq<Professor>) {
    (forall i, j :: 0 <= i < j < |students| ==> students[i].username != students[j].username) &&
    (forall i, j :: 0 <= i < j < |professors| && professors[i].username.Some? ==>
       professors[i].username != professors[j].username)
  }

  /** No username is held twice across the two tables: what the registrations' duplicate probes keep. */
  predicate UsernamesUnique(students: seq<Student>, professors: seq<Professor>) {
    UsernamesUniqueWithinTables(students, professors) &&
    forall i, j :: 0 <= i < |students| && 0 <= j < |professors| ==>
      professors[j].username != Some(students[i].username)
  }
}
