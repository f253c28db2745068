/**
 * The registration guard chain. `/create-std` and `/create-professor` exist in two route files
 * with the same guards in the same order; they differ only in the status codes they attach,
 * which each route module adds itself.
 */
module Signup {
  import opened Records

  const MinPasswordLength: nat := 6

  /** The body of `POST /create-std`. */
  datatype StudentSignup = StudentSignup(fullName: Field, studentId: Field, username: Field, password: Field)

  /** The body of `POST /create-professor`. */
  datatype ProfessorSignup = ProfessorSignup(fullName: Field, tel: Field, username: Field, password: Field)

  predicate StudentFieldsPresent(req: StudentSignup) {
    Truthy(req.fullName) && Truthy(req.studentId) && Truthy(req.username) && Truthy(req.password)
  }

  predicate ProfessorFieldsPresent(req: ProfessorSignup) {
    Truthy(req.fullName) && Truthy(req.tel) && Truthy(req.username) && Truthy(req.password)
  }

  /**
   * The first guard of `/create-std` that fails, if any: required fields, password length,
   * username in either table, then the class id among the students.
   */
  function StudentSignupError(students: seq<Student>, professors: seq<Professor>, req: StudentSignup): (e: Option<ErrorCode>)
    ensures e.None? <==>
      StudentFieldsPresent(req) && |req.password.value| >= MinPasswordLength &&
      !UsernameInUse(students, professors, req.username.value) && !ClassIdInUse(students, req.studentId.value)
    ensures e == Some(MissingFields) <==> !StudentFieldsPresent(req)
    ensures e == Some(PasswordTooShort) <==> StudentFieldsPresent(req) && |req.password.value| < MinPasswordLength
    ensures e == Some(UsernameTaken) ==> UsernameInUse(students, professors, req.username.value)
    ensures e == Some(StudentIdTaken) ==>
      !UsernameInUse(students, professors, req.username.value) && ClassIdInUse(students, req.studentId.value)
    ensures e.Some? ==> e.value in {MissingFields, PasswordTooShort, UsernameTaken, StudentIdTaken}
  {
    if !StudentFieldsPresent(req) then Some(MissingFields)
    else if |req.password.value| < MinPasswordLength then Some(PasswordTooShort)
    else if UsernameInUse(students, professors, req.username.value) then Some(UsernameTaken)
    else if ClassIdInUse(students, req.studentId.value) then Some(StudentIdTaken)
    else None
  }

  /**
   * The first guard of `/create-professor` that fails, if any: required fields, password
   * length, phone format, then the username in either table.
   */
  function ProfessorSignupError(students: seq<Student>, professors: seq<Professor>, req: ProfessorSignup): (e: Option<ErrorCode>)
    ensures e.None? <==>
      ProfessorFieldsPresent(req) && |req.password.value| >= MinPasswordLength &&
      IsTel(req.tel.value) && !UsernameInUse(students, professors, req.username.value)
    ensures e == Some(MissingFields) <==> !ProfessorFieldsPresent(req)
    ensures e == Some(PasswordTooShort) <==> ProfessorFieldsPresent(req) && |req.password.value| < MinPasswordLength
    ensures e == Some(InvalidTel) <==>
      ProfessorFieldsPresent(req) && |req.password.value| >= MinPasswordLength && !IsTel(req.tel.value)
    ensures e == Some(UsernameTaken) ==> IsTel(req.tel.value) && UsernameInUse(students, professors, req.username.value)
    ensures e.Some? ==> e.value in {MissingFields, PasswordTooShort, InvalidTel, UsernameTaken}
  {
    if !ProfessorFieldsPresent(req) then Some(MissingFields)
    else if |req.password.value| < MinPasswordLength then Some(PasswordTooShort)
    else if !IsTel(req.tel.value) then Some(InvalidTel)
    else if UsernameInUse(students, professors, req.username.value) then Some(UsernameTaken)
    else None
  }

  /** The row `/create-std` inserts: the request's fields, major `IT`, and the serial's key. */
  function NewStudent(id: nat, req: StudentSignup): (s: Student)
    requires StudentFieldsPresent(req)
    ensures s.studentId == id && s.major == "IT"
    ensures req.studentId == Some(s.classId) && req.fullName == Some(s.fullname)
    ensures req.username == Some(s.username) && req.password == Some(s.password)
  {
    Student(id, req.studentId.value, req.fullName.value, req.username.value, req.password.value, "IT")
  }

  /** The row `/create-professor` inserts. */
  function NewProfessor(id: nat, req: ProfessorSignup): (p: Professor)
    requires ProfessorFieldsPresent(req)
    ensures p.id == id && p.fullname == req.fullName && p.tel == req.tel
    ensures p.username == req.username && p.password == req.password
  {
    Professor(id, Some(req.fullName.value), Some(req.tel.value), Some(req.username.value), Some(req.password.value))
  }

  /** A student registration that passes every guard keeps usernames unique across both tables. */
  lemma StudentSignupKeepsUsernamesUnique(students: seq<Student>, professors: seq<Professor>, req: StudentSignup, id: nat)
    requires UsernamesUnique(students, professors)
    requires StudentSignupError(students, professors, req).None?
    ensures UsernamesUnique(students + [NewStudent(id, req)], professors)
  {
    var s' := students + [NewStudent(id, req)];
    forall i, j | 0 <= i < |s'| && 0 <= j < |professors| ensures professors[j].username != Some(s'[i].username) {
      if i == |students| {
        assert professors[j].username != Some(req.username.value);
      }
    }
  }

  /** A professor registration that passes every guard keeps usernames unique across both tables. */
  lemma ProfessorSignupKeepsUsernamesUnique(students: seq<Student>, professors: seq<Professor>, req: ProfessorSignup, id: nat)
    requires UsernamesUnique(students, professors)
    requires ProfessorSignupError(students, professors, req).None?
    ensures UsernamesUnique(students, professors + [NewProfessor(id, req)])
  {
    var p' := professors + [NewProfessor(id, req)];
    forall i, j | 0 <= i < j < |p'| && p'[i].username.Some? ensures p'[i].username != p'[j].username {
      if j == |professors| {
        assert professors[i].username != Some(req.username.value);
      }
    }
  }
}
