/**
 * The registration page: the form state, the ordered checks `handleRegister` runs before it
 * sends anything, the choice of endpoint and payload, how the server's answer is read, and
 * the reset of the form after a successful registration.
 */
module RegisterPage {
  import opened Records
  import opened Signup

  /** The code points ECMAScript counts as white space or line terminators: what `trim` strips. */
  predicate IsJsWhitespace(c: char) {
    c == '\t' || c == '\n' || c == '\U{000B}' || c == '\U{000C}' || c == '\r' || c == ' ' ||
    c == '\U{00A0}' || c == '\U{1680}' || ('\U{2000}' <= c <= '\U{200A}') ||
    c == '\U{2028}' || c == '\U{2029}' || c == '\U{202F}' || c == '\U{205F}' || c == '\U{3000}' ||
    c == '\U{FEFF}'
  }

  /** `!s.trim()`: trimming leaves nothing exactly when every character is white space. */
  predicate IsBlank(s: string) {
    forall i :: 0 <= i < |s| ==> IsJsWhitespace(s[i])
  }

  /** `userType`: 1 registers a student, 2 a professor. */
  datatype UserType = StudentUser | ProfessorUser

  datatype FormData = FormData(
    fullName: string,
    studentId: string,
    tel: string,
    username: string,
    password: string,
    confirmPassword: string)

  const EmptyForm := FormData("", "", "", "", "", "")

  /** The names of the form's inputs, as `handleChange` receives them. */
  datatype FormField = FullName | StudentId | Tel | Username | Password | ConfirmPassword

  function WithField(f: FormData, field: FormField, value: string): FormData {
    match field
    case FullName => f.(fullName := value)
    case StudentId => f.(studentId := value)
    case Tel => f.(tel := value)
    case Username => f.(username := value)
    case Password => f.(password := value)
    case ConfirmPassword => f.(confirmPassword := value)
  }

  /** The warning dialogs the checks raise. */
  datatype Warning =
    | FullNameRequired
    | StudentIdRequired
    | TelRequired
    | UsernameRequired
    | PasswordRequired
    | PasswordMismatch
    | PasswordTooShortWarning

  /** Every field the chosen user type needs holds something besides white space. */
  predicate FieldsFilled(t: UserType, f: FormData) {
    !IsBlank(f.fullName) &&
    (t == StudentUser ==> !IsBlank(f.studentId)) &&
    (t == ProfessorUser ==> !IsBlank(f.tel)) &&
    !IsBlank(f.username) && !IsBlank(f.password)
  }

  /**
   * The checks of `handleRegister`, in order: full name, student id or phone by user type,
   * username, password, confirmation, then length. The first that fails is the one reported.
   */
  function Validate(t: UserType, f: FormData): (w: Option<Warning>)
    ensures w.None? <==> FieldsFilled(t, f) && f.password == f.confirmPassword && |f.password| >= MinPasswordLength
    ensures w == Some(FullNameRequired) <==> IsBlank(f.fullName)
    ensures w == Some(StudentIdRequired) <==> !IsBlank(f.fullName) && t == StudentUser && IsBlank(f.studentId)
    ensures w == Some(TelRequired) <==> !IsBlank(f.fullName) && t == ProfessorUser && IsBlank(f.tel)
    ensures w == Some(UsernameRequired) <==>
      !IsBlank(f.fullName) && (t == StudentUser ==> !IsBlank(f.studentId)) &&
      (t == ProfessorUser ==> !IsBlank(f.tel)) && IsBlank(f.username)
    ensures w == Some(PasswordRequired) <==>
      !IsBlank(f.fullName) && (t == StudentUser ==> !IsBlank(f.studentId)) &&
      (t == ProfessorUser ==> !IsBlank(f.tel)) && !IsBlank(f.username) && IsBlank(f.password)
    ensures w == Some(PasswordMismatch) <==> FieldsFilled(t, f) && f.password != f.confirmPassword
    ensures w == Some(PasswordTooShortWarning) <==>
      FieldsFilled(t, f) && f.password == f.confirmPassword && |f.password| < MinPasswordLength
  {
    if IsBlank(f.fullName) then Some(FullNameRequired)
    else if t == StudentUser && IsBlank(f.studentId) then Some(StudentIdRequired)
    else if t == ProfessorUser && IsBlank(f.tel) then Some(TelRequired)
    else if IsBlank(f.username) then Some(UsernameRequired)
    else if IsBlank(f.password) then Some(PasswordRequired)
    else if f.password != f.confirmPassword then Some(PasswordMismatch)
    else if |f.password| < MinPasswordLength then Some(PasswordTooShortWarning)
    else None
  }

  /** What is posted: to `/create-std` a student body, to `/create-professor` a professor body. */
  datatype Request = CreateStdRequest(student: StudentSignup) | CreateProfessorRequest(professor: ProfessorSignup)

  /** The endpoint and payload `handleRegister` chooses; the fields are sent as typed, untrimmed. */
  function RequestFor(t: UserType, f: FormData): (q: Request)
    ensures q.CreateStdRequest? <==> t == StudentUser
    ensures q.CreateStdRequest? ==>
      q.student.fullName == Some(f.fullName) && q.student.username == Some(f.username) &&
      q.student.password == Some(f.password) && q.student.studentId == Some(f.studentId)
    ensures q.CreateProfessorRequest? ==>
      q.professor.fullName == Some(f.fullName) && q.professor.username == Some(f.username) &&
      q.professor.password == Some(f.password) && q.professor.tel == Some(f.tel)
  {
    match t
    case StudentUser => CreateStdRequest(StudentSignup(Some(f.fullName), Some(f.studentId), Some(f.username), Some(f.password)))
    case ProfessorUser => CreateProfessorRequest(ProfessorSignup(Some(f.fullName), Some(f.tel), Some(f.username), Some(f.password)))
  }

  /**
   * The confirmation is never sent, and neither is the field of the other user type: changing
   * them does not change the request.
   */
  lemma RequestIgnoresUnsentFields(f: FormData, confirm: string, other: string)
    ensures RequestFor(StudentUser, f.(confirmPassword := confirm, tel := other)) == RequestFor(StudentUser, f)
    ensures RequestFor(ProfessorUser, f.(confirmPassword := confirm, studentId := other)) == RequestFor(ProfessorUser, f)
  {
  }

  /** A form the page accepts is never refused by the server for a missing field or a short password. */
  lemma AcceptedFormPassesServerFieldChecks(t: UserType, f: FormData, students: seq<Student>, professors: seq<Professor>)
    requires Validate(t, f).None?
    ensures match RequestFor(t, f)
      case CreateStdRequest(b) =>
        StudentSignupError(students, professors, b) != Some(MissingFields) &&
        StudentSignupError(students, professors, b) != Some(PasswordTooShort)
      case CreateProfessorRequest(b) =>
        ProfessorSignupError(students, professors, b) != Some(MissingFields) &&
        ProfessorSignupError(students, professors, b) != Some(PasswordTooShort)
  {
    NotBlankIsTruthy(f.fullName);
    NotBlankIsTruthy(f.username);
    NotBlankIsTruthy(f.password);
    if t == StudentUser {
      NotBlankIsTruthy(f.studentId);
    } else {
      NotBlankIsTruthy(f.tel);
    }
  }

  lemma NotBlankIsTruthy(s: string)
    requires !IsBlank(s)
    ensures Truthy(Some(s))
  {
  }

  /**
   * The page is stricter than the server about blank fields: a name of spaces alone is refused
   * here, while the server's truthiness check would register it.
   */
  lemma WhitespaceNameRefusedOnlyByPage()
    ensures Validate(StudentUser, FormData("   ", "6501", "", "somchai", "secret1", "secret1")) == Some(FullNameRequired)
    ensures StudentSignupError([], [], StudentSignup(Some("   "), Some("6501"), Some("somchai"), Some("secret1"))).None?
  {
    assert !IsBlank("6501") by { assert !IsJsWhitespace("6501"[0]); }
    assert !IsBlank("somchai") by { assert !IsJsWhitespace("somchai"[0]); }
  }

  /**
   * The page only asks for some phone number and leaves its format to the server: a form the
   * page accepts is refused for its phone by `/create-professor` exactly when the phone is malformed.
   */
  lemma PhoneFormatLeftToServer(f: FormData, students: seq<Student>, professors: seq<Professor>)
    requires Validate(ProfessorUser, f).None?
    ensures ProfessorSignupError(students, professors, RequestFor(ProfessorUser, f).professor) == Some(InvalidTel) <==> !IsTel(f.tel)
  {
    AcceptedFormPassesServerFieldChecks(ProfessorUser, f, students, professors);
  }

  /** Such a form exists: the page accepts the phone `12345`, which the server refuses. */
  lemma MalformedPhonePassesPage()
    ensures Validate(ProfessorUser, FormData("A B", "", "12345", "prof1", "secret1", "secret1")).None?
    ensures ProfessorSignupError([], [], ProfessorSignup(Some("A B"), Some("12345"), Some("prof1"), Some("secret1"))) == Some(InvalidTel)
  {
    assert !IsBlank("A B") by { assert !IsJsWhitespace("A B"[0]); }
    assert !IsBlank("12345") by { assert !IsJsWhitespace("12345"[0]); }
    assert !IsBlank("prof1") by { assert !IsJsWhitespace("prof1"[0]); }
    assert !IsBlank("secret1") by { assert !IsJsWhitespace("secret1"[0]); }
  }

  /** What the request came back with: a status and the body's `err`, or no answer at all. */
  datatype Transport = Answered(status: int, err: Option<ErrorCode>) | NoAnswer

  /** The server's reply as the page receives it. */
  function Received<T>(r: Reply<T>): Transport {
    match r
    case Success(status, _) => Answered(status, None)
    case Failure(status, e) => Answered(status, Some(e))
  }

  /** The dialog the page ends with. */
  datatype Notice =
    | Warned(warning: Warning)
    | RegistrationFailed(err: ErrorCode)
    | Registered
    | RequestFailed(reason: Option<ErrorCode>)
    | NoNotice

  /**
   * How the answer is read. A status outside 2xx makes the request throw, and the catch shows
   * the body's `err`; within 2xx a body carrying `err` is a failure whatever the status; only
   * status 200 without `err` is a success.
   */
  function NoticeFor(reply: Transport): (n: Notice)
    ensures n == Registered <==> reply.Answered? && reply.status == 200 && reply.err.None?
    ensures reply.Answered? && reply.err.Some? ==> n.RegistrationFailed? || n.RequestFailed?
    ensures reply.Answered? && 200 <= reply.status < 300 && reply.err.Some? ==> n == RegistrationFailed(reply.err.value)
    ensures n.RequestFailed? <==> reply.NoAnswer? || !(200 <= reply.status < 300)
    ensures reply.Answered? && !(200 <= reply.status < 300) ==> n == RequestFailed(reply.err)
    ensures reply.NoAnswer? ==> n == RequestFailed(None)
    ensures reply.Answered? && 200 <= reply.status < 300 && reply.status != 200 && reply.err.None? ==> n == NoNotice
  {
    match reply
    case NoAnswer => RequestFailed(None)
    case Answered(status, err) =>
      if !(200 <= status < 300) then RequestFailed(err)
      else if err.Some? then RegistrationFailed(err.value)
      else if status == 200 then Registered
      else NoNotice
  }

  /**
   * Both routers' registration replies are read correctly: the page reports a success exactly
   * when the server inserted the account, including the refusals one router sends with status 200.
   */
  lemma RegisteredExactlyOnInsert<T>(r: Reply<T>)
    requires r.Success? ==> r.status == 200
    ensures NoticeFor(Received(r)) == Registered <==> r.Success?
  {
  }

  class RegisterForm {
    var userType: UserType
    var form: FormData
    var isLoading: bool

    constructor ()
      ensures userType == StudentUser && form == EmptyForm && !isLoading
    {
      userType, form, isLoading := StudentUser, EmptyForm, false;
    }

    /** The two type buttons: switching keeps what was typed. */
    method SelectUserType(t: UserType)
      modifies this
      ensures userType == t && form == old(form) && isLoading == old(isLoading)
    {
      userType := t;
    }

    /** `handleChange`: one input changes, the others keep their text. */
    method HandleChange(field: FormField, value: string)
      modifies this
      ensures form == WithField(old(form), field, value)
      ensures userType == old(userType) && isLoading == old(isLoading)
    {
      form := WithField(form, field, value);
    }

    /**
     * `handleRegister`; `reply` is what the server answers to the request, when one is sent.
     * A failed check sends nothing and changes nothing; otherwise the request is sent, the
     * loading flag is set for its duration, and only a success empties the form.
     */
    method HandleRegister(reply: Transport) returns (sent: Option<Request>, notice: Notice)
      modifies this
      ensures userType == old(userType)
      ensures Validate(old(userType), old(form)).Some? ==>
        && sent.None? && notice == Warned(Validate(old(userType), old(form)).value)
        && form == old(form) && isLoading == old(isLoading)
      ensures Validate(old(userType), old(form)).None? ==>
        && sent == Some(RequestFor(old(userType), old(form)))
        && notice == NoticeFor(reply)
        && !isLoading
        && form == (if notice == Registered then EmptyForm else old(form))
    {
      var w := Validate(userType, form);
      if w.Some? {
        return None, Warned(w.value);
      }
      isLoading := true;
      var request := RequestFor(userType, form);
      sent := Some(request);
      notice := NoticeFor(reply);
      if notice == Registered {
        form := EmptyForm;
      }
      isLoading := false;
    }
  }
}
