/** Entities of the registration system (types.ts), plus the option and
    result wrappers that stand for `undefined`/`null` and thrown errors. */
module Types {

  datatype Option<T> = None | Some(value: T)

  /** The distinct errors the in-memory store throws, one per message. */
  datatype ApiError =
    | InvalidCredentials     // login: unknown code or wrong password
    | UserNotFound           // changePassword, updateStudentRegistration
    | WrongCurrentPassword   // changeOwnPassword
    | VerificationFailed     // verifyStudentForPasswordReset
    | UnexpectedError        // resetPasswordAfterVerification
    | StudentNotFound        // getStudentById, updateStudent, resetStudentPassword
    | RegistrationLocked     // updateStudentRegistration
    | PasswordNotFound       // getStudentPassword

  datatype Result<T> = Ok(value: T) | Err(error: ApiError)

  /** Outcome of an operation that returns nothing but may throw. */
  datatype Outcome = Done | Fail(error: ApiError)

  datatype Role = Admin | Student

  /** A user record. The source's `User` is the prefix of `Student`, so one
      datatype serves both. Optional list fields of the source are the empty
      sequence here, an absent `cccd` is "", an absent `customData` is the
      empty map, an absent `registrationDate` is None. */
  datatype Student = MakeStudent(
    id: int,
    code: string,              // ma_hocsinh: login name and default password
    fullName: string,          // hoten
    birthDate: string,         // ngaysinh, as the "YYYY-MM-DD" text it is stored as
    className: string,         // lop
    role: Role,
    mustChangePassword: bool,
    citizenId: string,         // cccd, "" when absent
    reviewSubjects: seq<int>,
    examSubjects: seq<int>,
    registrationDate: Option<int>,   // milliseconds since the epoch
    customData: map<string, string>
  )

  datatype Subject = Subject(id: int, name: string)

  datatype FieldType = Text | Number | Date

  datatype CustomField = CustomField(id: string, caption: string, kind: FieldType, required: bool)

  /** The three display toggles of the registration form. */
  datatype RegistrationSettings = RegistrationSettings(
    showReviewSubjects: bool,
    showExamSubjects: bool,
    showCustomFields: bool
  )

  /** Which of a student's two subject lists an operation works on. */
  datatype SubjectKind = Review | Exam

  function Chosen(s: Student, kind: SubjectKind): seq<int>
  {
    match kind
    case Review => s.reviewSubjects
    case Exam => s.examSubjects
  }

  /** The registration window is closed when the manual flag is set or the
      current time is strictly after the deadline. */
  predicate EffectivelyLocked(manualLock: bool, deadline: int, now: int)
  {
    manualLock || now > deadline
  }

  lemma PastDeadlineAlwaysLocked(manualLock: bool, deadline: int, now: int)
    requires now > deadline
    ensures EffectivelyLocked(manualLock, deadline, now)
  {
  }

  lemma OpenIffUnflaggedAndInTime(manualLock: bool, deadline: int, now: int)
    ensures !EffectivelyLocked(manualLock, deadline, now) <==> !manualLock && now <= deadline
  {
  }
}
