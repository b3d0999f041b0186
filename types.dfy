/**
 * The records of types.go. Timestamps (`CreatedAt`) are not modelled:
 * they come from the clock and drive no logic.
 */
module Types {

  /** Emails are opaque, case-sensitive strings. */
  type Email = string

  datatype Teacher = Teacher(email: Email)

  datatype Student = Student(email: Email, isSuspended: bool)

  /** One row of the many-to-many association between teachers and students. */
  datatype TeacherStudent = TeacherStudent(teacherEmail: Email, studentEmail: Email)

  /** Decoded bodies of the requests the handlers accept. */
  datatype RegisterStudentsToTeacherRequest =
    RegisterStudentsToTeacherRequest(teacherEmail: Email, studentEmails: seq<Email>)

  datatype SuspendStudentRequest = SuspendStudentRequest(studentEmail: Email)

  datatype StudentsToGetNotificationRequest =
    StudentsToGetNotificationRequest(teacherEmail: Email, notificationString: string)

  /** The errors the store and the handlers return. */
  datatype Error =
    | EntryDoesNotExist        // a Get...ByEmail lookup found no row
    | NoTeacherEmailsProvided  // the common-students query got an empty list
    | StudentDoesNotExist      // suspend named an unknown student
    | DuplicateKey             // an insert violated a primary key
    | ForeignKeyViolation      // a registration named a missing teacher or student
    | ValueTooLong             // an email does not fit the VARCHAR(255) column

  function NewTeacher(email: Email): (t: Teacher)
    ensures t.email == email
  {
    Teacher(email)
  }

  /** A new student always starts unsuspended. */
  function NewStudent(email: Email): (s: Student)
    ensures s.email == email && !s.isSuspended
  {
    Student(email, false)
  }

  function NewTeacherStudent(teacherEmail: Email, studentEmail: Email): (ts: TeacherStudent)
    ensures ts.teacherEmail == teacherEmail && ts.studentEmail == studentEmail
  {
    TeacherStudent(teacherEmail, studentEmail)
  }
}
