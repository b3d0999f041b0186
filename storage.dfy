/**
 * The relational store of storage.go, with the database replaced by three
 * in-memory tables:
 *   Teacher         a set of emails (primary key email),
 *   Student         a map from email to the is_suspended flag (primary key email),
 *   TeacherStudent  a sequence of rows in store order (primary key the pair,
 *                   foreign keys into both other tables).
 * The functions and lemmas before the class state the queries on table
 * values; the class methods are proved against them.
 */
module Storage {
  import opened Wrappers
  import opened Types
  import opened Seqs

  /** Every email column is VARCHAR(255). */
  const MaxEmailLength := 255

  predicate Fits(email: Email)
  {
    |email| <= MaxEmailLength
  }

  /**
   * The table constraints: email columns fit, the pair key of TeacherStudent
   * is unique, and every registration references an existing teacher and an
   * existing student. (The email keys of the other two tables are unique by
   * construction of a set and a map.)
   */
  ghost predicate TablesValid(teachers: set<Email>, students: map<Email, bool>, registrations: seq<TeacherStudent>)
  {
    && (forall e :: e in teachers ==> Fits(e))
    && (forall e :: e in students ==> Fits(e))
    && NoDup(registrations)
    && (forall i :: 0 <= i < |registrations| ==>
          registrations[i].teacherEmail in teachers && registrations[i].studentEmail in students)
  }

  /** `IsStudentSuspended`: the stored flag, and false for an unknown email. */
  function Suspended(students: map<Email, bool>, email: Email): bool
  {
    email in students && students[email]
  }

  /** `SELECT * FROM TeacherStudent WHERE teacher_email = $1`, projected on the student. */
  function StudentsOf(registrations: seq<TeacherStudent>, teacher: Email): seq<Email>
  {
    if registrations == [] then []
    else
      var last := registrations[|registrations| - 1];
      StudentsOf(registrations[..|registrations| - 1], teacher)
        + (if last.teacherEmail == teacher then [last.studentEmail] else [])
  }

  /**
   * The listed teachers that exist and have a registration with `student`:
   * the distinct `ts.teacher_email` values of the student's group in the
   * common-students query.
   */
  function RegisteredTeachers(teachers: set<Email>, registrations: seq<TeacherStudent>,
                              teacherEmails: seq<Email>, student: Email): set<Email>
  {
    set t | t in teacherEmails && t in teachers && TeacherStudent(t, student) in registrations
  }

  /**
   * The rows of the common-students query for a non-empty list: every
   * student whose count of distinct registered listed teachers equals the
   * length of the list, duplicates in the list included.
   */
  function CommonStudents(teachers: set<Email>, students: map<Email, bool>,
                          registrations: seq<TeacherStudent>, teacherEmails: seq<Email>): set<Email>
  {
    set s | s in students && |RegisteredTeachers(teachers, registrations, teacherEmails, s)| == |teacherEmails|
  }

  /** A teacher's students are exactly the students of its registrations. */
  lemma {:induction false} StudentsOfMembership(registrations: seq<TeacherStudent>, teacher: Email, student: Email)
    ensures student in StudentsOf(registrations, teacher) <==> TeacherStudent(teacher, student) in registrations
  {
    if registrations != [] {
      var init := registrations[..|registrations| - 1];
      assert registrations == init + [registrations[|registrations| - 1]];
      StudentsOfMembership(init, teacher, student);
    }
  }

  /** Because the pair is the key, a teacher's student list has no duplicates. */
  lemma {:induction false} StudentsOfNoDup(registrations: seq<TeacherStudent>, teacher: Email)
    requires NoDup(registrations)
    ensures NoDup(StudentsOf(registrations, teacher))
  {
    if registrations != [] {
      var n := |registrations| - 1;
      var init, last := registrations[..n], registrations[n];
      assert registrations == init + [last];
      NoDupAppend(init, last);
      StudentsOfNoDup(init, teacher);
      if last.teacherEmail == teacher {
        StudentsOfMembership(init, teacher, last.studentEmail);
        NoDupAppend(StudentsOf(init, teacher), last.studentEmail);
      }
    }
  }

  /** Every student of a teacher exists in the Student table. */
  lemma StudentsOfExist(teachers: set<Email>, students: map<Email, bool>,
                        registrations: seq<TeacherStudent>, teacher: Email)
    requires TablesValid(teachers, students, registrations)
    ensures forall s :: s in StudentsOf(registrations, teacher) ==> s in students
  {
    forall s | s in StudentsOf(registrations, teacher) ensures s in students {
      StudentsOfMembership(registrations, teacher, s);
      var i :| 0 <= i < |registrations| && registrations[i] == TeacherStudent(teacher, s);
    }
  }

  lemma RegisteredTeachersWithin(teachers: set<Email>, registrations: seq<TeacherStudent>,
                                 teacherEmails: seq<Email>, student: Email)
    ensures RegisteredTeachers(teachers, registrations, teacherEmails, student) <= Elems(teacherEmails)
    ensures |RegisteredTeachers(teachers, registrations, teacherEmails, student)| <= |teacherEmails|
  {
    ElemsCard(teacherEmails);
    SubsetCard(RegisteredTeachers(teachers, registrations, teacherEmails, student), Elems(teacherEmails));
  }

  /**
   * For a duplicate-free, non-empty list, the common students are exactly
   * the students registered to every listed teacher.
   */
  lemma CommonStudentsOfDistinctTeachers(teachers: set<Email>, students: map<Email, bool>,
                                         registrations: seq<TeacherStudent>, teacherEmails: seq<Email>,
                                         student: Email)
    requires TablesValid(teachers, students, registrations)
    requires NoDup(teacherEmails) && |teacherEmails| > 0
    ensures student in CommonStudents(teachers, students, registrations, teacherEmails)
        <==> forall t :: t in teacherEmails ==> TeacherStudent(t, student) in registrations
  {
    var rt := RegisteredTeachers(teachers, registrations, teacherEmails, student);
    ElemsCard(teacherEmails);
    RegisteredTeachersWithin(teachers, registrations, teacherEmails, student);
    if forall t :: t in teacherEmails ==> TeacherStudent(t, student) in registrations {
      forall t | t in teacherEmails ensures t in rt {
        var i :| 0 <= i < |registrations| && registrations[i] == TeacherStudent(t, student);
      }
      assert rt == Elems(teacherEmails);
      var i :| 0 <= i < |registrations| && registrations[i] == TeacherStudent(teacherEmails[0], student);
      assert student in students;
    }
    if student in CommonStudents(teachers, students, registrations, teacherEmails) {
      SubsetSameCard(rt, Elems(teacherEmails));
      forall t | t in teacherEmails ensures TeacherStudent(t, student) in registrations {
        assert t in rt;
      }
    }
  }

  /**
   * The HAVING guard compares against the length of the list, so a list
   * that repeats an email has no common students at all.
   */
  lemma RepeatedTeacherHasNoCommonStudents(teachers: set<Email>, students: map<Email, bool>,
                                           registrations: seq<TeacherStudent>, teacherEmails: seq<Email>)
    requires !NoDup(teacherEmails)
    ensures CommonStudents(teachers, students, registrations, teacherEmails) == {}
  {
    ElemsCard(teacherEmails);
    forall s | s in students
      ensures |RegisteredTeachers(teachers, registrations, teacherEmails, s)| < |teacherEmails|
    {
      RegisteredTeachersWithin(teachers, registrations, teacherEmails, s);
      SubsetCard(RegisteredTeachers(teachers, registrations, teacherEmails, s), Elems(teacherEmails));
    }
  }

  /** A listed teacher without registrations leaves no common students. */
  lemma UnregisteredTeacherHasNoCommonStudents(teachers: set<Email>, students: map<Email, bool>,
                                               registrations: seq<TeacherStudent>, teacherEmails: seq<Email>,
                                               teacher: Email)
    requires teacher in teacherEmails
    requires StudentsOf(registrations, teacher) == []
    ensures CommonStudents(teachers, students, registrations, teacherEmails) == {}
  {
    ElemsCard(teacherEmails);
    forall s | s in students
      ensures |RegisteredTeachers(teachers, registrations, teacherEmails, s)| < |teacherEmails|
    {
      var rt := RegisteredTeachers(teachers, registrations, teacherEmails, s);
      StudentsOfMembership(registrations, teacher, s);
      assert rt <= Elems(teacherEmails) - {teacher};
      SubsetCard(rt, Elems(teacherEmails) - {teacher});
    }
  }

  /**
   * What deduplicating the list first would give: for any non-empty list,
   * the students registered to every listed teacher.
   */
  lemma DedupedTeachersGiveIntersection(teachers: set<Email>, students: map<Email, bool>,
                                        registrations: seq<TeacherStudent>, teacherEmails: seq<Email>,
                                        student: Email)
    requires TablesValid(teachers, students, registrations)
    requires |teacherEmails| > 0
    ensures student in CommonStudents(teachers, students, registrations, Dedup(teacherEmails))
        <==> forall t :: t in teacherEmails ==> TeacherStudent(t, student) in registrations
  {
    DedupNoDup(teacherEmails);
    assert teacherEmails[0] in Elems(Dedup(teacherEmails));
    CommonStudentsOfDistinctTeachers(teachers, students, registrations, Dedup(teacherEmails), student);
    assert forall t :: t in teacherEmails <==> t in Elems(Dedup(teacherEmails));
  }

  /** The three tables and the queries and inserts of the `Storage` interface. */
  class Store {
    var teachers: set<Email>
    var students: map<Email, bool>
    var registrations: seq<TeacherStudent>

    ghost predicate Valid()
      reads this
    {
      TablesValid(teachers, students, registrations)
    }

    /** An empty, freshly initialised database. */
    constructor ()
      ensures Valid()
      ensures teachers == {} && students == map[] && registrations == []
    {
      teachers, students, registrations := {}, map[], [];
    }

    /** `INSERT INTO Teacher`: one new row, or the constraint it would violate. */
    method CreateTeacher(teacher: Teacher) returns (o: Outcome<Error>)
      requires Valid()
      modifies this
      ensures Valid()
      ensures o == if !Fits(teacher.email) then Fail(ValueTooLong)
                   else if teacher.email in old(teachers) then Fail(DuplicateKey)
                   else Pass
      ensures teachers == if o.Pass? then old(teachers) + {teacher.email} else old(teachers)
      ensures students == old(students) && registrations == old(registrations)
    {
      if !Fits(teacher.email) {
        return Fail(ValueTooLong);
      }
      if teacher.email in teachers {
        return Fail(DuplicateKey);
      }
      teachers := teachers + {teacher.email};
      o := Pass;
    }

    /** `SELECT * FROM Teacher`: every row once, in some order. */
    method GetTeachers() returns (rows: seq<Teacher>)
      ensures forall e :: e in teachers <==> Teacher(e) in rows
      ensures NoDup(rows)
    {
      rows := [];
      var rest := teachers;
      while rest != {}
        invariant rest <= teachers
        invariant forall e :: e in teachers <==> e in rest || Teacher(e) in rows
        invariant forall e :: Teacher(e) in rows ==> e !in rest
        invariant NoDup(rows)
        decreases |rest|
      {
        var e :| e in rest;
        NoDupAppend(rows, Teacher(e));
        rows := rows + [Teacher(e)];
        rest := rest - {e};
      }
    }

    method GetTeacherByEmail(email: Email) returns (r: Result<Teacher, Error>)
      ensures r.Success? <==> email in teachers
      ensures r.Success? ==> r.value.email == email
      ensures r.Failure? ==> r.error == EntryDoesNotExist
    {
      if email in teachers {
        r := Success(Teacher(email));
      } else {
        r := Failure(EntryDoesNotExist);
      }
    }

    /** `SELECT COUNT(1) ... WHERE email = $1` compared with zero. */
    method TeacherExists(email: Email) returns (exists_: bool)
      ensures exists_ <==> email in teachers
    {
      var count := if email in teachers then 1 else 0;
      exists_ := count > 0;
    }

    /** `INSERT INTO Student` with the record's flag. */
    method CreateStudent(student: Student) returns (o: Outcome<Error>)
      requires Valid()
      modifies this
      ensures Valid()
      ensures o == if !Fits(student.email) then Fail(ValueTooLong)
                   else if student.email in old(students) then Fail(DuplicateKey)
                   else Pass
      ensures students == if o.Pass? then old(students)[student.email := student.isSuspended] else old(students)
      ensures teachers == old(teachers) && registrations == old(registrations)
    {
      if !Fits(student.email) {
        return Fail(ValueTooLong);
      }
      if student.email in students {
        return Fail(DuplicateKey);
      }
      students := students[student.email := student.isSuspended];
      o := Pass;
    }

    /**
     * `UPDATE Student SET is_suspended = $1 WHERE email = $2`: sets the flag
     * of that one student; an unknown email matches no row, changes nothing
     * and is not an error.
     */
    method UpdateStudentSuspendedState(email: Email, isSuspended: bool) returns (o: Outcome<Error>)
      requires Valid()
      modifies this
      ensures Valid() && o == Pass
      ensures students == if email in old(students) then old(students)[email := isSuspended] else old(students)
      ensures teachers == old(teachers) && registrations == old(registrations)
    {
      if email in students {
        students := students[email := isSuspended];
      }
      o := Pass;
    }

    /** `SELECT * FROM Student`: every row once, in some order. */
    method GetStudents() returns (rows: seq<Student>)
      ensures forall e, b :: Student(e, b) in rows <==> e in students && students[e] == b
      ensures NoDup(rows)
    {
      rows := [];
      var rest := students.Keys;
      while rest != {}
        invariant rest <= students.Keys
        invariant forall e :: e in students ==> e in rest || Student(e, students[e]) in rows
        invariant forall e, b :: Student(e, b) in rows ==> e in students && students[e] == b && e !in rest
        invariant NoDup(rows)
        decreases |rest|
      {
        var e :| e in rest;
        NoDupAppend(rows, Student(e, students[e]));
        rows := rows + [Student(e, students[e])];
        rest := rest - {e};
      }
    }

    method GetStudentByEmail(email: Email) returns (r: Result<Student, Error>)
      ensures r.Success? <==> email in students
      ensures r.Success? ==> r.value == Student(email, students[email])
      ensures r.Failure? ==> r.error == EntryDoesNotExist
    {
      if email in students {
        r := Success(Student(email, students[email]));
      } else {
        r := Failure(EntryDoesNotExist);
      }
    }

    method StudentExists(email: Email) returns (exists_: bool)
      ensures exists_ <==> email in students
    {
      var count := if email in students then 1 else 0;
      exists_ := count > 0;
    }

    /** The stored flag of a known student; false when no row matches. */
    method IsStudentSuspended(email: Email) returns (isSuspended: bool)
      ensures email in students ==> isSuspended == students[email]
      ensures email !in students ==> !isSuspended
    {
      if email in students {
        isSuspended := students[email];
      } else {
        isSuspended := false;
      }
    }

    /**
     * `INSERT INTO TeacherStudent`: one new row at the end of the table, or
     * the constraint it would violate (column width, pair key, foreign keys).
     */
    method CreateTeacherStudent(row: TeacherStudent) returns (o: Outcome<Error>)
      requires Valid()
      modifies this
      ensures Valid()
      ensures o == if !Fits(row.teacherEmail) || !Fits(row.studentEmail) then Fail(ValueTooLong)
                   else if row in old(registrations) then Fail(DuplicateKey)
                   else if row.teacherEmail !in old(teachers) || row.studentEmail !in old(students) then Fail(ForeignKeyViolation)
                   else Pass
      ensures registrations == if o.Pass? then old(registrations) + [row] else old(registrations)
      ensures teachers == old(teachers) && students == old(students)
    {
      if !Fits(row.teacherEmail) || !Fits(row.studentEmail) {
        return Fail(ValueTooLong);
      }
      if row in registrations {
        return Fail(DuplicateKey);
      }
      if row.teacherEmail !in teachers || row.studentEmail !in students {
        return Fail(ForeignKeyViolation);
      }
      NoDupAppend(registrations, row);
      registrations := registrations + [row];
      o := Pass;
    }

    method GetTeacherStudentByEmail(teacherEmail: Email, studentEmail: Email) returns (r: Result<TeacherStudent, Error>)
      ensures r.Success? <==> TeacherStudent(teacherEmail, studentEmail) in registrations
      ensures r.Success? ==> r.value.teacherEmail == teacherEmail && r.value.studentEmail == studentEmail
      ensures r.Failure? ==> r.error == EntryDoesNotExist
    {
      var row := TeacherStudent(teacherEmail, studentEmail);
      if row in registrations {
        r := Success(row);
      } else {
        r := Failure(EntryDoesNotExist);
      }
    }

    /**
     * The student emails of the registrations with this teacher, in store
     * order: exactly the registered students, each once, none for an
     * unknown teacher.
     */
    method GetStudentsAssignedToTeacher(teacherEmail: Email) returns (studentEmails: seq<Email>)
      requires Valid()
      ensures studentEmails == StudentsOf(registrations, teacherEmail)
      ensures forall s :: s in studentEmails <==> TeacherStudent(teacherEmail, s) in registrations
      ensures NoDup(studentEmails)
      ensures teacherEmail !in teachers ==> studentEmails == []
    {
      studentEmails := [];
      var i := 0;
      while i < |registrations|
        invariant 0 <= i <= |registrations|
        invariant studentEmails == StudentsOf(registrations[..i], teacherEmail)
      {
        assert registrations[..i + 1][..i] == registrations[..i];
        if registrations[i].teacherEmail == teacherEmail {
          studentEmails := studentEmails + [registrations[i].studentEmail];
        }
        i := i + 1;
      }
      assert registrations[..i] == registrations;
      forall s ensures s in studentEmails <==> TeacherStudent(teacherEmail, s) in registrations {
        StudentsOfMembership(registrations, teacherEmail, s);
      }
      StudentsOfNoDup(registrations, teacherEmail);
      if studentEmails != [] {
        var s := studentEmails[0];
        var k :| 0 <= k < |registrations| && registrations[k] == TeacherStudent(teacherEmail, s);
        assert teacherEmail in teachers;
      }
    }

    method TeacherStudentExists(teacherEmail: Email, studentEmail: Email) returns (exists_: bool)
      ensures exists_ <==> TeacherStudent(teacherEmail, studentEmail) in registrations
    {
      var count := if TeacherStudent(teacherEmail, studentEmail) in registrations then 1 else 0;
      exists_ := count > 0;
    }

    /**
     * The GROUP BY / HAVING query: fails on an empty list; otherwise returns,
     * once each and in some order, the students whose number of distinct
     * registered listed teachers equals the length of the list.
     */
    method GetCommonStudentsOfTeachers(teacherEmails: seq<Email>) returns (r: Result<seq<Email>, Error>)
      requires Valid()
      ensures r.Failure? <==> |teacherEmails| == 0
      ensures r.Failure? ==> r.error == NoTeacherEmailsProvided
      ensures r.Success? ==> NoDup(r.value)
      ensures r.Success? ==> forall s :: s in r.value <==> s in CommonStudents(teachers, students, registrations, teacherEmails)
    {
      if |teacherEmails| == 0 {
        return Failure(NoTeacherEmailsProvided);
      }
      var commonStudents: seq<Email> := [];
      var groups := students.Keys;
      while groups != {}
        invariant groups <= students.Keys
        invariant NoDup(commonStudents)
        invariant forall s :: s in commonStudents ==> s !in groups
        invariant forall s :: s in commonStudents <==>
                    s !in groups && s in CommonStudents(teachers, students, registrations, teacherEmails)
        decreases |groups|
      {
        var s :| s in groups;
        if |RegisteredTeachers(teachers, registrations, teacherEmails, s)| == |teacherEmails| {
          NoDupAppend(commonStudents, s);
          commonStudents := commonStudents + [s];
        }
        groups := groups - {s};
      }
      r := Success(commonStudents);
    }
  }
}
