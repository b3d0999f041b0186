/**
 * The four handlers of api.go over the abstract store. JSON decoding and
 * HTTP responses are left out: a handler takes the decoded request and
 * returns its result or error (every error is answered with status 400).
 */
module Api {
  import opened Wrappers
  import opened Types
  import opened Seqs
  import opened Storage
  import Mentions

  /** The duplicate check of the notification handler: a scan with early return. */
  method StringExistsInArray(input: string, inputArray: seq<string>) returns (found: bool)
    ensures found <==> input in inputArray
  {
    for i := 0 to |inputArray|
      invariant input !in inputArray[..i]
    {
      if inputArray[i] == input {
        return true;
      }
    }
    return false;
  }

  // ---------------------------------------------------------------------
  // Notification recipients

  /** A student who may be notified: exists and is not suspended. */
  predicate Eligible(students: map<Email, bool>, email: Email)
  {
    email in students && !students[email]
  }

  /** The first loop: the teacher's students whose flag is not set, in store order. */
  function Unsuspended(students: map<Email, bool>, emails: seq<Email>): seq<Email>
  {
    if emails == [] then []
    else
      var last := emails[|emails| - 1];
      Unsuspended(students, emails[..|emails| - 1]) + (if !Suspended(students, last) then [last] else [])
  }

  /**
   * The second loop: each mentioned email, in order, that exists, is not
   * suspended and is not yet among the recipients.
   */
  function AddMentioned(students: map<Email, bool>, recipients: seq<Email>, mentioned: seq<Email>): seq<Email>
  {
    if mentioned == [] then recipients
    else
      var acc := AddMentioned(students, recipients, mentioned[..|mentioned| - 1]);
      var last := mentioned[|mentioned| - 1];
      if Eligible(students, last) && last !in acc then acc + [last] else acc
  }

  /** The recipients the handler computes from the registered and the mentioned emails. */
  function NotificationRecipients(students: map<Email, bool>, registered: seq<Email>, mentioned: seq<Email>): seq<Email>
  {
    AddMentioned(students, Unsuspended(students, registered), mentioned)
  }

  /** Index of the first occurrence of `x` in `xs`. */
  function FirstIndex(xs: seq<Email>, x: Email): (i: nat)
    requires x in xs
    ensures i < |xs| && xs[i] == x && x !in xs[..i]
  {
    if xs[0] == x then 0 else 1 + FirstIndex(xs[1..], x)
  }

  lemma FirstIndexAppend(xs: seq<Email>, y: Email, x: Email)
    requires x in xs
    ensures FirstIndex(xs + [y], x) == FirstIndex(xs, x)
  {
    if xs[0] != x {
      assert (xs + [y])[1..] == xs[1..] + [y];
      FirstIndexAppend(xs[1..], y, x);
    }
  }

  lemma {:induction false} UnsuspendedMembership(students: map<Email, bool>, emails: seq<Email>, e: Email)
    ensures e in Unsuspended(students, emails) <==> e in emails && !Suspended(students, e)
  {
    if emails != [] {
      var init := emails[..|emails| - 1];
      assert emails == init + [emails[|emails| - 1]];
      UnsuspendedMembership(students, init, e);
    }
  }

  lemma {:induction false} UnsuspendedNoDup(students: map<Email, bool>, emails: seq<Email>)
    requires NoDup(emails)
    ensures NoDup(Unsuspended(students, emails))
  {
    if emails != [] {
      var init, last := emails[..|emails| - 1], emails[|emails| - 1];
      assert emails == init + [last];
      NoDupAppend(init, last);
      UnsuspendedNoDup(students, init);
      UnsuspendedMembership(students, init, last);
      NoDupAppend(Unsuspended(students, init), last);
    }
  }

  /** The second loop only appends: the recipients it starts from stay in front. */
  lemma {:induction false} AddMentionedPrefix(students: map<Email, bool>, recipients: seq<Email>, mentioned: seq<Email>)
    ensures |recipients| <= |AddMentioned(students, recipients, mentioned)|
    ensures AddMentioned(students, recipients, mentioned)[..|recipients|] == recipients
    ensures forall i :: |recipients| <= i < |AddMentioned(students, recipients, mentioned)| ==>
              AddMentioned(students, recipients, mentioned)[i] in mentioned
              && Eligible(students, AddMentioned(students, recipients, mentioned)[i])
  {
    if mentioned != [] {
      var init := mentioned[..|mentioned| - 1];
      assert mentioned == init + [mentioned[|mentioned| - 1]];
      AddMentionedPrefix(students, recipients, init);
    }
  }

  lemma {:induction false} AddMentionedMembership(students: map<Email, bool>, recipients: seq<Email>,
                                                  mentioned: seq<Email>, e: Email)
    ensures e in AddMentioned(students, recipients, mentioned)
        <==> e in recipients || (e in mentioned && Eligible(students, e))
  {
    if mentioned != [] {
      var init := mentioned[..|mentioned| - 1];
      assert mentioned == init + [mentioned[|mentioned| - 1]];
      AddMentionedMembership(students, recipients, init, e);
    }
  }

  lemma {:induction false} AddMentionedNoDup(students: map<Email, bool>, recipients: seq<Email>, mentioned: seq<Email>)
    requires NoDup(recipients)
    ensures NoDup(AddMentioned(students, recipients, mentioned))
  {
    if mentioned != [] {
      var init, last := mentioned[..|mentioned| - 1], mentioned[|mentioned| - 1];
      AddMentionedNoDup(students, recipients, init);
      NoDupAppend(AddMentioned(students, recipients, init), last);
    }
  }

  /** The appended mentions are in the order of their first appearance in the text. */
  lemma {:induction false} AddMentionedOrder(students: map<Email, bool>, recipients: seq<Email>,
                                             mentioned: seq<Email>, i: nat, j: nat)
    requires |recipients| <= i < j < |AddMentioned(students, recipients, mentioned)|
    ensures AddMentioned(students, recipients, mentioned)[i] in mentioned
    ensures AddMentioned(students, recipients, mentioned)[j] in mentioned
    ensures FirstIndex(mentioned, AddMentioned(students, recipients, mentioned)[i])
          < FirstIndex(mentioned, AddMentioned(students, recipients, mentioned)[j])
  {
    var r := AddMentioned(students, recipients, mentioned);
    AddMentionedPrefix(students, recipients, mentioned);
    var init, last := mentioned[..|mentioned| - 1], mentioned[|mentioned| - 1];
    assert mentioned == init + [last];
    var acc := AddMentioned(students, recipients, init);
    AddMentionedPrefix(students, recipients, init);
    if j < |acc| {
      AddMentionedOrder(students, recipients, init, i, j);
      FirstIndexAppend(init, last, acc[i]);
      FirstIndexAppend(init, last, acc[j]);
    } else {
      // r[j] is the mention just appended: it did not occur earlier
      assert r == acc + [last] && j == |acc|;
      AddMentionedMembership(students, recipients, init, last);
      assert last !in init;
      assert FirstIndex(mentioned, last) == |init|;
      FirstIndexAppend(init, last, acc[i]);
    }
  }

  /**
   * The recipients are, without duplicates, exactly the eligible students
   * among the teacher's registered students and the mentioned emails; the
   * registered ones come first, in store order.
   */
  lemma NotificationRecipientsSpec(teachers: set<Email>, students: map<Email, bool>,
                                   registrations: seq<TeacherStudent>, teacher: Email, mentioned: seq<Email>)
    requires TablesValid(teachers, students, registrations)
    ensures var r := NotificationRecipients(students, StudentsOf(registrations, teacher), mentioned);
      && NoDup(r)
      && (forall e :: e in r <==>
            Eligible(students, e) && (TeacherStudent(teacher, e) in registrations || e in mentioned))
      && |Unsuspended(students, StudentsOf(registrations, teacher))| <= |r|
      && r[..|Unsuspended(students, StudentsOf(registrations, teacher))|]
           == Unsuspended(students, StudentsOf(registrations, teacher))
  {
    var registered := StudentsOf(registrations, teacher);
    var base := Unsuspended(students, registered);
    StudentsOfNoDup(registrations, teacher);
    UnsuspendedNoDup(students, registered);
    AddMentionedNoDup(students, base, mentioned);
    AddMentionedPrefix(students, base, mentioned);
    StudentsOfExist(teachers, students, registrations, teacher);
    forall e ensures e in NotificationRecipients(students, registered, mentioned) <==>
                     Eligible(students, e) && (TeacherStudent(teacher, e) in registrations || e in mentioned)
    {
      AddMentionedMembership(students, base, mentioned, e);
      UnsuspendedMembership(students, registered, e);
      StudentsOfMembership(registrations, teacher, e);
    }
  }

  // ---------------------------------------------------------------------
  // Registration

  /** The Student table after the first loop: each email not yet a row becomes an unsuspended row. */
  function AddStudents(students: map<Email, bool>, emails: seq<Email>): map<Email, bool>
  {
    if emails == [] then students
    else
      var m := AddStudents(students, emails[..|emails| - 1]);
      var last := emails[|emails| - 1];
      if last in m then m else m[last := NewStudent(last).isSuspended]
  }

  /** The TeacherStudent table after the second loop: each missing pair is appended once. */
  function AddRegistrations(registrations: seq<TeacherStudent>, teacher: Email, emails: seq<Email>): seq<TeacherStudent>
  {
    if emails == [] then registrations
    else
      var rs := AddRegistrations(registrations, teacher, emails[..|emails| - 1]);
      var row := NewTeacherStudent(teacher, emails[|emails| - 1]);
      if row in rs then rs else rs + [row]
  }

  /** The state a successful registration promises. */
  ghost predicate IsRegistered(teachers: set<Email>, students: map<Email, bool>,
                               registrations: seq<TeacherStudent>, teacher: Email, emails: seq<Email>)
  {
    && teacher in teachers
    && (forall s :: s in emails ==> s in students && TeacherStudent(teacher, s) in registrations)
  }

  /**
   * What every registration, even one that fails part-way, keeps: the old
   * teachers, the old students with their flags, and the old registrations
   * in front; any new student is unsuspended.
   */
  ghost predicate Grows(teachers0: set<Email>, students0: map<Email, bool>, registrations0: seq<TeacherStudent>,
                        teachers1: set<Email>, students1: map<Email, bool>, registrations1: seq<TeacherStudent>)
  {
    && teachers0 <= teachers1
    && StudentsGrow(students0, students1)
    && |registrations0| <= |registrations1|
    && registrations1[..|registrations0|] == registrations0
  }

  /** The old students keep their flags; any new student is unsuspended. */
  ghost predicate StudentsGrow(students0: map<Email, bool>, students1: map<Email, bool>)
  {
    && (forall e :: e in students0 ==> e in students1 && students1[e] == students0[e])
    && (forall e :: e in students1 && e !in students0 ==> !students1[e])
  }

  /** Every email of the request fits its column. */
  predicate RequestFits(req: RegisterStudentsToTeacherRequest)
  {
    Fits(req.teacherEmail) && forall s :: s in req.studentEmails ==> Fits(s)
  }

  /**
   * The first loop adds exactly the missing students, unsuspended, and
   * never changes the flag of an existing one.
   */
  lemma {:induction false} AddStudentsSpec(students: map<Email, bool>, emails: seq<Email>)
    ensures forall e :: e in AddStudents(students, emails) <==> e in students || e in emails
    ensures forall e :: e in students ==> AddStudents(students, emails)[e] == students[e]
    ensures forall e :: e in AddStudents(students, emails) && e !in students ==> !AddStudents(students, emails)[e]
  {
    if emails != [] {
      var init := emails[..|emails| - 1];
      assert emails == init + [emails[|emails| - 1]];
      AddStudentsSpec(students, init);
    }
  }

  /** When every email already has a row, the first loop inserts nothing. */
  lemma {:induction false} AddStudentsNoop(students: map<Email, bool>, emails: seq<Email>)
    requires forall e :: e in emails ==> e in students
    ensures AddStudents(students, emails) == students
  {
    if emails != [] {
      var init := emails[..|emails| - 1];
      assert emails == init + [emails[|emails| - 1]];
      AddStudentsNoop(students, init);
    }
  }

  /**
   * The second loop keeps the old rows in front and adds exactly the
   * missing pairs of the teacher with the listed students, each once.
   */
  lemma {:induction false} AddRegistrationsSpec(registrations: seq<TeacherStudent>, teacher: Email, emails: seq<Email>)
    ensures |registrations| <= |AddRegistrations(registrations, teacher, emails)|
    ensures AddRegistrations(registrations, teacher, emails)[..|registrations|] == registrations
    ensures forall row :: row in AddRegistrations(registrations, teacher, emails) <==>
              row in registrations || (row.teacherEmail == teacher && row.studentEmail in emails)
    ensures NoDup(registrations) ==> NoDup(AddRegistrations(registrations, teacher, emails))
  {
    if emails != [] {
      var init, last := emails[..|emails| - 1], emails[|emails| - 1];
      assert emails == init + [last];
      AddRegistrationsSpec(registrations, teacher, init);
      NoDupAppend(AddRegistrations(registrations, teacher, init), TeacherStudent(teacher, last));
      var rs := AddRegistrations(registrations, teacher, init);
      if TeacherStudent(teacher, last) !in rs {
        assert (rs + [TeacherStudent(teacher, last)])[..|registrations|] == rs[..|registrations|];
      }
    }
  }

  /** When every pair is already a row, the second loop inserts nothing. */
  lemma {:induction false} AddRegistrationsNoop(registrations: seq<TeacherStudent>, teacher: Email, emails: seq<Email>)
    requires forall s :: s in emails ==> TeacherStudent(teacher, s) in registrations
    ensures AddRegistrations(registrations, teacher, emails) == registrations
  {
    if emails != [] {
      var init := emails[..|emails| - 1];
      assert emails == init + [emails[|emails| - 1]];
      AddRegistrationsNoop(registrations, teacher, init);
    }
  }

  /** Registering the same request twice leaves the tables as registering it once. */
  lemma RegisterTwiceIsRegisterOnce(students: map<Email, bool>, registrations: seq<TeacherStudent>,
                                    teacher: Email, emails: seq<Email>)
    ensures AddStudents(AddStudents(students, emails), emails) == AddStudents(students, emails)
    ensures AddRegistrations(AddRegistrations(registrations, teacher, emails), teacher, emails)
         == AddRegistrations(registrations, teacher, emails)
  {
    AddStudentsSpec(students, emails);
    AddStudentsNoop(AddStudents(students, emails), emails);
    AddRegistrationsSpec(registrations, teacher, emails);
    AddRegistrationsNoop(AddRegistrations(registrations, teacher, emails), teacher, emails);
  }

  /** The HTTP server: the handlers share one store. */
  class ApiServer {
    const store: Store

    constructor (store: Store)
      ensures this.store == store
    {
      this.store := store;
    }

    /** The teacher block of register: create the teacher unless it exists. */
    method EnsureTeacher(teacherEmail: Email) returns (o: Outcome<Error>)
      requires store.Valid()
      modifies store
      ensures store.Valid()
      ensures o == if Fits(teacherEmail) then Pass else Fail(ValueTooLong)
      ensures store.teachers == if o.Pass? then old(store.teachers) + {teacherEmail} else old(store.teachers)
      ensures store.students == old(store.students) && store.registrations == old(store.registrations)
    {
      var exists_ := store.TeacherExists(teacherEmail);
      if !exists_ {
        var teacher := NewTeacher(teacherEmail);
        var err := store.CreateTeacher(teacher);
        if err.Fail? {
          return err;
        }
      }
      o := Pass;
    }

    /**
     * The first loop of register: create each listed student unless it
     * exists. Stops at the first email that does not fit; the students
     * created before it stay.
     */
    method EnsureStudents(studentEmails: seq<Email>) returns (o: Outcome<Error>)
      requires store.Valid()
      modifies store
      ensures store.Valid()
      ensures o == if forall s :: s in studentEmails ==> Fits(s) then Pass else Fail(ValueTooLong)
      ensures o.Pass? ==> store.students == AddStudents(old(store.students), studentEmails)
      ensures StudentsGrow(old(store.students), store.students)
      ensures store.teachers == old(store.teachers) && store.registrations == old(store.registrations)
    {
      ghost var students0 := store.students;
      for i := 0 to |studentEmails|
        invariant store.Valid()
        invariant store.students == AddStudents(students0, studentEmails[..i])
        invariant store.teachers == old(store.teachers) && store.registrations == old(store.registrations)
        invariant forall j :: 0 <= j < i ==> Fits(studentEmails[j])
      {
        var studentEmail := studentEmails[i];
        assert studentEmails[..i + 1] == studentEmails[..i] + [studentEmail];
        AddStudentsSpec(students0, studentEmails[..i]);
        var exists_ := store.StudentExists(studentEmail);
        if !exists_ {
          var student := NewStudent(studentEmail);
          var err := store.CreateStudent(student);
          if err.Fail? {
            return err;
          }
        }
      }
      assert studentEmails[..|studentEmails|] == studentEmails;
      AddStudentsSpec(students0, studentEmails);
      o := Pass;
    }

    /**
     * The second loop of register: create each (teacher, student) pair
     * unless it exists. With both sides present every insert succeeds.
     */
    method EnsureTeacherStudents(teacherEmail: Email, studentEmails: seq<Email>)
      requires store.Valid()
      requires teacherEmail in store.teachers && forall s :: s in studentEmails ==> s in store.students
      modifies store
      ensures store.Valid()
      ensures store.registrations == AddRegistrations(old(store.registrations), teacherEmail, studentEmails)
      ensures store.teachers == old(store.teachers) && store.students == old(store.students)
    {
      ghost var registrations0 := store.registrations;
      for j := 0 to |studentEmails|
        invariant store.Valid()
        invariant store.teachers == old(store.teachers) && store.students == old(store.students)
        invariant store.registrations == AddRegistrations(registrations0, teacherEmail, studentEmails[..j])
      {
        var studentEmail := studentEmails[j];
        assert studentEmails[..j + 1] == studentEmails[..j] + [studentEmail];
        var exists_ := store.TeacherStudentExists(teacherEmail, studentEmail);
        if !exists_ {
          var teacherStudent := NewTeacherStudent(teacherEmail, studentEmail);
          // The source returns the insert's error here; it cannot occur.
          var err := store.CreateTeacherStudent(teacherStudent);
          assert err.Pass?;
        }
      }
      assert studentEmails[..|studentEmails|] == studentEmails;
    }

    /**
     * Register: check-then-create the teacher, then each student, then each
     * pair. Fails only when an email does not fit its column; the rows
     * inserted before such a failure stay.
     */
    method RegisterStudentsToTeacher(req: RegisterStudentsToTeacherRequest) returns (o: Outcome<Error>)
      requires store.Valid()
      modifies store
      ensures store.Valid()
      ensures o == if RequestFits(req) then Pass else Fail(ValueTooLong)
      ensures o.Pass? ==>
                && store.teachers == old(store.teachers) + {req.teacherEmail}
                && store.students == AddStudents(old(store.students), req.studentEmails)
                && store.registrations == AddRegistrations(old(store.registrations), req.teacherEmail, req.studentEmails)
      ensures o.Pass? ==> IsRegistered(store.teachers, store.students, store.registrations,
                                       req.teacherEmail, req.studentEmails)
      ensures old(IsRegistered(store.teachers, store.students, store.registrations,
                               req.teacherEmail, req.studentEmails)) ==>
                o.Pass? && store.teachers == old(store.teachers) && store.students == old(store.students)
                && store.registrations == old(store.registrations)
      ensures Grows(old(store.teachers), old(store.students), old(store.registrations),
                    store.teachers, store.students, store.registrations)
    {
      ghost var teachers0, students0, registrations0 := store.teachers, store.students, store.registrations;
      assert registrations0[..|registrations0|] == registrations0;
      if IsRegistered(teachers0, students0, registrations0, req.teacherEmail, req.studentEmails) {
        AddStudentsNoop(students0, req.studentEmails);
        AddRegistrationsNoop(registrations0, req.teacherEmail, req.studentEmails);
      }
      o := EnsureTeacher(req.teacherEmail);
      if o.Fail? {
        return;
      }
      o := EnsureStudents(req.studentEmails);
      if o.Fail? {
        return;
      }
      AddStudentsSpec(students0, req.studentEmails);
      EnsureTeacherStudents(req.teacherEmail, req.studentEmails);
      AddRegistrationsSpec(registrations0, req.teacherEmail, req.studentEmails);
    }

    /**
     * Common students: the query list passes straight to the store. For a
     * duplicate-free list the result is the students registered to every
     * listed teacher; a list repeating an email gives no students.
     */
    method GetCommonStudents(teacherEmails: seq<Email>) returns (r: Result<seq<Email>, Error>)
      requires store.Valid()
      ensures r.Failure? <==> |teacherEmails| == 0
      ensures r.Failure? ==> r.error == NoTeacherEmailsProvided
      ensures r.Success? ==> NoDup(r.value)
      ensures r.Success? && NoDup(teacherEmails) ==>
                forall s :: s in r.value <==>
                  forall t :: t in teacherEmails ==> TeacherStudent(t, s) in store.registrations
      ensures r.Success? && !NoDup(teacherEmails) ==> r.value == []
    {
      r := store.GetCommonStudentsOfTeachers(teacherEmails);
      if r.Success? {
        if NoDup(teacherEmails) {
          forall s ensures s in r.value <==>
                             forall t :: t in teacherEmails ==> TeacherStudent(t, s) in store.registrations
          {
            CommonStudentsOfDistinctTeachers(store.teachers, store.students, store.registrations, teacherEmails, s);
          }
        } else {
          RepeatedTeacherHasNoCommonStudents(store.teachers, store.students, store.registrations, teacherEmails);
          EmptyWithoutMembers(r.value);
        }
      }
    }

    /**
     * Suspend: an unknown student is an error and changes nothing;
     * otherwise that student's flag, and nothing else, becomes true.
     */
    method SuspendStudent(req: SuspendStudentRequest) returns (o: Outcome<Error>)
      requires store.Valid()
      modifies store
      ensures store.Valid()
      ensures o == if req.studentEmail in old(store.students) then Pass else Fail(StudentDoesNotExist)
      ensures store.students == if o.Pass? then old(store.students)[req.studentEmail := true] else old(store.students)
      ensures store.teachers == old(store.teachers) && store.registrations == old(store.registrations)
      ensures old(Suspended(store.students, req.studentEmail)) ==> store.students == old(store.students)
    {
      var exists_ := store.StudentExists(req.studentEmail);
      if !exists_ {
        return Fail(StudentDoesNotExist);
      }
      o := store.UpdateStudentSuspendedState(req.studentEmail, true);
    }

    /** The first stage of the notification handler: the teacher's students that are not suspended. */
    method RegisteredRecipients(teacherEmail: Email) returns (recipients: seq<Email>)
      requires store.Valid()
      ensures recipients == Unsuspended(store.students, StudentsOf(store.registrations, teacherEmail))
    {
      var students := store.GetStudentsAssignedToTeacher(teacherEmail);
      recipients := [];
      for i := 0 to |students|
        invariant recipients == Unsuspended(store.students, students[..i])
      {
        assert students[..i + 1] == students[..i] + [students[i]];
        var isSuspended := store.IsStudentSuspended(students[i]);
        if !isSuspended {
          recipients := recipients + [students[i]];
        }
      }
      assert students[..|students|] == students;
    }

    /**
     * The second stage: each match with its `@` removed is appended when it
     * is an existing, unsuspended student not listed yet. `mentioned` is
     * the sequence of stripped matches.
     */
    method AddMentionedRecipients(recipients0: seq<Email>, matches: seq<string>, ghost mentioned: seq<Email>)
      returns (recipients: seq<Email>)
      requires |mentioned| == |matches|
      requires forall i :: 0 <= i < |matches| ==> |matches[i]| > 0 && mentioned[i] == matches[i][1..]
      ensures recipients == AddMentioned(store.students, recipients0, mentioned)
    {
      recipients := recipients0;
      for i := 0 to |matches|
        invariant recipients == AddMentioned(store.students, recipients0, mentioned[..i])
      {
        var studentEmail := matches[i][1..];
        assert mentioned[..i + 1] == mentioned[..i] + [studentEmail];
        var exists_ := store.StudentExists(studentEmail);
        if exists_ {
          var isSuspended := store.IsStudentSuspended(studentEmail);
          if !isSuspended {
            var hasDuplicate := StringExistsInArray(studentEmail, recipients);
            if !hasDuplicate {
              recipients := recipients + [studentEmail];
            }
          }
        }
      }
      assert mentioned[..|matches|] == mentioned;
    }

    /**
     * Retrieve for notifications: the teacher's unsuspended students, then
     * every mention that is an unsuspended student and not yet listed.
     */
    method StudentsToGetNotification(req: StudentsToGetNotificationRequest) returns (recipients: seq<Email>)
      requires store.Valid()
      ensures recipients == NotificationRecipients(store.students, StudentsOf(store.registrations, req.teacherEmail),
                                                   Mentions.MentionedEmails(req.notificationString))
      ensures NoDup(recipients)
      ensures forall e :: e in recipients <==>
                Eligible(store.students, e)
                && (TeacherStudent(req.teacherEmail, e) in store.registrations
                    || e in Mentions.MentionedEmails(req.notificationString))
    {
      recipients := RegisteredRecipients(req.teacherEmail);
      var mentionedStudents := Mentions.FindAllString(req.notificationString);
      Mentions.MentionedEmailsStrip(req.notificationString);
      recipients := AddMentionedRecipients(recipients, mentionedStudents, Mentions.MentionedEmails(req.notificationString));
      NotificationRecipientsSpec(store.teachers, store.students, store.registrations, req.teacherEmail,
                                 Mentions.MentionedEmails(req.notificationString));
    }
  }
}
