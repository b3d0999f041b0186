/**
 * The flow of the repository's handler tests, run against a fresh, empty
 * store: two registrations, two common-students queries, a suspension,
 * and two notifications. The concrete texts and emails are the tests' own.
 */
module Scenarios {
  import opened Wrappers
  import opened Types
  import opened Seqs
  import opened Storage
  import opened Api
  import Mentions

  const Ken: Email := "teacherken@gmail.com"
  const Joe: Email := "teacherjoe@gmail.com"
  const Jon: Email := "studentjon@gmail.com"
  const Hon: Email := "studenthon@gmail.com"
  const KenOnly: Email := "student_only_under_teacher_ken@gmail.com"
  // Written in its parts: local part, `@`, domain, `.`, top-level domain.
  const JoeOnly: Email := "student_only_under_teacher_joe" + "@" + "gmail" + "." + "com"

  const Hello: string := "Hello students! " + "@" + JoeOnly
  const HeyEverybody: string := "Hey everybody"

  /** The first notification text mentions exactly the student only under Joe. */
  lemma HelloMentionsJoeOnly()
    ensures Mentions.FindAllString(Hello) == ["@" + JoeOnly]
    ensures Mentions.MentionedEmails(Hello) == [JoeOnly]
  {
    Mentions.SingleTrailingMention("Hello students! ", "student_only_under_teacher_joe", "gmail", "com");
  }

  /** The second notification text mentions nobody. */
  lemma HeyEverybodyMentionsNobody()
    ensures Mentions.MentionedEmails(HeyEverybody) == []
  {
    Mentions.NoAtNoMentions(HeyEverybody);
  }

  /** The test emails are pairwise distinct. */
  lemma TestEmailsDistinct()
    ensures Ken != Joe
    ensures Jon != Hon && Jon != KenOnly && Jon != JoeOnly
    ensures Hon != KenOnly && Hon != JoeOnly && KenOnly != JoeOnly
  {
    assert Ken[7] != Joe[7];
    assert Jon[7] != Hon[7];
    assert |Jon| != |KenOnly| && |Jon| != |JoeOnly| && |Hon| != |KenOnly| && |Hon| != |JoeOnly|;
    assert KenOnly[27] != JoeOnly[27];
  }

  const KenStudents: seq<Email> := [Jon, Hon, KenOnly]
  const JoeStudents: seq<Email> := [Jon, Hon, JoeOnly]

  /** The rows after registering Ken's and then Joe's students in an empty store. */
  lemma RowsAfterRegistering(rows: seq<TeacherStudent>)
    requires rows == AddRegistrations(AddRegistrations([], Ken, KenStudents), Joe, JoeStudents)
    ensures forall s :: TeacherStudent(Ken, s) in rows <==> s in {Jon, Hon, KenOnly}
    ensures forall s :: TeacherStudent(Joe, s) in rows <==> s in {Jon, Hon, JoeOnly}
  {
    AddRegistrationsSpec([], Ken, KenStudents);
    AddRegistrationsSpec(AddRegistrations([], Ken, KenStudents), Joe, JoeStudents);
    TestEmailsDistinct();
  }

  /** The students after both registrations: the four test students, none suspended. */
  lemma StudentsAfterRegistering(students: map<Email, bool>)
    requires students == AddStudents(AddStudents(map[], KenStudents), JoeStudents)
    ensures forall e :: e in students <==> e in {Jon, Hon, KenOnly, JoeOnly}
    ensures forall e :: e in students ==> !students[e]
  {
    AddStudentsSpec(map[], KenStudents);
    AddStudentsSpec(AddStudents(map[], KenStudents), JoeStudents);
  }

  /** Ken's common students are the three registered under him. */
  lemma CommonOfKen(rows: seq<TeacherStudent>, r: seq<Email>)
    requires forall s :: TeacherStudent(Ken, s) in rows <==> s in {Jon, Hon, KenOnly}
    requires forall s :: s in r <==> forall t :: t in [Ken] ==> TeacherStudent(t, s) in rows
    ensures Elems(r) == {Jon, Hon, KenOnly}
  {
    forall s ensures s in Elems(r) <==> s in {Jon, Hon, KenOnly} {
      assert s in r <==> TeacherStudent(Ken, s) in rows;
    }
  }

  /** Ken's and Joe's common students are the two registered under both. */
  lemma CommonOfKenAndJoe(rows: seq<TeacherStudent>, r: seq<Email>)
    requires forall s :: TeacherStudent(Ken, s) in rows <==> s in {Jon, Hon, KenOnly}
    requires forall s :: TeacherStudent(Joe, s) in rows <==> s in {Jon, Hon, JoeOnly}
    requires forall s :: s in r <==> forall t :: t in [Ken, Joe] ==> TeacherStudent(t, s) in rows
    ensures Elems(r) == {Jon, Hon}
  {
    TestEmailsDistinct();
    forall s ensures s in Elems(r) <==> s in {Jon, Hon} {
      assert s in r <==> TeacherStudent(Ken, s) in rows && TeacherStudent(Joe, s) in rows;
    }
  }

  /** After Jon is suspended, the other three test students can be notified. */
  lemma EligibleAfterSuspendingJon(students: map<Email, bool>, suspended: map<Email, bool>)
    requires forall e :: e in students <==> e in {Jon, Hon, KenOnly, JoeOnly}
    requires forall e :: e in students ==> !students[e]
    requires suspended == students[Jon := true]
    ensures forall e :: Eligible(suspended, e) <==> e in {Hon, KenOnly, JoeOnly}
  {
    TestEmailsDistinct();
  }

  /** Ken's notification reaches his unsuspended students and the eligible mentions. */
  lemma NotifiedByKen(students: map<Email, bool>, rows: seq<TeacherStudent>, mentioned: seq<Email>,
                      r: seq<Email>)
    requires forall e :: Eligible(students, e) <==> e in {Hon, KenOnly, JoeOnly}
    requires forall s :: TeacherStudent(Ken, s) in rows <==> s in {Jon, Hon, KenOnly}
    requires mentioned == [JoeOnly] || mentioned == []
    requires forall e :: e in r <==> Eligible(students, e) && (TeacherStudent(Ken, e) in rows || e in mentioned)
    ensures mentioned == [JoeOnly] ==> Elems(r) == {Hon, KenOnly, JoeOnly}
    ensures mentioned == [] ==> Elems(r) == {Hon, KenOnly}
  {
    TestEmailsDistinct();
    forall e ensures e in Elems(r) <==> e in {Hon, KenOnly} || (e == JoeOnly && e in mentioned) {
      assert e in r <==> Eligible(students, e) && (TeacherStudent(Ken, e) in rows || e in mentioned);
    }
  }

  /**
   * The handler tests in order. Both registrations and the suspension
   * succeed (status 204); each query result is stated as the set the tests
   * compare after sorting, and is free of duplicates.
   */
  method HandlerTests() returns (register1: Outcome<Error>, register2: Outcome<Error>,
                                 common1: Result<seq<Email>, Error>, common2: Result<seq<Email>, Error>,
                                 suspend: Outcome<Error>, notified1: seq<Email>, notified2: seq<Email>)
    ensures register1.Pass? && register2.Pass? && suspend.Pass?
    ensures common1.Success? && NoDup(common1.value) && Elems(common1.value) == {Jon, Hon, KenOnly}
    ensures common2.Success? && NoDup(common2.value) && Elems(common2.value) == {Jon, Hon}
    ensures NoDup(notified1) && Elems(notified1) == {Hon, KenOnly, JoeOnly}
    ensures NoDup(notified2) && Elems(notified2) == {Hon, KenOnly}
  {
    var store := new Store();
    var server := new ApiServer(store);
    register1 := server.RegisterStudentsToTeacher(RegisterStudentsToTeacherRequest(Ken, KenStudents));
    register2 := server.RegisterStudentsToTeacher(RegisterStudentsToTeacherRequest(Joe, JoeStudents));
    RowsAfterRegistering(store.registrations);
    StudentsAfterRegistering(store.students);

    common1 := server.GetCommonStudents([Ken]);
    CommonOfKen(store.registrations, common1.value);
    common2 := server.GetCommonStudents([Ken, Joe]);
    CommonOfKenAndJoe(store.registrations, common2.value);

    ghost var registered := store.students;
    suspend := server.SuspendStudent(SuspendStudentRequest(Jon));
    EligibleAfterSuspendingJon(registered, store.students);

    HelloMentionsJoeOnly();
    notified1 := server.StudentsToGetNotification(StudentsToGetNotificationRequest(Ken, Hello));
    NotifiedByKen(store.students, store.registrations, [JoeOnly], notified1);
    HeyEverybodyMentionsNobody();
    notified2 := server.StudentsToGetNotification(StudentsToGetNotificationRequest(Ken, HeyEverybody));
    NotifiedByKen(store.students, store.registrations, [], notified2);
  }
}
