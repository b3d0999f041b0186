# Teacher–student administration API, modelled in Dafny

The service lets teachers register students, look up the students common to
a set of teachers, suspend a student, and find who receives a notification.
A notification reaches the teacher's registered students and any students
@-mentioned in its text, minus suspended ones. The service keeps three
Postgres tables: `Teacher`, `Student` (with an `is_suspended` flag) and
`TeacherStudent`, whose key is the pair and whose two foreign keys point into
the other tables.

This project models that logic with the database replaced by in-memory
tables, and proves what each operation does to them.

- `wrappers.dfy`: `Option`, `Result` and `Outcome`.
- `types.dfy` (module `Types`): the records, the request types, the
  constructors `NewTeacher`, `NewStudent` and `NewTeacherStudent`, and the
  errors the operations report.
- `seqs.dfy` (module `Seqs`): duplicate-freedom, element sets and the
  cardinality facts the proofs use.
- `storage.dfy` (module `Storage`):
  - `class Store` holds the three tables: a set of teacher emails, a map
    from student email to the suspended flag, and a sequence of
    registrations in store order. Its method per `Storage` query or insert
    is proved against table-level functions.
  - `Valid()` is the table constraint: email columns fit `VARCHAR(255)`,
    the pair key is unique, and the foreign keys hold. Every mutating
    method keeps it.
  - The common-students query is modelled as its `GROUP BY` / `HAVING`
    semantics.
- `mentions.dfy` (module `Mentions`):
  - Go's `regexp.FindAllString` for `@([\w.%+-]+@[\w.-]+\.[a-zA-Z]{2,})`,
    written as a scanner.
  - The predicate `IsMatch` states which substrings the pattern's language
    contains. The scanner is proved sound and complete against it: each
    span is the longest match from its start, and no match is skipped.
- `api.dfy` (module `Api`):
  - `StringExistsInArray`.
  - Specification functions for the recipient list and for the tables after
    a registration.
  - `class ApiServer`, whose handlers are methods over a shared `Store`.
- `scenarios.dfy` (module `Scenarios`): the repository's handler tests as a
  client method on a fresh store, with the expected results proved.

Three behaviours of the code are easy to miss:

- **Common students with a repeated email.** The teacher list is passed to
  the query without deduplication, and the query's `HAVING` compares
  against the list's length. A list that repeats an email therefore yields
  no students; `Storage.RepeatedTeacherHasNoCommonStudents` proves this.
  `Storage.DedupedTeachersGiveIntersection` states what deduplicating first
  would give.
- **Empty register requests.** Registration checks neither the teacher
  email nor the student list for emptiness. A request with no students only
  ensures the teacher exists, and an empty teacher email is stored like any
  other.
- **Adjacent mentions.** The pattern's domain class excludes `@`, so the
  text `@a@x.com@b@y.com` yields two mentions, `@a@x.com` and then
  `@b@y.com`.

## Model

| member | source | states |
|---|---|---|
| Types.NewTeacher | types.go:45-50 | the new teacher has exactly the given email |
| Types.NewStudent | types.go:60-66 | the new student has the given email and starts unsuspended |
| Types.NewTeacherStudent | types.go:76-82 | the row's teacher and student are the arguments, in that order |
| Storage.StudentsOfMembership | storage.go:439-454 | an email is among a teacher's selected students iff that (teacher, student) row exists |
| Storage.StudentsOfNoDup | storage.go:374-381 | with the pair as primary key, a teacher's student list holds no email twice |
| Storage.StudentsOfExist | storage.go:378-379 | under the foreign keys every selected student exists in the Student table |
| Storage.RegisteredTeachersWithin | storage.go:500-506 | the distinct teachers counted for a student come from the list, so the count is at most the list's length |
| Storage.CommonStudentsOfDistinctTeachers | storage.go:500-506 | for a duplicate-free non-empty list, a student passes the HAVING guard iff registered with every listed teacher |
| Storage.RepeatedTeacherHasNoCommonStudents | storage.go:506 | a list that repeats an email can never reach the HAVING count, so no student is returned |
| Storage.UnregisteredTeacherHasNoCommonStudents | storage.go:500-506 | a listed teacher with no registrations leaves no common student |
| Storage.DedupedTeachersGiveIntersection | storage.go:500-506 | deduplicating the list first yields exactly the students registered with every listed teacher |
| Storage.Store.constructor | storage.go:75-90 | a fresh database has three empty tables that satisfy every key and foreign key |
| Storage.Store.CreateTeacher | storage.go:109-127 | inserts the email as one new row unless it is too long for the column or already a key; the other tables are unchanged |
| Storage.Store.GetTeachers | storage.go:153-178 | returns every teacher row exactly once |
| Storage.Store.GetTeacherByEmail | storage.go:129-151 | returns the row for a known email, otherwise the "entry does not exist" error |
| Storage.Store.TeacherExists | storage.go:180-197 | true exactly when the email is a key of the Teacher table |
| Storage.Store.CreateStudent | storage.go:226-245 | inserts the student with its flag unless the email is too long for the column or already a key; the other tables are unchanged |
| Storage.Store.UpdateStudentSuspendedState | storage.go:298-312 | sets the flag of that one student and changes nothing else; an unknown email changes nothing and is not an error |
| Storage.Store.GetStudents | storage.go:271-296 | returns every student row, with its flag, exactly once |
| Storage.Store.GetStudentByEmail | storage.go:247-269 | returns the row with its stored flag for a known email, otherwise "entry does not exist" |
| Storage.Store.StudentExists | storage.go:314-331 | true exactly when the email is a key of the Student table |
| Storage.Store.IsStudentSuspended | storage.go:333-354 | the stored flag for a known student, false for an unknown email |
| Storage.Store.CreateTeacherStudent | storage.go:387-404 | appends one row unless an email is too long, the pair is already a key, or a referenced teacher or student is missing |
| Storage.Store.GetTeacherStudentByEmail | storage.go:406-430 | returns the row when the pair is registered, otherwise "entry does not exist" |
| Storage.Store.GetStudentsAssignedToTeacher | storage.go:432-455 | the student emails of the teacher's rows in store order: exactly the registered students, without duplicates, and none for an unknown teacher |
| Storage.Store.TeacherStudentExists | storage.go:457-474 | true exactly when the (teacher, student) row exists |
| Storage.Store.GetCommonStudentsOfTeachers | storage.go:487-523 | fails with "no teacher emails provided" iff the list is empty; otherwise returns, each once, the students whose distinct registered listed teachers number the list's length |
| Api.StringExistsInArray | api.go:229-236 | true iff the string occurs in the array |
| Api.UnsuspendedMembership | api.go:151-160 | the first loop keeps exactly the listed emails whose flag is not set |
| Api.UnsuspendedNoDup | api.go:151-160 | the first loop adds no duplicates to a duplicate-free list |
| Api.AddMentionedPrefix | api.go:173-199 | the second loop only appends, and each appended email was mentioned and is an unsuspended student |
| Api.AddMentionedMembership | api.go:173-199 | after the second loop an email is a recipient iff it was one before, or it was mentioned and is an existing unsuspended student |
| Api.AddMentionedNoDup | api.go:188-193 | the duplicate check keeps the recipient list duplicate-free |
| Api.AddMentionedOrder | api.go:173-199 | the appended mentions follow the order of their first appearance in the text |
| Api.NotificationRecipientsSpec | api.go:146-199 | the recipients, without duplicates, are exactly the unsuspended existing students that are registered with the teacher or mentioned; the registered ones come first in store order |
| Api.AddStudentsSpec | api.go:60-74 | the first register loop adds exactly the missing students, unsuspended, and keeps every existing student's flag |
| Api.AddStudentsNoop | api.go:67 | when every listed student exists, the first loop inserts nothing |
| Api.AddRegistrationsSpec | api.go:76-90 | the second register loop keeps the old rows in front and adds each missing (teacher, listed student) pair once, keeping the pair key unique |
| Api.AddRegistrationsNoop | api.go:83 | when every pair exists, the second loop inserts nothing |
| Api.RegisterTwiceIsRegisterOnce | api.go:52-90 | applying the same registration twice leaves the tables as applying it once |
| Api.ApiServer.constructor | api.go:18-23 | the server uses the given store |
| Api.ApiServer.EnsureTeacher | api.go:47-58 | the teacher exists afterwards unless the email is too long for its column; only the Teacher table changes |
| Api.ApiServer.EnsureStudents | api.go:60-74 | on success the Student table gains exactly the missing listed students; on failure it still only grew, keeping every old flag |
| Api.ApiServer.EnsureTeacherStudents | api.go:76-90 | with teacher and students present, every missing pair is inserted and no insert fails |
| Api.ApiServer.RegisterStudentsToTeacher | api.go:39-94 | succeeds iff every email fits its column; it then registers the teacher, every student and every pair; a request already in place changes nothing; even a failing request only adds rows and keeps all flags |
| Api.ApiServer.GetCommonStudents | api.go:96-110 | fails iff no teacher is given; the result has no duplicates, is exactly the students registered with every listed teacher for a duplicate-free list, and is empty for a list with a repeat |
| Api.ApiServer.SuspendStudent | api.go:112-136 | an unknown student is the "student does not exist" error and changes nothing; otherwise only that student's flag becomes true, and suspending a suspended student changes nothing |
| Api.ApiServer.RegisteredRecipients | api.go:146-160 | the teacher's selected students without the suspended ones, in store order |
| Api.ApiServer.AddMentionedRecipients | api.go:173-199 | appends, in order, each stripped match that is an existing, unsuspended student not listed yet |
| Api.ApiServer.StudentsToGetNotification | api.go:138-205 | the recipients, without duplicates, are exactly the unsuspended existing students registered with the teacher or mentioned in the text |
| Mentions.RunEnd | api.go:164 | a greedy `+` run: the longest stretch of class characters from a position |
| Mentions.LastTldDot | api.go:164 | the rightmost dot in the domain run that has two letters after it, which is where `[\w.-]+` stops backtracking |
| Mentions.MatchAt | api.go:164-170 | a match found at a position starts with `@` and ends after it |
| Mentions.MatchAtSound | api.go:164 | what the scanner takes at a position is a match of the pattern |
| Mentions.MatchAtComplete | api.go:164 | every match of the pattern at a position is found there, and the one taken is the longest |
| Mentions.Scan | api.go:170 | the spans are the matches taken at their starts, ordered left to right and non-overlapping |
| Mentions.ScanSkipsNonAt | api.go:164-170 | text without `@` starts no match, so the search passes over it |
| Mentions.ScanCoversMatchStarts | api.go:170 | every position where a match can start lies inside a span |
| Mentions.ScanIsLeftmost | api.go:164-170 | the search skips nothing the pattern matches: every match start lies inside a found span |
| Mentions.ScanSpansAreLongestMatches | api.go:164-170 | each found span matches the pattern and is the longest match from its start |
| Mentions.MentionedEmailsStrip | api.go:173-175 | each candidate email is its match without the leading `@` |
| Mentions.FindAllStringMatches | api.go:164-175 | each extracted mention is a whole match of the pattern, begins with `@`, and stripping it gives the candidate email |
| Mentions.NoAtNoMentions | api.go:164-170 | a text without `@` yields no mentions |
| Mentions.SingleTrailingMention | api.go:164-175 | a text free of `@` followed by one well-formed mention yields exactly that mention |
| Scenarios.HelloMentionsJoeOnly | unit_test.go:322-325 | the first notification text mentions exactly the student only under Joe |
| Scenarios.HeyEverybodyMentionsNobody | unit_test.go:394-397 | the second notification text mentions nobody |
| Scenarios.TestEmailsDistinct | unit_test.go:43-59 | the test emails are pairwise distinct |
| Scenarios.RowsAfterRegistering | unit_test.go:43-59 | after both registrations, Ken and Joe each have exactly their three students |
| Scenarios.StudentsAfterRegistering | unit_test.go:43-59 | after both registrations the four test students exist, none suspended |
| Scenarios.CommonOfKen | unit_test.go:124-167 | Ken's common students are his three registered students |
| Scenarios.CommonOfKenAndJoe | unit_test.go:206-244 | Ken's and Joe's common students are the two they share |
| Scenarios.EligibleAfterSuspendingJon | unit_test.go:274-276 | after Jon's suspension the other three students can be notified |
| Scenarios.NotifiedByKen | unit_test.go:322-364 | Ken's notifications reach his unsuspended students plus the eligible mentions |
| Scenarios.HandlerTests | unit_test.go:25-437 | the handler tests in file order on an empty store: both registrations and the suspension succeed, and every query gives the result set its test expects |

## Left out

- HTTP and JSON: routing, request decoding, `WriteJSON` and
  `makeHTTPHandlerFunc`. A handler takes the decoded request and returns
  its result or error; in the service every error becomes status 400.
  An empty recipient list is encoded as JSON `null`; that is not modelled.
- The connection pool, connection acquisition and `NewPostgresStore`. Store
  and connection failures beyond the errors modelled are left out, because
  they cannot be described without the database.
- `Init` and the table creation statements. Only their keys, foreign keys
  and `VARCHAR(255)` widths are kept, as the `Valid()` invariant.
- The order in which the database returns rows. `GetTeachers`,
  `GetStudents` and the common-students query return each row once in an
  unspecified order. `GetStudentsAssignedToTeacher` is modelled in store
  order.
- The SQL text of the common-students query is built by concatenating
  quoted emails. Emails containing quotes can change that query; the model
  uses the query's intended meaning and treats emails as opaque values.
- Storage.Store.CreateTeacher, Storage.Store.CreateStudent,
  Storage.Store.CreateTeacherStudent: these report key and width
  violations. The source issues its inserts with a query call whose rows it
  never reads, so a server-side constraint error may not reach the caller.
  The model reports it.
- Storage.Store.CreateTeacher, Storage.Store.CreateStudent,
  Storage.Store.CreateTeacherStudent, Api.ApiServer.RegisterStudentsToTeacher:
  an email longer than 255 characters is always rejected as too long.
  Postgres rejects it only when a character past the 255th is not a space;
  when the excess is all spaces it cuts the value to 255 characters and
  stores it. That truncation is not modelled.
- The error texts of the 400 responses. Errors are the `Types.Error`
  datatype; the texts from the source and from Postgres are not modelled.
- `CreatedAt` timestamps and the clock: they drive no logic.
- Strings are sequences of characters, not UTF-8 bytes. Every character
  class of the pattern is ASCII, so match boundaries agree.
- Concurrency between requests: every operation is one atomic step.
- main.go: process start-up and environment loading are not part of this
  model.
