# Course and enrollment store

A Dafny model of the course layer of a course-enrollment backend: the relational
schema (courses, users, enrollments, attendance, feedback, logs and the
course–teacher links), the course repository that reads and writes it, the
service layer that puts an admin-only role check in front of some repository
calls, the user directory lookup, the login lookup and the construction of the
path a course banner is stored under.

Layout:

- `models.dfy` (`Models`) — one datatype per table row and per request shape;
  the whole store as one value `Db`; the store invariant `Valid`. It joins
  the schema's keys, foreign keys and unique emails with two invariants that
  the operations keep but the schema does not declare: one enrollment per
  (user, course) pair and ratings 1 to 5.
- `course_ops.dfy` (`CourseOps`) — every repository operation as a function
  from a store to its result and the store it commits (`Step`). On an error
  that store is unchanged, because the transaction is rolled back or never
  written. The lemmas about these functions state each operation's
  promises and that `Valid` is preserved.
- `course_store.dfy` (`Courses.Store`) — the live store as a class with one
  field per table. Each repository operation is an imperative method that
  looks a row up, checks it and writes it back. Every method's `ensures` says
  that its result and new state are exactly those of the `CourseOps`
  function, so the `CourseOps` lemmas apply to it.
- `courses_service.dfy` (`CoursesService`) — the role gate and delegation.
- `course_router.dfy` (`CourseRouter`) — the two endpoints that replace the
  request's user id with the caller's.
- `users.dfy` (`Users`), `login.dfy` (`Login`) — the user directory lookups.
- `banner.dfy` (`Banner`) — the banner file name and path. It includes a
  parser that reads a path back, used to prove that the path determines the
  course id, the timestamp and the extension.

Three behaviours of the code shape the model:

- Only the `admin` role passes the service's role check; no operation admits
  teachers.
- Deleting a course does not cascade to its enrollments or feedback.
- Adding teachers has no role check.

## Model

| member | source | states |
|---|---|---|
| `Models.Valid` | src/database/models/models.py:9-73 | the schema's keys, foreign keys and unique emails hold. So do two invariants the operations keep, which the schema does not declare: one enrollment per (user, course) pair, kept by registration's check, and ratings 1 to 5, kept by the request schema. Under all of them, the next value of each key sequence is still unused |
| `CourseOps.RewritePreservesValid` | src/database/models/models.py:6-75 | rewriting the columns of an existing course keeps the whole store invariant: the schema's keys, foreign keys and unique emails, and the pair and rating invariants the operations keep |
| `CourseOps.CreateCourse` | src/database/courses.py:15-23 | creation succeeds; the row keeps the eight supplied columns and takes the next course key |
| `CourseOps.CreateCourseEffect` | src/database/courses.py:15-23 | creation always succeeds. The new row carries exactly the eight supplied columns and a key no existing row has. Only the course table and its sequence change, and the schema invariant holds |
| `Courses.Store.CreateCourse` | src/database/courses.py:15-23 | the returned row and the new store are those `CourseOps.CreateCourse` describes; the invariant is kept |
| `CourseOps.UpdateBanner` | src/database/courses.py:26-41 | a failure commits nothing; on success the returned row is the one stored under the course id |
| `CourseOps.UpdateBannerEffect` | src/database/courses.py:26-41 | a non-image content type gives 400 and no change. Otherwise a missing course gives 404 and no change. Otherwise only that course's `bannerUrl` changes, and it becomes the stored path |
| `Courses.Store.UpdateBanner` | src/database/courses.py:26-41 | commits exactly what `CourseOps.UpdateBanner` describes, 400 before 404 |
| `CourseOps.UpdateSchedule` | src/database/courses.py:44-54 | a failure commits nothing; on success the returned row is the one stored under the course id |
| `CourseOps.UpdateScheduleEffect` | src/database/courses.py:44-54 | succeeds if and only if the course is stored; not-found if and only if it is missing, with no change. Otherwise the schedule is replaced wholesale (None included) and every other column and table stays |
| `Courses.Store.UpdateSchedule` | src/database/courses.py:44-54 | commits exactly what `CourseOps.UpdateSchedule` describes |
| `CourseOps.UpdateDates` | src/database/courses.py:57-72 | a failure commits nothing; on success the returned row is the one stored under the course id |
| `CourseOps.UpdateDatesEffect` | src/database/courses.py:57-72 | succeeds if and only if the course is stored; not-found if and only if it is missing. Each date changes only when one is supplied. No other column changes and no date ordering is checked |
| `Courses.Store.UpdateDates` | src/database/courses.py:57-72 | commits exactly what `CourseOps.UpdateDates` describes |
| `CourseOps.ApplyInfo` | src/database/courses.py:84-95 | a partial update never changes the id, the banner or the schedule |
| `CourseOps.UpdateInfo` | src/database/courses.py:75-104 | a failure commits nothing; on success the returned row is the one stored under the course id |
| `CourseOps.UpdateInfoEffect` | src/database/courses.py:75-104 | succeeds if and only if the course is stored; not-found if and only if it is missing. Each of the six info columns takes the supplied value or keeps the old one. Banner, schedule and id never change, and nothing outside the row changes |
| `CourseOps.EmptyUpdateChangesNothing` | src/database/courses.py:84-95 | an update that supplies no field leaves the row and the store as they were |
| `Courses.Store.ApplyInfo` | src/database/courses.py:84-95 | the six guarded assignments produce the row `CourseOps.ApplyInfo` describes |
| `Courses.Store.UpdateInfo` | src/database/courses.py:75-104 | commits exactly what `CourseOps.UpdateInfo` describes |
| `CourseOps.DeleteCourse` | src/database/courses.py:107-143 | a failure commits nothing. On success the returned snapshot is the row as it was stored, and the course is no longer stored |
| `CourseOps.DeleteCourseEffect` | src/database/courses.py:107-143 | succeeds if and only if the course is stored and nothing references it; not-found if and only if it is missing. A course that some enrollment or feedback references fails the commit with no change. Otherwise it returns a snapshot of the row and removes exactly the row and its teacher links |
| `CourseOps.DeletedCourseIsGone` | src/database/courses.py:107-143 | after a successful delete, the course cannot be fetched and has no enrolled users and no teachers |
| `Courses.Store.DeleteCourse` | src/database/courses.py:107-143 | commits exactly what `CourseOps.DeleteCourse` describes |
| `CourseOps.EnrolledUsers` | src/database/courses.py:146-151 | a user is returned if and only if it is a stored user with an enrollment on the course |
| `CourseOps.TeachersOf` | src/database/courses.py:158 | a user is among a course's teachers if and only if it is stored and linked to the course |
| `CourseOps.EnrollmentsOf` | src/database/courses.py:159 | an enrollment is loaded for a course if and only if it is stored and names that course |
| `CourseOps.FeedbackOf` | src/database/courses.py:160 | a feedback row is loaded for a course if and only if it is stored and names that course |
| `CourseOps.AllCourses` | src/database/courses.py:154-163 | one entry per stored course, with its teachers, enrollments and feedback all loaded |
| `CourseOps.RegisterUser` | src/database/courses.py:166-205 | a failure commits nothing; on success the returned enrollment is stored under its own key |
| `CourseOps.RegisterUserEffect` | src/database/courses.py:166-205 | succeeds if and only if the course and the user are stored and the pair is not enrolled. The checks run in order: a missing course is 404, then a missing user is 404, then 400 if and only if the pair is already enrolled; every error leaves no change. On success exactly one enrollment with the request's user, course and status is added under a fresh key |
| `CourseOps.AddEnrollmentPreservesValid` | src/database/models/models.py:33-43 | an enrollment of a stored user on a stored course, not yet enrolled, under the next key keeps the store invariant, including the pair uniqueness that only this check maintains |
| `CourseOps.RegisterTwiceRejected` | src/database/courses.py:182-190 | repeating a registration that succeeded gives 400 and changes nothing |
| `Courses.Store.RegisterUser` | src/database/courses.py:166-205 | commits exactly what `CourseOps.RegisterUser` describes |
| `CourseOps.WriteFeedback` | src/database/courses.py:208-227 | a failure commits nothing; on success the returned feedback row is stored under its own key |
| `CourseOps.WriteFeedbackEffect` | src/database/courses.py:208-227 | succeeds if and only if the course and the user are stored, whether or not the user is enrolled; not-found if and only if the course is missing. A user the store lacks makes the commit fail. Otherwise exactly one feedback row with the request's values is added under a fresh key |
| `CourseOps.FeedbackNeedsNoEnrollment` | src/database/courses.py:208-227 | writing feedback succeeds for a stored user who is not enrolled on the course |
| `Courses.Store.WriteFeedback` | src/database/courses.py:208-227 | commits exactly what `CourseOps.WriteFeedback` describes |
| `CourseOps.CourseById` | src/database/courses.py:230-242 | found if and only if the course is stored; teachers are loaded only when asked for |
| `CourseOps.FullCourse` | src/database/courses.py:244-250 | the same as `CourseById` asked to load teachers |
| `CourseOps.NewTeacherIds` | src/database/courses.py:265-266 | the new ids are no more than the requested ones, and none of them is linked to the course yet |
| `CourseOps.NewTeacherIdsMembers` | src/database/courses.py:259-266 | an id is among the new ones if and only if it was requested and is not yet linked to the course |
| `CourseOps.NothingNew` | src/database/courses.py:265-268 | when every requested id is already linked, there are no new ids and so no write |
| `Courses.Store.NewTeacherIds` | src/database/courses.py:259-266 | the loop that filters out linked ids computes the new ids in request order |
| `CourseOps.DistinctNewIds` | src/database/courses.py:265-275 | the new ids repeat nothing exactly when no unlinked id is requested twice, that is, when no (course, teacher) pair would be inserted twice |
| `CourseOps.AddTeachersAccepted` | src/database/courses.py:253-282 | the call succeeds if and only if either every requested id is already linked, or three things hold: the course exists, every unlinked id is a stored user, and no unlinked id is requested twice |
| `CourseOps.AddTeachers` | src/database/courses.py:253-282 | the only failure is 400, and it commits nothing |
| `CourseOps.AddTeachersEffect` | src/database/courses.py:253-282 | succeeds exactly under the condition of `AddTeachersAccepted`. A request that is all already linked changes nothing. A rejected batch gives 400 with no change. On success the course's links become the old ones united with every requested id, and no other course's links change |
| `CourseOps.AddTeachersIdempotent` | src/database/courses.py:253-282 | repeating a successful add-teachers call succeeds and changes nothing |
| `Courses.Store.AddTeachers` | src/database/courses.py:253-282 | commits exactly what `CourseOps.AddTeachers` describes |
| `CourseOps.RemoveTeacher` | src/database/courses.py:284-323 | the only failure is 404 with nothing committed. On success the pair was linked and is linked no more |
| `CourseOps.RemoveTeacherEffect` | src/database/courses.py:284-323 | succeeds if and only if that exact (course, teacher) link exists; 404 if and only if it is absent, with no change. Otherwise exactly that one link is removed |
| `Courses.Store.RemoveTeacher` | src/database/courses.py:284-323 | commits exactly what `CourseOps.RemoveTeacher` describes |
| `CoursesService.IsAdmin` | src/service/courses_service.py:26-59 | the two spellings of the check, `role == 'admin'` and `role in ['admin']`, accept the same roles |
| `CoursesService.CreateCourse` | src/service/courses_service.py:9-22 | the created row keeps the eight columns of the request and takes the next course key |
| `CoursesService.UpdateBanner` | src/service/courses_service.py:25-31 | a non-admin gets 403 and the store is untouched; an admin gets the repository's banner update |
| `CoursesService.UpdateSchedule` | src/service/courses_service.py:34-39 | a non-admin gets 403 with no change. An admin gets the repository's schedule update, which receives only the request's schedule |
| `CoursesService.DeleteCourse` | src/service/courses_service.py:42-47 | a non-admin gets 403 with no change; an admin gets the repository's delete |
| `CoursesService.UpdateCourse` | src/service/courses_service.py:50-55 | a non-admin gets 403 with no change; an admin gets the repository's partial info update |
| `CoursesService.GetAllUsersInCourse` | src/service/courses_service.py:58-62 | 403 if and only if the role is not admin; an admin gets exactly the stored users enrolled on the course |
| `CoursesService.GetAllCourses` | src/service/courses_service.py:65-67 | any caller gets every stored course with its relationships loaded |
| `CoursesService.RegisterUserOnCourse` | src/service/courses_service.py:70-73 | delegates to the repository registration with no role check |
| `CoursesService.WriteFeedback` | src/service/courses_service.py:75-78 | delegates to the repository feedback write with no role check |
| `CourseRouter.EnrollOnCourse` | src/routers/course_router.py:68-74 | the enrollment is made for the caller's id, whatever user id the request names |
| `CourseRouter.SubmitFeedback` | src/routers/course_router.py:77-82 | the feedback is recorded for the caller's id, whatever user id the request names |
| `Users.GetUsersByIds` | src/database/users.py:10-14 | returns only stored users whose id was requested, and every one of them. At most one user is returned per distinct requested id, so there are no duplicates |
| `Users.ImageNoLarger` | src/database/users.py:10-14 | the users found for a list of ids are no more than its distinct ids |
| `Login.UserLogin` | src/database/login.py:10-16 | succeeds if and only if the uid is stored, returning that uid and the stored role; otherwise 404 |
| `Login.LoginAgreesWithLookup` | src/database/login.py:10-16 | login succeeds exactly when the directory lookup of the one uid finds a user, and reports that user's role |
| `Banner.Extension` | src/service/save_banner.py:7 | the extension has no '.', is a suffix of the file name, and is preceded there by a '.'. It is the whole name when the name has no '.' |
| `Banner.NatToString` | src/service/save_banner.py:8 | a non-empty string of decimal digits, with no leading zero except for 0 itself (the canonical numeral) |
| `Banner.IntToString` | src/service/save_banner.py:8 | the decimal text of the course id holds no '_' and no '.' |
| `Banner.NatRoundTrip` | src/service/save_banner.py:8 | reading the digits back gives the number |
| `Banner.IntRoundTrip` | src/service/save_banner.py:8 | reading the decimal text of an integer back gives the integer, negative ones included |
| `Banner.FileName` | src/service/save_banner.py:8 | the stored file's name begins with `course_` |
| `Banner.SavePath` | src/service/save_banner.py:10 | the path lies in the `banners/` directory, under a name beginning with `course_` |
| `Banner.SavePathRoundTrip` | src/service/save_banner.py:6-10 | the stored path reads back as the course id, the timestamp and the upload's extension, so two uploads stored at the same path agree on all three |
| `Banner.ExtensionAfterDot` | src/service/save_banner.py:7-8 | the extension of a name that ends in '.' followed by text without '.' is that text |
| `Banner.SavePathKeepsExtension` | src/service/save_banner.py:6-10 | the stored file keeps the uploaded file's extension |

## Left out

- The file write and directory creation of the banner upload are left out, as is the content of the upload. Only the path is modelled.
- Banner.SavePath: a POSIX separator is assumed. `os.path.join` uses the platform's separator, and the model always writes '/'.
- The clock is left out. The banner timestamp is a parameter, and its 14-digit format is not constrained.
- The database session, `async`, concurrency and the HTTP framework are left out. Each repository call is one atomic step on the store.
- CourseOps.RegisterUserEffect: the enrollment table has no unique constraint on (user, course). Pair uniqueness rests only on registration's check before its insert. So two concurrent registrations of the same pair can both pass the check and both insert. The sequential model cannot show this, and `Valid`'s pair uniqueness holds only because calls are modelled one at a time.
- The JSON web token is left out. The router's role and user id are parameters, and a token without a `user_id` is not modelled.
- Floating point is left out. `points_per_visit` is a `real`, and the rating is the integer the request schema admits (1 to 5). The float column that stores the rating is not modelled.
- Error kinds are simplified into four:
  - NotFound. For schedule, dates, info, delete and feedback, the source raises a plain `ValueError`, which surfaces as a server error, not as a 404.
  - BadRequest (400).
  - Forbidden (403).
  - DbError. A commit the store refuses, followed by a rollback.
  The kinds keep the order in which each operation checks.
- CourseOps.CreateCourse: keys and ids are unbounded integers, so creation always succeeds and every id is looked up. In the source, keys are 32-bit `Integer` columns on PostgreSQL through asyncpg, and the request accepts any Python int. Three gaps follow, none of them modelled:
  - once the course key sequence is exhausted, creation fails;
  - an id outside the 32-bit range is refused by the driver at the first query, before any lookup. This holds for every member that takes a course or user id:
    - `CourseOps.UpdateBanner`, `UpdateSchedule`, `UpdateDates`, `UpdateInfo`, `DeleteCourse`, `RegisterUser`, `WriteFeedback`, `EnrolledUsers`, `CourseById`, `FullCourse`, `AddTeachers` and `RemoveTeacher`;
    - `CoursesService.GetAllUsersInCourse`, `Login.UserLogin` and `Users.GetUsersByIds`, the last failing if any one requested id is out of range;
    - the `Courses.Store`, `CoursesService` and `CourseRouter` members that pass an id on to these.
    For all of them the source gives a server error, where the model answers as it does for any other id: 404, 400, Ok, or the users it finds;
  - for the banner update, that server error comes after the file has been written.
  `CourseOps.AddTeachers` with such a course id and an empty request also escapes as a server error, where the model returns Ok with no change.
- CourseOps.CreateCourse, CourseOps.UpdateInfo, CourseOps.RegisterUser, CourseOps.WriteFeedback: strings are any `seq<char>`. PostgreSQL's text and varchar columns cannot hold U+0000, and asyncpg refuses such a value with a data error, which is not an `IntegrityError`. None of the following is modelled, and the model returns Ok in each case:
  - course creation (courses.py:20 catches only `IntegrityError`) escapes as a server error and stores nothing, so `CreateCourseEffect`'s "always succeeds" does not hold for such a text column;
  - an info update whose name or description holds U+0000 is rolled back and re-raised (courses.py:100-102);
  - a registration status holding it gives the 500 of courses.py:203-205;
  - a feedback comment holding it fails the commit at courses.py:224, uncaught.
- Sequence values that PostgreSQL consumes on a rolled-back insert are left out. The model advances a key counter only on success.
- Result order of the queries is left out: results are sets and maps. Row object identity is left out too: rows are values.
- The course–teacher association table and the `CourseRow.teachers` relationship are not declared in models.py. The model assumes a link table with a composite (course, teacher) key and foreign keys to both tables.
- The add and remove code rely on two different, incompatible interfaces for the undeclared `course_teachers`, so under any one definition one of them always raises.
  - Adding teachers treats it as a mapped class: `.course_id` with no `.c` (courses.py:261), `link.teacher_id` on a scalar (courses.py:265), and a constructor call (courses.py:270).
  - Removing a teacher treats it as a `Table`: `.c` (courses.py:293), `scalar_one_or_none()` giving the first column (courses.py:297), and `.delete()` (courses.py:306).
  Against a `Table`, adding teachers raises an AttributeError or a TypeError. Against a mapped class, removing a teacher raises an AttributeError. The model gives each operation what its code evidently intends, and does not model either failure.
- CourseOps.AddTeachers: the store's refusal of a batch is modelled as "the course is missing, a new id is not a user, or a new id repeats". Other integrity failures are not modelled.
- CourseOps.WriteFeedback: a user id the store lacks is modelled as the user foreign key refusing the commit, which PostgreSQL does. No repository check for this exists.
- CourseOps.DeleteCourse: relationships without a delete cascade mean enrollments and feedback keep their NOT NULL course reference. The model therefore rejects the delete of a referenced course, instead of inventing a cascade. Attendance rows only reference enrollments and are untouched.
- The unreachable error paths are left out:
  - the integrity errors of course creation and of registration's commit, since the types enforce the NOT NULL columns. The other errors of these commits are not unreachable: see the line on U+0000;
  - the generic 500 path of teacher removal;
  - the `ValueError` wrapper in `get_course_by_id`.
- Teacher removal, read as intended against a `Table`, reads the first column of the link it finds, the course id, so a link with course id 0 would read as missing. Course keys start at 1, so the model treats absence of the pair as the only 404.
- The default `is_from_misis=False` of the schema never applies, because the service always passes the field. It is not modelled.
- The debug output `print('hi')` of the banner service and the router's `print(role)` are left out: they only write to the console.
- The `Log` and `Attendance` tables are only present for their foreign keys. No operation of the course layer writes them.
