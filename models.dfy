/** The relational schema of the course platform: one datatype per table row,
    the request shapes the repository receives, the whole store as one value
    (`Db`) and the key, foreign-key, uniqueness and nullability constraints of
    the schema as the predicate `Valid`. */
module Models {

  datatype Option<+T> = None | Some(value: T)

  /** The failure kinds the repository and the service layer raise. */
  datatype Error =
    | NotFound    // a referenced course, user or teacher link is absent
    | BadRequest  // not an image upload, duplicate enrollment, rejected teacher batch
    | Forbidden   // the caller's role is not 'admin'
    | DbError     // the store refused the commit and the transaction was rolled back

  datatype Result<+T> = Ok(value: T) | Err(error: Error)

  /** A calendar date; the core only stores and copies dates. */
  datatype Date = Date(year: int, month: int, day: int)

  /** A JSON document; the core stores it without looking inside. */
  datatype Json = Json(text: string)

  // ---------------------------------------------------------------- rows

  /** CourseRow: every column but the three nullable ones is required. */
  datatype Course = Course(
    id: int,
    name: string,
    description: Option<string>,
    bannerUrl: Option<string>,
    schedule: Option<Json>,
    isFromMisis: bool,
    startDate: Date,
    endDate: Date,
    pointsPerVisit: real)

  datatype User = User(id: int, email: string, role: string)

  datatype Enrollment = Enrollment(id: int, userId: int, courseId: int, status: string)

  datatype Attendance = Attendance(id: int, enrollmentId: int, lessonDate: Date, isAttended: bool)

  datatype Feedback = Feedback(id: int, courseId: int, userId: int, rating: int, comment: Option<string>)

  datatype Log = Log(id: int, userId: int, action: string, timestamp: string)

  // ------------------------------------------------------- request shapes

  /** CourseCreate: the eight course columns a client supplies. */
  datatype CourseCreate = CourseCreate(
    name: string,
    description: Option<string>,
    bannerUrl: Option<string>,
    schedule: Option<Json>,
    isFromMisis: bool,
    startDate: Date,
    endDate: Date,
    pointsPerVisit: real)

  /** CourseUpdate: every field optional; None means "not supplied". */
  datatype CourseUpdate = CourseUpdate(
    name: Option<string>,
    description: Option<string>,
    bannerUrl: Option<string>,
    schedule: Option<Json>,
    isFromMisis: Option<bool>,
    startDate: Option<Date>,
    endDate: Option<Date>,
    pointsPerVisit: Option<real>)

  datatype EnrollmentCreate = EnrollmentCreate(courseId: int, userId: int, status: string)

  datatype FeedbackCreate = FeedbackCreate(courseId: int, rating: int, comment: Option<string>, userId: int)

  /** The two attributes of an uploaded file the core looks at. */
  datatype Upload = Upload(contentType: string, filename: string)

  // ------------------------------------------------------------- the store

  /** Every table, keyed by primary key, the course-teacher link set and the
      next value of each autoincrement sequence the core draws from. */
  datatype Db = Db(
    courses: map<int, Course>,
    users: map<int, User>,
    enrollments: map<int, Enrollment>,
    attendance: map<int, Attendance>,
    feedback: map<int, Feedback>,
    logs: map<int, Log>,
    links: set<(int, int)>,
    nextCourseId: int,
    nextEnrollmentId: int,
    nextFeedbackId: int)

  /** An empty store over a user directory populated elsewhere. */
  function EmptyStore(users: map<int, User>): Db
  {
    Db(map[], users, map[], map[], map[], map[], {}, 1, 1, 1)
  }

  /** Users are keyed by their positive id and their emails are unique. */
  ghost predicate UsersValid(users: map<int, User>)
  {
    && (forall k | k in users :: users[k].id == k && 1 <= k)
    && (forall a, b | a in users && b in users && a != b :: users[a].email != users[b].email)
  }

  /** Rows of an autoincrement table carry their key, drawn from the
      sequence below its next value `next`. */
  ghost predicate CoursesKeyed(courses: map<int, Course>, next: int)
  {
    1 <= next && forall k | k in courses :: courses[k].id == k && 1 <= k < next
  }

  ghost predicate EnrollmentsKeyed(enrollments: map<int, Enrollment>, next: int)
  {
    1 <= next && forall k | k in enrollments :: enrollments[k].id == k && 1 <= k < next
  }

  ghost predicate FeedbackKeyed(feedback: map<int, Feedback>, next: int)
  {
    1 <= next && forall k | k in feedback :: feedback[k].id == k && 1 <= k < next
  }

  /** At most one enrollment per (user, course) pair. The enrollment table
      declares no unique constraint on the pair: registration's check before
      its insert is what keeps this. */
  ghost predicate EnrollmentPairsUnique(enrollments: map<int, Enrollment>)
  {
    forall a, b | a in enrollments && b in enrollments && a != b ::
      enrollments[a].userId != enrollments[b].userId
      || enrollments[a].courseId != enrollments[b].courseId
  }

  /** Some enrollment or feedback row refers to the course. */
  predicate HasDependents(db: Db, courseId: int)
  {
    || (exists k | k in db.enrollments :: db.enrollments[k].courseId == courseId)
    || (exists k | k in db.feedback :: db.feedback[k].courseId == courseId)
  }

  /** The store's invariant. Part of it is declared by the schema: primary
      keys, foreign keys, non-null columns and unique emails. Two parts are
      not, and are kept by the operations instead: one enrollment per
      (user, course) pair, by registration's check, and ratings 1 to 5, by the
      request schema that feedback passes through. */
  ghost predicate Valid(db: Db)
    ensures Valid(db) ==>
              && db.nextCourseId !in db.courses
              && db.nextEnrollmentId !in db.enrollments
              && db.nextFeedbackId !in db.feedback
  {
    && CoursesKeyed(db.courses, db.nextCourseId)
    && UsersValid(db.users)
    && EnrollmentsKeyed(db.enrollments, db.nextEnrollmentId)
    && FeedbackKeyed(db.feedback, db.nextFeedbackId)
    && (forall k | k in db.enrollments ::
          db.enrollments[k].userId in db.users && db.enrollments[k].courseId in db.courses)
    && EnrollmentPairsUnique(db.enrollments)
    && (forall k | k in db.attendance ::
          db.attendance[k].id == k && 1 <= k && db.attendance[k].enrollmentId in db.enrollments)
    && (forall k | k in db.feedback ::
          db.feedback[k].courseId in db.courses && db.feedback[k].userId in db.users
          && 1 <= db.feedback[k].rating <= 5)
    && (forall k | k in db.logs :: db.logs[k].id == k && 1 <= k && db.logs[k].userId in db.users)
    && (forall p | p in db.links :: p.0 in db.courses && p.1 in db.users)
  }
}
