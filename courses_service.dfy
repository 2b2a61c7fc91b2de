/** The course service: the gated operations run the repository call only
    for the 'admin' role and otherwise answer Forbidden before the store is
    touched; the other operations delegate without a check. */
module CoursesService {
  import opened Models
  import CourseOps
  import Courses

  /** The role check of the gated operations: `role == 'admin'` and
      `role in ['admin']` accept exactly the one role. */
  predicate IsAdmin(role: string)
    ensures IsAdmin(role) <==> role in ["admin"]
  {
    role == "admin"
  }

  /** The course is rebuilt from the eight columns of the request and created. */
  method CreateCourse(store: Courses.Store, course: CourseCreate) returns (r: Course)
    requires store.Valid()
    modifies store
    ensures store.Valid()
    ensures CourseOps.Columns(r) == course && r.id == old(store.nextCourseId)
    ensures CourseOps.CreateCourse(old(store.Tables()), course) == CourseOps.Step(Ok(r), store.Tables())
  {
    r := store.CreateCourse(course);
  }

  method UpdateBanner(store: Courses.Store, role: string, courseId: int, file: Upload, timestamp: string)
    returns (r: Result<Course>)
    requires store.Valid()
    modifies store
    ensures store.Valid()
    ensures !IsAdmin(role) ==> r == Err(Forbidden) && store.Tables() == old(store.Tables())
    ensures IsAdmin(role) ==>
              CourseOps.UpdateBanner(old(store.Tables()), courseId, file, timestamp) == CourseOps.Step(r, store.Tables())
  {
    if IsAdmin(role) {
      r := store.UpdateBanner(courseId, file, timestamp);
    } else {
      r := Err(Forbidden);
    }
  }

  /** Only the schedule of the update is forwarded; its other fields are ignored. */
  method UpdateSchedule(store: Courses.Store, role: string, courseId: int, filter: CourseUpdate)
    returns (r: Result<Course>)
    requires store.Valid()
    modifies store
    ensures store.Valid()
    ensures !IsAdmin(role) ==> r == Err(Forbidden) && store.Tables() == old(store.Tables())
    ensures IsAdmin(role) ==>
              CourseOps.UpdateSchedule(old(store.Tables()), courseId, filter.schedule) == CourseOps.Step(r, store.Tables())
  {
    if IsAdmin(role) {
      r := store.UpdateSchedule(courseId, filter.schedule);
    } else {
      r := Err(Forbidden);
    }
  }

  method DeleteCourse(store: Courses.Store, role: string, courseId: int) returns (r: Result<Course>)
    requires store.Valid()
    modifies store
    ensures store.Valid()
    ensures !IsAdmin(role) ==> r == Err(Forbidden) && store.Tables() == old(store.Tables())
    ensures IsAdmin(role) ==>
              CourseOps.DeleteCourse(old(store.Tables()), courseId) == CourseOps.Step(r, store.Tables())
  {
    if IsAdmin(role) {
      r := store.DeleteCourse(courseId);
    } else {
      r := Err(Forbidden);
    }
  }

  method UpdateCourse(store: Courses.Store, role: string, courseId: int, filter: CourseUpdate)
    returns (r: Result<Course>)
    requires store.Valid()
    modifies store
    ensures store.Valid()
    ensures !IsAdmin(role) ==> r == Err(Forbidden) && store.Tables() == old(store.Tables())
    ensures IsAdmin(role) ==>
              CourseOps.UpdateInfo(old(store.Tables()), courseId, filter) == CourseOps.Step(r, store.Tables())
  {
    if IsAdmin(role) {
      r := store.UpdateInfo(courseId, filter);
    } else {
      r := Err(Forbidden);
    }
  }

  /** The enrolled users of a course, for the admin only. */
  method GetAllUsersInCourse(store: Courses.Store, role: string, courseId: int) returns (r: Result<set<User>>)
    requires store.Valid()
    ensures !IsAdmin(role) <==> r == Err(Forbidden)
    ensures IsAdmin(role) ==>
              r.Ok? && forall u :: u in r.value <==>
                u.id in store.users && store.users[u.id] == u
                && CourseOps.IsEnrolled(store.Tables(), u.id, courseId)
  {
    if IsAdmin(role) {
      r := Ok(CourseOps.EnrolledUsers(store.Tables(), courseId));
    } else {
      r := Err(Forbidden);
    }
  }

  /** Every course with its relationships, for any caller. */
  method GetAllCourses(store: Courses.Store) returns (r: map<int, CourseOps.LoadedCourse>)
    requires store.Valid()
    ensures r.Keys == store.courses.Keys
    ensures forall k | k in r ::
              && r[k].course == store.courses[k]
              && r[k].teachers == Some(CourseOps.TeachersOf(store.Tables(), k))
              && r[k].enrollments == Some(CourseOps.EnrollmentsOf(store.Tables(), k))
              && r[k].feedback == Some(CourseOps.FeedbackOf(store.Tables(), k))
  {
    r := CourseOps.AllCourses(store.Tables());
  }

  method RegisterUserOnCourse(store: Courses.Store, filter: EnrollmentCreate) returns (r: Result<Enrollment>)
    requires store.Valid()
    modifies store
    ensures store.Valid()
    ensures CourseOps.RegisterUser(old(store.Tables()), filter) == CourseOps.Step(r, store.Tables())
  {
    r := store.RegisterUser(filter);
  }

  method WriteFeedback(store: Courses.Store, filter: FeedbackCreate) returns (r: Result<Feedback>)
    requires store.Valid() && 1 <= filter.rating <= 5
    modifies store
    ensures store.Valid()
    ensures CourseOps.WriteFeedback(old(store.Tables()), filter) == CourseOps.Step(r, store.Tables())
  {
    r := store.WriteFeedback(filter);
  }
}
