/** The two course endpoints that act on behalf of the caller: the user id
    in the request body is replaced by the one the caller's token carries
    before the service is called. */
module CourseRouter {
  import opened Models
  import CourseOps
  import Courses
  import CoursesService

  /** Enrolls the caller, whatever user the request names. */
  method EnrollOnCourse(store: Courses.Store, actorId: int, filter: EnrollmentCreate) returns (r: Result<Enrollment>)
    requires store.Valid()
    modifies store
    ensures store.Valid()
    ensures r.Ok? ==> r.value.userId == actorId && r.value.courseId == filter.courseId
    ensures CourseOps.RegisterUser(old(store.Tables()), filter.(userId := actorId)) == CourseOps.Step(r, store.Tables())
  {
    r := CoursesService.RegisterUserOnCourse(store, filter.(userId := actorId));
  }

  /** Records feedback as written by the caller, whatever user the request names. */
  method SubmitFeedback(store: Courses.Store, actorId: int, filter: FeedbackCreate) returns (r: Result<Feedback>)
    requires store.Valid() && 1 <= filter.rating <= 5
    modifies store
    ensures store.Valid()
    ensures r.Ok? ==> r.value.userId == actorId && r.value.courseId == filter.courseId
    ensures CourseOps.WriteFeedback(old(store.Tables()), filter.(userId := actorId)) == CourseOps.Step(r, store.Tables())
  {
    r := CoursesService.WriteFeedback(store, filter.(userId := actorId));
  }
}
