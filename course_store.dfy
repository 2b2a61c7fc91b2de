/** The course repository over the live store: one field per table, each
    repository function a method that looks a row up, checks, and writes the
    row or link back. Every method commits exactly what the corresponding
    CourseOps function describes, so the lemmas proved there hold of it. */
module Courses {
  import opened Models
  import CourseOps
  import Banner

  class Store {
    var courses: map<int, Course>
    var users: map<int, User>
    var enrollments: map<int, Enrollment>
    var attendance: map<int, Attendance>
    var feedback: map<int, Feedback>
    var logs: map<int, Log>
    var links: set<(int, int)>
    var nextCourseId: int
    var nextEnrollmentId: int
    var nextFeedbackId: int

    /** The store's current contents as one value. */
    function Tables(): Db
      reads this
    {
      Db(courses, users, enrollments, attendance, feedback, logs, links,
         nextCourseId, nextEnrollmentId, nextFeedbackId)
    }

    ghost predicate Valid()
      reads this
    {
      Models.Valid(Tables())
    }

    /** An empty course store in front of an existing user directory. */
    constructor (directory: map<int, User>)
      requires UsersValid(directory)
      ensures Valid() && Tables() == EmptyStore(directory)
    {
      courses, users, enrollments, attendance, feedback, logs := map[], directory, map[], map[], map[], map[];
      links := {};
      nextCourseId, nextEnrollmentId, nextFeedbackId := 1, 1, 1;
    }

    /** Writes a changed row of a stored course back; no other table changes. */
    method WriteCourse(c: Course)
      requires Valid() && c.id in courses
      modifies this
      ensures Valid()
      ensures Tables() == old(Tables()).(courses := old(courses)[c.id := c])
    {
      CourseOps.RewritePreservesValid(Tables(), c);
      courses := courses[c.id := c];
    }

    method CreateCourse(f: CourseCreate) returns (c: Course)
      requires Valid()
      modifies this
      ensures Valid()
      ensures CourseOps.CreateCourse(old(Tables()), f) == CourseOps.Step(Ok(c), Tables())
    {
      c := Course(nextCourseId, f.name, f.description, f.bannerUrl, f.schedule,
                  f.isFromMisis, f.startDate, f.endDate, f.pointsPerVisit);
      courses := courses[c.id := c];
      nextCourseId := nextCourseId + 1;
      CourseOps.CreateCourseEffect(old(Tables()), f);
    }

    method UpdateBanner(courseId: int, file: Upload, timestamp: string) returns (r: Result<Course>)
      requires Valid()
      modifies this
      ensures Valid()
      ensures CourseOps.UpdateBanner(old(Tables()), courseId, file, timestamp) == CourseOps.Step(r, Tables())
    {
      if !CourseOps.IsImage(file.contentType) {
        return Err(BadRequest);
      }
      var bannerUrl := Some(Banner.SavePath(courseId, file.filename, timestamp));
      if courseId !in courses {
        return Err(NotFound);
      }
      var course := courses[courseId].(bannerUrl := bannerUrl);
      WriteCourse(course);
      r := Ok(course);
    }

    method UpdateSchedule(courseId: int, schedule: Option<Json>) returns (r: Result<Course>)
      requires Valid()
      modifies this
      ensures Valid()
      ensures CourseOps.UpdateSchedule(old(Tables()), courseId, schedule) == CourseOps.Step(r, Tables())
    {
      if courseId !in courses {
        return Err(NotFound);
      }
      var course := courses[courseId];
      course := course.(schedule := schedule);
      WriteCourse(course);
      r := Ok(course);
    }

    method UpdateDates(courseId: int, start: Option<Date>, end: Option<Date>) returns (r: Result<Course>)
      requires Valid()
      modifies this
      ensures Valid()
      ensures CourseOps.UpdateDates(old(Tables()), courseId, start, end) == CourseOps.Step(r, Tables())
    {
      if courseId !in courses {
        return Err(NotFound);
      }
      var course := courses[courseId];
      if start.Some? {
        course := course.(startDate := start.value);
      }
      if end.Some? {
        course := course.(endDate := end.value);
      }
      WriteCourse(course);
      r := Ok(course);
    }

    /** Sets each info column the update supplies, one at a time. */
    static method ApplyInfo(was: Course, u: CourseUpdate) returns (course: Course)
      ensures course == CourseOps.ApplyInfo(was, u)
    {
      course := was;
      if u.name.Some? {
        course := course.(name := u.name.value);
      }
      if u.description.Some? {
        course := course.(description := u.description);
      }
      if u.isFromMisis.Some? {
        course := course.(isFromMisis := u.isFromMisis.value);
      }
      assert course == was.(name := course.name, description := course.description, isFromMisis := course.isFromMisis);
      if u.startDate.Some? {
        course := course.(startDate := u.startDate.value);
      }
      if u.endDate.Some? {
        course := course.(endDate := u.endDate.value);
      }
      if u.pointsPerVisit.Some? {
        course := course.(pointsPerVisit := u.pointsPerVisit.value);
      }
    }

    method UpdateInfo(courseId: int, u: CourseUpdate) returns (r: Result<Course>)
      requires Valid()
      modifies this
      ensures Valid()
      ensures CourseOps.UpdateInfo(old(Tables()), courseId, u) == CourseOps.Step(r, Tables())
    {
      if courseId !in courses {
        return Err(NotFound);
      }
      var course := ApplyInfo(courses[courseId], u);
      WriteCourse(course);
      r := Ok(course);
    }

    method DeleteCourse(courseId: int) returns (r: Result<Course>)
      requires Valid()
      modifies this
      ensures Valid()
      ensures CourseOps.DeleteCourse(old(Tables()), courseId) == CourseOps.Step(r, Tables())
    {
      if courseId !in courses {
        return Err(NotFound);
      }
      var copy := courses[courseId];
      if HasDependents(Tables(), courseId) {
        return Err(DbError);
      }
      courses := courses - {courseId};
      links := set p | p in links && p.0 != courseId;
      r := Ok(copy);
      CourseOps.DeleteCourseEffect(old(Tables()), courseId);
    }

    method RegisterUser(req: EnrollmentCreate) returns (r: Result<Enrollment>)
      requires Valid()
      modifies this
      ensures Valid()
      ensures CourseOps.RegisterUser(old(Tables()), req) == CourseOps.Step(r, Tables())
    {
      if req.courseId !in courses {
        return Err(NotFound);
      }
      if req.userId !in users {
        return Err(NotFound);
      }
      if CourseOps.IsEnrolled(Tables(), req.userId, req.courseId) {
        return Err(BadRequest);
      }
      var e := Enrollment(nextEnrollmentId, req.userId, req.courseId, req.status);
      enrollments := enrollments[e.id := e];
      nextEnrollmentId := nextEnrollmentId + 1;
      r := Ok(e);
      CourseOps.RegisterUserEffect(old(Tables()), req);
    }

    method WriteFeedback(req: FeedbackCreate) returns (r: Result<Feedback>)
      requires Valid() && 1 <= req.rating <= 5
      modifies this
      ensures Valid()
      ensures CourseOps.WriteFeedback(old(Tables()), req) == CourseOps.Step(r, Tables())
    {
      if req.courseId !in courses {
        return Err(NotFound);
      }
      if req.userId !in users {
        return Err(DbError);
      }
      var f := Feedback(nextFeedbackId, req.courseId, req.userId, req.rating, req.comment);
      feedback := feedback[f.id := f];
      nextFeedbackId := nextFeedbackId + 1;
      r := Ok(f);
      CourseOps.WriteFeedbackEffect(old(Tables()), req);
    }

    /** The requested ids with no link to the course yet: the linked ones are
        collected first, then the request is filtered in order. */
    method NewTeacherIds(courseId: int, teacherIds: seq<int>) returns (newIds: seq<int>)
      ensures newIds == CourseOps.NewTeacherIds(links, courseId, teacherIds)
    {
      var existing := set t | t in teacherIds && (courseId, t) in links;
      newIds := [];
      var i := 0;
      while i < |teacherIds|
        invariant 0 <= i <= |teacherIds|
        invariant newIds == CourseOps.NewTeacherIds(links, courseId, teacherIds[..i])
      {
        var t := teacherIds[i];
        if t !in existing {
          newIds := newIds + [t];
        }
        assert teacherIds[..i + 1][..i] == teacherIds[..i];
        i := i + 1;
      }
      assert teacherIds[..i] == teacherIds;
    }

    method AddTeachers(courseId: int, teacherIds: seq<int>) returns (r: Result<()>)
      requires Valid()
      modifies this
      ensures Valid()
      ensures CourseOps.AddTeachers(old(Tables()), courseId, teacherIds) == CourseOps.Step(r, Tables())
    {
      var newIds := NewTeacherIds(courseId, teacherIds);
      if newIds != [] {
        if !CourseOps.BatchAccepted(Tables(), courseId, newIds) {
          return Err(BadRequest);
        }
        links := links + set t | t in newIds :: (courseId, t);
      }
      r := Ok(());
      CourseOps.AddTeachersEffect(old(Tables()), courseId, teacherIds);
    }

    method RemoveTeacher(courseId: int, teacherId: int) returns (r: Result<()>)
      requires Valid()
      modifies this
      ensures Valid()
      ensures CourseOps.RemoveTeacher(old(Tables()), courseId, teacherId) == CourseOps.Step(r, Tables())
    {
      if (courseId, teacherId) !in links {
        return Err(NotFound);
      }
      links := links - {(courseId, teacherId)};
      r := Ok(());
      CourseOps.RemoveTeacherEffect(old(Tables()), courseId, teacherId);
    }
  }
}
