/** The course repository as functions on the store's value: each operation
    gives its result and the store it commits, or an error and the store as
    it was (the transaction is rolled back or never written). The lemmas
    state what each operation promises and that the schema invariant holds
    after it. */
module CourseOps {
  import opened Models
  import Banner

  /** What a repository call returns and the store it leaves behind. */
  datatype Step<T> = Step(result: Result<T>, db: Db)

  /** A course row with its relationships; None marks one that was not loaded. */
  datatype LoadedCourse = LoadedCourse(
    course: Course,
    teachers: Option<set<User>>,
    enrollments: Option<set<Enrollment>>,
    feedback: Option<set<Feedback>>)

  /** `db'` is `db` with the one course row `c` rewritten and nothing else. */
  predicate CourseRewritten(db: Db, db': Db, c: Course)
  {
    c.id in db.courses && db' == db.(courses := db.courses[c.id := c])
  }

  /** Rewriting the columns of an existing course keeps the schema invariant:
      no key, foreign key or link depends on them. */
  lemma RewritePreservesValid(db: Db, c: Course)
    requires Valid(db) && c.id in db.courses
    ensures Valid(db.(courses := db.courses[c.id := c]))
  {
  }

  /** The eight columns a client supplies for a course. */
  function Columns(c: Course): CourseCreate
  {
    CourseCreate(c.name, c.description, c.bannerUrl, c.schedule, c.isFromMisis,
                 c.startDate, c.endDate, c.pointsPerVisit)
  }

  // ------------------------------------------------------------ creation

  function CreateCourse(db: Db, f: CourseCreate): (r: Step<Course>)
    ensures r.result.Ok? && Columns(r.result.value) == f && r.result.value.id == db.nextCourseId
  {
    var c := Course(db.nextCourseId, f.name, f.description, f.bannerUrl, f.schedule,
                    f.isFromMisis, f.startDate, f.endDate, f.pointsPerVisit);
    Step(Ok(c), db.(courses := db.courses[c.id := c], nextCourseId := db.nextCourseId + 1))
  }

  /** Creation never fails: the row keeps the eight supplied columns, gets a
      key no row had, and nothing else in the store changes. */
  lemma CreateCourseEffect(db: Db, f: CourseCreate)
    requires Valid(db)
    ensures var s := CreateCourse(db, f);
      && s.result.Ok?
      && Columns(s.result.value) == f
      && s.result.value.id !in db.courses
      && s.db.courses == db.courses[s.result.value.id := s.result.value]
      && s.db.(courses := db.courses, nextCourseId := db.nextCourseId) == db
      && Valid(s.db)
  {
  }

  // ---------------------------------------------------- field updates

  predicate IsImage(contentType: string)
  {
    "image/" <= contentType
  }

  /** The content type is checked first, the file is then stored, and only
      after that is the course looked up. */
  function UpdateBanner(db: Db, courseId: int, file: Upload, timestamp: string): (r: Step<Course>)
    ensures r.result.Err? ==> r.db == db
    ensures r.result.Ok? ==> courseId in r.db.courses && r.db.courses[courseId] == r.result.value
  {
    if !IsImage(file.contentType) then Step(Err(BadRequest), db)
    else
      var bannerUrl := Banner.SavePath(courseId, file.filename, timestamp);
      if courseId !in db.courses then Step(Err(NotFound), db)
      else
        var c := db.courses[courseId].(bannerUrl := Some(bannerUrl));
        Step(Ok(c), db.(courses := db.courses[courseId := c]))
  }

  lemma UpdateBannerEffect(db: Db, courseId: int, file: Upload, timestamp: string)
    requires Valid(db)
    ensures var s := UpdateBanner(db, courseId, file, timestamp);
      && (!IsImage(file.contentType) ==> s == Step(Err(BadRequest), db))
      && (IsImage(file.contentType) && courseId !in db.courses ==> s == Step(Err(NotFound), db))
      && (IsImage(file.contentType) && courseId in db.courses ==>
            && s.result.Ok?
            && CourseRewritten(db, s.db, s.result.value)
            && s.result.value == db.courses[courseId].(bannerUrl := s.result.value.bannerUrl)
            && s.result.value.bannerUrl == Some(Banner.SavePath(courseId, file.filename, timestamp)))
      && Valid(s.db)
  {
    var s := UpdateBanner(db, courseId, file, timestamp);
    if s.result.Ok? {
      RewritePreservesValid(db, s.result.value);
    }
  }

  /** The schedule is replaced wholesale, also by None. */
  function UpdateSchedule(db: Db, courseId: int, schedule: Option<Json>): (r: Step<Course>)
    ensures r.result.Err? ==> r.db == db
    ensures r.result.Ok? ==> courseId in r.db.courses && r.db.courses[courseId] == r.result.value
  {
    if courseId !in db.courses then Step(Err(NotFound), db)
    else
      var c := db.courses[courseId].(schedule := schedule);
      Step(Ok(c), db.(courses := db.courses[courseId := c]))
  }

  lemma UpdateScheduleEffect(db: Db, courseId: int, schedule: Option<Json>)
    requires Valid(db)
    ensures var s := UpdateSchedule(db, courseId, schedule);
      && (courseId in db.courses <==> s.result.Ok?)
      && (courseId !in db.courses <==> s.result == Err(NotFound))
      && (s.result.Err? ==> s.db == db)
      && (s.result.Ok? ==>
            && CourseRewritten(db, s.db, s.result.value)
            && s.result.value.schedule == schedule
            && s.result.value == db.courses[courseId].(schedule := schedule))
      && Valid(s.db)
  {
  }

  /** `current` unless a value was supplied. */
  function Override<T>(current: T, supplied: Option<T>): T
  {
    if supplied.Some? then supplied.value else current
  }

  /** Each date is set only when one is supplied; no ordering is checked. */
  function UpdateDates(db: Db, courseId: int, start: Option<Date>, end: Option<Date>): (r: Step<Course>)
    ensures r.result.Err? ==> r.db == db
    ensures r.result.Ok? ==> courseId in r.db.courses && r.db.courses[courseId] == r.result.value
  {
    if courseId !in db.courses then Step(Err(NotFound), db)
    else
      var was := db.courses[courseId];
      var c := was.(startDate := Override(was.startDate, start), endDate := Override(was.endDate, end));
      Step(Ok(c), db.(courses := db.courses[courseId := c]))
  }

  lemma UpdateDatesEffect(db: Db, courseId: int, start: Option<Date>, end: Option<Date>)
    requires Valid(db)
    ensures var s := UpdateDates(db, courseId, start, end);
      && (courseId in db.courses <==> s.result.Ok?)
      && (courseId !in db.courses <==> s.result == Err(NotFound))
      && (s.result.Err? ==> s.db == db)
      && (s.result.Ok? ==>
            var was, c := db.courses[courseId], s.result.value;
            && CourseRewritten(db, s.db, c)
            && (start.Some? ==> c.startDate == start.value)
            && (start.None? ==> c.startDate == was.startDate)
            && (end.Some? ==> c.endDate == end.value)
            && (end.None? ==> c.endDate == was.endDate)
            && c.(startDate := was.startDate, endDate := was.endDate) == was)
      && Valid(s.db)
  {
  }

  /** The six info columns a partial update may set; banner and schedule
      are never taken from it. */
  function ApplyInfo(c: Course, u: CourseUpdate): (r: Course)
    ensures r.id == c.id && r.bannerUrl == c.bannerUrl && r.schedule == c.schedule
  {
    c.(name := Override(c.name, u.name),
       description := if u.description.Some? then u.description else c.description,
       isFromMisis := Override(c.isFromMisis, u.isFromMisis),
       startDate := Override(c.startDate, u.startDate),
       endDate := Override(c.endDate, u.endDate),
       pointsPerVisit := Override(c.pointsPerVisit, u.pointsPerVisit))
  }

  function UpdateInfo(db: Db, courseId: int, u: CourseUpdate): (r: Step<Course>)
    ensures r.result.Err? ==> r.db == db
    ensures r.result.Ok? ==> courseId in r.db.courses && r.db.courses[courseId] == r.result.value
  {
    if courseId !in db.courses then Step(Err(NotFound), db)
    else
      var c := ApplyInfo(db.courses[courseId], u);
      Step(Ok(c), db.(courses := db.courses[courseId := c]))
  }

  lemma UpdateInfoEffect(db: Db, courseId: int, u: CourseUpdate)
    requires Valid(db)
    ensures var s := UpdateInfo(db, courseId, u);
      && (courseId in db.courses <==> s.result.Ok?)
      && (courseId !in db.courses <==> s.result == Err(NotFound))
      && (s.result.Err? ==> s.db == db)
      && (s.result.Ok? ==>
            var was, c := db.courses[courseId], s.result.value;
            && CourseRewritten(db, s.db, c)
            && c.id == was.id
            && c.name == (if u.name.Some? then u.name.value else was.name)
            && c.description == (if u.description.Some? then u.description else was.description)
            && c.isFromMisis == (if u.isFromMisis.Some? then u.isFromMisis.value else was.isFromMisis)
            && c.startDate == (if u.startDate.Some? then u.startDate.value else was.startDate)
            && c.endDate == (if u.endDate.Some? then u.endDate.value else was.endDate)
            && c.pointsPerVisit == (if u.pointsPerVisit.Some? then u.pointsPerVisit.value else was.pointsPerVisit)
            && c.bannerUrl == was.bannerUrl
            && c.schedule == was.schedule)
      && Valid(s.db)
  {
  }

  /** An update that supplies nothing rewrites the row to itself. */
  lemma EmptyUpdateChangesNothing(db: Db, courseId: int)
    requires Valid(db) && courseId in db.courses
    ensures UpdateInfo(db, courseId, CourseUpdate(None, None, None, None, None, None, None, None))
            == Step(Ok(db.courses[courseId]), db)
  {
  }

  // ------------------------------------------------------------- deletion

  /** Deleting a course deletes its teacher links with it; its enrollment and
      feedback rows would have to lose their NOT NULL course reference, so
      the commit fails and nothing is deleted. */
  function DeleteCourse(db: Db, courseId: int): (r: Step<Course>)
    ensures r.result.Err? ==> r.db == db
    ensures r.result.Ok? ==>
              courseId in db.courses && courseId !in r.db.courses && r.result.value == db.courses[courseId]
  {
    if courseId !in db.courses then Step(Err(NotFound), db)
    else if HasDependents(db, courseId) then Step(Err(DbError), db)
    else
      Step(Ok(db.courses[courseId]),
           db.(courses := db.courses - {courseId},
               links := set p | p in db.links && p.0 != courseId))
  }

  lemma DeleteCourseEffect(db: Db, courseId: int)
    requires Valid(db)
    ensures var s := DeleteCourse(db, courseId);
      && (courseId in db.courses && !HasDependents(db, courseId) <==> s.result.Ok?)
      && (courseId !in db.courses <==> s.result == Err(NotFound))
      && (courseId in db.courses && HasDependents(db, courseId) <==> s.result == Err(DbError))
      && (s.result.Err? ==> s.db == db)
      && (s.result.Ok? ==>
            && s.result.value == db.courses[courseId]
            && s.db.courses.Keys == db.courses.Keys - {courseId}
            && (forall k | k in s.db.courses :: s.db.courses[k] == db.courses[k])
            && (forall p: (int, int) | p.0 != courseId :: p in s.db.links <==> p in db.links)
            && (forall p | p in s.db.links :: p.0 != courseId)
            && s.db.(courses := db.courses, links := db.links) == db)
      && Valid(s.db)
  {
  }

  // -------------------------------------------------------- enrollment

  predicate IsEnrolled(db: Db, userId: int, courseId: int)
  {
    exists k | k in db.enrollments ::
      db.enrollments[k].userId == userId && db.enrollments[k].courseId == courseId
  }

  /** The course is looked up first, then the user, then an existing
      enrollment of the pair; the status is the caller's. */
  function RegisterUser(db: Db, req: EnrollmentCreate): (r: Step<Enrollment>)
    ensures r.result.Err? ==> r.db == db
    ensures r.result.Ok? ==>
              r.result.value.id in r.db.enrollments && r.db.enrollments[r.result.value.id] == r.result.value
  {
    if req.courseId !in db.courses then Step(Err(NotFound), db)
    else if req.userId !in db.users then Step(Err(NotFound), db)
    else if IsEnrolled(db, req.userId, req.courseId) then Step(Err(BadRequest), db)
    else
      var e := Enrollment(db.nextEnrollmentId, req.userId, req.courseId, req.status);
      Step(Ok(e), db.(enrollments := db.enrollments[e.id := e],
                      nextEnrollmentId := db.nextEnrollmentId + 1))
  }

  lemma RegisterUserEffect(db: Db, req: EnrollmentCreate)
    requires Valid(db)
    ensures var s := RegisterUser(db, req);
      && (req.courseId in db.courses && req.userId in db.users && !IsEnrolled(db, req.userId, req.courseId)
          <==> s.result.Ok?)
      && (req.courseId !in db.courses ==> s.result == Err(NotFound))
      && (req.courseId in db.courses && req.userId !in db.users ==> s.result == Err(NotFound))
      && (req.courseId in db.courses && req.userId in db.users ==>
            (s.result == Err(BadRequest) <==> IsEnrolled(db, req.userId, req.courseId)))
      && (s.result.Err? ==> s.db == db)
      && (s.result.Ok? ==>
            var e := s.result.value;
            && e.userId == req.userId && e.courseId == req.courseId && e.status == req.status
            && e.id !in db.enrollments
            && s.db.enrollments == db.enrollments[e.id := e]
            && |s.db.enrollments| == |db.enrollments| + 1
            && s.db.(enrollments := db.enrollments, nextEnrollmentId := db.nextEnrollmentId) == db)
      && Valid(s.db)
  {
    var s := RegisterUser(db, req);
    if s.result.Ok? {
      AddEnrollmentPreservesValid(db, s.result.value);
    }
  }

  /** A new enrollment under the next key, of a stored user on a stored
      course the user is not yet enrolled on, keeps the schema invariant. */
  lemma AddEnrollmentPreservesValid(db: Db, e: Enrollment)
    requires Valid(db)
    requires e.id == db.nextEnrollmentId && e.userId in db.users && e.courseId in db.courses
    requires !IsEnrolled(db, e.userId, e.courseId)
    ensures Valid(db.(enrollments := db.enrollments[e.id := e], nextEnrollmentId := db.nextEnrollmentId + 1))
  {
  }

  /** Once a registration succeeded, the same registration is rejected and
      the store stays as it is. */
  lemma RegisterTwiceRejected(db: Db, req: EnrollmentCreate)
    requires Valid(db)
    requires RegisterUser(db, req).result.Ok?
    ensures var db' := RegisterUser(db, req).db;
      RegisterUser(db', req) == Step(Err(BadRequest), db')
  {
    var s := RegisterUser(db, req);
    var e := s.result.value;
    assert s.db.enrollments[e.id] == e;
  }

  // ------------------------------------------------------------ feedback

  /** Only the course is checked; a user id the store does not hold is
      refused by the user foreign key when the row is committed. */
  function WriteFeedback(db: Db, req: FeedbackCreate): (r: Step<Feedback>)
    requires 1 <= req.rating <= 5
    ensures r.result.Err? ==> r.db == db
    ensures r.result.Ok? ==>
              r.result.value.id in r.db.feedback && r.db.feedback[r.result.value.id] == r.result.value
  {
    if req.courseId !in db.courses then Step(Err(NotFound), db)
    else if req.userId !in db.users then Step(Err(DbError), db)
    else
      var f := Feedback(db.nextFeedbackId, req.courseId, req.userId, req.rating, req.comment);
      Step(Ok(f), db.(feedback := db.feedback[f.id := f], nextFeedbackId := db.nextFeedbackId + 1))
  }

  lemma WriteFeedbackEffect(db: Db, req: FeedbackCreate)
    requires Valid(db) && 1 <= req.rating <= 5
    ensures var s := WriteFeedback(db, req);
      && (req.courseId in db.courses && req.userId in db.users <==> s.result.Ok?)
      && (req.courseId !in db.courses <==> s.result == Err(NotFound))
      && (req.courseId in db.courses && req.userId !in db.users <==> s.result == Err(DbError))
      && (s.result.Err? ==> s.db == db)
      && (s.result.Ok? ==>
            var f := s.result.value;
            && f.userId == req.userId && f.courseId == req.courseId
            && f.rating == req.rating && f.comment == req.comment
            && f.id !in db.feedback
            && s.db.feedback == db.feedback[f.id := f]
            && s.db.(feedback := db.feedback, nextFeedbackId := db.nextFeedbackId) == db)
      && Valid(s.db)
  {
  }

  /** Feedback does not depend on an enrollment: an enrolled-or-not user of
      an existing course may write it. */
  lemma FeedbackNeedsNoEnrollment(db: Db, req: FeedbackCreate)
    requires Valid(db) && 1 <= req.rating <= 5
    requires req.courseId in db.courses && req.userId in db.users
    requires !IsEnrolled(db, req.userId, req.courseId)
    ensures WriteFeedback(db, req).result.Ok?
  {
  }

  // -------------------------------------------------------- teacher links

  /** The requested ids not yet linked to the course, in request order and
      with their repetitions. */
  function NewTeacherIds(links: set<(int, int)>, courseId: int, ids: seq<int>): (r: seq<int>)
    ensures |r| <= |ids|
    ensures forall t | t in r :: (courseId, t) !in links
  {
    if ids == [] then []
    else
      var init, t := ids[..|ids| - 1], ids[|ids| - 1];
      NewTeacherIds(links, courseId, init) + (if (courseId, t) in links then [] else [t])
  }

  lemma {:induction false} NewTeacherIdsMembers(links: set<(int, int)>, courseId: int, ids: seq<int>)
    ensures forall t :: t in NewTeacherIds(links, courseId, ids) <==> t in ids && (courseId, t) !in links
  {
    if ids != [] {
      var init, last := ids[..|ids| - 1], ids[|ids| - 1];
      NewTeacherIdsMembers(links, courseId, init);
      assert ids == init + [last];
    }
  }

  lemma {:induction false} NothingNew(links: set<(int, int)>, courseId: int, ids: seq<int>)
    requires forall t | t in ids :: (courseId, t) in links
    ensures NewTeacherIds(links, courseId, ids) == []
  {
    if ids != [] {
      var init := ids[..|ids| - 1];
      assert forall t | t in init :: t in ids;
      NothingNew(links, courseId, init);
    }
  }

  predicate Distinct(s: seq<int>)
  {
    forall i, j | 0 <= i < j < |s| :: s[i] != s[j]
  }

  /** The association table takes a batch when every row references an
      existing course and user and no (course, teacher) pair repeats. */
  predicate BatchAccepted(db: Db, courseId: int, newIds: seq<int>)
  {
    && courseId in db.courses
    && (forall t | t in newIds :: t in db.users)
    && Distinct(newIds)
  }

  /** Every requested id is already linked to the course. */
  predicate AllLinked(links: set<(int, int)>, courseId: int, ids: seq<int>)
  {
    forall t | t in ids :: (courseId, t) in links
  }

  /** No id that is not yet linked to the course is requested twice. */
  predicate UnlinkedOnce(links: set<(int, int)>, courseId: int, ids: seq<int>)
  {
    forall i, j | 0 <= i < j < |ids| && (courseId, ids[i]) !in links :: ids[i] != ids[j]
  }

  lemma DistinctSnoc(s: seq<int>, x: int)
    ensures Distinct(s + [x]) <==> Distinct(s) && x !in s
  {
    var t := s + [x];
    if Distinct(t) {
      forall i, j | 0 <= i < j < |s| ensures s[i] != s[j] {
        assert t[i] == s[i] && t[j] == s[j];
      }
      forall i | 0 <= i < |s| ensures s[i] != x {
        assert t[i] == s[i] && t[|s|] == x;
      }
    }
    if Distinct(s) && x !in s {
      forall i, j | 0 <= i < j < |t| ensures t[i] != t[j] {
        if j < |s| {
          assert t[i] == s[i] && t[j] == s[j];
        } else {
          assert t[i] == s[i] && t[j] == x;
        }
      }
    }
  }

  lemma UnlinkedOnceSnoc(links: set<(int, int)>, courseId: int, init: seq<int>, x: int)
    ensures UnlinkedOnce(links, courseId, init + [x])
            <==> UnlinkedOnce(links, courseId, init) && ((courseId, x) in links || x !in init)
  {
    var ids := init + [x];
    if UnlinkedOnce(links, courseId, ids) {
      forall i, j | 0 <= i < j < |init| && (courseId, init[i]) !in links ensures init[i] != init[j] {
        assert ids[i] == init[i] && ids[j] == init[j];
      }
      if (courseId, x) !in links {
        forall i | 0 <= i < |init| ensures init[i] != x {
          assert ids[i] == init[i] && ids[|init|] == x;
        }
      }
    }
    if UnlinkedOnce(links, courseId, init) && ((courseId, x) in links || x !in init) {
      forall i, j | 0 <= i < j < |ids| && (courseId, ids[i]) !in links ensures ids[i] != ids[j] {
        if j < |init| {
          assert ids[i] == init[i] && ids[j] == init[j];
        } else {
          assert ids[i] == init[i] && ids[j] == x;
        }
      }
    }
  }

  /** The new ids repeat nothing exactly when no unlinked id is requested twice. */
  lemma {:induction false} DistinctNewIds(links: set<(int, int)>, courseId: int, ids: seq<int>)
    ensures Distinct(NewTeacherIds(links, courseId, ids)) <==> UnlinkedOnce(links, courseId, ids)
  {
    if ids != [] {
      var init, x := ids[..|ids| - 1], ids[|ids| - 1];
      assert ids == init + [x];
      DistinctNewIds(links, courseId, init);
      UnlinkedOnceSnoc(links, courseId, init, x);
      var n := NewTeacherIds(links, courseId, init);
      if (courseId, x) !in links {
        assert NewTeacherIds(links, courseId, ids) == n + [x];
        NewTeacherIdsMembers(links, courseId, init);
        DistinctSnoc(n, x);
      } else {
        assert NewTeacherIds(links, courseId, ids) == n;
      }
    }
  }

  /** The store takes an add-teachers request exactly when everything
      requested is already linked, or the course exists, every unlinked id
      is a stored user and no unlinked id is requested twice. */
  lemma AddTeachersAccepted(db: Db, courseId: int, teacherIds: seq<int>)
    ensures AddTeachers(db, courseId, teacherIds).result.Ok?
            <==> || AllLinked(db.links, courseId, teacherIds)
                 || (&& courseId in db.courses
                     && (forall t | t in teacherIds && (courseId, t) !in db.links :: t in db.users)
                     && UnlinkedOnce(db.links, courseId, teacherIds))
  {
    var newIds := NewTeacherIds(db.links, courseId, teacherIds);
    NewTeacherIdsMembers(db.links, courseId, teacherIds);
    DistinctNewIds(db.links, courseId, teacherIds);
    if AllLinked(db.links, courseId, teacherIds) {
      NothingNew(db.links, courseId, teacherIds);
    } else {
      var t :| t in teacherIds && (courseId, t) !in db.links;
      assert t in newIds;
    }
  }

  function AddTeachers(db: Db, courseId: int, teacherIds: seq<int>): (r: Step<()>)
    ensures r.result.Err? ==> r.result.error == BadRequest && r.db == db
  {
    var newIds := NewTeacherIds(db.links, courseId, teacherIds);
    if newIds == [] then Step(Ok(()), db)
    else if !BatchAccepted(db, courseId, newIds) then Step(Err(BadRequest), db)
    else Step(Ok(()), db.(links := db.links + (set t | t in newIds :: (courseId, t))))
  }

  lemma AddTeachersEffect(db: Db, courseId: int, teacherIds: seq<int>)
    requires Valid(db)
    ensures var s := AddTeachers(db, courseId, teacherIds);
      && (AllLinked(db.links, courseId, teacherIds) ==> s == Step(Ok(()), db))
      && (s.result.Ok? <==> || AllLinked(db.links, courseId, teacherIds)
                            || (&& courseId in db.courses
                                && (forall t | t in teacherIds && (courseId, t) !in db.links :: t in db.users)
                                && UnlinkedOnce(db.links, courseId, teacherIds)))
      && (s.result.Err? ==> s.result.error == BadRequest && s.db == db)
      && (s.result.Ok? ==>
            && s.db.links == db.links + (set t | t in teacherIds :: (courseId, t))
            && (forall p: (int, int) | p.0 != courseId :: p in s.db.links <==> p in db.links)
            && s.db.(links := db.links) == db)
      && Valid(s.db)
  {
    var newIds := NewTeacherIds(db.links, courseId, teacherIds);
    NewTeacherIdsMembers(db.links, courseId, teacherIds);
    var added := set t | t in newIds :: (courseId, t);
    var requested := set t | t in teacherIds :: (courseId, t);
    assert db.links + added == db.links + requested;
    if AllLinked(db.links, courseId, teacherIds) {
      NothingNew(db.links, courseId, teacherIds);
    }
    AddTeachersAccepted(db, courseId, teacherIds);
  }

  /** A second call with the same ids finds them all linked and writes nothing. */
  lemma AddTeachersIdempotent(db: Db, courseId: int, teacherIds: seq<int>)
    requires Valid(db)
    requires AddTeachers(db, courseId, teacherIds).result.Ok?
    ensures var db' := AddTeachers(db, courseId, teacherIds).db;
      AddTeachers(db', courseId, teacherIds) == Step(Ok(()), db')
  {
    AddTeachersEffect(db, courseId, teacherIds);
    var db' := AddTeachers(db, courseId, teacherIds).db;
    AddTeachersEffect(db', courseId, teacherIds);
  }

  function RemoveTeacher(db: Db, courseId: int, teacherId: int): (r: Step<()>)
    ensures r.result.Err? ==> r.result.error == NotFound && r.db == db
    ensures r.result.Ok? ==> (courseId, teacherId) in db.links && (courseId, teacherId) !in r.db.links
  {
    if (courseId, teacherId) !in db.links then Step(Err(NotFound), db)
    else Step(Ok(()), db.(links := db.links - {(courseId, teacherId)}))
  }

  lemma RemoveTeacherEffect(db: Db, courseId: int, teacherId: int)
    requires Valid(db)
    ensures var s := RemoveTeacher(db, courseId, teacherId);
      && ((courseId, teacherId) in db.links <==> s.result.Ok?)
      && ((courseId, teacherId) !in db.links <==> s.result == Err(NotFound))
      && (s.result.Err? ==> s.db == db)
      && (s.result.Ok? ==>
            && (courseId, teacherId) !in s.db.links
            && (forall p: (int, int) | p != (courseId, teacherId) :: p in s.db.links <==> p in db.links)
            && s.db.(links := db.links) == db)
      && Valid(s.db)
  {
  }

  // ----------------------------------------------------------- queries

  /** The users linked to the course as teachers. */
  function TeachersOf(db: Db, courseId: int): (r: set<User>)
    requires Valid(db)
    ensures forall u :: u in r <==> u.id in db.users && db.users[u.id] == u && (courseId, u.id) in db.links
  {
    set k | k in db.users && (courseId, k) in db.links :: db.users[k]
  }

  function EnrollmentsOf(db: Db, courseId: int): (r: set<Enrollment>)
    requires Valid(db)
    ensures forall e :: e in r <==> e.id in db.enrollments && db.enrollments[e.id] == e && e.courseId == courseId
  {
    set k | k in db.enrollments && db.enrollments[k].courseId == courseId :: db.enrollments[k]
  }

  function FeedbackOf(db: Db, courseId: int): (r: set<Feedback>)
    requires Valid(db)
    ensures forall f :: f in r <==> f.id in db.feedback && db.feedback[f.id] == f && f.courseId == courseId
  {
    set k | k in db.feedback && db.feedback[k].courseId == courseId :: db.feedback[k]
  }

  /** The course row, with its teachers only when asked for. */
  function CourseById(db: Db, courseId: int, loadTeachers: bool): (r: Option<LoadedCourse>)
    requires Valid(db)
    ensures r.Some? <==> courseId in db.courses
    ensures r.Some? ==>
              && r.value.course == db.courses[courseId]
              && r.value.teachers == (if loadTeachers then Some(TeachersOf(db, courseId)) else None)
              && r.value.enrollments.None? && r.value.feedback.None?
  {
    if courseId !in db.courses then None
    else
      var teachers := if loadTeachers then Some(TeachersOf(db, courseId)) else None;
      Some(LoadedCourse(db.courses[courseId], teachers, None, None))
  }

  /** The course row with its teachers loaded. */
  function FullCourse(db: Db, courseId: int): (r: Option<LoadedCourse>)
    requires Valid(db)
    ensures r == CourseById(db, courseId, true)
  {
    if courseId in db.courses
    then Some(LoadedCourse(db.courses[courseId], Some(TeachersOf(db, courseId)), None, None))
    else None
  }

  /** Every course with its teachers, enrollments and feedback loaded. */
  function AllCourses(db: Db): (r: map<int, LoadedCourse>)
    requires Valid(db)
    ensures r.Keys == db.courses.Keys
    ensures forall k | k in r ::
              && r[k].course == db.courses[k]
              && r[k].teachers == Some(TeachersOf(db, k))
              && r[k].enrollments == Some(EnrollmentsOf(db, k))
              && r[k].feedback == Some(FeedbackOf(db, k))
  {
    map k | k in db.courses ::
      LoadedCourse(db.courses[k], Some(TeachersOf(db, k)), Some(EnrollmentsOf(db, k)), Some(FeedbackOf(db, k)))
  }

  /** The users with an enrollment on the course; a missing course has none. */
  function EnrolledUsers(db: Db, courseId: int): (r: set<User>)
    requires Valid(db)
    ensures forall u :: u in r <==> u.id in db.users && db.users[u.id] == u && IsEnrolled(db, u.id, courseId)
  {
    set k | k in db.enrollments && db.enrollments[k].courseId == courseId :: db.users[db.enrollments[k].userId]
  }

  /** After a successful delete the course can no longer be found. */
  lemma DeletedCourseIsGone(db: Db, courseId: int)
    requires Valid(db)
    requires DeleteCourse(db, courseId).result.Ok?
    ensures var db' := DeleteCourse(db, courseId).db;
      && Valid(db')
      && CourseById(db', courseId, true).None?
      && EnrolledUsers(db', courseId) == {}
      && TeachersOf(db', courseId) == {}
  {
    DeleteCourseEffect(db, courseId);
    var db' := DeleteCourse(db, courseId).db;
    assert forall u :: u !in EnrolledUsers(db', courseId);
    assert forall u :: u !in TeachersOf(db', courseId);
  }
}
