/** The course pages and actions (training/views.py): the filtered course list,
  * the enrol action and the learner's own course list. */
module TrainingViews {
  import opened Strings
  import opened Tables
  import opened Skills
  import opened Workers
  import opened Training
  import opened Store

  /** How the skill parameter of the course list narrows the courses. */
  datatype SkillFilter = AnySkill | SkillId(id: nat) | SkillName(name: string)

  /** The skill parameter cleaned up: surrounding whitespace removed, and `none` in any
    * letter case read as no parameter at all. */
  function NormalizeSkillQuery(raw: string): (q: string)
    ensures q == "" || q == Strip(raw)
    ensures q == "" <==> AllSpace(raw) || Lower(Strip(raw)) == "none"
    ensures Trimmed(q)
  {
    var stripped := Strip(raw);
    if Lower(stripped) == "none" then "" else stripped
  }

  /** An all-digit query selects a skill id, any other non-empty query a skill name part. */
  function ClassifySkillQuery(raw: string): (f: SkillFilter)
    ensures f.AnySkill? <==> NormalizeSkillQuery(raw) == ""
    ensures f.SkillId? <==> IsDigits(NormalizeSkillQuery(raw))
    ensures f.SkillId? ==> f.id == DigitsValue(Strip(raw))
    ensures f.SkillName? ==> f.name == Strip(raw) && f.name != "" && !IsDigits(f.name)
  {
    var q := NormalizeSkillQuery(raw);
    if q == "" then AnySkill
    else if IsDigits(q) then SkillId(DigitsValue(q))
    else SkillName(q)
  }

  /** Writing a skill id in decimal, with or without surrounding whitespace, selects exactly that id. */
  lemma SkillQueryOfId(id: nat, pre: string, post: string)
    requires AllSpace(pre) && AllSpace(post)
    ensures ClassifySkillQuery(pre + Decimal(id) + post) == SkillId(id)
  {
    var d := Decimal(id);
    StripPadded(pre, d, post);
    ClassifyDigits(pre + d + post);
    DecimalRoundTrip(id);
  }

  /** A parameter that strips to digits selects the id those digits spell. */
  lemma ClassifyDigits(raw: string)
    requires IsDigits(Strip(raw))
    ensures ClassifySkillQuery(raw) == SkillId(DigitsValue(Strip(raw)))
  {
    var q := Strip(raw);
    assert Lower(q)[0] == q[0];
    assert NormalizeSkillQuery(raw) == q;
  }

  /** The course's skills satisfy the skill filter; a name filter looks at every skill of the
    * course, active or not. */
  predicate TeachesSkill(course: Course, skills: seq<Skill>, f: SkillFilter) {
    match f
    case AnySkill => true
    case SkillId(id) => id in course.skills
    case SkillName(name) => exists s :: s in skills && s.id in course.skills && IContains(s.name, name)
  }

  datatype CourseListPage = CourseListPage(courses: seq<Course>, availableSkills: seq<Skill>, currentSkill: string)

  /** `course_list`: active courses narrowed by search text in the title or description, by
    * difficulty and by the skill parameter; the page also lists the active skills and echoes
    * the cleaned-up skill parameter. */
  function CourseList(courses: seq<Course>, skills: seq<Skill>, q: string, difficulty: string, skillParam: string)
    : (page: CourseListPage)
    ensures forall c :: c in page.courses <==>
      && c in courses
      && c.isActive
      && (q != "" ==> IContains(c.title, q) || IContains(c.description, q))
      && (difficulty != "" ==> c.difficulty == difficulty)
      && TeachesSkill(c, skills, ClassifySkillQuery(skillParam))
    ensures CourseTableValid(courses) ==> NoDuplicates(page.courses)
    ensures forall s :: s in page.availableSkills <==> s in skills && s.isActive
    ensures page.currentSkill == NormalizeSkillQuery(skillParam)
  {
    var active := Filter(courses, (c: Course) => c.isActive);
    var found :=
      if q != "" then Filter(active, (c: Course) => IContains(c.title, q) || IContains(c.description, q))
      else active;
    var atLevel := if difficulty != "" then Filter(found, (c: Course) => c.difficulty == difficulty) else found;
    var filter := ClassifySkillQuery(skillParam);
    var bySkill := Filter(atLevel, (c: Course) => TeachesSkill(c, skills, filter));
    CourseListPage(bySkill, Filter(skills, (s: Skill) => s.isActive), NormalizeSkillQuery(skillParam))
  }

  /** How the enrol action ended. */
  datatype EnrollOutcome =
    | CourseNotFound
    | ProfileConflict
    | AlreadyEnrolled
    | CourseFull
    | Admitted(enrollment: Enrollment)
    | EnrollmentConflict

  /** `enroll_course`: look up the active course, find or create the caller's profile, refuse
    * a worker with an active enrolment, then a full course, and otherwise store the enrolment.
    * A storage refusal ends the request as a server error. */
  method EnrollCourse(db: Database, user: User, courseId: nat, draws: seq<nat>, now: nat)
    returns (r: EnrollOutcome)
    requires db.Valid() && ValidDraws(draws)
    modifies db`workers, db`nextWorkerId, db`enrollments, db`nextEnrollmentId
    ensures db.Valid()
    ensures r == CourseNotFound <==> FindActiveCourse(db.courses, courseId).None?
    ensures r == CourseNotFound ==> db.workers == old(db.workers)
    ensures FindByUser(old(db.workers), user.id).Some? ==> db.workers == old(db.workers)
    ensures !r.Admitted? ==> db.enrollments == old(db.enrollments)
    ensures r == ProfileConflict ==>
      && db.workers == old(db.workers)
      && FindByUser(old(db.workers), user.id).None?
      && ProvisionRefused(old(db.workers), draws, now)
    ensures
      var course := FindActiveCourse(db.courses, courseId);
      var worker := FindByUser(db.workers, user.id);
      course.Some? && r != ProfileConflict ==>
        && worker.Some?
        && worker.value.user.id == user.id
        && match ViewAdmission(old(db.enrollments), worker.value.id, course.value)
           case Duplicate => r == AlreadyEnrolled
           case AtCapacity => r == CourseFull
           case Admit =>
             if HasEnrollment(old(db.enrollments), worker.value.id, courseId) then r == EnrollmentConflict
             else r == Admitted(NewEnrollment(old(db.nextEnrollmentId), worker.value.id, courseId))
    ensures FindByUser(old(db.workers), user.id).None? && r != CourseNotFound && r != ProfileConflict ==>
      && FindByUser(db.workers, user.id).Some?
      && db.workers == [FindByUser(db.workers, user.id).value] + old(db.workers)
      && Provisioned(old(db.workers), old(db.nextWorkerId), user, draws, now, FindByUser(db.workers, user.id).value)
    ensures r.Admitted? ==> db.enrollments == [r.enrollment] + old(db.enrollments)
    ensures
      var course := FindActiveCourse(db.courses, courseId);
      course.Some? && EnrolledCount(old(db.enrollments), courseId) <= course.value.capacity ==>
        EnrolledCount(db.enrollments, courseId) <= course.value.capacity
    ensures forall c :: c != courseId ==> EnrolledCount(db.enrollments, c) == EnrolledCount(old(db.enrollments), c)
  {
    var found := FindActiveCourse(db.courses, courseId);
    if found.None? {
      return CourseNotFound;
    }
    var course := found.value;
    var profile := db.GetOrCreateWorker(user, draws, now);
    if profile.CreateFailed? {
      return ProfileConflict;
    }
    var worker := profile.worker;
    if HasActiveEnrollment(db.enrollments, worker.id, course.id) {
      return AlreadyEnrolled;
    }
    if IsFull(course, db.enrollments) {
      return CourseFull;
    }
    var stored := db.CreateEnrollment(worker.id, course.id);
    if stored.None? {
      return EnrollmentConflict;
    }
    r := Admitted(stored.value);
    forall c
      ensures EnrolledCount(db.enrollments, c)
           == EnrolledCount(old(db.enrollments), c) + (if c == courseId then 1 else 0)
    {
      EnrolledCountPrepend(stored.value, old(db.enrollments), c);
    }
  }

  /** `my_courses`: find or create the caller's profile, then list its active enrolments. */
  method MyCourses(db: Database, user: User, draws: seq<nat>, now: nat) returns (r: Response<seq<Enrollment>>)
    requires db.Valid() && ValidDraws(draws)
    modifies db`workers, db`nextWorkerId
    ensures db.Valid()
    ensures FindByUser(old(db.workers), user.id).Some? ==> db.workers == old(db.workers) && r.Shown?
    ensures r.ServerError? ==>
      && db.workers == old(db.workers)
      && FindByUser(old(db.workers), user.id).None?
      && ProvisionRefused(old(db.workers), draws, now)
    ensures r.Shown? ==>
      && FindByUser(db.workers, user.id).Some?
      && r.page == ActiveEnrollmentsOf(db.enrollments, FindByUser(db.workers, user.id).value.id)
    ensures r.Shown? && FindByUser(old(db.workers), user.id).None? ==>
      && FindByUser(db.workers, user.id).Some?
      && db.workers == [FindByUser(db.workers, user.id).value] + old(db.workers)
      && Provisioned(old(db.workers), old(db.nextWorkerId), user, draws, now, FindByUser(db.workers, user.id).value)
      && r.page == []
  {
    var profile := db.GetOrCreateWorker(user, draws, now);
    if profile.CreateFailed? {
      return ServerError;
    }
    if profile.Created? {
      NoEnrollmentsFor(db.enrollments, profile.worker.id);
    }
    r := Shown(ActiveEnrollmentsOf(db.enrollments, profile.worker.id));
  }
}
