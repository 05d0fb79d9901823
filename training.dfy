/** Courses, their modules and enrolments (training/models.py), together with
  * the admission rule the enrol action applies before it stores an enrolment. */
module Training {
  import opened Tables

  /** A `Course` row; `skills` holds the ids of the skills it teaches. */
  datatype Course = Course(
    id: nat,
    title: string,
    description: string,
    skills: set<nat>,
    capacity: nat,
    difficulty: string,
    isActive: bool)

  const DefaultCapacity: nat := 30

  predicate CourseTableValid(courses: seq<Course>) {
    forall i, j :: 0 <= i < j < |courses| ==> courses[i].id != courses[j].id
  }

  /** The `status` choice field. */
  datatype Status = Enrolled | InProgress | Completed | Dropped

  /** An `Enrollment` row: worker `workerId` registered in course `courseId`. */
  datatype Enrollment = Enrollment(
    id: nat,
    workerId: nat,
    courseId: nat,
    status: Status,
    progress: nat,
    certificateIssued: bool,
    rating: Option<nat>,
    isActive: bool)

  /** The validators on one row: progress in [0,100], rating absent or in [1,5]. */
  predicate EnrollmentValid(e: Enrollment) {
    e.progress <= 100 && (e.rating.Some? ==> 1 <= e.rating.value <= 5)
  }

  /** `unique_together = ['worker', 'course']`, over active and inactive rows alike. */
  predicate UniquePairs(rows: seq<Enrollment>) {
    forall i, j :: 0 <= i < j < |rows| ==>
      !(rows[i].workerId == rows[j].workerId && rows[i].courseId == rows[j].courseId)
  }

  predicate EnrollmentTableValid(rows: seq<Enrollment>) {
    && UniquePairs(rows)
    && (forall i, j :: 0 <= i < j < |rows| ==> rows[i].id != rows[j].id)
    && (forall e :: e in rows ==> EnrollmentValid(e))
  }

  /** An enrolment as the enrol action creates it: every field but the pair at its default. */
  function NewEnrollment(id: nat, workerId: nat, courseId: nat): (e: Enrollment)
    ensures EnrollmentValid(e)
    ensures e.workerId == workerId && e.courseId == courseId && e.isActive
    ensures e.status == Enrolled && e.progress == 0 && !e.certificateIssued && e.rating == None
  {
    Enrollment(id, workerId, courseId, Enrolled, 0, false, None, true)
  }

  /** `enrolled_count`: the active enrolments of course `courseId`. */
  function EnrolledCount(rows: seq<Enrollment>, courseId: nat): (n: nat)
    ensures n <= |rows|
  {
    if rows == [] then 0
    else (if rows[0].courseId == courseId && rows[0].isActive then 1 else 0) + EnrolledCount(rows[1..], courseId)
  }

  /** A row put in front of the table adds one to the count exactly when it is an active
    * enrolment of that course; inactive rows and other courses' rows never count. */
  lemma EnrolledCountPrepend(e: Enrollment, rows: seq<Enrollment>, courseId: nat)
    ensures EnrolledCount([e] + rows, courseId)
         == EnrolledCount(rows, courseId) + (if e.courseId == courseId && e.isActive then 1 else 0)
  {
    assert ([e] + rows)[1..] == rows;
  }

  /** The count is zero exactly when no active row of the course exists. */
  lemma {:induction false} EnrolledCountZero(rows: seq<Enrollment>, courseId: nat)
    ensures EnrolledCount(rows, courseId) == 0 <==> forall e :: e in rows ==> !(e.courseId == courseId && e.isActive)
  {
    if rows != [] {
      EnrolledCountZero(rows[1..], courseId);
      assert forall e :: e in rows ==> e == rows[0] || e in rows[1..];
    }
  }

  /** `is_full`. */
  predicate IsFull(course: Course, rows: seq<Enrollment>) {
    EnrolledCount(rows, course.id) >= course.capacity
  }

  /** `available_spots`: the free places, never negative and never more than the capacity;
    * none are left exactly when the course is full. */
  function AvailableSpots(course: Course, rows: seq<Enrollment>): (n: nat)
    ensures n <= course.capacity
    ensures n == 0 <==> IsFull(course, rows)
    ensures n > 0 ==> n + EnrolledCount(rows, course.id) == course.capacity
  {
    var free := course.capacity - EnrolledCount(rows, course.id);
    if free < 0 then 0 else free
  }

  /** An active enrolment of the worker in the course exists. */
  predicate HasActiveEnrollment(rows: seq<Enrollment>, workerId: nat, courseId: nat) {
    exists e :: e in rows && e.workerId == workerId && e.courseId == courseId && e.isActive
  }

  /** Any enrolment row of the worker in the course exists, active or not. */
  predicate HasEnrollment(rows: seq<Enrollment>, workerId: nat, courseId: nat) {
    exists e :: e in rows && e.workerId == workerId && e.courseId == courseId
  }

  /** What the enrol action decides before it stores anything. */
  datatype Decision = Duplicate | AtCapacity | Admit

  /** The checks of the enrol action as written: an ACTIVE enrolment is a duplicate, then
    * a full course is refused, otherwise the enrolment is admitted. */
  function ViewAdmission(rows: seq<Enrollment>, workerId: nat, course: Course): (a: Decision)
    ensures a == Duplicate <==> HasActiveEnrollment(rows, workerId, course.id)
    ensures a == AtCapacity ==> EnrolledCount(rows, course.id) >= course.capacity
    ensures a == Admit ==> AvailableSpots(course, rows) > 0
  {
    if HasActiveEnrollment(rows, workerId, course.id) then Duplicate
    else if IsFull(course, rows) then AtCapacity
    else Admit
  }

  /** The admission rule made consistent with the table's uniqueness: ANY existing row for
    * the pair, active or not, is a duplicate. */
  function Admission(rows: seq<Enrollment>, workerId: nat, course: Course): (a: Decision)
    ensures a == Admit ==> !HasEnrollment(rows, workerId, course.id) && AvailableSpots(course, rows) > 0
    ensures a == Duplicate <==> HasEnrollment(rows, workerId, course.id)
  {
    if HasEnrollment(rows, workerId, course.id) then Duplicate
    else if IsFull(course, rows) then AtCapacity
    else Admit
  }

  /** The admission check as written lets through a worker whose only enrolment in the
    * course is inactive, and the row it would then store breaks the table's uniqueness. */
  lemma ViewAdmissionBreaksUniqueness()
    ensures var rows := [Enrollment(1, 7, 3, Dropped, 40, false, None, false)];
            var course := Course(3, "Python Basics", "", {}, DefaultCapacity, "beginner", true);
            && EnrollmentTableValid(rows)
            && ViewAdmission(rows, 7, course) == Admit
            && !UniquePairs([NewEnrollment(2, 7, 3)] + rows)
  {
    var rows := [Enrollment(1, 7, 3, Dropped, 40, false, None, false)];
    assert EnrolledCount(rows, 3) == 0 by { assert rows[1..] == []; }
    assert !HasActiveEnrollment(rows, 7, 3) by { assert forall e :: e in rows ==> e == rows[0]; }
    var stored := [NewEnrollment(2, 7, 3)] + rows;
    assert stored[0].workerId == stored[1].workerId && stored[0].courseId == stored[1].courseId;
  }

  /** The two rules differ only on a worker with an inactive row for the course. */
  lemma AdmissionAgreesWithView(rows: seq<Enrollment>, workerId: nat, course: Course)
    requires forall e :: e in rows && e.workerId == workerId && e.courseId == course.id ==> e.isActive
    ensures Admission(rows, workerId, course) == ViewAdmission(rows, workerId, course)
  {
  }

  /** The enrol action with the corrected admission rule, as a transition on the table:
    * the decision and the table afterwards. */
  function Enroll(rows: seq<Enrollment>, workerId: nat, course: Course, id: nat): (r: (Decision, seq<Enrollment>))
    ensures r.0 == Admission(rows, workerId, course)
    ensures r.0 != Admit ==> r.1 == rows
    ensures r.0 == Admit ==> r.1 == [NewEnrollment(id, workerId, course.id)] + rows
  {
    var a := Admission(rows, workerId, course);
    if a == Admit then (a, [NewEnrollment(id, workerId, course.id)] + rows) else (a, rows)
  }

  /** One enrolment keeps the table valid, keeps the course within its capacity when it was,
    * adds one to that course's count on admission and leaves every other count alone. */
  lemma EnrollPreserves(rows: seq<Enrollment>, workerId: nat, course: Course, id: nat)
    requires EnrollmentTableValid(rows)
    requires forall e :: e in rows ==> e.id < id
    ensures var after := Enroll(rows, workerId, course, id).1;
      && EnrollmentTableValid(after)
      && (forall e :: e in after ==> e.id < id + 1)
      && (EnrolledCount(rows, course.id) <= course.capacity ==> EnrolledCount(after, course.id) <= course.capacity)
      && (Enroll(rows, workerId, course, id).0 == Admit ==>
            EnrolledCount(after, course.id) == EnrolledCount(rows, course.id) + 1)
      && (forall c :: c != course.id ==> EnrolledCount(after, c) == EnrolledCount(rows, c))
  {
    var (a, after) := Enroll(rows, workerId, course, id);
    if a == Admit {
      var e := NewEnrollment(id, workerId, course.id);
      forall c
        ensures EnrolledCount(after, c) == EnrolledCount(rows, c) + (if c == course.id then 1 else 0)
      {
        EnrolledCountPrepend(e, rows, c);
      }
      forall i, j | 0 <= i < j < |after|
        ensures !(after[i].workerId == after[j].workerId && after[i].courseId == after[j].courseId)
        ensures after[i].id != after[j].id
      {
        if i == 0 {
          assert after[j] == rows[j - 1];
        } else {
          assert after[i] == rows[i - 1] && after[j] == rows[j - 1];
        }
      }
    }
  }

  /** `worker.enrollments.all()`: every enrolment row of the worker, active or not, newest first. */
  function EnrollmentsOf(rows: seq<Enrollment>, workerId: nat): (r: seq<Enrollment>)
    ensures forall e :: e in r <==> e in rows && e.workerId == workerId
    ensures |r| <= |rows|
  {
    Filter(rows, (e: Enrollment) => e.workerId == workerId)
  }

  /** The active enrolments of worker `workerId`, newest first. */
  function ActiveEnrollmentsOf(rows: seq<Enrollment>, workerId: nat): (r: seq<Enrollment>)
    ensures forall e :: e in r <==> e in rows && e.workerId == workerId && e.isActive
    ensures |r| <= |rows|
  {
    Filter(rows, (e: Enrollment) => e.workerId == workerId && e.isActive)
  }

  /** The number of the worker's enrolments whose status is `completed`, active or not. */
  function CompletedCount(rows: seq<Enrollment>, workerId: nat): (n: nat)
    ensures n <= |EnrollmentsOf(rows, workerId)|
    ensures n == 0 <==> forall e :: e in rows && e.workerId == workerId ==> e.status != Completed
  {
    if rows == [] then 0
    else
      var rest := CompletedCount(rows[1..], workerId);
      assert forall e :: e in rows ==> e == rows[0] || e in rows[1..];
      FilterPrepend(rows[0], rows[1..], (e: Enrollment) => e.workerId == workerId);
      assert rows == [rows[0]] + rows[1..];
      (if rows[0].workerId == workerId && rows[0].status == Completed then 1 else 0) + rest
  }

  /** `worker.enrollments.filter(status='completed')`: the worker's completed rows. */
  function CompletedOf(rows: seq<Enrollment>, workerId: nat): (r: seq<Enrollment>)
    ensures forall e :: e in r <==> e in rows && e.workerId == workerId && e.status == Completed
  {
    Filter(rows, (e: Enrollment) => e.workerId == workerId && e.status == Completed)
  }

  /** The completed count is `.count()` of the completed rows: each of them counts once. */
  lemma {:induction false} CompletedCountIsFilterLength(rows: seq<Enrollment>, workerId: nat)
    ensures CompletedCount(rows, workerId) == |CompletedOf(rows, workerId)|
  {
    if rows != [] {
      CompletedCountIsFilterLength(rows[1..], workerId);
      FilterPrepend(rows[0], rows[1..], (e: Enrollment) => e.workerId == workerId && e.status == Completed);
      assert rows == [rows[0]] + rows[1..];
    }
  }

  /** A worker id no enrolment refers to yet has no enrolments and none completed. */
  lemma {:induction false} NoEnrollmentsFor(rows: seq<Enrollment>, workerId: nat)
    requires forall e :: e in rows ==> e.workerId < workerId
    ensures EnrollmentsOf(rows, workerId) == []
    ensures ActiveEnrollmentsOf(rows, workerId) == []
    ensures CompletedCount(rows, workerId) == 0
  {
    if rows != [] {
      NoEnrollmentsFor(rows[1..], workerId);
      FilterPrepend(rows[0], rows[1..], (e: Enrollment) => e.workerId == workerId);
      FilterPrepend(rows[0], rows[1..], (e: Enrollment) => e.workerId == workerId && e.isActive);
      assert rows == [rows[0]] + rows[1..];
    }
  }

  /** The first active course with primary key `id`, as `get_object_or_404` looks it up. */
  function FindActiveCourse(courses: seq<Course>, id: nat): (r: Option<Course>)
    ensures r.None? <==> forall c :: c in courses ==> !(c.id == id && c.isActive)
    ensures r.Some? ==> r.value in courses && r.value.id == id && r.value.isActive
  {
    if courses == [] then None
    else if courses[0].id == id && courses[0].isActive then Some(courses[0])
    else FindActiveCourse(courses[1..], id)
  }

  /** Every course of the catalogue holds no more active enrolments than its capacity. */
  predicate WithinCapacity(rows: seq<Enrollment>, courses: seq<Course>) {
    forall c :: c in courses ==> EnrolledCount(rows, c.id) <= c.capacity
  }

  /** One call of the enrol action: worker `workerId` asks for course `courseId`. */
  datatype Request = Request(workerId: nat, courseId: nat)

  /** Requests served one after another; a request for a missing or inactive course changes nothing. */
  function Replay(rows: seq<Enrollment>, courses: seq<Course>, requests: seq<Request>, nextId: nat): seq<Enrollment>
    decreases |requests|
  {
    if requests == [] then rows
    else
      var req := requests[0];
      match FindActiveCourse(courses, req.courseId)
      case None => Replay(rows, courses, requests[1..], nextId)
      case Some(course) => Replay(Enroll(rows, req.workerId, course, nextId).1, courses, requests[1..], nextId + 1)
  }

  /** Under sequential enrolment, a valid table within capacity stays valid and within capacity. */
  lemma {:induction false} ReplayPreserves(rows: seq<Enrollment>, courses: seq<Course>, requests: seq<Request>, nextId: nat)
    requires CourseTableValid(courses)
    requires EnrollmentTableValid(rows) && (forall e :: e in rows ==> e.id < nextId)
    requires WithinCapacity(rows, courses)
    ensures EnrollmentTableValid(Replay(rows, courses, requests, nextId))
    ensures WithinCapacity(Replay(rows, courses, requests, nextId), courses)
    decreases |requests|
  {
    if requests != [] {
      var req := requests[0];
      match FindActiveCourse(courses, req.courseId)
      case None =>
        ReplayPreserves(rows, courses, requests[1..], nextId);
      case Some(course) =>
        var after := Enroll(rows, req.workerId, course, nextId).1;
        EnrollPreserves(rows, req.workerId, course, nextId);
        forall c | c in courses
          ensures EnrolledCount(after, c.id) <= c.capacity
        {
          if c.id == course.id {
            var i, j :| 0 <= i < |courses| && courses[i] == c && 0 <= j < |courses| && courses[j] == course;
            assert i == j;
          }
        }
        ReplayPreserves(after, courses, requests[1..], nextId + 1);
    }
  }

  /** A `CourseModule` row: lesson number `order` of course `courseId`. */
  datatype CourseModule = CourseModule(id: nat, courseId: nat, title: string, order: nat, durationMinutes: nat)

  /** `unique_together = ['course', 'order']`. */
  predicate ModuleTableValid(rows: seq<CourseModule>) {
    forall i, j :: 0 <= i < j < |rows| ==> !(rows[i].courseId == rows[j].courseId && rows[i].order == rows[j].order)
  }

  /** Storing a module; the storage refuses a second module with the same order in a course. */
  function AddModule(rows: seq<CourseModule>, m: CourseModule): (r: Option<seq<CourseModule>>)
    ensures r.Some? <==> forall x :: x in rows ==> !(x.courseId == m.courseId && x.order == m.order)
    ensures r.Some? ==> r.value == rows + [m]
    ensures r.Some? && ModuleTableValid(rows) ==> ModuleTableValid(r.value)
  {
    if exists x :: x in rows && x.courseId == m.courseId && x.order == m.order then None
    else Some(rows + [m])
  }

  /** A `CourseProgress` row: the state of module `moduleId` within enrolment `enrollmentId`. */
  datatype CourseProgress = CourseProgress(id: nat, enrollmentId: nat, moduleId: nat, completed: bool, minutesSpent: nat)

  /** `unique_together = ['enrollment', 'module']`. */
  predicate ProgressTableValid(rows: seq<CourseProgress>) {
    forall i, j :: 0 <= i < j < |rows| ==>
      !(rows[i].enrollmentId == rows[j].enrollmentId && rows[i].moduleId == rows[j].moduleId)
  }

  /** Storing a progress record; the storage refuses a second one for the same enrolment and module. */
  function AddProgress(rows: seq<CourseProgress>, p: CourseProgress): (r: Option<seq<CourseProgress>>)
    ensures r.Some? <==> forall x :: x in rows ==> !(x.enrollmentId == p.enrollmentId && x.moduleId == p.moduleId)
    ensures r.Some? ==> r.value == rows + [p]
    ensures r.Some? && ProgressTableValid(rows) ==> ProgressTableValid(r.value)
  {
    if exists x :: x in rows && x.enrollmentId == p.enrollmentId && x.moduleId == p.moduleId then None
    else Some(rows + [p])
  }
}
