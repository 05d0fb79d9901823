/** Whole-request scenarios of the enrol action, each on a fresh database. */
module Scenarios {
  import opened Tables
  import opened Workers
  import opened Training
  import opened Store
  import opened TrainingViews

  /** One hundred distinct candidate numbers in the drawing range. */
  function SomeDraws(): (draws: seq<nat>)
    ensures ValidDraws(draws)
  {
    seq(MaxAttempts, i => DrawLow + i)
  }

  /** A course with a single place and no enrolments: the first worker is admitted with a
    * fresh enrolment, and a second worker is then turned away because the course is full. */
  method CapacityOneScenario() returns (first: EnrollOutcome, second: EnrollOutcome)
    ensures first.Admitted?
    ensures first.enrollment.status == Enrolled && first.enrollment.progress == 0 && first.enrollment.isActive
    ensures second == CourseFull
  {
    var course := Course(1, "Forklift Safety", "", {}, 1, "beginner", true);
    var db := new Database([], [course]);
    var alice := User(1, "alice", "Alice", "Ng");
    var bruno := User(2, "bruno", "Bruno", "Sa");
    var wa := db.CreateWorker(alice, "EMP10001", "General", "Employee", 0);
    var wb := db.CreateWorker(bruno, "EMP10002", "General", "Employee", 0);
    assert db.workers == [wb.value, wa.value];
    assert FindActiveCourse(db.courses, 1) == Some(course);
    first := EnrollCourse(db, alice, 1, SomeDraws(), 0);
    assert db.enrollments == [first.enrollment];
    assert EnrolledCount(db.enrollments, 1) == 1 by {
      assert db.enrollments[1..] == [];
    }
    second := EnrollCourse(db, bruno, 1, SomeDraws(), 0);
  }

  /** Enrolling twice in one course: the second request is refused as a duplicate and the
    * first enrolment stays exactly as it was stored. */
  method DoubleEnrollmentScenario() returns (first: EnrollOutcome, second: EnrollOutcome, stored: seq<Enrollment>)
    ensures first.Admitted? && second == AlreadyEnrolled
    ensures stored == [first.enrollment]
  {
    var course := Course(5, "Welding I", "", {}, DefaultCapacity, "intermediate", true);
    var db := new Database([], [course]);
    var alice := User(1, "alice", "Alice", "Ng");
    var wa := db.CreateWorker(alice, "EMP10001", "General", "Employee", 0);
    assert FindActiveCourse(db.courses, 5) == Some(course);
    first := EnrollCourse(db, alice, 5, SomeDraws(), 0);
    assert HasActiveEnrollment(db.enrollments, wa.value.id, 5) by {
      assert first.enrollment in db.enrollments;
    }
    second := EnrollCourse(db, alice, 5, SomeDraws(), 0);
    stored := db.enrollments;
  }
}
