/** The database the views act on, as one object whose tables the views change
  * in place, with the storage-level constraint checks of the two inserts the
  * views perform and the lazy creation of a worker profile they share. */
module Store {
  import opened Strings
  import opened Tables
  import opened Skills
  import opened Workers
  import opened Training

  /** How many random employee numbers are tried before falling back to the timestamp. */
  const MaxAttempts: nat := 100
  /** The range `random.randint(10000, 99999)` draws from. */
  const DrawLow: nat := 10000
  const DrawHigh: nat := 99999

  /** `f'EMP{n}'`. */
  function EmployeeId(n: nat): (id: string)
    ensures IsPrefix("EMP", id) && |id| > 3
  {
    "EMP" + Decimal(n)
  }

  /** Different numbers give different employee ids. */
  lemma EmployeeIdInjective(a: nat, b: nat)
    requires EmployeeId(a) == EmployeeId(b)
    ensures a == b
  {
    assert Decimal(a) == EmployeeId(a)[3..];
    assert Decimal(b) == EmployeeId(b)[3..];
    DecimalRoundTrip(a);
    DecimalRoundTrip(b);
  }

  /** An id made from a drawn number has eight characters, well inside the column's 50. */
  lemma DrawnEmployeeIdLength(n: nat)
    requires DrawLow <= n <= DrawHigh
    ensures |EmployeeId(n)| == 8
  {
    FiveDigitDecimal(n);
  }

  /** The random numbers a request draws: exactly `MaxAttempts` of them, each in range. */
  predicate ValidDraws(draws: seq<nat>) {
    |draws| == MaxAttempts && forall k :: 0 <= k < |draws| ==> DrawLow <= draws[k] <= DrawHigh
  }

  /** Draw `k` is the first whose id no worker holds. */
  predicate FirstFreeDraw(workers: seq<Worker>, draws: seq<nat>, k: nat)
    requires k < |draws|
  {
    && !EmployeeIdTaken(workers, EmployeeId(draws[k]))
    && forall j :: 0 <= j < k ==> EmployeeIdTaken(workers, EmployeeId(draws[j]))
  }

  /** The profile a view creates for `user`, given the worker table `before` and the next key
    * `nextId`: the account's active row in `General` as `Employee`, created at `now`, with an
    * employee id no worker held, taken from the first free draw, or from the timestamp once
    * every draw was taken. */
  predicate Provisioned(before: seq<Worker>, nextId: nat, user: User, draws: seq<nat>, now: nat, w: Worker)
    requires ValidDraws(draws)
  {
    && w == Worker(nextId, user, w.employeeId, "General", "Employee", true, now)
    && !EmployeeIdTaken(before, w.employeeId)
    && (|| (exists k :: 0 <= k < MaxAttempts && FirstFreeDraw(before, draws, k) && w.employeeId == EmployeeId(draws[k]))
        || (&& w.employeeId == EmployeeId(now)
            && forall k :: 0 <= k < MaxAttempts ==> EmployeeIdTaken(before, EmployeeId(draws[k]))))
  }

  /** The storage refuses the profile a view tries to create: every draw was taken, and the
    * timestamp id is taken as well or longer than the column. */
  predicate ProvisionRefused(before: seq<Worker>, draws: seq<nat>, now: nat)
    requires ValidDraws(draws)
  {
    && (forall k :: 0 <= k < MaxAttempts ==> EmployeeIdTaken(before, EmployeeId(draws[k])))
    && (EmployeeIdTaken(before, EmployeeId(now)) || |EmployeeId(now)| > EmployeeIdMaxLength)
  }

  /** How the profile lookup of a view ended. */
  datatype Provision = Found(worker: Worker) | Created(worker: Worker) | CreateFailed

  /** How a page that needs a profile ended: shown, or a server error when the storage
    * refused the profile the view tried to create. */
  datatype Response<T> = Shown(page: T) | ServerError

  class Database {
    var skills: seq<Skill>
    var courses: seq<Course>
    var workers: seq<Worker>
    var workerSkills: seq<WorkerSkill>
    var enrollments: seq<Enrollment>
    /** The next primary keys the auto-increment columns hand out. */
    var nextWorkerId: nat
    var nextEnrollmentId: nat

    /** The declared constraints of every table the views write, and fresh next keys. */
    ghost predicate Valid()
      reads this
    {
      && WorkerTableValid(workers)
      && EnrollmentTableValid(enrollments)
      && CourseTableValid(courses)
      && (forall w :: w in workers ==> w.id < nextWorkerId)
      && (forall e :: e in enrollments ==> e.id < nextEnrollmentId)
      && (forall e :: e in enrollments ==> e.workerId < nextWorkerId)
      && (forall s :: s in workerSkills ==> s.workerId < nextWorkerId)
    }

    /** A database holding a catalogue, with no workers and no enrolments yet. */
    constructor (skills: seq<Skill>, courses: seq<Course>)
      requires CourseTableValid(courses)
      ensures Valid()
      ensures this.skills == skills && this.courses == courses
      ensures workers == [] && workerSkills == [] && enrollments == []
    {
      this.skills := skills;
      this.courses := courses;
      workers := [];
      workerSkills := [];
      enrollments := [];
      nextWorkerId := 0;
      nextEnrollmentId := 0;
    }

    /** `Worker.objects.create(...)`: the storage refuses a second profile for the account,
      * an employee id already held, or one longer than the column; an accepted row is the
      * newest, so it goes in front. */
    method CreateWorker(user: User, employeeId: string, department: string, position: string, now: nat)
      returns (r: Option<Worker>)
      requires Valid()
      modifies this`workers, this`nextWorkerId
      ensures Valid()
      ensures r.Some? <==>
        && FindByUser(old(workers), user.id).None?
        && !EmployeeIdTaken(old(workers), employeeId)
        && |employeeId| <= EmployeeIdMaxLength
      ensures r.Some? ==>
        && r.value == Worker(old(nextWorkerId), user, employeeId, department, position, true, now)
        && workers == [r.value] + old(workers)
      ensures r.None? ==> workers == old(workers)
    {
      if FindByUser(workers, user.id).Some? || EmployeeIdTaken(workers, employeeId)
         || |employeeId| > EmployeeIdMaxLength {
        return None;
      }
      var w := Worker(nextWorkerId, user, employeeId, department, position, true, now);
      ghost var before := workers;
      workers := [w] + workers;
      nextWorkerId := nextWorkerId + 1;
      forall i, j | 0 <= i < j < |workers|
        ensures workers[i].id != workers[j].id && workers[i].user.id != workers[j].user.id
        ensures workers[i].employeeId != workers[j].employeeId
      {
        if i == 0 {
          assert workers[j] == before[j - 1] && workers[j] in before;
        } else {
          assert workers[i] == before[i - 1] && workers[j] == before[j - 1];
        }
      }
      r := Some(w);
    }

    /** `Enrollment.objects.create(worker=..., course=..., status='enrolled')`: the storage
      * refuses a second row for the same (worker, course) pair, active or not. */
    method CreateEnrollment(workerId: nat, courseId: nat) returns (r: Option<Enrollment>)
      requires Valid() && workerId < nextWorkerId
      modifies this`enrollments, this`nextEnrollmentId
      ensures Valid()
      ensures r.Some? <==> !HasEnrollment(old(enrollments), workerId, courseId)
      ensures r.Some? ==>
        && r.value == NewEnrollment(old(nextEnrollmentId), workerId, courseId)
        && enrollments == [r.value] + old(enrollments)
      ensures r.None? ==> enrollments == old(enrollments)
    {
      if HasEnrollment(enrollments, workerId, courseId) {
        return None;
      }
      var e := NewEnrollment(nextEnrollmentId, workerId, courseId);
      ghost var before := enrollments;
      enrollments := [e] + enrollments;
      nextEnrollmentId := nextEnrollmentId + 1;
      forall i, j | 0 <= i < j < |enrollments|
        ensures !(enrollments[i].workerId == enrollments[j].workerId && enrollments[i].courseId == enrollments[j].courseId)
        ensures enrollments[i].id != enrollments[j].id
      {
        if i == 0 {
          assert enrollments[j] == before[j - 1] && enrollments[j] in before;
        } else {
          assert enrollments[i] == before[i - 1] && enrollments[j] == before[j - 1];
        }
      }
      r := Some(e);
    }

    /** The employee-id search of the profile creation: try the drawn numbers in order and
      * stop at the first id no worker holds; when all of them are taken, fall back to the
      * timestamp. */
    method NewEmployeeId(draws: seq<nat>, now: nat) returns (employeeId: string, fallback: bool)
      requires ValidDraws(draws)
      ensures !fallback ==> exists k :: 0 <= k < MaxAttempts && FirstFreeDraw(workers, draws, k) && employeeId == EmployeeId(draws[k])
      ensures !fallback ==> !EmployeeIdTaken(workers, employeeId) && |employeeId| == 8
      ensures fallback ==> employeeId == EmployeeId(now)
      ensures fallback ==> forall k :: 0 <= k < MaxAttempts ==> EmployeeIdTaken(workers, EmployeeId(draws[k]))
    {
      var i := 0;
      while i < MaxAttempts
        invariant 0 <= i <= MaxAttempts
        invariant forall k :: 0 <= k < i ==> EmployeeIdTaken(workers, EmployeeId(draws[k]))
      {
        employeeId := EmployeeId(draws[i]);
        if !EmployeeIdTaken(workers, employeeId) {
          DrawnEmployeeIdLength(draws[i]);
          assert FirstFreeDraw(workers, draws, i);
          return employeeId, false;
        }
        i := i + 1;
      }
      employeeId := EmployeeId(now);
      fallback := true;
    }

    /** The profile lookup every logged-in view starts with: reuse the account's profile, or
      * create one in department `General` as an `Employee` with a searched-for employee id. */
    method GetOrCreateWorker(user: User, draws: seq<nat>, now: nat) returns (r: Provision)
      requires Valid() && ValidDraws(draws)
      modifies this`workers, this`nextWorkerId
      ensures Valid()
      ensures FindByUser(old(workers), user.id).Some? ==>
        r == Found(FindByUser(old(workers), user.id).value) && workers == old(workers)
      ensures FindByUser(old(workers), user.id).None? ==> !r.Found?
      ensures r.Created? ==>
        && workers == [r.worker] + old(workers)
        && Provisioned(old(workers), old(nextWorkerId), user, draws, now, r.worker)
      ensures r.CreateFailed? ==>
        && workers == old(workers)
        && ProvisionRefused(old(workers), draws, now)
      ensures !r.CreateFailed? ==> FindByUser(workers, user.id) == Some(r.worker)
    {
      var existing := FindByUser(workers, user.id);
      if existing.Some? {
        return Found(existing.value);
      }
      var employeeId, fallback := NewEmployeeId(draws, now);
      var created := CreateWorker(user, employeeId, "General", "Employee", now);
      if created.None? {
        return CreateFailed;
      }
      r := Created(created.value);
    }
  }

  /** Profile creation is idempotent: the second lookup for an account finds the profile
    * the first one created, and adds nothing. */
  method GetOrCreateTwice(db: Database, user: User, draws: seq<nat>, now: nat) returns (first: Provision, second: Provision)
    requires db.Valid() && ValidDraws(draws)
    modifies db`workers, db`nextWorkerId
    ensures !first.CreateFailed? ==> second == Found(first.worker)
    ensures !first.CreateFailed? ==> |db.workers| <= |old(db.workers)| + 1
  {
    first := db.GetOrCreateWorker(user, draws, now);
    second := db.GetOrCreateWorker(user, draws, now);
  }
}
