/** The worker pages (workers/views.py): the searchable directory with its
  * department filter, a worker's detail page and the caller's own profile. */
module WorkersViews {
  import opened Strings
  import opened Tables
  import opened Workers
  import opened Training
  import opened Store

  /** `worker_list`: active workers whose first name, last name, employee id, department or
    * position contains the search text (ignoring case), narrowed to one department when
    * one is given. */
  function WorkerList(workers: seq<Worker>, q: string, department: string): (r: seq<Worker>)
    ensures |r| <= |workers|
    ensures forall w :: w in r <==>
      && w in workers
      && w.isActive
      && (q != "" ==>
            || IContains(w.user.firstName, q)
            || IContains(w.user.lastName, q)
            || IContains(w.employeeId, q)
            || IContains(w.department, q)
            || IContains(w.position, q))
      && (department != "" ==> w.department == department)
  {
    var active := Filter(workers, (w: Worker) => w.isActive);
    var found :=
      if q != "" then
        Filter(active, (w: Worker) =>
          || IContains(w.user.firstName, q)
          || IContains(w.user.lastName, q)
          || IContains(w.employeeId, q)
          || IContains(w.department, q)
          || IContains(w.position, q))
      else active;
    if department != "" then Filter(found, (w: Worker) => w.department == department) else found
  }

  function DepartmentOf(w: Worker): string {
    w.department
  }

  /** The department of every active worker, newest worker first. */
  function ActiveDepartments(workers: seq<Worker>): (r: seq<string>)
    ensures forall d :: d in r <==> exists w :: w in workers && w.isActive && DepartmentOf(w) == d
  {
    if workers == [] then []
    else
      var rest := ActiveDepartments(workers[1..]);
      assert forall w :: w in workers ==> w == workers[0] || w in workers[1..];
      if workers[0].isActive then [workers[0].department] + rest else rest
  }

  /** The department filter's choices as the query is written: the default ordering on the
    * creation time takes part in `distinct()`, so what is made distinct is the pair
    * (department, creation time), and a department comes back once per creation time. */
  function DepartmentsAsWritten(workers: seq<Worker>): (r: seq<string>)
    ensures forall d :: d in r <==> exists w :: w in workers && w.isActive && DepartmentOf(w) == d
  {
    var pairs := Distinct(ActiveDepartmentTimes(workers));
    assert forall w :: w in workers && w.isActive ==> (w.department, w.createdAt) in pairs;
    DepartmentsOfPairs(pairs)
  }

  /** The department part of each (department, creation time) pair, in order. */
  function DepartmentsOfPairs(pairs: seq<(string, nat)>): (r: seq<string>)
    ensures |r| == |pairs|
    ensures forall d :: d in r <==> exists t :: (d, t) in pairs
  {
    if pairs == [] then []
    else
      var rest := DepartmentsOfPairs(pairs[1..]);
      assert forall p :: p in pairs ==> p == pairs[0] || p in pairs[1..];
      [pairs[0].0] + rest
  }

  /** (department, creation time) of every active worker. */
  function ActiveDepartmentTimes(workers: seq<Worker>): (r: seq<(string, nat)>)
    ensures forall p :: p in r <==> exists w :: w in workers && w.isActive && p == (w.department, w.createdAt)
  {
    if workers == [] then []
    else
      var rest := ActiveDepartmentTimes(workers[1..]);
      assert forall w :: w in workers ==> w == workers[0] || w in workers[1..];
      if workers[0].isActive then [(workers[0].department, workers[0].createdAt)] + rest else rest
  }

  /** Two active workers of one department, created at different times, make that department
    * appear twice among the choices. */
  lemma DepartmentsAsWrittenRepeat()
    ensures var a := Worker(1, User(1, "ana", "Ana", "Lima"), "EMP10001", "General", "Employee", true, 200);
            var b := Worker(2, User(2, "ben", "Ben", "Ode"), "EMP10002", "General", "Employee", true, 100);
            && WorkerTableValid([a, b])
            && DepartmentsAsWritten([a, b]) == ["General", "General"]
  {
    var a := Worker(1, User(1, "ana", "Ana", "Lima"), "EMP10001", "General", "Employee", true, 200);
    var b := Worker(2, User(2, "ben", "Ben", "Ode"), "EMP10002", "General", "Employee", true, 100);
    var ws := [a, b];
    assert ws[1..] == [b];
    assert [b][1..] == [];
    assert ActiveDepartmentTimes([b]) == [("General", 100)];
    assert ActiveDepartmentTimes(ws) == [("General", 200), ("General", 100)];
    var pairs: seq<(string, nat)> := [("General", 200), ("General", 100)];
    assert pairs[1..] == [("General", 100)];
    assert pairs[1..][1..] == [];
    assert Distinct(pairs) == pairs;
  }

  /** `departments`: the departments of the active workers, each once. */
  function Departments(workers: seq<Worker>): (r: seq<string>)
    ensures NoDuplicates(r)
    ensures forall d :: d in r <==> exists w :: w in workers && w.isActive && DepartmentOf(w) == d
  {
    Distinct(ActiveDepartments(workers))
  }

  /** The first active worker with primary key `pk`, as `get_object_or_404` looks it up. */
  function FindActiveWorker(workers: seq<Worker>, pk: nat): (r: Option<Worker>)
    ensures r.None? <==> forall w :: w in workers ==> !(w.id == pk && w.isActive)
    ensures r.Some? ==> r.value in workers && r.value.id == pk && r.value.isActive
  {
    if workers == [] then None
    else if workers[0].id == pk && workers[0].isActive then Some(workers[0])
    else FindActiveWorker(workers[1..], pk)
  }

  /** The active skill rows of worker `workerId`. */
  function ActiveSkillsOf(rows: seq<WorkerSkill>, workerId: nat): (r: seq<WorkerSkill>)
    ensures forall s :: s in r <==> s in rows && s.workerId == workerId && s.isActive
  {
    Filter(rows, (s: WorkerSkill) => s.workerId == workerId && s.isActive)
  }

  /** A worker id no skill row refers to yet has no skills. */
  lemma {:induction false} NoSkillsFor(rows: seq<WorkerSkill>, workerId: nat)
    requires forall s :: s in rows ==> s.workerId < workerId
    ensures ActiveSkillsOf(rows, workerId) == []
  {
    if rows != [] {
      NoSkillsFor(rows[1..], workerId);
      FilterPrepend(rows[0], rows[1..], (s: WorkerSkill) => s.workerId == workerId && s.isActive);
      assert rows == [rows[0]] + rows[1..];
    }
  }

  datatype WorkerPage = WorkerPage(worker: Worker, skills: seq<WorkerSkill>, enrollments: seq<Enrollment>)

  /** `worker_detail`: not found unless an active worker has key `pk`; otherwise the worker,
    * its active skills, and its five newest active enrolments. */
  function WorkerDetail(workers: seq<Worker>, workerSkills: seq<WorkerSkill>, enrollments: seq<Enrollment>, pk: nat)
    : (r: Option<WorkerPage>)
    ensures r.None? <==> forall w :: w in workers ==> !(w.id == pk && w.isActive)
    ensures r.Some? ==> r.value.worker in workers && r.value.worker.id == pk && r.value.worker.isActive
    ensures r.Some? ==> forall s :: s in r.value.skills <==> s in workerSkills && s.workerId == pk && s.isActive
    ensures r.Some? ==> |r.value.enrollments| <= 5
    ensures r.Some? ==>
      && |r.value.enrollments| <= |ActiveEnrollmentsOf(enrollments, pk)|
      && r.value.enrollments == ActiveEnrollmentsOf(enrollments, pk)[..|r.value.enrollments|]
    ensures r.Some? && |r.value.enrollments| < 5 ==> r.value.enrollments == ActiveEnrollmentsOf(enrollments, pk)
  {
    match FindActiveWorker(workers, pk)
    case None => None
    case Some(w) =>
      Some(WorkerPage(w, ActiveSkillsOf(workerSkills, w.id), Take(ActiveEnrollmentsOf(enrollments, w.id), 5)))
  }

  /** `my_profile`: find or create the caller's profile, then show it with its active skills
    * and all its active enrolments. */
  method MyProfile(db: Database, user: User, draws: seq<nat>, now: nat) returns (r: Response<WorkerPage>)
    requires db.Valid() && ValidDraws(draws)
    modifies db`workers, db`nextWorkerId
    ensures db.Valid()
    ensures FindByUser(old(db.workers), user.id).Some? ==>
      db.workers == old(db.workers) && r == Shown(WorkerPage(
        FindByUser(old(db.workers), user.id).value,
        ActiveSkillsOf(db.workerSkills, FindByUser(old(db.workers), user.id).value.id),
        ActiveEnrollmentsOf(db.enrollments, FindByUser(old(db.workers), user.id).value.id)))
    ensures r.ServerError? ==>
      && db.workers == old(db.workers)
      && FindByUser(old(db.workers), user.id).None?
      && ProvisionRefused(old(db.workers), draws, now)
    ensures r.Shown? ==>
      && FindByUser(db.workers, user.id) == Some(r.page.worker)
      && r.page.skills == ActiveSkillsOf(db.workerSkills, r.page.worker.id)
      && r.page.enrollments == ActiveEnrollmentsOf(db.enrollments, r.page.worker.id)
    ensures r.Shown? && FindByUser(old(db.workers), user.id).None? ==>
      && db.workers == [r.page.worker] + old(db.workers)
      && Provisioned(old(db.workers), old(db.nextWorkerId), user, draws, now, r.page.worker)
      && r.page.skills == [] && r.page.enrollments == []
  {
    var profile := db.GetOrCreateWorker(user, draws, now);
    if profile.CreateFailed? {
      return ServerError;
    }
    var w := profile.worker;
    if profile.Created? {
      NoSkillsFor(db.workerSkills, w.id);
      NoEnrollmentsFor(db.enrollments, w.id);
    }
    r := Shown(WorkerPage(w, ActiveSkillsOf(db.workerSkills, w.id), ActiveEnrollmentsOf(db.enrollments, w.id)));
  }
}
