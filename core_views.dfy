/** The landing page and the signed-in dashboard (core/views.py). */
module CoreViews {
  import opened Tables
  import opened Skills
  import opened Workers
  import opened Training
  import opened Store
  import WorkersViews

  /** The active rows of a table, in the table's order. */
  function ActiveSkills(skills: seq<Skill>): (r: seq<Skill>)
    ensures forall s :: s in r <==> s in skills && s.isActive
  {
    Filter(skills, (s: Skill) => s.isActive)
  }

  function ActiveCourses(courses: seq<Course>): (r: seq<Course>)
    ensures forall c :: c in r <==> c in courses && c.isActive
  {
    Filter(courses, (c: Course) => c.isActive)
  }

  /** Number of active workers. */
  function ActiveWorkerCount(workers: seq<Worker>): (n: nat)
    ensures n <= |workers|
    ensures n == 0 <==> forall w :: w in workers ==> !w.isActive
  {
    if workers == [] then 0
    else
      assert forall w :: w in workers ==> w == workers[0] || w in workers[1..];
      (if workers[0].isActive then 1 else 0) + ActiveWorkerCount(workers[1..])
  }

  /** A worker put in front of the table adds one to the count exactly when it is active. */
  lemma ActiveWorkerCountPrepend(w: Worker, workers: seq<Worker>)
    ensures ActiveWorkerCount([w] + workers) == ActiveWorkerCount(workers) + (if w.isActive then 1 else 0)
  {
    assert ([w] + workers)[1..] == workers;
  }

  datatype HomePage = HomePage(skills: seq<Skill>, courses: seq<Course>, workersCount: nat)

  /** `home`: the first six active skills, the twelve newest active courses (the course
    * table is held newest first) and the number of active workers. */
  function Home(skills: seq<Skill>, courses: seq<Course>, workers: seq<Worker>): (p: HomePage)
    ensures |p.skills| <= 6 && |p.courses| <= 12
    ensures forall s :: s in p.skills ==> s in skills && s.isActive
    ensures forall c :: c in p.courses ==> c in courses && c.isActive
    ensures |p.skills| <= |ActiveSkills(skills)| && p.skills == ActiveSkills(skills)[..|p.skills|]
    ensures |p.courses| <= |ActiveCourses(courses)| && p.courses == ActiveCourses(courses)[..|p.courses|]
    ensures |p.skills| < 6 ==> forall s :: s in skills && s.isActive ==> s in p.skills
    ensures |p.courses| < 12 ==> forall c :: c in courses && c.isActive ==> c in p.courses
    ensures p.workersCount <= |workers|
    ensures p.workersCount == 0 <==> forall w :: w in workers ==> !w.isActive
  {
    HomePage(Take(ActiveSkills(skills), 6), Take(ActiveCourses(courses), 12), ActiveWorkerCount(workers))
  }

  /** The landing page's head count is the size of the unfiltered worker directory. */
  lemma {:induction false} HomeCountMatchesDirectory(skills: seq<Skill>, courses: seq<Course>, workers: seq<Worker>)
    ensures Home(skills, courses, workers).workersCount == |WorkersViews.WorkerList(workers, "", "")|
  {
    ActiveCountIsFilterLength(workers);
  }

  lemma {:induction false} ActiveCountIsFilterLength(workers: seq<Worker>)
    ensures ActiveWorkerCount(workers) == |Filter(workers, (w: Worker) => w.isActive)|
  {
    if workers != [] {
      ActiveCountIsFilterLength(workers[1..]);
      FilterPrepend(workers[0], workers[1..], (w: Worker) => w.isActive);
      assert workers == [workers[0]] + workers[1..];
    }
  }

  datatype DashboardPage = DashboardPage(worker: Worker, recent: seq<Enrollment>, completedCourses: nat)

  /** `dashboard`: find or create the caller's profile, then show its five newest enrolments
    * (of any status or activity) and how many of its enrolments are completed. */
  method Dashboard(db: Database, user: User, draws: seq<nat>, now: nat) returns (r: Response<DashboardPage>)
    requires db.Valid() && ValidDraws(draws)
    modifies db`workers, db`nextWorkerId
    ensures db.Valid()
    ensures FindByUser(old(db.workers), user.id).Some? ==>
      db.workers == old(db.workers) && r.Shown? && r.page.worker == FindByUser(old(db.workers), user.id).value
    ensures r.ServerError? ==>
      && db.workers == old(db.workers)
      && FindByUser(old(db.workers), user.id).None?
      && ProvisionRefused(old(db.workers), draws, now)
    ensures r.Shown? ==>
      && FindByUser(db.workers, user.id) == Some(r.page.worker)
      && |r.page.recent| <= 5
      && (forall e :: e in r.page.recent ==> e in db.enrollments && e.workerId == r.page.worker.id)
      && |r.page.recent| <= |EnrollmentsOf(db.enrollments, r.page.worker.id)|
      && r.page.recent == EnrollmentsOf(db.enrollments, r.page.worker.id)[..|r.page.recent|]
      && (|r.page.recent| < 5 ==> r.page.recent == EnrollmentsOf(db.enrollments, r.page.worker.id))
      && r.page.completedCourses == CompletedCount(db.enrollments, r.page.worker.id)
      && r.page.completedCourses == |CompletedOf(db.enrollments, r.page.worker.id)|
    ensures r.Shown? && FindByUser(old(db.workers), user.id).None? ==>
      && db.workers == [r.page.worker] + old(db.workers)
      && Provisioned(old(db.workers), old(db.nextWorkerId), user, draws, now, r.page.worker)
      && ActiveWorkerCount(db.workers) == ActiveWorkerCount(old(db.workers)) + 1
      && r.page.recent == [] && r.page.completedCourses == 0
  {
    var profile := db.GetOrCreateWorker(user, draws, now);
    if profile.CreateFailed? {
      return ServerError;
    }
    var w := profile.worker;
    if profile.Created? {
      NoEnrollmentsFor(db.enrollments, w.id);
      ActiveWorkerCountPrepend(w, old(db.workers));
    }
    CompletedCountIsFilterLength(db.enrollments, w.id);
    r := Shown(DashboardPage(w, Take(EnrollmentsOf(db.enrollments, w.id), 5), CompletedCount(db.enrollments, w.id)));
  }
}
