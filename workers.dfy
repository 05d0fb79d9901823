/** Worker profiles (workers/models.py): one profile per login account, a unique
  * employee id, and a per-worker skill table with a proficiency level. */
module Workers {
  import opened Strings
  import opened Tables

  /** The fields of the login account the profile pages read. */
  datatype User = User(id: nat, username: string, firstName: string, lastName: string)

  /** A `Worker` row; `createdAt` is the creation timestamp the default ordering sorts on. */
  datatype Worker = Worker(
    id: nat,
    user: User,
    employeeId: string,
    department: string,
    position: string,
    isActive: bool,
    createdAt: nat)

  const EmployeeIdMaxLength: nat := 50

  /** The worker table's declared constraints: primary key, the one-to-one link to the
    * account, `employee_id` unique and at most 50 characters. */
  predicate WorkerTableValid(workers: seq<Worker>) {
    && (forall i, j :: 0 <= i < j < |workers| ==>
          && workers[i].id != workers[j].id
          && workers[i].user.id != workers[j].user.id
          && workers[i].employeeId != workers[j].employeeId)
    && (forall w :: w in workers ==> |w.employeeId| <= EmployeeIdMaxLength)
  }

  /** `user.worker_profile`: the profile linked to account `userId`, if there is one. */
  function FindByUser(workers: seq<Worker>, userId: nat): (r: Option<Worker>)
    ensures r.None? <==> forall w :: w in workers ==> w.user.id != userId
    ensures r.Some? ==> r.value in workers && r.value.user.id == userId
  {
    if workers == [] then None
    else if workers[0].user.id == userId then Some(workers[0])
    else FindByUser(workers[1..], userId)
  }

  /** In a valid table the profile of an account is the only row linked to it. */
  lemma FindByUserUnique(workers: seq<Worker>, w: Worker)
    requires WorkerTableValid(workers) && w in workers
    ensures FindByUser(workers, w.user.id) == Some(w)
  {
    var v := FindByUser(workers, w.user.id).value;
    var i, j :| 0 <= i < |workers| && workers[i] == v && 0 <= j < |workers| && workers[j] == w;
    assert i == j;
  }

  /** `Worker.objects.filter(employee_id=id).exists()`. */
  predicate EmployeeIdTaken(workers: seq<Worker>, id: string) {
    exists w :: w in workers && w.employeeId == id
  }

  /** `full_name`: the account's "first last" with surrounding whitespace removed, or the
    * username when that leaves nothing. */
  function FullName(u: User): (r: string)
    ensures AllSpace(u.firstName) && AllSpace(u.lastName) ==> r == u.username
    ensures !(AllSpace(u.firstName) && AllSpace(u.lastName)) ==>
      && r != [] && Trimmed(r)
      && (exists i :: StrippedAt(u.firstName + " " + u.lastName, r, i))
      && Contains(u.firstName + " " + u.lastName, r)
  {
    var stripped := Strip(u.firstName + " " + u.lastName);
    JoinedName(u.firstName, u.lastName, stripped);
    if stripped == [] then u.username else stripped
  }

  /** The stripped "first last" is empty exactly when both names are blank, and otherwise a
    * piece of the joined name with no whitespace at either end. */
  lemma JoinedName(first: string, last: string, stripped: string)
    requires stripped == Strip(first + " " + last)
    ensures stripped == [] <==> AllSpace(first) && AllSpace(last)
    ensures stripped != [] ==>
      && Trimmed(stripped)
      && (exists i :: StrippedAt(first + " " + last, stripped, i))
      && Contains(first + " " + last, stripped)
  {
    JoinedNameBlank(first, last);
    StripContained(first + " " + last);
  }

  lemma JoinedNameBlank(first: string, last: string)
    ensures AllSpace(first + " " + last) <==> AllSpace(first) && AllSpace(last)
  {
    var joined := first + " " + last;
    if AllSpace(joined) {
      assert forall i :: 0 <= i < |first| ==> first[i] == joined[i];
      assert forall i :: 0 <= i < |last| ==> last[i] == joined[|first| + 1 + i];
    }
  }

  /** `__str__`: the full name, a dash, then the employee id. */
  function Display(w: Worker): (r: string)
    ensures |r| == |FullName(w.user)| + 3 + |w.employeeId|
    ensures r[..|FullName(w.user)|] == FullName(w.user)
    ensures r[|FullName(w.user)|..|FullName(w.user)| + 3] == " - "
    ensures r[|FullName(w.user)| + 3..] == w.employeeId
  {
    var name := FullName(w.user);
    LabelParts(name, w.employeeId);
    name + " - " + w.employeeId
  }

  /** The three parts of `name - id` can be read back by position. */
  lemma LabelParts(name: string, id: string)
    ensures var r := name + " - " + id;
      && |r| == |name| + 3 + |id|
      && r[..|name|] == name
      && r[|name|..|name| + 3] == " - "
      && r[|name| + 3..] == id
  {
  }

  /** The `proficiency_level` choice field. */
  datatype Proficiency = Beginner | Intermediate | Advanced | Expert

  /** A `WorkerSkill` row: worker `workerId` holds skill `skillId` at a proficiency. */
  datatype WorkerSkill = WorkerSkill(id: nat, workerId: nat, skillId: nat, proficiency: Proficiency, isActive: bool)

  /** `unique_together = ['worker', 'skill']`. */
  predicate WorkerSkillTableValid(rows: seq<WorkerSkill>) {
    forall i, j :: 0 <= i < j < |rows| ==>
      !(rows[i].workerId == rows[j].workerId && rows[i].skillId == rows[j].skillId)
  }

  /** Storing a new worker skill with the default proficiency; the storage refuses a
    * second row for the same (worker, skill) pair. */
  function AddWorkerSkill(rows: seq<WorkerSkill>, id: nat, workerId: nat, skillId: nat, isActive: bool)
    : (r: Option<seq<WorkerSkill>>)
    ensures r.Some? <==> forall x :: x in rows ==> !(x.workerId == workerId && x.skillId == skillId)
    ensures r.Some? ==> r.value == rows + [WorkerSkill(id, workerId, skillId, Beginner, isActive)]
    ensures r.Some? && WorkerSkillTableValid(rows) ==> WorkerSkillTableValid(r.value)
  {
    if exists x :: x in rows && x.workerId == workerId && x.skillId == skillId then None
    else Some(rows + [WorkerSkill(id, workerId, skillId, Beginner, isActive)])
  }
}
