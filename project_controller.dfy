/** controllers/project_controller.py: the checks that guard project writes, and project progress. */
module ProjectControl {
  import opened Wrappers
  import opened Errors
  import opened Enums
  import opened Sequences
  import opened Store
  import ProjectModel

  /** add_project's checks, in order: start before end first, then the start against the current time. */
  function CheckNewProject(startDate: int, endDate: int, now: int): (r: Option<Error>)
    ensures r.None? <==> startDate < endDate && startDate >= now
    ensures startDate >= endDate ==> r == Some(EndNotAfterStart)
    ensures startDate < endDate && startDate < now ==> r == Some(StartInPast)
  {
    if startDate >= endDate then Some(EndNotAfterStart)
    else if startDate < now then Some(StartInPast)
    else None
  }

  /**
   * update_project's checks, in order: a passed status, then the dates, but only when both are
   * passed; a single new date is never compared with the stored other one.
   */
  function CheckProjectPatch(patch: ProjectPatch): (r: Option<Error>)
    ensures r.None? <==> (patch.status.Set? ==> patch.status.value in ProjectStatuses)
                         && (patch.startDate.Set? && patch.endDate.Set? ==> patch.startDate.value < patch.endDate.value)
    ensures patch.status.Set? && patch.status.value !in ProjectStatuses ==>
      r == Some(InvalidProjectStatus(patch.status.value))
    ensures (patch.status.Set? ==> patch.status.value in ProjectStatuses)
            && patch.startDate.Set? && patch.endDate.Set? && patch.startDate.value >= patch.endDate.value ==>
      r == Some(EndNotAfterStart)
    ensures patch.startDate.Keep? || patch.endDate.Keep? ==> r != Some(EndNotAfterStart)
  {
    if patch.status.Set? && patch.status.value !in ProjectStatuses then Some(InvalidProjectStatus(patch.status.value))
    else if patch.startDate.Set? && patch.endDate.Set? && patch.startDate.value >= patch.endDate.value then Some(EndNotAfterStart)
    else None
  }

  /** `task.status == 'completed'`. */
  predicate IsCompleted(t: TaskRow) {
    t.status == "completed"
  }

  /** Recursive `sum(1 for task in tasks if task.status == 'completed')`: the number of completed tasks. */
  function CountCompleted(ts: seq<TaskRow>): (n: nat)
    ensures n <= |ts|
    ensures n == |Filter(ts, IsCompleted)|
  {
    if ts == [] then 0
    else (if ts[0].status == "completed" then 1 else 0) + CountCompleted(ts[1..])
  }

  lemma {:induction false} NoneCompletedCountsZero(ts: seq<TaskRow>)
    requires forall t :: t in ts ==> t.status != "completed"
    ensures CountCompleted(ts) == 0
  {
    if ts != [] {
      assert ts[0] in ts;
      assert forall t :: t in ts[1..] ==> t in ts;
      NoneCompletedCountsZero(ts[1..]);
    }
  }

  lemma {:induction false} AllCompletedCountsAll(ts: seq<TaskRow>)
    requires forall t :: t in ts ==> t.status == "completed"
    ensures CountCompleted(ts) == |ts|
  {
    if ts != [] {
      assert ts[0] in ts;
      assert forall t :: t in ts[1..] ==> t in ts;
      AllCompletedCountsAll(ts[1..]);
    }
  }

  /** completed / total * 100, and 0 for no tasks: a percentage between 0 and 100. */
  function Percent(completed: nat, total: nat): (p: real)
    requires completed <= total
    ensures total > 0 ==> p == 100.0 * (completed as real) / (total as real)
    ensures total == 0 ==> p == 0.0
    ensures 0.0 <= p <= 100.0
    ensures completed == 0 ==> p == 0.0
    ensures total > 0 && completed == total ==> p == 100.0
  {
    if total == 0 then 0.0
    else
      ShareFacts(completed as real, total as real);
      (completed as real / total as real) * 100.0
  }

  /** A share of a positive total is a fraction between 0 and 1, and scaling it commutes with the division. */
  lemma ShareFacts(part: real, whole: real)
    requires 0.0 <= part <= whole && whole > 0.0
    ensures 0.0 <= part / whole <= 1.0
    ensures part == whole ==> part / whole == 1.0
    ensures (part / whole) * 100.0 == 100.0 * part / whole
  {
    var share := part / whole;
    assert share * whole == part;
  }

  /** The rows of the tasks that name the project. */
  ghost function ProjectTasks(tasks: map<int, TaskRow>, id: int): set<TaskRow> {
    set t | t in tasks.Values && t.projectId == Some(id)
  }

  /** The rows of the project's tasks that are completed. */
  ghost function CompletedProjectTasks(tasks: map<int, TaskRow>, id: int): set<TaskRow> {
    set t | t in ProjectTasks(tasks, id) && IsCompleted(t)
  }

  /**
   * The value get_project_progress computes (controllers/project_controller.py:72-81), counted over
   * the table rather than over a query result: 100 times the share of the project's tasks that are
   * completed, and 0 for a project without tasks.
   */
  ghost function Progress(tasks: map<int, TaskRow>, id: int): real {
    var all := ProjectTasks(tasks, id);
    if |all| == 0 then 0.0
    else 100.0 * (|CompletedProjectTasks(tasks, id)| as real) / (|all| as real)
  }

  /** A query result that lists each of the project's task rows once is as long as the set of them. */
  lemma ProjectTaskCount(tasks: map<int, TaskRow>, id: int, ts: seq<TaskRow>)
    requires NoDuplicates(ts)
    requires forall t :: t in ts <==> t in tasks.Values && t.projectId == Some(id)
    ensures |ts| == |ProjectTasks(tasks, id)|
  {
    DistinctElementsCount(ts);
    assert Elements(ts) == ProjectTasks(tasks, id);
  }

  /** Counting the completed tasks of such a result gives the size of the set of completed rows. */
  lemma CompletedTaskCount(tasks: map<int, TaskRow>, id: int, ts: seq<TaskRow>)
    requires NoDuplicates(ts)
    requires forall t :: t in ts <==> t in tasks.Values && t.projectId == Some(id)
    ensures CountCompleted(ts) == |CompletedProjectTasks(tasks, id)|
  {
    var done := Filter(ts, IsCompleted);
    FilterNoDuplicates(ts, IsCompleted);
    DistinctElementsCount(done);
    assert Elements(done) == CompletedProjectTasks(tasks, id);
  }

  /**
   * The percentage computed over a query result that lists each of the project's task rows once
   * is the progress counted over the table.
   */
  lemma PercentIsProgress(tasks: map<int, TaskRow>, id: int, ts: seq<TaskRow>)
    requires NoDuplicates(ts)
    requires forall t :: t in ts <==> t in tasks.Values && t.projectId == Some(id)
    ensures Percent(CountCompleted(ts), |ts|) == Progress(tasks, id)
  {
    ProjectTaskCount(tasks, id, ts);
    CompletedTaskCount(tasks, id, ts);
  }

  class ProjectController {
    const db: DatabaseManager

    constructor (db: DatabaseManager)
      ensures this.db == db
    {
      this.db := db;
    }

    /**
     * add_project: after the checks, builds a Project (status active) and stores it. A rejected
     * project leaves the store as it was.
     */
    method AddProject(name: string, description: Option<string>, startDate: int, endDate: int, now: int)
      returns (r: Result<int, Error>)
      requires db.Valid()
      modifies db
      ensures db.Valid()
      ensures CheckNewProject(startDate, endDate, now).Some? ==>
        r == Failure(CheckNewProject(startDate, endDate, now).value) && unchanged(db)
      ensures CheckNewProject(startDate, endDate, now).None? ==>
        && r == Success(old(db.lastProjectId) + 1) && db.lastProjectId == r.value
        && (forall k :: k in old(db.projects) ==> k < r.value)
        && db.projects == old(db.projects)[r.value := ProjectRow(r.value, name, description, startDate, endDate,
                                                                 "active", now)]
        && db.totalChanges == old(db.totalChanges) + 1 && db.TasksAndUsersUnchanged()
      ensures old(db.ProjectsWellFormed()) ==> db.ProjectsWellFormed()
    {
      var problem := CheckNewProject(startDate, endDate, now);
      if problem.Some? {
        return Failure(problem.value);
      }
      var project := new ProjectModel.Project(name, description, startDate, endDate, now);
      var id := db.AddProject(project, now);
      return Success(id);
    }

    /** update_project: after the checks, forwards the same change-set to the gateway. */
    method UpdateProject(id: int, patch: ProjectPatch) returns (r: Result<bool, Error>)
      requires db.Valid()
      modifies db
      ensures db.Valid()
      ensures CheckProjectPatch(patch).Some? ==> r == Failure(CheckProjectPatch(patch).value) && unchanged(db)
      ensures CheckProjectPatch(patch).None? ==> r.Success? && db.ProjectUpdated(id, patch, r.value)
      ensures old(db.ProjectsWellFormed()) ==> db.ProjectsWellFormed()
    {
      var problem := CheckProjectPatch(patch);
      if problem.Some? {
        return Failure(problem.value);
      }
      var ok := db.UpdateProject(id, patch);
      return Success(ok);
    }

    /** delete_project: refused while any task names the project; otherwise the gateway delete. */
    method DeleteProject(id: int) returns (r: Result<bool, Error>)
      requires db.Valid()
      modifies db
      ensures db.Valid()
      ensures old(db.ProjectInUse(id)) ==> r == Failure(ProjectHasTasks) && unchanged(db)
      ensures !old(db.ProjectInUse(id)) ==> r.Success? && db.ProjectDeleted(id, r.value)
      ensures old(db.ProjectsWellFormed()) ==> db.ProjectsWellFormed()
    {
      var projectTasks := db.TasksByProject(id);
      ProjectInUseIff(id);
      if projectTasks != [] {
        return Failure(ProjectHasTasks);
      }
      var ok := db.DeleteProject(id);
      return Success(ok);
    }

    /** update_project_status: rejects a status outside the three, otherwise changes only that project's status. */
    method UpdateProjectStatus(id: int, newStatus: string) returns (r: Result<bool, Error>)
      requires db.Valid()
      modifies db
      ensures db.Valid()
      ensures newStatus !in ProjectStatuses ==> r == Failure(InvalidProjectStatus(newStatus)) && unchanged(db)
      ensures newStatus in ProjectStatuses ==>
        && r.Success? && db.ProjectUpdated(id, ProjectStatusOnly(newStatus), r.value)
        && db.projects == (if id in old(db.projects)
                           then old(db.projects)[id := old(db.projects)[id].(status := newStatus)]
                           else old(db.projects))
      ensures old(db.ProjectsWellFormed()) ==> db.ProjectsWellFormed()
    {
      if newStatus !in ProjectStatuses {
        return Failure(InvalidProjectStatus(newStatus));
      }
      var ok := db.UpdateProject(id, ProjectStatusOnly(newStatus));
      return Success(ok);
    }

    /**
     * get_project_progress: an unknown project is an error; otherwise the share of the project's
     * tasks that are completed, as a percentage, and 0 when it has no tasks.
     */
    function GetProjectProgress(id: int): (r: Result<real, Error>)
      reads db
      requires db.Valid()
      ensures r.Failure? <==> id !in db.projects
      ensures r.Failure? ==> r.error == ProjectNotFound
      ensures r.Success? ==> r.value == Progress(db.tasks, id)
      ensures r.Success? ==> 0.0 <= r.value <= 100.0
      ensures r.Success? && !db.ProjectInUse(id) ==> r.value == 0.0
      ensures r.Success? && (forall t :: t in db.tasks.Values && t.projectId == Some(id) ==> t.status != "completed")
              ==> r.value == 0.0
      ensures r.Success? && db.ProjectInUse(id)
              && (forall t :: t in db.tasks.Values && t.projectId == Some(id) ==> t.status == "completed")
              ==> r.value == 100.0
    {
      if id !in db.projects then Failure(ProjectNotFound)
      else
        var ts := db.TasksByProject(id);
        ProjectInUseIff(id);
        ProgressOfTasks(id, ts);
        PercentIsProgress(db.tasks, id, ts);
        Success(Percent(CountCompleted(ts), |ts|))
    }

    /** The count of completed tasks reaches its extremes when none, or all, of the project's tasks are completed. */
    lemma ProgressOfTasks(id: int, ts: seq<TaskRow>)
      requires db.Valid() && ts == db.TasksByProject(id)
      ensures (forall t :: t in db.tasks.Values && t.projectId == Some(id) ==> t.status != "completed")
              ==> CountCompleted(ts) == 0
      ensures (forall t :: t in db.tasks.Values && t.projectId == Some(id) ==> t.status == "completed")
              ==> CountCompleted(ts) == |ts|
    {
      if forall t :: t in db.tasks.Values && t.projectId == Some(id) ==> t.status != "completed" {
        NoneCompletedCountsZero(ts);
      }
      if forall t :: t in db.tasks.Values && t.projectId == Some(id) ==> t.status == "completed" {
        AllCompletedCountsAll(ts);
      }
    }

    /** get_tasks_by_project returns something exactly when some task names the project. */
    lemma ProjectInUseIff(projectId: int)
      requires db.Valid()
      ensures db.TasksByProject(projectId) != [] <==> db.ProjectInUse(projectId)
    {
      var r := db.TasksByProject(projectId);
      if r != [] {
        assert r[0] in r;
      }
      if db.ProjectInUse(projectId) {
        var t :| t in db.tasks.Values && t.projectId == Some(projectId);
        assert t in r;
      }
    }
  }
}
