/** controllers/task_controller.py: the checks that guard task writes, and the task queries. */
module TaskControl {
  import opened Wrappers
  import opened Errors
  import opened Enums
  import opened Text
  import opened Sequences
  import opened Store
  import TaskModel

  /** add_task's checks, in order: the priority first, then the due date against the current time. */
  function CheckNewTask(priority: int, dueDate: int, now: int): (r: Option<Error>)
    ensures r.None? <==> priority in Priorities && dueDate >= now
    ensures priority !in Priorities ==> r == Some(InvalidPriority(priority))
    ensures priority in Priorities && dueDate < now ==> r == Some(DueDateInPast)
  {
    if priority !in Priorities then Some(InvalidPriority(priority))
    else if dueDate < now then Some(DueDateInPast)
    else None
  }

  /**
   * update_task's checks, in order: a passed priority, then a passed status. No other column
   * is checked; in particular a due date in the past goes through.
   */
  function CheckTaskPatch(patch: TaskPatch): (r: Option<Error>)
    ensures r.None? <==> (patch.priority.Set? ==> patch.priority.value in Priorities)
                         && (patch.status.Set? ==> patch.status.value in TaskStatuses)
    ensures patch.priority.Set? && patch.priority.value !in Priorities ==>
      r == Some(InvalidPriority(patch.priority.value))
    ensures (patch.priority.Set? ==> patch.priority.value in Priorities)
            && patch.status.Set? && patch.status.value !in TaskStatuses ==>
      r == Some(InvalidTaskStatus(patch.status.value))
  {
    if patch.priority.Set? && patch.priority.value !in Priorities then Some(InvalidPriority(patch.priority.value))
    else if patch.status.Set? && patch.status.value !in TaskStatuses then Some(InvalidTaskStatus(patch.status.value))
    else None
  }

  class TaskController {
    const db: DatabaseManager

    constructor (db: DatabaseManager)
      ensures this.db == db
    {
      this.db := db;
    }

    /**
     * add_task: after the checks, builds a Task (status pending) and stores it. A rejected task
     * leaves the store as it was; an accepted one is the only new row, under a fresh id.
     */
    method AddTask(title: string, description: Option<string>, priority: int, dueDate: int,
                   projectId: Option<int>, assigneeId: Option<int>, now: int) returns (r: Result<int, Error>)
      requires db.Valid()
      modifies db
      ensures db.Valid()
      ensures CheckNewTask(priority, dueDate, now).Some? ==>
        r == Failure(CheckNewTask(priority, dueDate, now).value) && unchanged(db)
      ensures CheckNewTask(priority, dueDate, now).None? ==>
        && r == Success(old(db.lastTaskId) + 1) && db.lastTaskId == r.value
        && (forall k :: k in old(db.tasks) ==> k < r.value)
        && db.tasks == old(db.tasks)[r.value := TaskRow(r.value, title, description, priority, "pending",
                                                         dueDate, projectId, assigneeId, now)]
        && db.totalChanges == old(db.totalChanges) + 1 && db.ProjectsAndUsersUnchanged()
      ensures old(db.TasksWellFormed()) ==> db.TasksWellFormed()
    {
      var problem := CheckNewTask(priority, dueDate, now);
      if problem.Some? {
        return Failure(problem.value);
      }
      var task := new TaskModel.Task(title, description, priority, dueDate, projectId, assigneeId, now);
      var id := db.AddTask(task, now);
      return Success(id);
    }

    /** update_task: after the checks, forwards the same change-set to the gateway. */
    method UpdateTask(id: int, patch: TaskPatch) returns (r: Result<bool, Error>)
      requires db.Valid()
      modifies db
      ensures db.Valid()
      ensures CheckTaskPatch(patch).Some? ==> r == Failure(CheckTaskPatch(patch).value) && unchanged(db)
      ensures CheckTaskPatch(patch).None? ==> r.Success? && db.TaskUpdated(id, patch, r.value)
      ensures old(db.TasksWellFormed()) ==> db.TasksWellFormed()
    {
      var problem := CheckTaskPatch(patch);
      if problem.Some? {
        return Failure(problem.value);
      }
      var ok := db.UpdateTask(id, patch);
      return Success(ok);
    }

    /** delete_task: no check; the gateway delete. */
    method DeleteTask(id: int) returns (ok: bool)
      requires db.Valid()
      modifies db
      ensures db.Valid() && db.TaskDeleted(id, ok)
      ensures old(db.TasksWellFormed()) ==> db.TasksWellFormed()
    {
      ok := db.DeleteTask(id);
    }

    /**
     * update_task_status: rejects a status outside the three, otherwise changes the status
     * column of that task and nothing else.
     */
    method UpdateTaskStatus(id: int, newStatus: string) returns (r: Result<bool, Error>)
      requires db.Valid()
      modifies db
      ensures db.Valid()
      ensures newStatus !in TaskStatuses ==> r == Failure(InvalidTaskStatus(newStatus)) && unchanged(db)
      ensures newStatus in TaskStatuses ==>
        && r.Success? && db.TaskUpdated(id, StatusOnly(newStatus), r.value)
        && db.tasks == (if id in old(db.tasks) then old(db.tasks)[id := old(db.tasks)[id].(status := newStatus)]
                        else old(db.tasks))
      ensures old(db.TasksWellFormed()) ==> db.TasksWellFormed()
    {
      if newStatus !in TaskStatuses {
        return Failure(InvalidTaskStatus(newStatus));
      }
      var ok := db.UpdateTask(id, StatusOnly(newStatus));
      return Success(ok);
    }

    /**
     * search_tasks: a query that is empty or all whitespace gives no tasks without consulting
     * the store; any other query is stripped and then matched against title and description.
     */
    function SearchTasks(query: string): (r: seq<TaskRow>)
      reads db
      requires db.Valid()
      ensures Strip(query) == [] ==> r == []
      ensures forall t :: t in r <==> Strip(query) != [] && t in db.tasks.Values && MatchesQuery(t, Strip(query))
      ensures NoDuplicates(r) && NewestFirst(r, TaskCreated)
    {
      var q := Strip(query);
      if q == [] then [] else db.SearchTasks(q)
    }

    /** Whitespace around a query makes no difference to what search_tasks finds. */
    lemma SearchIgnoresPadding(query: string)
      requires db.Valid()
      ensures SearchTasks(query) == SearchTasks(Strip(query))
    {
      StripIdempotent(query);
    }

    /** An empty search string is contained in every title, so the gateway's search for "" is get_all_tasks. */
    lemma GatewaySearchEmptyIsAll()
      requires db.Valid()
      ensures db.SearchTasks("") == db.AllTasks()
    {
      forall t: TaskRow ensures MatchesQuery(t, "") {
        ContainsEmpty(t.title);
      }
    }

    /**
     * get_overdue_tasks: the tasks whose due date has passed, whatever their status, in the
     * order get_all_tasks gives them.
     */
    function GetOverdueTasks(now: int): (r: seq<TaskRow>)
      reads db
      requires db.Valid()
      ensures forall t :: t in r <==> t in db.tasks.Values && TaskModel.Overdue(t.dueDate, now)
      ensures IsSubsequence(r, db.AllTasks())
      ensures NoDuplicates(r) && NewestFirst(r, TaskCreated)
    {
      var all := db.AllTasks();
      var overdue := (t: TaskRow) => TaskModel.Overdue(t.dueDate, now);
      FilterNewestFirst(all, overdue, TaskCreated);
      FilterNoDuplicates(all, overdue);
      Filter(all, overdue)
    }

    /** get_tasks_by_project: the tasks naming this project, newest first. */
    function GetTasksByProject(projectId: int): (r: seq<TaskRow>)
      reads db
      requires db.Valid()
      ensures forall t :: t in r <==> t in db.tasks.Values && t.projectId == Some(projectId)
      ensures NoDuplicates(r) && NewestFirst(r, TaskCreated)
    {
      db.TasksByProject(projectId)
    }

    /** get_tasks_by_user: the tasks assigned to this user, newest first. */
    function GetTasksByUser(userId: int): (r: seq<TaskRow>)
      reads db
      requires db.Valid()
      ensures forall t :: t in r <==> t in db.tasks.Values && t.assigneeId == Some(userId)
      ensures NoDuplicates(r) && NewestFirst(r, TaskCreated)
    {
      db.TasksByUser(userId)
    }
  }
}
