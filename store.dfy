/**
 * database/database_manager.py as an in-memory store. Each table is a map from id to row;
 * AUTOINCREMENT is the largest id a table has handed out (ids are never reused), and
 * `totalChanges` is the connection's cumulative count of inserted, updated and deleted rows,
 * which is what every delete_* and every update_* with a non-empty change-set returns a test of.
 */
module Store {
  import opened Wrappers
  import opened Errors
  import opened Sequences
  import opened Text
  import Enums
  import UserModel
  import TaskModel
  import ProjectModel

  /** A row of `tasks`: the columns of the CREATE TABLE, timestamps as integers. */
  datatype TaskRow = TaskRow(id: int, title: string, description: Option<string>, priority: int,
                             status: string, dueDate: int, projectId: Option<int>,
                             assigneeId: Option<int>, createdAt: int)

  /** A row of `projects`. */
  datatype ProjectRow = ProjectRow(id: int, name: string, description: Option<string>,
                                   startDate: int, endDate: int, status: string, createdAt: int)

  /** A row of `users`. */
  datatype UserRow = UserRow(id: int, username: string, email: string, role: string, registrationDate: int)

  function TaskId(r: TaskRow): int { r.id }
  function TaskCreated(r: TaskRow): int { r.createdAt }
  function ProjectId(r: ProjectRow): int { r.id }
  function ProjectCreated(r: ProjectRow): int { r.createdAt }
  function UserId(r: UserRow): int { r.id }
  function UserRegistered(r: UserRow): int { r.registrationDate }

  /** One keyword argument of an update_* call: not passed, or passed with the new column value. */
  datatype Field<T> = Keep | Set(value: T) {
    function Or(current: T): T {
      if Set? then value else current
    }
  }

  /** The keyword arguments of update_task, one optional field per updatable column. */
  datatype TaskPatch = TaskPatch(title: Field<string>, description: Field<Option<string>>,
                                 priority: Field<int>, status: Field<string>, dueDate: Field<int>,
                                 projectId: Field<Option<int>>, assigneeId: Field<Option<int>>)
  {
    /** `not kwargs`. */
    predicate IsEmpty() {
      title.Keep? && description.Keep? && priority.Keep? && status.Keep? && dueDate.Keep?
      && projectId.Keep? && assigneeId.Keep?
    }

    /**
     * The row after `UPDATE tasks SET <the passed columns>`: id and created_at are never among
     * them, and an empty change-set leaves the row as it was.
     */
    function ApplyTo(r: TaskRow): (r': TaskRow)
      ensures r'.id == r.id && r'.createdAt == r.createdAt
      ensures IsEmpty() ==> r' == r
      ensures status.Keep? ==> r'.status == r.status
    {
      r.(title := title.Or(r.title), description := description.Or(r.description),
         priority := priority.Or(r.priority), status := status.Or(r.status),
         dueDate := dueDate.Or(r.dueDate), projectId := projectId.Or(r.projectId),
         assigneeId := assigneeId.Or(r.assigneeId))
    }
  }

  /** `update_task(id, status=s)`: a non-empty change-set that touches the status column only. */
  function StatusOnly(s: string): (p: TaskPatch)
    ensures !p.IsEmpty()
    ensures forall r :: p.ApplyTo(r) == r.(status := s)
  {
    TaskPatch(Keep, Keep, Keep, Set(s), Keep, Keep, Keep)
  }

  /** The keyword arguments of update_project. */
  datatype ProjectPatch = ProjectPatch(name: Field<string>, description: Field<Option<string>>,
                                       startDate: Field<int>, endDate: Field<int>, status: Field<string>)
  {
    predicate IsEmpty() {
      name.Keep? && description.Keep? && startDate.Keep? && endDate.Keep? && status.Keep?
    }

    /** The row after `UPDATE projects SET <the passed columns>`; id and created_at are never among them. */
    function ApplyTo(r: ProjectRow): (r': ProjectRow)
      ensures r'.id == r.id && r'.createdAt == r.createdAt
      ensures IsEmpty() ==> r' == r
      ensures status.Keep? ==> r'.status == r.status
    {
      r.(name := name.Or(r.name), description := description.Or(r.description),
         startDate := startDate.Or(r.startDate), endDate := endDate.Or(r.endDate),
         status := status.Or(r.status))
    }
  }

  /** `update_project(id, status=s)`: a non-empty change-set that touches the status column only. */
  function ProjectStatusOnly(s: string): (p: ProjectPatch)
    ensures !p.IsEmpty()
    ensures forall r :: p.ApplyTo(r) == r.(status := s)
  {
    ProjectPatch(Keep, Keep, Keep, Keep, Set(s))
  }

  /** The keyword arguments of update_user. */
  datatype UserPatch = UserPatch(username: Field<string>, email: Field<string>, role: Field<string>)
  {
    predicate IsEmpty() {
      username.Keep? && email.Keep? && role.Keep?
    }

    /** The row after `UPDATE users SET <the passed columns>`; id and registration_date are never among them. */
    function ApplyTo(r: UserRow): (r': UserRow)
      ensures r'.id == r.id && r'.registrationDate == r.registrationDate
      ensures IsEmpty() ==> r' == r
      ensures email.Keep? && role.Keep? ==> r'.email == r.email && r'.role == r.role
    {
      r.(username := username.Or(r.username), email := email.Or(r.email), role := role.Or(r.role))
    }
  }

  /** The WHERE clause of search_tasks: title or description contains `q`; a NULL description matches nothing. */
  function MatchesQuery(t: TaskRow, q: string): (b: bool)
    ensures q == [] ==> b
    ensures t.description.None? ==> (b <==> Contains(t.title, q))
  {
    ContainsEmpty(t.title);
    Contains(t.title, q) || (t.description.Some? && Contains(t.description.value, q))
  }

  /** Each row is stored under its own id, and no id is above the table's AUTOINCREMENT value. */
  ghost predicate KeyedById<R>(m: map<int, R>, idOf: R -> int, last: nat) {
    forall k :: k in m ==> idOf(m[k]) == k && 1 <= k <= last
  }

  /** The UNIQUE constraints of `users`: no two rows share a username or an email. */
  ghost predicate UniqueUserColumns(m: map<int, UserRow>) {
    forall a, b :: a in m && b in m && a != b ==> m[a].username != m[b].username && m[a].email != m[b].email
  }

  /** Every row of the table passes the User constructor's checks. */
  ghost predicate AllHydratable(m: map<int, UserRow>) {
    forall k :: k in m ==> Hydratable(m[k])
  }

  /** Storing a row that passes the User checks keeps every row of the table passing them. */
  lemma StoreKeepsHydratable(m: map<int, UserRow>, id: int, row: UserRow)
    requires AllHydratable(m) && UserModel.Check(row.email, row.role).None?
    ensures AllHydratable(m[id := row])
  {
    assert CheckRow(row) == UserModel.Check(row.email, row.role);
  }

  /**
   * Inserting a row under the next id keeps the table keyed by id and its columns unique,
   * provided no row holds the new username or email.
   */
  lemma InsertUserRow(m: map<int, UserRow>, last: nat, row: UserRow)
    requires KeyedById(m, UserId, last) && UniqueUserColumns(m)
    requires row.id == last + 1 && !UsernameOrEmailTaken(m, row.username, row.email)
    ensures KeyedById(m[row.id := row], UserId, last + 1) && UniqueUserColumns(m[row.id := row])
  {
    var m' := m[row.id := row];
    forall a, b | a in m' && b in m' && a != b ensures m'[a].username != m'[b].username && m'[a].email != m'[b].email {
      if a == row.id {
        assert b in m;
      } else if b == row.id {
        assert a in m;
      }
    }
  }

  /** Some row already holds this username or this email: inserting them violates a UNIQUE constraint. */
  predicate UsernameOrEmailTaken(m: map<int, UserRow>, username: string, email: string) {
    exists k :: k in m && (m[k].username == username || m[k].email == email)
  }

  /** Some row other than `id` holds this username or this email: giving them to `id` violates a UNIQUE constraint. */
  predicate TakenByOther(m: map<int, UserRow>, id: int, username: string, email: string) {
    exists k :: k in m && k != id && (m[k].username == username || m[k].email == email)
  }

  /** The row stored for a user passes the User constructor's checks, so hydrating it cannot raise. */
  predicate Hydratable(u: UserRow) {
    CheckRow(u).None?
  }

  /** `_row_to_task` produced `task` from `row`: every column restored, id, status and created_at included. */
  ghost predicate TaskHolds(task: TaskModel.Task, row: TaskRow)
    reads task
  {
    && task.id == Some(row.id) && task.title == row.title && task.description == row.description
    && task.priority == row.priority && task.status == row.status && task.dueDate == row.dueDate
    && task.projectId == row.projectId && task.assigneeId == row.assigneeId && task.createdAt == row.createdAt
  }

  /** `_row_to_project` produced `project` from `row`. */
  ghost predicate ProjectHolds(project: ProjectModel.Project, row: ProjectRow)
    reads project
  {
    && project.id == Some(row.id) && project.name == row.name && project.description == row.description
    && project.startDate == row.startDate && project.endDate == row.endDate
    && project.status == row.status && project.createdAt == row.createdAt
  }

  /** `_row_to_user` produced `user` from `row`. */
  ghost predicate UserHolds(user: UserModel.User, row: UserRow)
    reads user
  {
    && user.id == Some(row.id) && user.username == row.username && user.email == row.email
    && user.role == row.role && user.registrationDate == row.registrationDate
  }

  /**
   * `_row_to_task`: the Task constructor, then the columns it does not set (id, status and
   * created_at) copied from the row. The constructor checks nothing, so a past due date is fine.
   */
  method RowToTask(row: TaskRow) returns (task: TaskModel.Task)
    ensures fresh(task) && TaskHolds(task, row)
  {
    task := new TaskModel.Task(row.title, row.description, row.priority, row.dueDate,
                               row.projectId, row.assigneeId, row.createdAt);
    task.id := Some(row.id);
    task.status := row.status;
    task.createdAt := row.createdAt;
  }

  /** `_row_to_project`: the Project constructor, then id, status and created_at from the row. */
  method RowToProject(row: ProjectRow) returns (project: ProjectModel.Project)
    ensures fresh(project) && ProjectHolds(project, row)
  {
    project := new ProjectModel.Project(row.name, row.description, row.startDate, row.endDate, row.createdAt);
    project.id := Some(row.id);
    project.status := row.status;
    project.createdAt := row.createdAt;
  }

  /**
   * `_row_to_user`: the User constructor re-checks the stored email and role and raises on a row
   * that fails them; otherwise id and registration_date come from the row.
   */
  method RowToUser(row: UserRow) returns (r: Result<UserModel.User, Error>)
    ensures CheckRow(row).Some? ==> r == Failure(CheckRow(row).value)
    ensures CheckRow(row).None? ==> r.Success? && fresh(r.value) && UserHolds(r.value, row)
  {
    var built := UserModel.User.Create(row.username, row.email, row.role, row.registrationDate);
    assert CheckRow(row) == UserModel.Check(row.email, row.role);
    if built.Failure? {
      return Failure(built.error);
    }
    var user := built.value;
    RestoreUserColumns(user, row);
    return Success(user);
  }

  /** The columns of `_row_to_user` the User constructor does not set: id and registration_date. */
  method RestoreUserColumns(user: UserModel.User, row: UserRow)
    requires user.username == row.username && user.email == row.email && user.role == row.role
    modifies user`id, user`registrationDate
    ensures UserHolds(user, row)
  {
    user.id := Some(row.id);
    user.registrationDate := row.registrationDate;
  }

  /** The first error `check` reports on the items of `s`, scanning from the front. */
  function FirstError<T>(s: seq<T>, check: T -> Option<Error>): (r: Option<Error>)
    ensures r.None? <==> forall i :: 0 <= i < |s| ==> check(s[i]).None?
    ensures r.Some? ==> exists i :: 0 <= i < |s| && check(s[i]) == r && forall j :: 0 <= j < i ==> check(s[j]).None?
  {
    if s == [] then None
    else if check(s[0]).Some? then
      check(s[0])
    else
      var rest := FirstError(s[1..], check);
      assert forall i :: 1 <= i < |s| ==> s[i] == s[1..][i - 1];
      if rest.Some? then
        var i :| 0 <= i < |s[1..]| && check(s[1..][i]) == rest && forall j :: 0 <= j < i ==> check(s[1..][j]).None?;
        assert check(s[i + 1]) == rest && forall j :: 0 <= j < i + 1 ==> check(s[j]).None?;
        rest
      else
        rest
  }

  /** What hydrating a stored user row raises, if anything: the User constructor's checks. */
  function CheckRow(u: UserRow): Option<Error> {
    UserModel.Check(u.email, u.role)
  }

  /** `get_all_users` hydrates row by row, so the first row that fails the User checks raises. */
  function HydrateUsers(rows: seq<UserRow>): (r: Result<seq<UserRow>, Error>)
    ensures r.Success? <==> forall i :: 0 <= i < |rows| ==> Hydratable(rows[i])
    ensures r.Success? ==> r.value == rows
    ensures r.Failure? ==> exists i :: 0 <= i < |rows| && CheckRow(rows[i]) == Some(r.error)
                                      && forall j :: 0 <= j < i ==> Hydratable(rows[j])
  {
    match FirstError(rows, CheckRow)
    case None => Success(rows)
    case Some(e) => Failure(e)
  }

  class DatabaseManager {
    var tasks: map<int, TaskRow>
    var projects: map<int, ProjectRow>
    var users: map<int, UserRow>
    /** The sqlite_sequence entry of each table: the largest id it has handed out. */
    var lastTaskId: nat
    var lastProjectId: nat
    var lastUserId: nat
    /** `connection.total_changes`: rows inserted, updated or deleted since the connection opened. */
    var totalChanges: nat

    ghost predicate Valid()
      reads this
    {
      && KeyedById(tasks, TaskId, lastTaskId)
      && KeyedById(projects, ProjectId, lastProjectId)
      && KeyedById(users, UserId, lastUserId)
      && UniqueUserColumns(users)
    }

    /** A fresh connection to an empty database: three empty tables, no changes yet. */
    constructor ()
      ensures Valid()
      ensures tasks == map[] && projects == map[] && users == map[]
      ensures lastTaskId == 0 && lastProjectId == 0 && lastUserId == 0 && totalChanges == 0
    {
      tasks, projects, users := map[], map[], map[];
      lastTaskId, lastProjectId, lastUserId := 0, 0, 0;
      totalChanges := 0;
    }

    /**
     * A fresh connection to an existing database file: `CREATE TABLE IF NOT EXISTS` keeps its rows
     * and AUTOINCREMENT values, while `total_changes` counts from 0 again. The tables are any that
     * the schema admits: rows under their own ids, none above the counter, usernames and emails unique.
     */
    constructor Reopen(tasks: map<int, TaskRow>, projects: map<int, ProjectRow>, users: map<int, UserRow>,
                       lastTaskId: nat, lastProjectId: nat, lastUserId: nat)
      requires KeyedById(tasks, TaskId, lastTaskId) && KeyedById(projects, ProjectId, lastProjectId)
      requires KeyedById(users, UserId, lastUserId) && UniqueUserColumns(users)
      ensures Valid()
      ensures this.tasks == tasks && this.projects == projects && this.users == users
      ensures this.lastTaskId == lastTaskId && this.lastProjectId == lastProjectId && this.lastUserId == lastUserId
      ensures totalChanges == 0
    {
      this.tasks, this.projects, this.users := tasks, projects, users;
      this.lastTaskId, this.lastProjectId, this.lastUserId := lastTaskId, lastProjectId, lastUserId;
      totalChanges := 0;
    }

    // Frames: which tables a write leaves alone.

    twostate predicate ProjectsAndUsersUnchanged()
      reads this
    {
      projects == old(projects) && users == old(users)
      && lastProjectId == old(lastProjectId) && lastUserId == old(lastUserId)
    }

    twostate predicate TasksAndUsersUnchanged()
      reads this
    {
      tasks == old(tasks) && users == old(users) && lastTaskId == old(lastTaskId) && lastUserId == old(lastUserId)
    }

    twostate predicate TasksAndProjectsUnchanged()
      reads this
    {
      tasks == old(tasks) && projects == old(projects)
      && lastTaskId == old(lastTaskId) && lastProjectId == old(lastProjectId)
    }

    // The effect of each update_* and delete_*, stated once for the gateway and the controllers.

    /**
     * add_user's effect: a username or email another row holds violates a UNIQUE constraint and
     * changes nothing; otherwise the row is stored under the next id with the current time.
     */
    twostate predicate UserInserted(username: string, email: string, role: string, now: int, new r: Result<int, Error>)
      reads this
    {
      && TasksAndProjectsUnchanged()
      && if UsernameOrEmailTaken(old(users), username, email) then
           && r == Failure(UniqueConstraint) && users == old(users)
           && lastUserId == old(lastUserId) && totalChanges == old(totalChanges)
         else
           && r == Success(old(lastUserId) + 1) && lastUserId == r.value
           && (forall k :: k in old(users) ==> k < r.value)
           && users == old(users)[r.value := UserRow(r.value, username, email, role, now)]
           && totalChanges == old(totalChanges) + 1
    }

    /**
     * update_task: an empty change-set returns false and changes nothing. Otherwise the passed
     * columns of row `id` change, if there is one, and the result is whether the connection has
     * ever changed a row, not whether this call did.
     */
    twostate predicate TaskUpdated(id: int, patch: TaskPatch, ok: bool)
      reads this
    {
      && ProjectsAndUsersUnchanged() && lastTaskId == old(lastTaskId)
      && if patch.IsEmpty() then
           tasks == old(tasks) && totalChanges == old(totalChanges) && !ok
         else
           && tasks == (if id in old(tasks) then old(tasks)[id := patch.ApplyTo(old(tasks)[id])] else old(tasks))
           && totalChanges == old(totalChanges) + (if id in old(tasks) then 1 else 0)
           && ok == (totalChanges > 0)
    }

    /** delete_task: row `id` is gone; the result is whether the connection has ever changed a row. */
    twostate predicate TaskDeleted(id: int, ok: bool)
      reads this
    {
      && ProjectsAndUsersUnchanged() && lastTaskId == old(lastTaskId)
      && tasks == old(tasks) - {id}
      && totalChanges == old(totalChanges) + (if id in old(tasks) then 1 else 0)
      && ok == (totalChanges > 0)
    }

    /** update_project, as update_task. */
    twostate predicate ProjectUpdated(id: int, patch: ProjectPatch, ok: bool)
      reads this
    {
      && TasksAndUsersUnchanged() && lastProjectId == old(lastProjectId)
      && if patch.IsEmpty() then
           projects == old(projects) && totalChanges == old(totalChanges) && !ok
         else
           && projects == (if id in old(projects) then old(projects)[id := patch.ApplyTo(old(projects)[id])] else old(projects))
           && totalChanges == old(totalChanges) + (if id in old(projects) then 1 else 0)
           && ok == (totalChanges > 0)
    }

    /** delete_project, as delete_task. Tasks that name the project are left as they are. */
    twostate predicate ProjectDeleted(id: int, ok: bool)
      reads this
    {
      && TasksAndUsersUnchanged() && lastProjectId == old(lastProjectId)
      && projects == old(projects) - {id}
      && totalChanges == old(totalChanges) + (if id in old(projects) then 1 else 0)
      && ok == (totalChanges > 0)
    }

    /**
     * update_user, as update_task, except that a new username or email that another row holds
     * violates a UNIQUE constraint: the statement raises and changes nothing.
     */
    twostate predicate UserUpdated(id: int, patch: UserPatch, new r: Result<bool, Error>)
      reads this
    {
      && TasksAndProjectsUnchanged() && lastUserId == old(lastUserId)
      && if patch.IsEmpty() then
           users == old(users) && totalChanges == old(totalChanges) && r == Success(false)
         else if id in old(users) && TakenByOther(old(users), id, patch.ApplyTo(old(users)[id]).username,
                                                  patch.ApplyTo(old(users)[id]).email) then
           users == old(users) && totalChanges == old(totalChanges) && r == Failure(UniqueConstraint)
         else
           && users == (if id in old(users) then old(users)[id := patch.ApplyTo(old(users)[id])] else old(users))
           && totalChanges == old(totalChanges) + (if id in old(users) then 1 else 0)
           && r == Success(totalChanges > 0)
    }

    /** delete_user, as delete_task. Tasks assigned to the user are left as they are. */
    twostate predicate UserDeleted(id: int, ok: bool)
      reads this
    {
      && TasksAndProjectsUnchanged() && lastUserId == old(lastUserId)
      && users == old(users) - {id}
      && totalChanges == old(totalChanges) + (if id in old(users) then 1 else 0)
      && ok == (totalChanges > 0)
    }

    // Tasks.

    /**
     * add_task: inserts the entity's columns (its own created_at is not stored: the row gets
     * CURRENT_TIMESTAMP), writes the new id into the entity and returns it. Foreign keys are
     * not enforced, so any project or assignee id is accepted.
     */
    method AddTask(task: TaskModel.Task, now: int) returns (id: int)
      requires Valid()
      modifies this, task`id
      ensures Valid() && ProjectsAndUsersUnchanged()
      ensures id == old(lastTaskId) + 1 && lastTaskId == id
      ensures forall k :: k in old(tasks) ==> k < id
      ensures tasks == old(tasks)[id := TaskRow(id, task.title, task.description, task.priority, task.status,
                                                task.dueDate, task.projectId, task.assigneeId, now)]
      ensures task.id == Some(id)
      ensures totalChanges == old(totalChanges) + 1
    {
      id := lastTaskId + 1;
      lastTaskId := id;
      tasks := tasks[id := TaskRow(id, task.title, task.description, task.priority, task.status,
                                   task.dueDate, task.projectId, task.assigneeId, now)];
      totalChanges := totalChanges + 1;
      task.id := Some(id);
    }

    /** get_task_by_id: None when no row has this id, otherwise the hydrated row. */
    method GetTaskById(id: int) returns (t: Option<TaskModel.Task>)
      ensures t.None? <==> id !in tasks
      ensures t.Some? ==> fresh(t.value) && TaskHolds(t.value, tasks[id])
    {
      if id !in tasks {
        return None;
      }
      var task := RowToTask(tasks[id]);
      return Some(task);
    }

    /** `SELECT * FROM tasks WHERE <keep> ORDER BY created_at DESC`: each matching row once, newest first. */
    function TasksWhere(keep: TaskRow -> bool): (r: seq<TaskRow>)
      reads this
      requires Valid()
      ensures forall t :: t in r <==> t in tasks.Values && keep(t)
      ensures NoDuplicates(r) && NewestFirst(r, TaskCreated)
    {
      var sorted := NewestRows(tasks, TaskId, lastTaskId, TaskCreated);
      FilterNewestFirst(sorted, keep, TaskCreated);
      FilterNoDuplicates(sorted, keep);
      Filter(sorted, keep)
    }

    /** get_all_tasks: every row once, newest first. */
    function AllTasks(): (r: seq<TaskRow>)
      reads this
      requires Valid()
      ensures forall t :: t in r <==> t in tasks.Values
      ensures NoDuplicates(r) && NewestFirst(r, TaskCreated)
    {
      TasksWhere((_: TaskRow) => true)
    }

    /** update_task: `UPDATE tasks SET <passed columns> WHERE id = ?`. */
    method UpdateTask(id: int, patch: TaskPatch) returns (ok: bool)
      requires Valid()
      modifies this
      ensures Valid() && TaskUpdated(id, patch, ok)
    {
      if patch.IsEmpty() {
        return false;
      }
      if id in tasks {
        tasks := tasks[id := patch.ApplyTo(tasks[id])];
        totalChanges := totalChanges + 1;
      }
      return totalChanges > 0;
    }

    /** delete_task: `DELETE FROM tasks WHERE id = ?`. */
    method DeleteTask(id: int) returns (ok: bool)
      requires Valid()
      modifies this
      ensures Valid() && TaskDeleted(id, ok)
    {
      if id in tasks {
        tasks := tasks - {id};
        totalChanges := totalChanges + 1;
      }
      return totalChanges > 0;
    }

    /** search_tasks: the rows whose title or description contains `q`, newest first. */
    function SearchTasks(q: string): (r: seq<TaskRow>)
      reads this
      requires Valid()
      ensures forall t :: t in r <==> t in tasks.Values && MatchesQuery(t, q)
      ensures NoDuplicates(r) && NewestFirst(r, TaskCreated)
    {
      TasksWhere((t: TaskRow) => MatchesQuery(t, q))
    }

    /** get_tasks_by_project: the rows whose project_id is `projectId`, newest first. */
    function TasksByProject(projectId: int): (r: seq<TaskRow>)
      reads this
      requires Valid()
      ensures forall t :: t in r <==> t in tasks.Values && t.projectId == Some(projectId)
      ensures NoDuplicates(r) && NewestFirst(r, TaskCreated)
    {
      TasksWhere((t: TaskRow) => t.projectId == Some(projectId))
    }

    /** get_tasks_by_user: the rows whose assignee_id is `userId`, newest first. */
    function TasksByUser(userId: int): (r: seq<TaskRow>)
      reads this
      requires Valid()
      ensures forall t :: t in r <==> t in tasks.Values && t.assigneeId == Some(userId)
      ensures NoDuplicates(r) && NewestFirst(r, TaskCreated)
    {
      TasksWhere((t: TaskRow) => t.assigneeId == Some(userId))
    }

    // Projects.

    /** add_project: inserts name, description, dates and the entity's status; writes back and returns the new id. */
    method AddProject(project: ProjectModel.Project, now: int) returns (id: int)
      requires Valid()
      modifies this, project`id
      ensures Valid() && TasksAndUsersUnchanged()
      ensures id == old(lastProjectId) + 1 && lastProjectId == id
      ensures forall k :: k in old(projects) ==> k < id
      ensures projects == old(projects)[id := ProjectRow(id, project.name, project.description, project.startDate,
                                                         project.endDate, project.status, now)]
      ensures project.id == Some(id)
      ensures totalChanges == old(totalChanges) + 1
    {
      id := lastProjectId + 1;
      lastProjectId := id;
      projects := projects[id := ProjectRow(id, project.name, project.description, project.startDate,
                                            project.endDate, project.status, now)];
      totalChanges := totalChanges + 1;
      project.id := Some(id);
    }

    /** get_project_by_id: None when no row has this id, otherwise the hydrated row. */
    method GetProjectById(id: int) returns (p: Option<ProjectModel.Project>)
      ensures p.None? <==> id !in projects
      ensures p.Some? ==> fresh(p.value) && ProjectHolds(p.value, projects[id])
    {
      if id !in projects {
        return None;
      }
      var project := RowToProject(projects[id]);
      return Some(project);
    }

    /** get_all_projects: every row once, newest first. */
    function AllProjects(): (r: seq<ProjectRow>)
      reads this
      requires Valid()
      ensures forall p :: p in r <==> p in projects.Values
      ensures NoDuplicates(r) && NewestFirst(r, ProjectCreated)
    {
      NewestRows(projects, ProjectId, lastProjectId, ProjectCreated)
    }

    /** update_project: `UPDATE projects SET <passed columns> WHERE id = ?`. */
    method UpdateProject(id: int, patch: ProjectPatch) returns (ok: bool)
      requires Valid()
      modifies this
      ensures Valid() && ProjectUpdated(id, patch, ok)
    {
      if patch.IsEmpty() {
        return false;
      }
      if id in projects {
        projects := projects[id := patch.ApplyTo(projects[id])];
        totalChanges := totalChanges + 1;
      }
      return totalChanges > 0;
    }

    /** delete_project: `DELETE FROM projects WHERE id = ?`. */
    method DeleteProject(id: int) returns (ok: bool)
      requires Valid()
      modifies this
      ensures Valid() && ProjectDeleted(id, ok)
    {
      if id in projects {
        projects := projects - {id};
        totalChanges := totalChanges + 1;
      }
      return totalChanges > 0;
    }

    // Users.

    /**
     * add_user: inserts username, email and role; a username or email another row holds violates
     * a UNIQUE constraint, which raises and inserts nothing. Otherwise writes back and returns the new id.
     */
    method AddUser(user: UserModel.User, now: int) returns (r: Result<int, Error>)
      requires Valid()
      modifies this, user`id
      ensures Valid() && UserInserted(user.username, user.email, user.role, now, r)
      ensures r.Failure? ==> unchanged(this) && user.id == old(user.id)
      ensures r.Success? ==> user.id == Some(r.value)
    {
      if UsernameOrEmailTaken(users, user.username, user.email) {
        return Failure(UniqueConstraint);
      }
      var id := lastUserId + 1;
      var row := UserRow(id, user.username, user.email, user.role, now);
      InsertUserRow(users, lastUserId, row);
      lastUserId := id;
      users := users[id := row];
      totalChanges := totalChanges + 1;
      user.id := Some(id);
      return Success(id);
    }

    /** get_user_by_id: None when no row has this id; raises when the stored row fails the User checks. */
    method GetUserById(id: int) returns (r: Result<Option<UserModel.User>, Error>)
      ensures id !in users ==> r == Success(None)
      ensures id in users ==> (r.Failure? <==> !Hydratable(users[id]))
      ensures r.Failure? ==> CheckRow(users[id]) == Some(r.error)
      ensures id in users && r.Success? ==> r.value.Some? && fresh(r.value.value) && UserHolds(r.value.value, users[id])
    {
      if id !in users {
        return Success(None);
      }
      var hydrated := RowToUser(users[id]);
      if hydrated.Failure? {
        return Failure(hydrated.error);
      }
      return Success(Some(hydrated.value));
    }

    /** get_all_users: every row once, most recently registered first, or the error hydrating a row raises. */
    function AllUsers(): (r: Result<seq<UserRow>, Error>)
      reads this
      requires Valid()
      ensures r.Success? <==> forall u :: u in users.Values ==> Hydratable(u)
      ensures r.Success? ==> (forall u :: u in r.value <==> u in users.Values)
      ensures r.Success? ==> NoDuplicates(r.value) && NewestFirst(r.value, UserRegistered)
    {
      HydrateUsers(NewestRows(users, UserId, lastUserId, UserRegistered))
    }

    /** update_user: `UPDATE users SET <passed columns> WHERE id = ?`, subject to the UNIQUE constraints. */
    method UpdateUser(id: int, patch: UserPatch) returns (r: Result<bool, Error>)
      requires Valid()
      modifies this
      ensures Valid() && UserUpdated(id, patch, r)
    {
      if patch.IsEmpty() {
        return Success(false);
      }
      if id in users {
        var row := patch.ApplyTo(users[id]);
        if TakenByOther(users, id, row.username, row.email) {
          return Failure(UniqueConstraint);
        }
        users := users[id := row];
        totalChanges := totalChanges + 1;
      }
      return Success(totalChanges > 0);
    }

    /** delete_user: `DELETE FROM users WHERE id = ?`. */
    method DeleteUser(id: int) returns (ok: bool)
      requires Valid()
      modifies this
      ensures Valid() && UserDeleted(id, ok)
    {
      if id in users {
        users := users - {id};
        totalChanges := totalChanges + 1;
      }
      return totalChanges > 0;
    }

    /** Every stored user row passes the User constructor's checks. */
    ghost predicate UsersWellFormed()
      reads this
    {
      AllHydratable(users)
    }

    /** Every stored task has one of the three priorities and one of the three statuses. */
    ghost predicate TasksWellFormed()
      reads this
    {
      forall k :: k in tasks ==> tasks[k].priority in Enums.Priorities && tasks[k].status in Enums.TaskStatuses
    }

    /** Every stored project has one of the three project statuses. */
    ghost predicate ProjectsWellFormed()
      reads this
    {
      forall k :: k in projects ==> projects[k].status in Enums.ProjectStatuses
    }

    /** Some task names this project. */
    predicate ProjectInUse(projectId: int)
      reads this
    {
      exists t :: t in tasks.Values && t.projectId == Some(projectId)
    }

    /** Some task is assigned to this user. */
    predicate UserInUse(userId: int)
      reads this
    {
      exists t :: t in tasks.Values && t.assigneeId == Some(userId)
    }
  }
}
