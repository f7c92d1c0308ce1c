# Task manager core in Dafny

This project models the validation-and-persistence core of a small desktop task manager. The
system keeps users, projects and tasks in SQLite and puts a Tkinter interface on top. The model
covers three layers:

- **Entities**: `User`, `Task` and `Project` (models/*.py), as Dafny classes.
  - A `User` checks its email and role on construction. Because the constructor can raise, it is
    modelled by the static method `User.Create`, which returns a `Result`.
  - The email check is a hand-written recognizer. It is proved equivalent to what Python's
    `re.match` accepts for the source's pattern.
  - `update_info` and `update_status` change fields in place.
- **The database manager** (database/database_manager.py): a `DatabaseManager` class over an
  in-memory store.
  - Each table is a map from id to row.
  - Each table has an AUTOINCREMENT counter that only grows.
  - `totalChanges` is the connection's cumulative change count. Every `delete_*`, and every
    `update_*` with a non-empty change-set, returns `totalChanges > 0`: whether the connection has
    ever changed a row, not whether this call did. An `update_*` with an empty change-set returns
    False and touches nothing.
  - A connection opened on an existing file keeps its rows and counters, and its change count
    starts again at 0.
  - `UPDATE ... SET` with keyword arguments becomes a patch record of optional fields.
  - The UNIQUE constraints on `users.username` and `users.email` are enforced.
  - Foreign keys are not enforced.
- **Controllers** (controllers/*.py): classes that hold the store. They run their checks in the
  source's order before any write. A rejected call leaves the store unchanged. Deleting a project
  or user that tasks still reference is refused.
  - `search_tasks` short-circuits on a blank query.
  - `get_overdue_tasks` is an order-preserving filter.
  - `get_project_progress` is the percentage of completed tasks.

The wall clock is a `now: int` parameter, and dates and timestamps are integers. Errors are the
`Errors.Error` datatype, one constructor per `ValueError` or `IntegrityError` the core raises.
List queries return table rows in `created_at` (or `registration_date`) order, newest first.

Files:
- wrappers.dfy, errors.dfy, enums.dfy and dicts.dfy hold the shared types.
- text.dfy has `str.strip` and substring search.
- sequences.dfy has filtering and the newest-first sort.
- email.dfy has the email recognizer.
- user.dfy, task.dfy and project.dfy hold the entities.
- store.dfy holds the database manager.
- task_controller.dfy, project_controller.dfy and user_controller.dfy hold the controllers.

## Model

| member | source | states |
|---|---|---|
| Email.AddressMatchesPattern | models/user.py:23-24 | the first-'@' / last-'.' recognizer accepts a string exactly when some split of it matches `[a-zA-Z0-9._%+-]+@[a-zA-Z0-9.-]+\.[a-zA-Z]{2,}` in full |
| Email.IsValidEmail | models/user.py:21-24 | `_is_valid_email` as a recognizer: drop one final newline, find the first '@' and the last '.' after it, and check the character classes and lengths; ValidEmailIsRegexMatch states what it accepts |
| Email.ValidEmailIsRegexMatch | models/user.py:21-24 | `_is_valid_email` holds exactly when `re.match` of the anchored pattern succeeds, including Python's `$` before one final newline |
| Email.ValidEmailHasOneAt | models/user.py:23 | an accepted address (without the tolerated newline) has exactly one '@', after a non-empty local part |
| UserModel.Check | models/user.py:13-19 | construction passes iff the email is valid and the role is admin, manager or developer; the email error comes first when both are bad |
| UserModel.CheckPassesIff | models/user.py:13-24 | construction passes iff `re.match` accepts the email and the role is listed |
| UserModel.User.constructor | models/user.py:5-10 | a new user holds the given username, email and role, has no id, and is registered at `now` |
| UserModel.User.Create | models/user.py:5-19 | `User(...)` raises exactly the first failing check's error; otherwise it returns a fresh, valid user without id that holds the arguments |
| UserModel.User.UpdateInfo | models/user.py:26-40 | a None argument leaves its field alone and a valid one replaces it; not atomic: a bad email raises after the username changed, and a bad role raises after both changed |
| UserModel.User.ToDict | models/user.py:42-50 | exactly the keys id, username, email, role and registration_date, each mirroring its field |
| TaskModel.Task.constructor | models/task.py:4-13 | stores its arguments unchecked, with status 'pending', no id and created_at `now` |
| TaskModel.Task.UpdateStatus | models/task.py:15-22 | returns true iff the status is pending, in_progress or completed; the status changes to it exactly then, and no other field changes |
| TaskModel.Overdue | models/task.py:24-26 | overdue exactly when the current time is strictly after the due date |
| TaskModel.Task.IsOverdue | models/task.py:24-26 | `is_overdue` reads only the due date and the clock: a completed task can still be overdue |
| TaskModel.Task.ToDict | models/task.py:24-41 | mirrors every field and adds is_overdue, which is `now > due_date` whatever the status |
| Enums.SetIfAllowedIdempotent | models/task.py:17-21 | applying the same status twice is applying it once |
| Enums.SetIfAllowedAnyToAny | models/project.py:15-19 | any listed status is reachable from any current status; there is no transition order |
| ProjectModel.Project.constructor | models/project.py:4-11 | stores its arguments without checking the dates, with status 'active', no id and created_at `now` |
| ProjectModel.Project.UpdateStatus | models/project.py:13-20 | returns true iff the status is active, completed or on_hold; the status changes to it exactly then |
| ProjectModel.Project.GetProgress | models/project.py:22-25 | always 0.0 |
| ProjectModel.Project.ToDict | models/project.py:27-38 | mirrors every field; 'progress' is always 0.0 |
| Text.TrimStart | controllers/task_controller.py:57 | the result is a suffix of the input, everything removed is whitespace, and it does not start with whitespace |
| Text.TrimEnd | controllers/task_controller.py:57 | the result is a prefix of the input, everything removed is whitespace, and it does not end with whitespace |
| Text.Strip | controllers/task_controller.py:57-60 | `str.strip()`: a slice of the input with only whitespace around it, neither starting nor ending with whitespace; empty exactly when the input is blank |
| Text.StripIdempotent | controllers/task_controller.py:57-60 | stripping twice is stripping once |
| Text.ContainsEmpty | database/database_manager.py:136-139 | `LIKE '%%'` matches every text |
| Sequences.Filter | controllers/task_controller.py:73 | the list comprehension keeps exactly the elements that pass, each as often as in the input, as an order-preserving subsequence |
| Sequences.FilterNewestFirst | controllers/task_controller.py:72-73 | filtering a list sorted newest first leaves it sorted |
| Sequences.FilterNoDuplicates | controllers/task_controller.py:72-73 | filtering a list without duplicates leaves it without duplicates |
| Sequences.Insert | database/database_manager.py:108 | insertion into a newest-first list keeps it sorted and adds exactly the one element |
| Sequences.SortNewestFirst | database/database_manager.py:108 | `ORDER BY ... DESC`: a sorted permutation of the input |
| Sequences.SortNoDuplicates | database/database_manager.py:108 | sorting cannot create duplicates |
| Sequences.RowsById | database/database_manager.py:108-109 | a table scan yields exactly the stored rows, in increasing id order |
| Sequences.NewestRows | database/database_manager.py:106-110 | `SELECT * ... ORDER BY created_at DESC`: every stored row exactly once, newest first |
| Store.TaskPatch.ApplyTo | database/database_manager.py:117-123 | `UPDATE tasks SET` changes only the passed columns: id and created_at stay, an empty change-set is the identity, and the status stays unless passed |
| Store.ProjectPatch.ApplyTo | database/database_manager.py:208-214 | `UPDATE projects SET`: id and created_at stay, an empty change-set is the identity, and the status stays unless passed |
| Store.UserPatch.ApplyTo | database/database_manager.py:261-267 | `UPDATE users SET`: id and registration_date stay, an empty change-set is the identity, and email and role stay unless passed |
| Store.MatchesQuery | database/database_manager.py:136-139 | `title LIKE '%q%' OR description LIKE '%q%'`: the empty query matches every row, and a NULL description never matches, so only the title counts |
| Store.StatusOnly | controllers/task_controller.py:68 | `update_task(id, status=s)` is a non-empty change-set that changes the status column only |
| Store.ProjectStatusOnly | controllers/project_controller.py:63 | `update_project(id, status=s)` is a non-empty change-set that changes the status column only |
| Store.RowToTask | database/database_manager.py:158-171 | a fresh Task that holds every column of the row, stored status, id and created_at included |
| Store.RowToProject | database/database_manager.py:280-291 | a fresh Project that holds every column of the row |
| Store.RowToUser | database/database_manager.py:293-302 | raises the User constructor's error for a row that fails its checks; otherwise a fresh User that holds every column |
| Store.HydrateUsers | database/database_manager.py:252-254 | hydrating a list of users succeeds iff every row passes the User checks; otherwise the error is that of the first failing row, every row before it passing |
| Store.DatabaseManager.constructor | database/database_manager.py:8-78 | a new database has three empty tables, counters at 0 and no changes, so the first id of each table is 1 |
| Store.DatabaseManager.Reopen | database/database_manager.py:8-78 | a connection to an existing file (`CREATE TABLE IF NOT EXISTS`) keeps every row and AUTOINCREMENT value it finds, while the change count starts at 0 |
| Store.DatabaseManager.AddTask | database/database_manager.py:82-94 | the new id is one above the table's counter, and so above every id ever issued; the row holds the task's columns; the id is written back into the task; the other tables are unchanged |
| Store.DatabaseManager.GetTaskById | database/database_manager.py:96-104 | absent iff no row has the id; otherwise a fresh Task that holds the stored row |
| Store.DatabaseManager.AllTasks | database/database_manager.py:106-110 | every task row exactly once, newest first |
| Store.DatabaseManager.UpdateTask | database/database_manager.py:112-125 | an empty change-set returns false and changes nothing; otherwise only the passed columns of that row change, and the result is whether the connection has ever changed a row |
| Store.DatabaseManager.DeleteTask | database/database_manager.py:127-132 | the row is gone and no other row changes; the result is whether the connection has ever changed a row |
| Store.DatabaseManager.SearchTasks | database/database_manager.py:134-143 | exactly the tasks whose title or description contains the query, newest first |
| Store.DatabaseManager.TasksByProject | database/database_manager.py:145-149 | exactly the tasks whose project_id is the argument, newest first |
| Store.DatabaseManager.TasksByUser | database/database_manager.py:151-155 | exactly the tasks whose assignee_id is the argument, newest first |
| Store.DatabaseManager.AddProject | database/database_manager.py:173-185 | a fresh id above every id issued; the row holds the project's columns and status; the id is written back; the other tables are unchanged |
| Store.DatabaseManager.GetProjectById | database/database_manager.py:187-195 | absent iff no row has the id; otherwise a fresh Project that holds the stored row |
| Store.DatabaseManager.AllProjects | database/database_manager.py:197-201 | every project row exactly once, newest first |
| Store.DatabaseManager.UpdateProject | database/database_manager.py:203-216 | as UpdateTask, on projects |
| Store.DatabaseManager.DeleteProject | database/database_manager.py:218-223 | as DeleteTask, on projects; tasks that name the project are left as they are |
| Store.DatabaseManager.AddUser | database/database_manager.py:227-238 | a username or email that another row holds raises an integrity error and changes nothing; otherwise a fresh id is issued, the row stored and the id written back |
| Store.DatabaseManager.GetUserById | database/database_manager.py:240-248 | absent iff no row has the id; raises iff the stored row fails the User checks; otherwise a fresh User that holds the row |
| Store.DatabaseManager.AllUsers | database/database_manager.py:250-254 | succeeds iff every stored row passes the User checks, and then returns every user row exactly once, most recently registered first |
| Store.DatabaseManager.UpdateUser | database/database_manager.py:256-269 | as UpdateTask, except that a new username or email held by another row raises an integrity error and changes nothing |
| Store.DatabaseManager.DeleteUser | database/database_manager.py:271-276 | as DeleteTask, on users; tasks assigned to the user are left as they are |
| TaskControl.CheckNewTask | controllers/task_controller.py:11-16 | passes iff the priority is 1, 2 or 3 and `due_date >= now`; the priority error comes first |
| TaskControl.CheckTaskPatch | controllers/task_controller.py:42-47 | passes iff a passed priority is listed and a passed status is listed, priority first; no other column is checked |
| TaskControl.TaskController.AddTask | controllers/task_controller.py:8-29 | a rejected task leaves the store unchanged; an accepted one is the only new row, under a fresh id, with the given fields and status 'pending'; well-formed task rows stay well-formed |
| TaskControl.TaskController.UpdateTask | controllers/task_controller.py:39-49 | a rejected change-set changes nothing; otherwise the same change-set goes to the store |
| TaskControl.TaskController.DeleteTask | controllers/task_controller.py:51-53 | the store's delete, unchecked |
| TaskControl.TaskController.UpdateTaskStatus | controllers/task_controller.py:62-68 | a bad status raises and changes nothing; otherwise only that task's status changes |
| TaskControl.TaskController.SearchTasks | controllers/task_controller.py:55-60 | empty for a blank query; otherwise exactly the tasks matching the stripped query, newest first |
| TaskControl.TaskController.SearchIgnoresPadding | controllers/task_controller.py:57-60 | padding a query with whitespace does not change what the search finds |
| TaskControl.TaskController.GatewaySearchEmptyIsAll | controllers/task_controller.py:57-58 | the store's search for "" would return every task, which is why the blank short-circuit changes the result |
| TaskControl.TaskController.GetOverdueTasks | controllers/task_controller.py:70-73 | exactly the tasks with `now > due_date`, whatever their status, as an order-preserving subsequence of get_all_tasks |
| TaskControl.TaskController.GetTasksByProject | controllers/task_controller.py:75-77 | exactly the tasks of that project, newest first |
| TaskControl.TaskController.GetTasksByUser | controllers/task_controller.py:79-81 | exactly the tasks assigned to that user, newest first |
| ProjectControl.CheckNewProject | controllers/project_controller.py:11-15 | passes iff `start < end` and `start >= now`; the date-order error comes first |
| ProjectControl.CheckProjectPatch | controllers/project_controller.py:38-44 | passes iff a passed status is listed and, when both dates are passed, start is before end; one date alone is never compared |
| ProjectControl.CountCompleted | controllers/project_controller.py:78 | the number of tasks whose status is 'completed': the length of the filter that keeps them, so at most the number of tasks |
| ProjectControl.NoneCompletedCountsZero | controllers/project_controller.py:78 | the count is 0 when no task is completed |
| ProjectControl.AllCompletedCountsAll | controllers/project_controller.py:78 | the count is the length when every task is completed |
| ProjectControl.Percent | controllers/project_controller.py:74-79 | `100 * completed / total` when there are tasks and 0 when there are none; so between 0 and 100, 0 with nothing completed and 100 when all are completed |
| Sequences.DistinctElementsCount | controllers/project_controller.py:79 | a list without duplicates has as many entries as distinct elements, so `len(tasks)` counts the project's task rows |
| ProjectControl.ProjectTaskCount | controllers/project_controller.py:72-79 | `len(get_tasks_by_project(id))` is the number of task rows that name the project |
| ProjectControl.CompletedTaskCount | controllers/project_controller.py:78 | the completed count over that list is the number of the project's rows whose status is 'completed' |
| ProjectControl.PercentIsProgress | controllers/project_controller.py:72-81 | the percentage computed over the query result is 100 times the completed share of the project's task rows, and 0 without tasks |
| ProjectControl.ProjectController.AddProject | controllers/project_controller.py:8-26 | a rejected project leaves the store unchanged; an accepted one is the only new row, under a fresh id, with status 'active' |
| ProjectControl.ProjectController.UpdateProject | controllers/project_controller.py:36-46 | a rejected change-set changes nothing; otherwise the same change-set goes to the store |
| ProjectControl.ProjectController.DeleteProject | controllers/project_controller.py:48-55 | raises and changes nothing iff some task names the project; otherwise the store's delete |
| ProjectControl.ProjectController.UpdateProjectStatus | controllers/project_controller.py:57-63 | a bad status raises and changes nothing; otherwise only that project's status changes |
| ProjectControl.ProjectController.GetProjectProgress | controllers/project_controller.py:65-81 | raises iff the project is absent; otherwise `100 * C / N` for the N task rows that name the project and the C of them that are completed, and 0 when N is 0; so a value in [0, 100], 0 with none completed and 100 when all are |
| ProjectControl.ProjectController.ProgressOfTasks | controllers/project_controller.py:72-78 | the completed count of the project's tasks is 0 when none is completed and their number when all are |
| ProjectControl.ProjectController.ProjectInUseIff | controllers/project_controller.py:51-52 | get_tasks_by_project is non-empty exactly when some task names the project |
| UserControl.CheckNewUser | controllers/user_controller.py:9-18 | passes iff the role is listed and the email is valid; the role error comes first, the reverse of the User constructor's order |
| UserControl.CheckUserPatch | controllers/user_controller.py:33-41 | passes iff a passed role is listed and a passed email is valid, role first; the username is never checked |
| UserControl.CheckedPatchKeepsRowHydratable | controllers/user_controller.py:33-44 | a change-set that passes the checks keeps a stored row that passes the User checks passing them |
| UserControl.UserController.AddUser | controllers/user_controller.py:7-21 | a rejected user changes nothing; otherwise the store's insert with the given username, email and role, subject to UNIQUE; stored rows keep passing the User checks |
| UserControl.UserController.UpdateUser | controllers/user_controller.py:31-44 | a rejected change-set changes nothing; otherwise the same change-set goes to the store; stored rows keep passing the User checks |
| UserControl.UserController.DeleteUser | controllers/user_controller.py:46-52 | raises and changes nothing iff some task is assigned to the user; otherwise the store's delete |
| UserControl.UserController.GetUserTasks | controllers/user_controller.py:54-56 | exactly the tasks assigned to the user, each once, newest first; empty exactly when none is |
| UserControl.UserController.UserInUseIff | controllers/user_controller.py:48-49 | get_tasks_by_user is non-empty exactly when some task is assigned to the user |

## Left out

- The Tkinter views and main window: they are GUI only.
- Connection handling (`connect`, `close`, `row_factory`), SQL text assembly and `datetime.fromisoformat`: the store is maps and counters, and dates are integers.
- The wall clock: `datetime.now()` and `CURRENT_TIMESTAMP` are the `now` parameter. One call uses the same `now` for the controller's checks and for the row's timestamp.
- Store.DatabaseManager.SearchTasks: `LIKE` is modelled as a plain substring test. SQLite's ASCII case folding and the `%` and `_` wildcards inside the user's query are not modelled.
- Sequences.NewestRows: only non-increasing timestamp order is promised. The order among rows with equal timestamps is whatever the stable sort gives, not SQLite's.
- Store.DatabaseManager.AllTasks: the list queries return rows, not freshly hydrated entity objects. Hydration is modelled once per entity by `RowToTask`, `RowToProject` and `RowToUser`. For users it decides whether the list query raises.
- ProjectControl.Percent: the value is the exact rational `100 * completed / total`. IEEE division and `round(progress, 2)` are not modelled, so the source's value can differ from it by up to 0.005 plus rounding error.
- Store.TaskPatch: a change-set holds only the updatable columns. A keyword that names `id`, `created_at` or no column at all, which `update_*` would also put into its `SET` clause, is not modelled.
- TaskControl.TaskController.SearchTasks: the query is a string. A `None` query, which the source also maps to `[]`, is not modelled.
- The NOT NULL constraints: the model's columns cannot hold NULL where the schema forbids it.
- The controllers' pass-throughs `get_task`, `get_all_tasks`, `get_project`, `get_all_projects`, `get_user` and `get_all_users`: each is the store method of the same name.
- Foreign keys are declared but SQLite does not enforce them by default. So a task may name a missing project or user, and deleting a project or user leaves its tasks alone.
- The text of the error messages: only which check failed is modelled.
