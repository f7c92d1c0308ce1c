/** The exceptions the core raises. Messages are not modelled, only which check failed. */
module Errors {

  datatype Error =
    /** ValueError: the email does not match the address pattern (models/user.py). */
    | InvalidEmail(email: string)
    /** ValueError: the role is not admin, manager or developer. */
    | InvalidRole(role: string)
    /** ValueError: the priority is not 1, 2 or 3 (controllers/task_controller.py). */
    | InvalidPriority(priority: int)
    /** ValueError: a new task's due date lies before the current time. */
    | DueDateInPast
    /** ValueError: not one of pending, in_progress, completed. */
    | InvalidTaskStatus(status: string)
    /** ValueError: not one of active, completed, on_hold. */
    | InvalidProjectStatus(status: string)
    /** ValueError: a project's start date is not before its end date. */
    | EndNotAfterStart
    /** ValueError: a new project's start date lies before the current time. */
    | StartInPast
    /** ValueError: progress was asked of a project id with no row. */
    | ProjectNotFound
    /** ValueError: a project still has tasks and cannot be deleted. */
    | ProjectHasTasks
    /** ValueError: a user is still assignee of tasks and cannot be deleted. */
    | UserHasTasks
    /** sqlite3.IntegrityError: a UNIQUE column (users.username or users.email) would repeat. */
    | UniqueConstraint
}
