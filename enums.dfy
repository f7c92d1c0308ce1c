/** The enumerations the entities and controllers check against. */
module Enums {

  /** models/task.py:17 and controllers/task_controller.py:46,64. */
  const TaskStatuses: set<string> := {"pending", "in_progress", "completed"}

  /** models/project.py:15 and controllers/project_controller.py:38,59. */
  const ProjectStatuses: set<string> := {"active", "completed", "on_hold"}

  /** models/user.py:17,37 and controllers/user_controller.py:9,34. */
  const Roles: set<string> := {"admin", "manager", "developer"}

  /** controllers/task_controller.py:11,42: 1 = high, 2 = medium, 3 = low. */
  const Priorities: set<int> := {1, 2, 3}

  /**
   * The lenient status setter of Task.update_status and Project.update_status: a requested value
   * in `allowed` replaces the current one, anything else leaves it as it was.
   */
  function SetIfAllowed(current: string, requested: string, allowed: set<string>): string {
    if requested in allowed then requested else current
  }

  /** Setting the same status twice is setting it once. */
  lemma SetIfAllowedIdempotent(current: string, requested: string, allowed: set<string>)
    ensures SetIfAllowed(SetIfAllowed(current, requested, allowed), requested, allowed)
         == SetIfAllowed(current, requested, allowed)
  {
  }

  /** No transition order: every allowed value is reachable from every current value. */
  lemma SetIfAllowedAnyToAny(current: string, requested: string, allowed: set<string>)
    requires requested in allowed
    ensures SetIfAllowed(current, requested, allowed) == requested
  {
  }
}
