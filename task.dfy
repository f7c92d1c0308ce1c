/** models/task.py: a task record with a lenient status setter and a clock-relative overdue flag. */
module TaskModel {
  import opened Wrappers
  import opened Enums
  import opened Dicts

  /** `is_overdue` with the clock passed in: the current time is strictly after the due date. */
  predicate Overdue(dueDate: int, now: int) {
    now > dueDate
  }

  class Task {
    var id: Option<int>
    var title: string
    var description: Option<string>
    var priority: int
    var status: string
    var dueDate: int
    var projectId: Option<int>
    var assigneeId: Option<int>
    var createdAt: int

    /** `Task.__init__`: stores its arguments as given (priority and due date are not checked), status 'pending', no id. */
    constructor (title: string, description: Option<string>, priority: int, dueDate: int,
                 projectId: Option<int>, assigneeId: Option<int>, now: int)
      ensures this.id == None && this.status == "pending" && this.createdAt == now
      ensures this.title == title && this.description == description && this.priority == priority
      ensures this.dueDate == dueDate && this.projectId == projectId && this.assigneeId == assigneeId
    {
      this.id := None;
      this.title := title;
      this.description := description;
      this.priority := priority;
      this.status := "pending";
      this.dueDate := dueDate;
      this.projectId := projectId;
      this.assigneeId := assigneeId;
      this.createdAt := now;
    }

    /** `update_status`: a listed status is taken and true returned; anything else returns false and changes nothing. */
    method UpdateStatus(newStatus: string) returns (ok: bool)
      modifies this`status
      ensures ok <==> newStatus in TaskStatuses
      ensures status == SetIfAllowed(old(status), newStatus, TaskStatuses)
    {
      if newStatus in TaskStatuses {
        status := newStatus;
        return true;
      }
      return false;
    }

    /** `is_overdue`, whatever the status. */
    predicate IsOverdue(now: int)
      reads this
    {
      Overdue(dueDate, now)
    }

    /** `to_dict`: every field under its column name, plus the derived 'is_overdue'. */
    function ToDict(now: int): (d: map<string, Value>)
      reads this
      ensures d.Keys == {"id", "title", "description", "priority", "status", "due_date",
                         "project_id", "assignee_id", "created_at", "is_overdue"}
      ensures d["id"] == OfOptInt(id) && d["title"] == Str(title) && d["description"] == OfOptStr(description)
      ensures d["priority"] == Int(priority) && d["status"] == Str(status) && d["due_date"] == Int(dueDate)
      ensures d["project_id"] == OfOptInt(projectId) && d["assignee_id"] == OfOptInt(assigneeId)
      ensures d["created_at"] == Int(createdAt)
      ensures d["is_overdue"] == Bool(now > dueDate)
    {
      map["id" := OfOptInt(id), "title" := Str(title), "description" := OfOptStr(description),
          "priority" := Int(priority), "status" := Str(status), "due_date" := Int(dueDate),
          "project_id" := OfOptInt(projectId), "assignee_id" := OfOptInt(assigneeId),
          "created_at" := Int(createdAt), "is_overdue" := Bool(IsOverdue(now))]
    }
  }
}
