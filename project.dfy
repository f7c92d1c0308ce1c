/** models/project.py: a project record with a lenient status setter and a placeholder progress. */
module ProjectModel {
  import opened Wrappers
  import opened Enums
  import opened Dicts

  class Project {
    var id: Option<int>
    var name: string
    var description: Option<string>
    var startDate: int
    var endDate: int
    var status: string
    var createdAt: int

    /** `Project.__init__`: stores its arguments (end after start is not checked), status 'active', no id. */
    constructor (name: string, description: Option<string>, startDate: int, endDate: int, now: int)
      ensures this.id == None && this.status == "active" && this.createdAt == now
      ensures this.name == name && this.description == description
      ensures this.startDate == startDate && this.endDate == endDate
    {
      this.id := None;
      this.name := name;
      this.description := description;
      this.startDate := startDate;
      this.endDate := endDate;
      this.status := "active";
      this.createdAt := now;
    }

    /** `update_status`: a listed status is taken and true returned; anything else returns false and changes nothing. */
    method UpdateStatus(newStatus: string) returns (ok: bool)
      modifies this`status
      ensures ok <==> newStatus in ProjectStatuses
      ensures status == SetIfAllowed(old(status), newStatus, ProjectStatuses)
    {
      if newStatus in ProjectStatuses {
        status := newStatus;
        return true;
      }
      return false;
    }

    /** `get_progress`: the entity does not know its tasks; only the controller computes real progress. */
    function GetProgress(): (p: real)
      ensures p == 0.0
    {
      0.0
    }

    /** `to_dict`: every field under its column name, and 'progress' always 0.0. */
    function ToDict(): (d: map<string, Value>)
      reads this
      ensures d.Keys == {"id", "name", "description", "start_date", "end_date", "status", "created_at", "progress"}
      ensures d["id"] == OfOptInt(id) && d["name"] == Str(name) && d["description"] == OfOptStr(description)
      ensures d["start_date"] == Int(startDate) && d["end_date"] == Int(endDate) && d["status"] == Str(status)
      ensures d["created_at"] == Int(createdAt) && d["progress"] == Real(0.0)
    {
      map["id" := OfOptInt(id), "name" := Str(name), "description" := OfOptStr(description),
          "start_date" := Int(startDate), "end_date" := Int(endDate), "status" := Str(status),
          "created_at" := Int(createdAt), "progress" := Real(GetProgress())]
    }
  }
}
