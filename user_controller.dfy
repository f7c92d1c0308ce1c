/** controllers/user_controller.py: the checks that guard user writes, and the guard on deleting a user. */
module UserControl {
  import opened Wrappers
  import opened Errors
  import opened Enums
  import opened Email
  import opened Sequences
  import opened Store
  import UserModel

  /**
   * add_user's checks, in order: the controller's own role check first, then the User
   * constructor's (the email, the role again). A bad role is reported even when the email is bad too.
   */
  function CheckNewUser(email: string, role: string): (r: Option<Error>)
    ensures r.None? <==> role in Roles && IsValidEmail(email)
    ensures role !in Roles ==> r == Some(InvalidRole(role))
    ensures role in Roles && !IsValidEmail(email) ==> r == Some(InvalidEmail(email))
    ensures r.None? <==> UserModel.Check(email, role).None?
  {
    if role !in Roles then Some(InvalidRole(role))
    else UserModel.Check(email, role)
  }

  /**
   * update_user's checks, in order: a passed role, then a passed email through a throw-away
   * User("temp", email, "developer"). A passed username is not checked.
   */
  function CheckUserPatch(patch: UserPatch): (r: Option<Error>)
    ensures r.None? <==> (patch.role.Set? ==> patch.role.value in Roles)
                         && (patch.email.Set? ==> IsValidEmail(patch.email.value))
    ensures patch.role.Set? && patch.role.value !in Roles ==> r == Some(InvalidRole(patch.role.value))
    ensures (patch.role.Set? ==> patch.role.value in Roles) && patch.email.Set? && !IsValidEmail(patch.email.value)
            ==> r == Some(InvalidEmail(patch.email.value))
  {
    if patch.role.Set? && patch.role.value !in Roles then Some(InvalidRole(patch.role.value))
    else if patch.email.Set? then UserModel.Check(patch.email.value, "developer")
    else None
  }

  /** A change-set that passes the checks keeps a row that passes them passing them. */
  lemma CheckedPatchKeepsRowHydratable(patch: UserPatch, row: UserRow)
    requires CheckUserPatch(patch).None? && Hydratable(row)
    ensures Hydratable(patch.ApplyTo(row))
  {
    var after := patch.ApplyTo(row);
    assert IsValidEmail(row.email) && row.role in Roles;
    assert IsValidEmail(after.email) && after.role in Roles;
  }

  class UserController {
    const db: DatabaseManager

    constructor (db: DatabaseManager)
      ensures this.db == db
    {
      this.db := db;
    }

    /**
     * add_user: after the checks, builds a User and stores it; a username or email already
     * taken is refused by the store. A refused user leaves the store as it was.
     */
    method AddUser(username: string, email: string, role: string, now: int) returns (r: Result<int, Error>)
      requires db.Valid()
      modifies db
      ensures db.Valid()
      ensures CheckNewUser(email, role).Some? ==> r == Failure(CheckNewUser(email, role).value) && unchanged(db)
      ensures CheckNewUser(email, role).None? ==> db.UserInserted(username, email, role, now, r)
      ensures r.Failure? ==> unchanged(db)
      ensures old(db.UsersWellFormed()) ==> db.UsersWellFormed()
    {
      if role !in Roles {
        return Failure(InvalidRole(role));
      }
      var built := UserModel.User.Create(username, email, role, now);
      assert CheckNewUser(email, role) == UserModel.Check(email, role);
      if built.Failure? {
        return Failure(built.error);
      }
      var user := built.value;
      ghost var before := db.users;
      ghost var wellFormed := db.UsersWellFormed();
      r := db.AddUser(user, now);
      assert user.username == username && user.email == email && user.role == role;
      if wellFormed && r.Success? {
        StoreKeepsHydratable(before, r.value, UserRow(r.value, username, email, role, now));
        assert db.users == before[r.value := UserRow(r.value, username, email, role, now)];
      }
    }

    /** update_user: after the checks, forwards the same change-set to the store. */
    method UpdateUser(id: int, patch: UserPatch) returns (r: Result<bool, Error>)
      requires db.Valid()
      modifies db
      ensures db.Valid()
      ensures CheckUserPatch(patch).Some? ==> r == Failure(CheckUserPatch(patch).value) && unchanged(db)
      ensures CheckUserPatch(patch).None? ==> db.UserUpdated(id, patch, r)
      ensures old(db.UsersWellFormed()) ==> db.UsersWellFormed()
    {
      var problem := CheckUserPatch(patch);
      if problem.Some? {
        return Failure(problem.value);
      }
      if id in db.users && db.UsersWellFormed() {
        CheckedPatchKeepsRowHydratable(patch, db.users[id]);
      }
      r := db.UpdateUser(id, patch);
    }

    /** delete_user: refused while any task is assigned to the user; otherwise the store's delete. */
    method DeleteUser(id: int) returns (r: Result<bool, Error>)
      requires db.Valid()
      modifies db
      ensures db.Valid()
      ensures old(db.UserInUse(id)) ==> r == Failure(UserHasTasks) && unchanged(db)
      ensures !old(db.UserInUse(id)) ==> r.Success? && db.UserDeleted(id, r.value)
      ensures old(db.UsersWellFormed()) ==> db.UsersWellFormed()
    {
      var userTasks := db.TasksByUser(id);
      UserInUseIff(id);
      if userTasks != [] {
        return Failure(UserHasTasks);
      }
      var ok := db.DeleteUser(id);
      return Success(ok);
    }

    /** get_user_tasks: the tasks assigned to the user, newest first; empty exactly when none is. */
    function GetUserTasks(userId: int): (r: seq<TaskRow>)
      reads db
      requires db.Valid()
      ensures forall t :: t in r <==> t in db.tasks.Values && t.assigneeId == Some(userId)
      ensures r != [] <==> db.UserInUse(userId)
      ensures NoDuplicates(r) && NewestFirst(r, TaskCreated)
    {
      UserInUseIff(userId);
      db.TasksByUser(userId)
    }

    /** get_tasks_by_user returns something exactly when some task is assigned to the user. */
    lemma UserInUseIff(userId: int)
      requires db.Valid()
      ensures db.TasksByUser(userId) != [] <==> db.UserInUse(userId)
    {
      var r := db.TasksByUser(userId);
      if r != [] {
        assert r[0] in r;
      }
      if db.UserInUse(userId) {
        var t :| t in db.tasks.Values && t.assigneeId == Some(userId);
        assert t in r;
      }
    }
  }
}
