/** models/user.py: a user record whose email and role are checked on construction and on update. */
module UserModel {
  import opened Wrappers
  import opened Errors
  import opened Enums
  import opened Dicts
  import opened Email

  /**
   * The checks User.__init__ makes, in its order: the email first, then the role. None means the
   * object is built; Some(e) is the ValueError raised.
   */
  function Check(email: string, role: string): (r: Option<Error>)
    ensures r.None? <==> IsValidEmail(email) && role in Roles
    ensures !IsValidEmail(email) ==> r == Some(InvalidEmail(email))
    ensures IsValidEmail(email) && role !in Roles ==> r == Some(InvalidRole(role))
  {
    if !IsValidEmail(email) then Some(InvalidEmail(email))
    else if role !in Roles then Some(InvalidRole(role))
    else None
  }

  /** Construction succeeds exactly when `re.match` accepts the email and the role is listed. */
  lemma CheckPassesIff(email: string, role: string)
    ensures Check(email, role).None? <==> RegexAccepts(email) && role in Roles
  {
    ValidEmailIsRegexMatch(email);
  }

  class User {
    var id: Option<int>
    var username: string
    var email: string
    var role: string
    var registrationDate: int

    /** Every User object passed the constructor's checks; update_info only ever stores checked values. */
    ghost predicate Valid()
      reads this
    {
      Check(email, role).None?
    }

    /** The assignments of User.__init__, reached only once its checks pass. */
    constructor (username: string, email: string, role: string, now: int)
      requires Check(email, role).None?
      ensures Valid()
      ensures this.id == None && this.username == username && this.email == email && this.role == role
      ensures registrationDate == now
    {
      this.id := None;
      this.username := username;
      this.email := email;
      this.role := role;
      this.registrationDate := now;
    }

    /** `User(username, email, role)`: a new user without id, or the ValueError of the first failing check. */
    static method Create(username: string, email: string, role: string, now: int) returns (r: Result<User, Error>)
      ensures r.Failure? <==> Check(email, role).Some?
      ensures r.Failure? ==> r.error == Check(email, role).value
      ensures r.Success? ==> fresh(r.value) && r.value.Valid() && r.value.id == None
      ensures r.Success? ==> r.value.username == username && r.value.email == email && r.value.role == role
      ensures r.Success? ==> r.value.registrationDate == now
    {
      var problem := Check(email, role);
      if problem.Some? {
        return Failure(problem.value);
      }
      var user := new User(username, email, role, now);
      return Success(user);
    }

    /**
     * `update_info`: None leaves a field alone. Not atomic: the username is assigned before the
     * email is checked and the email before the role, so a raised error leaves the earlier
     * assignments in place.
     */
    method UpdateInfo(username: Option<string>, email: Option<string>, role: Option<string>) returns (err: Option<Error>)
      requires Valid()
      modifies this`username, this`email, this`role
      ensures Valid()
      ensures this.username == if username.Some? then username.value else old(this.username)
      ensures var emailBad := email.Some? && !IsValidEmail(email.value);
        var roleBad := role.Some? && role.value !in Roles;
        && this.email == (if email.Some? && !emailBad then email.value else old(this.email))
        && this.role == (if !emailBad && role.Some? && !roleBad then role.value else old(this.role))
        && err == (if emailBad then Some(InvalidEmail(email.value))
                   else if roleBad then Some(InvalidRole(role.value))
                   else None)
    {
      if username.Some? {
        this.username := username.value;
      }
      if email.Some? {
        if !IsValidEmail(email.value) {
          return Some(InvalidEmail(email.value));
        }
        this.email := email.value;
      }
      if role.Some? {
        if role.value !in Roles {
          return Some(InvalidRole(role.value));
        }
        this.role := role.value;
      }
      return None;
    }

    /** `to_dict`: exactly these five keys, each holding the current field. */
    function ToDict(): (d: map<string, Value>)
      reads this
      ensures d.Keys == {"id", "username", "email", "role", "registration_date"}
      ensures d["id"] == OfOptInt(id) && d["username"] == Str(username) && d["email"] == Str(email)
      ensures d["role"] == Str(role) && d["registration_date"] == Int(registrationDate)
    {
      map["id" := OfOptInt(id), "username" := Str(username), "email" := Str(email),
          "role" := Str(role), "registration_date" := Int(registrationDate)]
    }
  }
}
