/** The core's user operations: mapping login and role names to the stored
    enums, reading users (with a NULL password read as empty and a user's
    groups decoded from a JSON column), and the UUID guards. The store,
    uuid.Parse and the JSON decoder are parameters. */
module CoreUsers {
  import opened Common

  datatype LoginType = LoginOidc | LoginStandard
  datatype RoleType = RoleAdmin | RoleUser

  /** models.Group. */
  datatype Group = Group(id: string, name: string, description: string)

  /** models.User, with the fields these operations fill in. */
  datatype User = User(uuid: string, name: string, username: string, password: string, groups: seq<Group>)

  const ErrUnknownLoginType: string := "unknown login type"
  const ErrUnknownRoleType: string := "unknown role type"

  /** The stored login type for a login-type name. */
  function LoginTypeOf(s: string): (r: Result<LoginType>)
    ensures r == Ok(LoginOidc) <==> s == "oidc"
    ensures r == Ok(LoginStandard) <==> s == "standard"
    ensures r.Err? <==> s != "oidc" && s != "standard"
    ensures r.Err? ==> r.error == ErrUnknownLoginType
  {
    if s == "oidc" then Ok(LoginOidc)
    else if s == "standard" then Ok(LoginStandard)
    else Err(ErrUnknownLoginType)
  }

  /** The stored role for a role name. */
  function RoleOf(s: string): (r: Result<RoleType>)
    ensures r == Ok(RoleAdmin) <==> s == "admin"
    ensures r == Ok(RoleUser) <==> s == "user"
    ensures r.Err? <==> s != "admin" && s != "user"
    ensures r.Err? ==> r.error == ErrUnknownRoleType
  {
    if s == "admin" then Ok(RoleAdmin)
    else if s == "user" then Ok(RoleUser)
    else Err(ErrUnknownRoleType)
  }

  /** The columns written when a user is created. */
  datatype CreateUserParams = CreateUserParams(name: string, username: string, loginType: LoginType, role: RoleType)

  /** CreateUser: the login type is checked first, then the role, and the
      store is called only when both are known; the new user carries the
      store's UUID and the given name and username. `store` answers with the
      new user's UUID. */
  function CreateUser(name: string, username: string, loginType: string, role: string,
                      store: CreateUserParams -> Result<string>): (r: Result<User>)
    ensures LoginTypeOf(loginType).Err? ==> r == Err(ErrUnknownLoginType)
    ensures LoginTypeOf(loginType).Ok? && RoleOf(role).Err? ==> r == Err(ErrUnknownRoleType)
    ensures LoginTypeOf(loginType).Ok? && RoleOf(role).Ok? ==>
      var res := store(CreateUserParams(name, username, LoginTypeOf(loginType).value, RoleOf(role).value));
      && (r.Ok? <==> res.Ok?)
      && (r.Ok? ==> r.value == User(res.value, name, username, "", []))
      && (r.Err? ==> r.error == "could not create user " + username + ": " + res.error)
  {
    match LoginTypeOf(loginType)
    case Err(e) => Err(e)
    case Ok(ltype) =>
      match RoleOf(role)
      case Err(e) => Err(e)
      case Ok(urole) =>
        match store(CreateUserParams(name, username, ltype, urole))
        case Err(e) => Err("could not create user " + username + ": " + e)
        case Ok(uuid) => Ok(User(uuid, name, username, "", []))
  }

  /** A created user always has a known login type and role. */
  lemma CreatedUserHasKnownNames(name: string, username: string, loginType: string, role: string,
                                 store: CreateUserParams -> Result<string>)
    requires CreateUser(name, username, loginType, role, store).Ok?
    ensures loginType in {"oidc", "standard"} && role in {"admin", "user"}
  {
  }

  /** A stored user row. */
  datatype UserRow = UserRow(uuid: string, name: string, username: string, password: NullString)

  /** GetUserByUsername: the UUID, username and password of the stored user,
      with "" for a NULL password; the name is not filled in. */
  function GetUserByUsername(username: string, get: string -> Result<UserRow>): (r: Result<User>)
    ensures get(username).Err? ==> r == Err("could not get user " + username + ": " + get(username).error)
    ensures get(username).Ok? ==>
      var row := get(username).value;
      && r.Ok?
      && r.value.uuid == row.uuid && r.value.username == row.username && r.value.name == ""
      && (row.password.valid ==> r.value.password == row.password.str)
      && (!row.password.valid ==> r.value.password == "")
  {
    match get(username)
    case Err(e) => Err("could not get user " + username + ": " + e)
    case Ok(user) =>
      var p := if user.password.valid then user.password.str else "";
      Ok(User(user.uuid, "", user.username, p, []))
  }

  /** GetUserByUUID: a malformed UUID fails before the store is read. */
  function GetUserByUuid(userUuid: string, parseUuid: string -> Result<string>,
                         get: string -> Result<UserRow>): (r: Result<User>)
    ensures parseUuid(userUuid).Err? ==> r == Err("user ID should be a UUID: " + parseUuid(userUuid).error)
    ensures parseUuid(userUuid).Ok? ==>
      var res := get(parseUuid(userUuid).value);
      && (r.Ok? <==> res.Ok?)
      && (r.Ok? ==> r.value == User(res.value.uuid, res.value.name, res.value.username, res.value.password.str, []))
  {
    match parseUuid(userUuid)
    case Err(e) => Err("user ID should be a UUID: " + e)
    case Ok(uid) =>
      match get(uid)
      case Err(e) => Err("could not get user " + userUuid + ": " + e)
      case Ok(u) => Ok(User(u.uuid, u.name, u.username, u.password.str, []))
  }

  /** DeleteUserByUUID: a malformed UUID fails before the store is called. */
  function DeleteUserByUuid(userUuid: string, parseUuid: string -> Result<string>,
                            delete: string -> Option<string>): (err: Option<string>)
    ensures parseUuid(userUuid).Err? ==> err == Some("user ID should be a UUID: " + parseUuid(userUuid).error)
    ensures parseUuid(userUuid).Ok? ==> (err.None? <==> delete(parseUuid(userUuid).value).None?)
  {
    match parseUuid(userUuid)
    case Err(e) => Some("user ID should be a UUID: " + e)
    case Ok(uid) =>
      match delete(uid)
      case Some(e) => Some("could not delete user " + userUuid + ": " + e)
      case None => None
  }

  /** A row of the users-with-groups queries: the groups column holds JSON,
      or is NULL for a user in no group. */
  datatype UserGroupsRow = UserGroupsRow(uuid: string, name: string, username: string, groups: Option<string>)

  /** The groups of a row: none for NULL, else the decoded JSON. */
  function GroupsOf(row: UserGroupsRow, decode: string -> Result<seq<Group>>): (r: Result<seq<Group>>)
    ensures row.groups.None? ==> r == Ok([])
    ensures row.groups.Some? ==> (r.Ok? <==> decode(row.groups.value).Ok?)
    ensures row.groups.Some? && r.Ok? ==> r.value == decode(row.groups.value).value
  {
    match row.groups
    case None => Ok([])
    case Some(json) =>
      match decode(json)
      case Err(e) => Err("could not get groups for the user " + row.uuid + ": " + e)
      case Ok(groups) => Ok(groups)
  }

  function UserOf(row: UserGroupsRow, groups: seq<Group>): User
  {
    User(row.uuid, row.name, row.username, "", groups)
  }

  /** The loop shared by GetAllUsersWithGroups and SearchUser: one user per
      row, in row order, each with its decoded groups; the first row whose
      groups do not decode ends the loop with that row's error. */
  method UsersFromRows(rows: seq<UserGroupsRow>, decode: string -> Result<seq<Group>>)
    returns (r: Result<seq<User>>)
    ensures r.Ok? <==> forall i :: 0 <= i < |rows| ==> GroupsOf(rows[i], decode).Ok?
    ensures r.Ok? ==>
      && |r.value| == |rows|
      && forall i :: 0 <= i < |rows| ==> r.value[i] == UserOf(rows[i], GroupsOf(rows[i], decode).value)
    ensures r.Err? ==> exists i ::
      && 0 <= i < |rows| && GroupsOf(rows[i], decode).Err?
      && r.error == GroupsOf(rows[i], decode).error
      && forall j :: 0 <= j < i ==> GroupsOf(rows[j], decode).Ok?
  {
    var users: seq<User> := [];
    var i := 0;
    while i < |rows|
      invariant 0 <= i <= |rows|
      invariant |users| == i
      invariant forall j :: 0 <= j < i ==> GroupsOf(rows[j], decode).Ok?
      invariant forall j :: 0 <= j < i ==> users[j] == UserOf(rows[j], GroupsOf(rows[j], decode).value)
    {
      var groups := GroupsOf(rows[i], decode);
      if groups.Err? {
        return Err(groups.error);
      }
      users := users + [UserOf(rows[i], groups.value)];
      i := i + 1;
    }
    r := Ok(users);
  }

  /** GetAllUsersWithGroups: a store failure is wrapped; otherwise the users
      of the rows. */
  method GetAllUsersWithGroups(fetched: Result<seq<UserGroupsRow>>, decode: string -> Result<seq<Group>>)
    returns (r: Result<seq<User>>)
    ensures fetched.Err? ==> r == Err("could not get users with groups: " + fetched.error)
    ensures fetched.Ok? ==> (r.Ok? <==> forall i :: 0 <= i < |fetched.value| ==> GroupsOf(fetched.value[i], decode).Ok?)
    ensures fetched.Ok? && r.Ok? ==>
      && |r.value| == |fetched.value|
      && forall i :: 0 <= i < |fetched.value| ==>
           r.value[i] == UserOf(fetched.value[i], GroupsOf(fetched.value[i], decode).value)
    ensures fetched.Ok? && r.Err? ==> exists i ::
      && 0 <= i < |fetched.value| && GroupsOf(fetched.value[i], decode).Err?
      && r.error == GroupsOf(fetched.value[i], decode).error
      && forall j :: 0 <= j < i ==> GroupsOf(fetched.value[j], decode).Ok?
  {
    if fetched.Err? {
      return Err("could not get users with groups: " + fetched.error);
    }
    r := UsersFromRows(fetched.value, decode);
  }

  /** SearchUser: a store failure is returned as it is; otherwise the users
      of the matching rows. */
  method SearchUser(fetched: Result<seq<UserGroupsRow>>, decode: string -> Result<seq<Group>>)
    returns (r: Result<seq<User>>)
    ensures fetched.Err? ==> r == Err(fetched.error)
    ensures fetched.Ok? ==> (r.Ok? <==> forall i :: 0 <= i < |fetched.value| ==> GroupsOf(fetched.value[i], decode).Ok?)
    ensures fetched.Ok? && r.Ok? ==>
      && |r.value| == |fetched.value|
      && forall i :: 0 <= i < |fetched.value| ==>
           r.value[i] == UserOf(fetched.value[i], GroupsOf(fetched.value[i], decode).value)
    ensures fetched.Ok? && r.Err? ==> exists i ::
      && 0 <= i < |fetched.value| && GroupsOf(fetched.value[i], decode).Err?
      && r.error == GroupsOf(fetched.value[i], decode).error
      && forall j :: 0 <= j < i ==> GroupsOf(fetched.value[j], decode).Ok?
  {
    if fetched.Err? {
      return Err(fetched.error);
    }
    r := UsersFromRows(fetched.value, decode);
  }
}
