/** server/controllers/authController.js: the login decision chain and the
    "who am I" answer, over snapshots of the users, roles and permission
    collections. */
module AuthController {
  import opened Wrappers
  import opened Json
  import Crypto
  import Query
  import RoleController
  import UserController
  import PermissionSchema
  import PermissionController
  import AuthMiddleware

  /** The outcome of `loginUser`. */
  datatype LoginOutcome =
    | UnknownUser                    // 400 "User not found"
    | InvalidPassword                // 400 "Invalid password"
    | PermissionsNotFound            // 400 "Permissions not found for this user"
    | LoginFailed(message: string)   // 500 { message: error.message }
    | LoggedIn(token: Crypto.Token, id: string, username: string, role: string,
               permissions: seq<PermissionSchema.PermissionRecord>)  // 200

  /** What `bcrypt.compare` rejects with when the password is undefined. */
  const MissingPasswordMessage: string := "data and hash arguments required"

  /** `loginUser(username, password)`: the first user with that username,
      then the password (None when the body has none: bcrypt rejects, and
      the catch answers 500), then the user's permission records, then a
      token. */
  function Login(username: string, password: Option<string>, users: seq<UserController.User>,
                 roles: seq<RoleController.Role>, records: seq<PermissionSchema.PermissionRecord>)
    : (r: LoginOutcome)
    ensures r == UnknownUser <==> forall j :: 0 <= j < |users| ==> users[j].username != username
    ensures r != UnknownUser ==> Query.FirstMatch(users, UserController.HasUsername(username)).Some?
    ensures r == InvalidPassword <==>
      (r != UnknownUser && password.Some? &&
       !Crypto.Compare(password.value, users[Query.FirstMatch(users, UserController.HasUsername(username)).value].password))
    ensures r != UnknownUser && password.None? ==> r == LoginFailed(MissingPasswordMessage)
    ensures r != PermissionsNotFound
    ensures r.LoginFailed? && password.Some? ==>
      var u := users[Query.FirstMatch(users, UserController.HasUsername(username)).value];
      Crypto.Compare(password.value, u.password)
      && PermissionController.CurrentUserPermissions(u.role, roles, records).Failure?
      && r.message == PermissionController.CurrentUserPermissions(u.role, roles, records).error
    ensures r.LoggedIn? ==>
      var u := users[Query.FirstMatch(users, UserController.HasUsername(username)).value];
      && password.Some? && Crypto.Compare(password.value, u.password)
      && r.token == Crypto.Token(u.id, Crypto.TokenLifetime)
      && r.id == u.id && r.username == username && r.role == u.role
      && PermissionController.CurrentUserPermissions(u.role, roles, records) == Success(r.permissions)
  {
    match Query.FirstMatch(users, UserController.HasUsername(username))
    case None => UnknownUser
    case Some(i) =>
      var u := users[i];
      if password.None? then LoginFailed(MissingPasswordMessage)
      else if !Crypto.Compare(password.value, u.password) then InvalidPassword
      else
        match PermissionController.CurrentUserPermissions(u.role, roles, records)
        case Failure(e) => LoginFailed(e)
        case Success(ps) =>
          // `!permissionsResponse.permissions` tests an array: never true.
          if !IsTruthy(Some(PermissionController.RecordsJson(ps))) then PermissionsNotFound
          else LoggedIn(Crypto.Sign(u.id), u.id, u.username, u.role, ps)
  }

  /** The right password of a user whose role exists always logs in, with a
      one-hour token for that user's id. */
  lemma LoginWithRightPassword(password: string, salt: nat, users: seq<UserController.User>, i: nat,
                               roles: seq<RoleController.Role>, records: seq<PermissionSchema.PermissionRecord>)
    requires i < |users| && users[i].password == Crypto.Hash(password, salt)
    requires Query.FirstMatch(users, UserController.HasUsername(users[i].username)) == Some(i)
    requires exists k :: 0 <= k < |roles| && roles[k].roleName == users[i].role
    ensures var r := Login(users[i].username, Some(password), users, roles, records);
      r.LoggedIn? && r.id == users[i].id && r.token.expiresIn == 3600
  {
  }

  /** The token of a successful login, sent back as `Bearer <token>` while
      it verifies, authenticates that same user (ids are unique). */
  lemma LoginTokenAuthenticates(username: string, password: Option<string>, users: seq<UserController.User>,
                                roles: seq<RoleController.Role>, records: seq<PermissionSchema.PermissionRecord>,
                                encoded: string, verifier: Crypto.Verifier)
    requires UserController.UniqueIds(users)
    requires Login(username, password, users, roles, records).LoggedIn?
    requires encoded != "" && ' ' !in encoded
    requires encoded in verifier && verifier[encoded] == Login(username, password, users, roles, records).token.id
    ensures var i := Query.FirstMatch(users, UserController.HasUsername(username)).value;
      AuthMiddleware.Authenticate(Some("Bearer " + encoded), verifier, users)
        == AuthMiddleware.Authenticated(UserController.ProfileOf(users[i]))
  {
    var i := Query.FirstMatch(users, UserController.HasUsername(username)).value;
    AuthMiddleware.BearerTokenOfHeader(encoded);
    assert forall j :: 0 <= j < i ==> !UserController.HasId(users[i].id)(users[j]);
    Query.FirstMatchUnique(users, UserController.HasId(users[i].id), i);
  }

  /** The outcome of `getCurrentUser`. */
  datatype CurrentUserOutcome =
    | Unauthorized       // 401
    | NoSuchUser         // 404 "User not found"
    | PermissionsMissing // 400 "Permissions not found for this user"
    | InternalError      // 500 "Internal Server Error"
    | CurrentUser(id: string, username: string, role: string,
                  permissions: seq<PermissionSchema.PermissionRecord>)  // 200

  /** `getCurrentUser` for the `req.user` the middleware set, if any. */
  function GetCurrentUser(reqUser: Option<UserController.Profile>, users: seq<UserController.User>,
                          roles: seq<RoleController.Role>, records: seq<PermissionSchema.PermissionRecord>)
    : (r: CurrentUserOutcome)
    ensures r == Unauthorized <==> reqUser.None?
    ensures r == NoSuchUser <==> reqUser.Some? && forall j :: 0 <= j < |users| ==> users[j].id != reqUser.value.id
    ensures r != PermissionsMissing
    ensures r == InternalError <==>
      (reqUser.Some? && Query.FirstMatch(users, UserController.HasId(reqUser.value.id)).Some?
       && PermissionController.CurrentUserPermissions(
            users[Query.FirstMatch(users, UserController.HasId(reqUser.value.id)).value].role, roles, records).Failure?)
    ensures r.CurrentUser? ==>
      (reqUser.Some? && r.id == reqUser.value.id
       && exists j :: 0 <= j < |users| && users[j].id == r.id && users[j].username == r.username
            && users[j].role == r.role
            && PermissionController.CurrentUserPermissions(users[j].role, roles, records) == Success(r.permissions))
  {
    if reqUser.None? then Unauthorized
    else
      match Query.FirstMatch(users, UserController.HasId(reqUser.value.id))
      case None => NoSuchUser
      case Some(i) =>
        var u := users[i];
        match PermissionController.CurrentUserPermissions(u.role, roles, records)
        case Failure(_) => InternalError
        case Success(ps) =>
          // `!permissionsResponse.permissions` tests an array: never true.
          if !IsTruthy(Some(PermissionController.RecordsJson(ps))) then PermissionsMissing
          else CurrentUser(u.id, u.username, u.role, ps)
  }

  /** A caller found in the users collection whose role name exists gets the
      200 with exactly that role's records. */
  lemma CurrentUserWithExistingRole(p: UserController.Profile, users: seq<UserController.User>, i: nat,
                                    roles: seq<RoleController.Role>, records: seq<PermissionSchema.PermissionRecord>)
    requires Query.FirstMatch(users, UserController.HasId(p.id)) == Some(i)
    requires exists k :: 0 <= k < |roles| && roles[k].roleName == users[i].role
    ensures var r := GetCurrentUser(Some(p), users, roles, records);
      r.CurrentUser? && r.id == users[i].id && r.role == users[i].role
      && PermissionController.CurrentUserPermissions(users[i].role, roles, records) == Success(r.permissions)
  {
  }

  /** Behind the middleware, on the same users collection, the caller is
      always found: the 404 of `getCurrentUser` cannot happen. */
  lemma AuthenticatedUserIsFound(authorization: Option<string>, verifier: Crypto.Verifier,
                                 users: seq<UserController.User>, roles: seq<RoleController.Role>,
                                 records: seq<PermissionSchema.PermissionRecord>)
    requires AuthMiddleware.Authenticate(authorization, verifier, users).Authenticated?
    ensures var p := AuthMiddleware.Authenticate(authorization, verifier, users).user;
      GetCurrentUser(Some(p), users, roles, records) != NoSuchUser
      && GetCurrentUser(Some(p), users, roles, records) != Unauthorized
  {
  }
}
