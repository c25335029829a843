/** server/middleware/authMiddleware.js: who the caller is (`authMiddleware`)
    and the two gates the routes put in front of handlers (`isAdmin`,
    `hasPermission(key)`). */
module AuthMiddleware {
  import opened Wrappers
  import opened PermissionSchema
  import Text
  import Crypto
  import Query
  import UserController
  import PermissionController

  /** The role name both gates let through unconditionally. */
  const AdminRole: string := "Admin"

  /** `authorization?.split(" ")[1]`: the second space-separated word of the
      header, undefined when there is no header or no space. */
  function BearerToken(authorization: Option<string>): (t: Option<string>)
    ensures authorization.None? ==> t.None?
    ensures t.Some? ==> ' ' !in t.value
  {
    if authorization.None? then None
    else
      var parts := Text.Split(authorization.value, ' ');
      Text.SplitPiecesFree(authorization.value, ' ');
      if |parts| >= 2 then Some(parts[1]) else None
  }

  /** The header the client sends, `Bearer <token>`, yields the token. */
  lemma BearerTokenOfHeader(token: string)
    requires ' ' !in token
    ensures BearerToken(Some("Bearer " + token)) == Some(token)
  {
    assert "Bearer " + token == "Bearer" + [' '] + token;
    Text.SplitTwoWords("Bearer", token, ' ');
  }

  /** A header without a space holds no token at all. */
  lemma NoSpaceNoToken(authorization: string)
    requires ' ' !in authorization
    ensures BearerToken(Some(authorization)).None?
  {
    Text.SplitNoSep(authorization, ' ');
  }

  /** `if (!token)`: an empty second word counts as no token. */
  predicate HasToken(authorization: Option<string>) {
    BearerToken(authorization).Some? && BearerToken(authorization).value != ""
  }

  /** The outcome of `authMiddleware`. */
  datatype AuthOutcome =
    | NoTokenProvided                           // 401 "No token provided"
    | InvalidToken                              // 401 "Invalid or expired token"
    | UserNotFound                              // 404 "User not found"
    | Authenticated(user: UserController.Profile) // req.user set, next()

  /** `authMiddleware` against the tokens that verify now and the users
      collection: verify, then `findById(decoded.id).select("-password")`. */
  function Authenticate(authorization: Option<string>, verifier: Crypto.Verifier,
                        users: seq<UserController.User>): (r: AuthOutcome)
    ensures r == NoTokenProvided <==> !HasToken(authorization)
    ensures r == InvalidToken <==> HasToken(authorization) && BearerToken(authorization).value !in verifier
    ensures r == UserNotFound <==>
      (HasToken(authorization) && BearerToken(authorization).value in verifier
       && forall j :: 0 <= j < |users| ==> users[j].id != verifier[BearerToken(authorization).value])
    ensures r.Authenticated? ==>
      (HasToken(authorization) && BearerToken(authorization).value in verifier
       && r.user.id == verifier[BearerToken(authorization).value]
       && exists j :: 0 <= j < |users| && r.user == UserController.ProfileOf(users[j]))
  {
    var token := BearerToken(authorization);
    if token.None? || token.value == "" then NoTokenProvided
    else if token.value !in verifier then InvalidToken
    else
      match Query.FirstMatch(users, UserController.HasId(verifier[token.value]))
      case None => UserNotFound
      case Some(i) => Authenticated(UserController.ProfileOf(users[i]))
  }

  /** A gate's decision. */
  datatype Decision =
    | Proceed      // next()
    | Forbidden    // 403 "Access denied…"
    | ServerError  // 500 "Internal Server Error", from the catch

  /** `isAdmin`. */
  function IsAdmin(user: UserController.Profile): (d: Decision)
    ensures d == Proceed <==> user.role == AdminRole
    ensures d == Forbidden <==> user.role != AdminRole
  {
    if user.role != AdminRole then Forbidden else Proceed
  }

  /** The names every plain JavaScript object answers through
      Object.prototype, so that `obj[k]` is a (truthy) function for them. */
  const PrototypeNames: set<string> :=
    {"constructor", "hasOwnProperty", "isPrototypeOf", "propertyIsEnumerable",
     "toLocaleString", "toString", "valueOf", "__proto__",
     "__defineGetter__", "__defineSetter__", "__lookupGetter__", "__lookupSetter__"}

  /** `permissions.permissions[key]` is truthy: the key names a category
      object (truthy whatever its flags) or an inherited member. */
  predicate EntryTruthy(m: Matrix, key: string) {
    key in m || key in PrototypeNames
  }

  /** Every stored record holds a complete matrix, as `assignPermissions`
      leaves it. */
  ghost predicate AllComplete(records: seq<PermissionRecord>) {
    forall i :: 0 <= i < |records| ==> Complete(records[i].permissions)
  }

  /** `hasPermission(key)` for a caller whose `req.user.role` is `role`, a
      role NAME, against the stored permission records. `Permission.findOne({
      role })` casts that name to the schema's ObjectId path: a name that is
      not an ObjectId string throws a CastError into the catch (500); one
      that is matches the records by that id. */
  function HasPermission(key: string, role: string, records: seq<PermissionRecord>): (d: Decision)
    ensures role == AdminRole ==> d == Proceed
    ensures role != AdminRole && !PermissionController.IsValidObjectId(role) ==> d == ServerError
    ensures role != AdminRole && PermissionController.IsValidObjectId(role) ==>
      match PermissionController.Lookup(records, role)
      case None => d == Forbidden
      case Some(m) => d != ServerError && (d == Proceed <==> EntryTruthy(m, key))
  {
    if role == AdminRole then Proceed
    else if !PermissionController.IsValidObjectId(role) then ServerError
    else
      match PermissionController.Lookup(records, role)
      case None => Forbidden
      case Some(m) => if EntryTruthy(m, key) then Proceed else Forbidden
  }

  /** The Admin bypass: the records are never looked at. */
  lemma AdminIgnoresRecord(key: string, r1: seq<PermissionRecord>, r2: seq<PermissionRecord>)
    ensures HasPermission(key, AdminRole, r1) == HasPermission(key, AdminRole, r2) == Proceed
  {
  }

  /** The role names the user form offers besides Admin. */
  const FormRoleNames: set<string> :=
    {"Manager", "Shipping Dept", "Testing", "Technician", "SupplyChainManager"}

  /** None of those names survives the ObjectId cast: every user created
      with one of them gets a 500 from every `hasPermission` gate. */
  lemma FormRolesFailCast(key: string, role: string, records: seq<PermissionRecord>)
    requires role in FormRoleNames
    ensures !PermissionController.IsValidObjectId(role)
    ensures HasPermission(key, role, records) == ServerError
  {
  }

  /** For a role string that does survive the cast, on a stored (complete)
      matrix the gate passes for exactly the category names and the
      inherited names. */
  lemma GateOnCompleteMatrix(key: string, role: string, records: seq<PermissionRecord>, m: Matrix)
    requires role != AdminRole && PermissionController.IsValidObjectId(role)
    requires PermissionController.Lookup(records, role) == Some(m) && Complete(m)
    ensures HasPermission(key, role, records) == Proceed <==> IsCategory(key) || key in PrototypeNames
  {
  }

  /** The gate never reads an action flag: two stores of complete matrices
      that hold a record for the same roles decide every key alike. */
  lemma GateIgnoresFlags(key: string, role: string, rs: seq<PermissionRecord>, ss: seq<PermissionRecord>)
    requires AllComplete(rs) && AllComplete(ss)
    requires PermissionController.Lookup(rs, role).Some? <==> PermissionController.Lookup(ss, role).Some?
    ensures HasPermission(key, role, rs) == HasPermission(key, role, ss)
  {
    LookupComplete(rs, role);
    LookupComplete(ss, role);
  }

  /** A record found in a store of complete matrices is complete. */
  lemma LookupComplete(records: seq<PermissionRecord>, role: string)
    requires AllComplete(records)
    ensures PermissionController.Lookup(records, role).Some? ==> Complete(PermissionController.Lookup(records, role).value)
  {
  }

  /** A category key passes on the all-false defaults, while no action of
      that category is granted: reachable only for a role string the cast
      accepts. */
  lemma AllFalseCategoryPasses(key: string, role: string, records: seq<PermissionRecord>)
    requires IsCategory(key) && PermissionController.IsValidObjectId(role)
    requires PermissionController.Lookup(records, role) == Some(Defaults())
    ensures HasPermission(key, role, records) == Proceed
    ensures forall a :: !Flag(Defaults(), key, a)
  {
  }

  /** A key that is neither a category nor an inherited name never lets a
      non-Admin through: 403 for a castable role string, 500 otherwise. */
  lemma UnknownKeyDenied(key: string, role: string, records: seq<PermissionRecord>)
    requires !IsCategory(key) && key !in PrototypeNames
    requires role != AdminRole
    requires AllComplete(records)
    ensures HasPermission(key, role, records) ==
      if PermissionController.IsValidObjectId(role) then Forbidden else ServerError
  {
    LookupComplete(records, role);
  }

  /** The key wired on GET /permissions/:roleId makes that route Admin-only;
      a caller whose role name fails the cast gets the 500. */
  lemma ViewPermissionsIsAdminOnly(role: string, records: seq<PermissionRecord>)
    requires AllComplete(records)
    ensures HasPermission("viewPermissions", role, records) == Proceed <==> role == AdminRole
    ensures role != AdminRole && !PermissionController.IsValidObjectId(role) ==>
      HasPermission("viewPermissions", role, records) == ServerError
  {
    if role != AdminRole {
      UnknownKeyDenied("viewPermissions", role, records);
    }
  }
}
