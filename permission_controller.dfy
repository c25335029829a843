/** server/controllers/permissionController.js: the sanitise-and-replace
    write path of a role's matrix, the per-role lookup, and the lookup of the
    logged-in user's records by role name. */
module PermissionController {
  import opened Wrappers
  import opened Json
  import opened PermissionSchema
  import Query
  import RoleController

  // ---------------------------------------------------------------- sanitise

  /** `permissions?.[c]?.[a] || false`, kept as a Boolean flag: a truthy
      input value gives true, a missing or falsy one false. */
  predicate InputFlag(input: Option<Json>, c: string, a: string) {
    IsTruthy(Member(Member(input, c), a))
  }

  /** The matrix `assignPermissions` builds from whatever the request holds:
      every category and action of the schema, nothing else. */
  function Sanitize(input: Option<Json>): (m: Matrix)
    ensures Complete(m)
    ensures forall c, a :: IsAction(c, a) ==> (Flag(m, c, a) <==> InputFlag(input, c, a))
  {
    var m := map c | c in CategorySet() :: map a | a in ActionSet(c) :: InputFlag(input, c, a);
    assert forall c, a :: IsAction(c, a) ==> c in m && a in m[c] by {
      forall c, a | IsAction(c, a) ensures c in m && a in m[c] {
        ActionsOnlyInCategories(c, a);
      }
    }
    m
  }

  /** A matrix as the JSON object that travels between client and server. */
  function ToJson(m: Matrix): Json {
    JObj(map c | c in m :: JObj(map a | a in m[c] :: JBool(m[c][a])))
  }

  /** A permission record as a JSON document. */
  function RecordJson(r: PermissionRecord): Json {
    JObj(map["role" := JStr(r.role), "permissions" := ToJson(r.permissions)])
  }

  /** The result of `Permission.find(...)` as the JSON array it is. */
  function RecordsJson(rs: seq<PermissionRecord>): Json {
    JArr(seq(|rs|, i requires 0 <= i < |rs| => RecordJson(rs[i])))
  }

  /** Only the 19 input positions matter: inputs that agree on them are
      sanitised alike, whatever else they contain. */
  lemma SanitizeDependsOnFlagsOnly(x: Option<Json>, y: Option<Json>)
    requires forall c, a :: IsAction(c, a) ==> InputFlag(x, c, a) == InputFlag(y, c, a)
    ensures Sanitize(x) == Sanitize(y)
  {
    CompleteExtensional(Sanitize(x), Sanitize(y));
  }

  /** A key outside the seven categories is dropped. */
  lemma SanitizeDropsUnknownCategory(fields: map<string, Json>, k: string, v: Json)
    requires !IsCategory(k)
    ensures Sanitize(Some(JObj(fields[k := v]))) == Sanitize(Some(JObj(fields)))
  {
    forall c, a | IsAction(c, a)
      ensures InputFlag(Some(JObj(fields[k := v])), c, a) == InputFlag(Some(JObj(fields)), c, a)
    {
      ActionsOnlyInCategories(c, a);
    }
    SanitizeDependsOnFlagsOnly(Some(JObj(fields[k := v])), Some(JObj(fields)));
  }

  /** No input at all, or null, gives the all-false defaults. */
  lemma SanitizeAbsent()
    ensures Sanitize(None) == Defaults()
    ensures Sanitize(Some(JNull)) == Defaults()
  {
    CompleteExtensional(Sanitize(None), Defaults());
    CompleteExtensional(Sanitize(Some(JNull)), Defaults());
  }

  /** Sanitising a complete matrix gives it back unchanged. */
  lemma SanitizeRoundTrip(m: Matrix)
    requires Complete(m)
    ensures Sanitize(Some(ToJson(m))) == m
  {
    forall c, a | IsAction(c, a)
      ensures Flag(Sanitize(Some(ToJson(m))), c, a) == Flag(m, c, a)
    {
      InputFlagOfJson(m, c, a);
    }
    CompleteExtensional(Sanitize(Some(ToJson(m))), m);
  }

  /** Reading a flag back from a matrix's JSON gives the matrix's flag. */
  lemma InputFlagOfJson(m: Matrix, c: string, a: string)
    ensures InputFlag(Some(ToJson(m)), c, a) == Flag(m, c, a)
  {
    if c in m {
      var row := map a | a in m[c] :: JBool(m[c][a]);
      assert Member(Some(ToJson(m)), c) == Some(JObj(row));
      if a in m[c] {
        assert Member(Some(JObj(row)), a) == Some(JBool(m[c][a]));
      }
    }
  }

  /** Sanitising is a projection: a second pass changes nothing. */
  lemma SanitizeIdempotent(input: Option<Json>)
    ensures Sanitize(Some(ToJson(Sanitize(input)))) == Sanitize(input)
  {
    SanitizeRoundTrip(Sanitize(input));
  }

  /** `{ product: { create: true } }` sets product.create and nothing else:
      the other three product actions and all six other categories are
      present and false. */
  lemma SanitizeProductCreateOnly()
    ensures var m := Sanitize(Some(JObj(map["product" := JObj(map["create" := JBool(true)])])));
      && Complete(m)
      && (forall c, a :: IsAction(c, a) ==> (Flag(m, c, a) <==> c == "product" && a == "create"))
  {
  }

  // ------------------------------------------------------------------ ObjectId

  predicate IsHexDigit(ch: char) {
    '0' <= ch <= '9' || 'a' <= ch <= 'f' || 'A' <= ch <= 'F'
  }

  /** `mongoose.Types.ObjectId.isValid(s)` and, equally, whether
      `new ObjectId(s)` succeeds on a string: 24 hexadecimal digits, or any
      12-character string taken as its 12 bytes. */
  predicate IsValidObjectId(s: string) {
    |s| == 12 || (|s| == 24 && forall i :: 0 <= i < |s| ==> IsHexDigit(s[i]))
  }

  // --------------------------------------------------------------- the store

  /** Filter `{ role: roleId }`. */
  function ForRole(role: string): PermissionRecord -> bool {
    (r: PermissionRecord) => r.role == role
  }

  ghost predicate UniqueRoles(rs: seq<PermissionRecord>) {
    forall i, j :: 0 <= i < j < |rs| ==> rs[i].role != rs[j].role
  }

  /** `Permission.findOne({ role })` then `.permissions`. */
  function Lookup(rs: seq<PermissionRecord>, role: string): (r: Option<Matrix>)
    ensures r.None? <==> forall j :: 0 <= j < |rs| ==> rs[j].role != role
    ensures r.Some? ==> exists j :: 0 <= j < |rs| && rs[j] == PermissionRecord(role, r.value)
  {
    match Query.FirstMatch(rs, ForRole(role))
    case None => None
    case Some(i) => Some(rs[i].permissions)
  }

  /** The collection after the upsert of `assignPermissions`: the role's record
      gets the new matrix in place, or a record is appended when there is none. */
  function Upserted(rs: seq<PermissionRecord>, role: string, m: Matrix): seq<PermissionRecord> {
    match Query.FirstMatch(rs, ForRole(role))
    case None => rs + [PermissionRecord(role, m)]
    case Some(i) => rs[i := PermissionRecord(role, m)]
  }

  /** Full replace: afterwards the role's matrix is exactly the new one. */
  lemma UpsertReplaces(rs: seq<PermissionRecord>, role: string, m: Matrix)
    ensures Lookup(Upserted(rs, role, m), role) == Some(m)
  {
    var u := Upserted(rs, role, m);
    match Query.FirstMatch(rs, ForRole(role))
    case None =>
      Query.FirstMatchUnique(u, ForRole(role), |rs|);
    case Some(i) =>
      Query.FirstMatchUnique(u, ForRole(role), i);
  }

  /** Every other role keeps its matrix. */
  lemma UpsertKeepsOthers(rs: seq<PermissionRecord>, role: string, m: Matrix, other: string)
    requires other != role
    ensures Lookup(Upserted(rs, role, m), other) == Lookup(rs, other)
  {
    var u := Upserted(rs, role, m);
    match Query.FirstMatch(rs, ForRole(other))
    case None =>
    case Some(k) =>
      Query.FirstMatchUnique(u, ForRole(other), k);
  }

  /** Create when missing, replace when present: the count grows by one
      exactly when the role had no record. */
  lemma UpsertSize(rs: seq<PermissionRecord>, role: string, m: Matrix)
    ensures |Upserted(rs, role, m)| == |rs| + (if Lookup(rs, role).None? then 1 else 0)
  {
  }

  /** At most one record per role, before and after. */
  lemma UpsertKeepsUnique(rs: seq<PermissionRecord>, role: string, m: Matrix)
    requires UniqueRoles(rs)
    ensures UniqueRoles(Upserted(rs, role, m))
  {
  }

  lemma UpsertKeepsValid(rs: seq<PermissionRecord>, role: string, m: Matrix)
    requires UniqueRoles(rs) && Complete(m)
    requires forall i :: 0 <= i < |rs| ==> Complete(rs[i].permissions)
    ensures UniqueRoles(Upserted(rs, role, m))
    ensures forall i :: 0 <= i < |Upserted(rs, role, m)| ==> Complete(Upserted(rs, role, m)[i].permissions)
  {
    UpsertKeepsUnique(rs, role, m);
  }

  /** Assigning the same matrix twice leaves the state of assigning it once. */
  lemma UpsertIdempotent(rs: seq<PermissionRecord>, role: string, m: Matrix)
    ensures Upserted(Upserted(rs, role, m), role, m) == Upserted(rs, role, m)
  {
    var u := Upserted(rs, role, m);
    match Query.FirstMatch(rs, ForRole(role))
    case None =>
      Query.FirstMatchUnique(u, ForRole(role), |rs|);
    case Some(i) =>
      Query.FirstMatchUnique(u, ForRole(role), i);
  }

  /** The outcome of `assignPermissions`. */
  datatype AssignOutcome =
    | RoleIdRequired   // 400 "Role ID is required"
    | Unhandled        // `new ObjectId(roleId)` throws outside the try: no response
    | Assigned         // 200 "Permissions updated successfully"

  /** The outcome of `getRolePermissions`. */
  datatype RolePermissions =
    | InvalidRoleId               // 400 "Invalid roleId format"
    | NotAssigned                 // 200 { permissions: null }
    | Found(permissions: Matrix)  // 200 { permissions }

  class PermissionStore {
    var records: seq<PermissionRecord>

    ghost predicate Valid()
      reads this
    {
      && UniqueRoles(records)
      && forall i :: 0 <= i < |records| ==> Complete(records[i].permissions)
    }

    constructor ()
      ensures Valid() && records == []
    {
      records := [];
    }

    /** `assignPermissions(roleId, permissions)`. */
    method AssignPermissions(roleId: Option<string>, permissions: Option<Json>) returns (out: AssignOutcome)
      requires Valid()
      modifies this
      ensures Valid()
      ensures out == RoleIdRequired <==> roleId.None? || roleId.value == ""
      ensures out == Unhandled <==> roleId.Some? && roleId.value != "" && !IsValidObjectId(roleId.value)
      ensures out != Assigned ==> records == old(records)
      ensures out == Assigned ==> records == Upserted(old(records), roleId.value, Sanitize(permissions))
    {
      if roleId.None? || roleId.value == "" {
        return RoleIdRequired;
      }
      if !IsValidObjectId(roleId.value) {
        return Unhandled;
      }
      var role := roleId.value;
      var sanitized := Sanitize(permissions);
      var i := Query.FindOne(records, ForRole(role));
      UpsertKeepsValid(records, role, sanitized);
      if i.Some? {
        records := records[i.value := PermissionRecord(role, sanitized)];
      } else {
        records := records + [PermissionRecord(role, sanitized)];
      }
      out := Assigned;
    }

    /** `getRolePermissions(roleId)`: a malformed id is 400; a role without a
        record is a normal answer with `permissions: null`. */
    method GetRolePermissions(roleId: string) returns (out: RolePermissions)
      requires Valid()
      ensures out == InvalidRoleId <==> !IsValidObjectId(roleId)
      ensures out == NotAssigned <==> IsValidObjectId(roleId) && Lookup(records, roleId).None?
      ensures out.Found? ==> IsValidObjectId(roleId) && Lookup(records, roleId) == Some(out.permissions)
      ensures out.Found? ==> Complete(out.permissions)
    {
      if !IsValidObjectId(roleId) {
        return InvalidRoleId;
      }
      var i := Query.FindOne(records, ForRole(roleId));
      if i.None? {
        return NotAssigned;
      }
      out := Found(records[i.value].permissions);
    }
  }

  // ------------------------------------------- the logged-in user's records

  /** `getCurrentUserPermissions(user)`: the first role named like the user's
      role, then every record of that role's id; an unknown name throws. */
  function CurrentUserPermissions(userRole: string, roles: seq<RoleController.Role>, records: seq<PermissionRecord>)
    : (r: Result<seq<PermissionRecord>, string>)
    ensures r.Failure? <==> forall j :: 0 <= j < |roles| ==> roles[j].roleName != userRole
    ensures r.Failure? ==> r.error == "Role '" + userRole + "' not found in DB"
    ensures r.Success? ==> forall x :: x in r.value ==> x in records
  {
    match Query.FirstMatch(roles, RoleController.HasName(userRole))
    case None => Failure("Role '" + userRole + "' not found in DB")
    case Some(i) => Success(Query.Filter(records, ForRole(roles[i].id)))
  }

  /** With one record per role, the list holds at most one record, and it is
      the role's stored matrix when there is one. */
  lemma CurrentUserPermissionsAtMostOne(userRole: string, roles: seq<RoleController.Role>,
                                        records: seq<PermissionRecord>, i: nat)
    requires UniqueRoles(records)
    requires Query.FirstMatch(roles, RoleController.HasName(userRole)) == Some(i)
    ensures var ps := CurrentUserPermissions(userRole, roles, records).value;
      && |ps| <= 1
      && (ps == [] <==> Lookup(records, roles[i].id).None?)
      && (ps != [] ==> ps[0] == PermissionRecord(roles[i].id, Lookup(records, roles[i].id).value))
  {
    FilterOfUnique(records, roles[i].id);
  }

  lemma {:induction false} FilterOfUnique(rs: seq<PermissionRecord>, role: string)
    requires UniqueRoles(rs)
    ensures var f := Query.Filter(rs, ForRole(role));
      && |f| <= 1
      && (f == [] <==> Lookup(rs, role).None?)
      && (f != [] ==> f[0] == PermissionRecord(role, Lookup(rs, role).value))
    decreases |rs|
  {
    if rs != [] {
      assert UniqueRoles(rs[1..]);
      FilterOfUnique(rs[1..], role);
      if rs[0].role == role {
        assert forall j :: 0 <= j < |rs[1..]| ==> rs[1..][j].role != role;
        Query.FilterEmptyIffNoMatch(rs[1..], ForRole(role));
        Query.FirstMatchUnique(rs, ForRole(role), 0);
      } else {
        match Query.FirstMatch(rs[1..], ForRole(role))
        case None =>
        case Some(k) => Query.FirstMatchUnique(rs, ForRole(role), k + 1);
      }
    }
  }
}
