/** client/src/pages/Permission.jsx: the Admin's editor for one role's
    matrix. The page state is the selected role, the matrix being edited
    (`null` or an object) and the "All" checkbox. */
module PermissionPage {
  import opened Wrappers
  import opened Json
  import opened PermissionSchema
  import PermissionController
  import ClientGate
  import AuthController

  /** `m[c]`, or `{}` for a missing category. */
  function Row(m: Matrix, c: string): map<string, bool> {
    if c in m then m[c] else map[]
  }

  /** What `handleCheckboxChange(c, a)` makes of the matrix: entry (c, a)
      becomes the negation of its truthiness, a missing one counting as false. */
  function Toggled(m: Matrix, c: string, a: string): (r: Matrix)
    ensures Flag(r, c, a) == !Flag(m, c, a)
    ensures forall c', a' :: c' != c || a' != a ==> Flag(r, c', a') == Flag(m, c', a')
    ensures r.Keys == m.Keys + {c}
  {
    m[c := Row(m, c)[a := !Flag(m, c, a)]]
  }

  /** Toggling twice restores every flag. */
  lemma ToggleTwice(m: Matrix, c: string, a: string)
    ensures forall c', a' :: Flag(Toggled(Toggled(m, c, a), c, a), c', a') == Flag(m, c', a')
  {
  }

  /** On an entry that exists, toggling twice restores the matrix itself. */
  lemma ToggleTwiceExact(m: Matrix, c: string, a: string)
    requires c in m && a in m[c]
    ensures Toggled(Toggled(m, c, a), c, a) == m
  {
    var t := Toggled(m, c, a);
    assert Row(t, c) == m[c][a := !m[c][a]];
    assert Row(t, c)[a := m[c][a]] == m[c];
  }

  /** Toggling a schema flag keeps a complete matrix complete. */
  lemma ToggleKeepsComplete(m: Matrix, c: string, a: string)
    requires Complete(m) && IsAction(c, a)
    ensures Complete(Toggled(m, c, a))
  {
    ActionsOnlyInCategories(c, a);
  }

  /** Category c of m with each of its schema actions set to b. */
  function Filled(m: Matrix, c: string, b: bool): (row: map<string, bool>)
    ensures row.Keys == Row(m, c).Keys + ActionSet(c)
  {
    Row(m, c) + map a | a in ActionSet(c) :: b
  }

  /** What `handleAllCheckboxChange(b)` makes of the matrix: each schema
      category filled, every other key kept (the flags are stated by
      SetAllFlag). */
  function SetAll(m: Matrix, b: bool): (r: Matrix)
    ensures r.Keys == m.Keys + CategorySet()
  {
    map c | c in m.Keys + CategorySet() :: if c in CategorySet() then Filled(m, c, b) else m[c]
  }

  /** "All" sets each of the 19 schema flags to b and leaves every other
      entry as it was. */
  lemma SetAllFlag(m: Matrix, b: bool, c: string, a: string)
    ensures Flag(SetAll(m, b), c, a) == if IsAction(c, a) then b else Flag(m, c, a)
  {
    var r := SetAll(m, b);
    if c in CategorySet() {
      assert c in r && r[c] == Filled(m, c, b);
      FilledFlag(m, c, b, a);
    } else {
      if IsAction(c, a) {
        ActionsOnlyInCategories(c, a);
      }
      assert c in r <==> c in m;
    }
  }

  lemma FilledFlag(m: Matrix, c: string, b: bool, a: string)
    ensures var row := Filled(m, c, b);
      (a in row && row[a]) == if IsAction(c, a) then b else Flag(m, c, a)
  {
  }

  /** On a stored (complete) matrix "All" gives the uniform matrix. */
  lemma SetAllOfComplete(m: Matrix, b: bool)
    requires Complete(m)
    ensures SetAll(m, b) == Uniform(b)
  {
    SetAllUniform(m, b);
  }

  /** "All" on the empty page state `{}` also gives the uniform matrix. */
  lemma SetAllOfEmpty(b: bool)
    ensures SetAll(map[], b) == Uniform(b)
  {
    SetAllUniform(map[], b);
  }

  lemma SetAllUniform(m: Matrix, b: bool)
    requires m.Keys <= CategorySet()
    requires forall c :: c in m ==> m[c].Keys <= ActionSet(c)
    ensures SetAll(m, b) == Uniform(b)
  {
    SetAllComplete(m, b);
    forall c, a | IsAction(c, a)
      ensures Flag(SetAll(m, b), c, a) == Flag(Uniform(b), c, a)
    {
      SetAllFlag(m, b, c, a);
    }
    CompleteExtensional(SetAll(m, b), Uniform(b));
  }

  /** "All" completes a matrix that holds no keys outside the schema. */
  lemma SetAllComplete(m: Matrix, b: bool)
    requires m.Keys <= CategorySet()
    requires forall c :: c in m ==> m[c].Keys <= ActionSet(c)
    ensures Complete(SetAll(m, b))
  {
    var r := SetAll(m, b);
    UnionWithin(m.Keys, CategorySet());
    forall c | c in r
      ensures r[c].Keys == ActionSet(c)
    {
      var acts := ActionSet(c);
      assert r[c] == Filled(m, c, b);
      assert Row(m, c).Keys <= acts;
      UnionWithin(Row(m, c).Keys, acts);
    }
  }

  lemma UnionWithin(a: set<string>, b: set<string>)
    requires a <= b
    ensures a + b == b
  {
  }

  /** Saving after "All" stores the uniform matrix, whatever extra keys the
      page held. */
  lemma SelectAllThenSave(m: Matrix, b: bool)
    ensures PermissionController.Sanitize(Some(PermissionController.ToJson(SetAll(m, b)))) == Uniform(b)
  {
    var s := PermissionController.Sanitize(Some(PermissionController.ToJson(SetAll(m, b))));
    forall c, a | IsAction(c, a)
      ensures Flag(s, c, a) == Flag(Uniform(b), c, a)
    {
      PermissionController.InputFlagOfJson(SetAll(m, b), c, a);
      SetAllFlag(m, b, c, a);
    }
    CompleteExtensional(s, Uniform(b));
  }

  /** The six categories `handleAllCheckboxChange` walks in its loop;
      activityLog is set after it. */
  const LoopCategories: seq<string> := ["warehouse", "role", "user", "product", "checkIn", "checkOut"]

  /** The request body `handleSubmit` posts to /permissions/assign. */
  datatype AssignRequest = AssignRequest(roleId: Option<string>, permissions: Option<Matrix>)

  /** The JSON the body's `permissions` travels as. */
  function RequestPermissions(r: AssignRequest): Option<Json> {
    if r.permissions.None? then Some(JNull) else Some(PermissionController.ToJson(r.permissions.value))
  }

  /** The role-selection guard: an Admin, or a user whose `_id` equals the
      role's. */
  predicate Selectable(session: Option<Json>, roleId: string) {
    ClientGate.IsAdminSession(session) || Member(session, "_id") == Some(JStr(roleId))
  }

  /** The sessions the client builds carry no `_id`, so a non-Admin can
      never select a role. */
  lemma OnlyAdminSelects(lo: AuthController.LoginOutcome, roleId: string)
    requires lo.LoggedIn?
    ensures Selectable(Some(ClientGate.LoginSession(lo)), roleId) <==> lo.role == "Admin"
  {
    ClientGate.LoginSessionHasNoUnderscoreId(lo);
    ClientGate.LoginSessionGate(lo, "", "");
  }

  class PermissionsPage {
    const currentUser: Option<Json>
    var selectedRole: Option<string>
    /** None is the `null` state, Some an object. */
    var permissions: Option<Matrix>
    var selectAll: bool

    constructor (session: Option<Json>)
      ensures currentUser == session && selectedRole.None? && permissions == Some(map[]) && !selectAll
    {
      currentUser := session;
      selectedRole := None;
      permissions := Some(map[]);
      selectAll := false;
    }

    /** `handleCheckboxChange(c, a)`. On the `null` state the updater
        throws reading `prev[c]`; the result reports that and the state is
        kept. */
    method HandleCheckboxChange(c: string, a: string) returns (threw: bool)
      modifies this
      ensures selectedRole == old(selectedRole) && selectAll == old(selectAll)
      ensures !ClientGate.IsAdminSession(currentUser) ==> !threw && permissions == old(permissions)
      ensures ClientGate.IsAdminSession(currentUser) && old(permissions).None? ==> threw && permissions == old(permissions)
      ensures ClientGate.IsAdminSession(currentUser) && old(permissions).Some? ==>
        !threw && permissions == Some(Toggled(old(permissions).value, c, a))
    {
      threw := false;
      if !ClientGate.IsAdminSession(currentUser) {
        return;
      }
      if permissions.None? {
        return true;
      }
      var prev := permissions.value;
      var row := if c in prev then prev[c] else map[];
      permissions := Some(prev[c := row[a := !Flag(prev, c, a)]]);
    }

    /** `handleAllCheckboxChange(b)`: the six categories in a loop, then
        activityLog; `{ ...null }` is `{}`. */
    method HandleAllCheckboxChange(b: bool)
      modifies this
      ensures selectedRole == old(selectedRole)
      ensures !ClientGate.IsAdminSession(currentUser) ==> permissions == old(permissions) && selectAll == old(selectAll)
      ensures ClientGate.IsAdminSession(currentUser) ==>
        selectAll == b && permissions == Some(SetAll(old(permissions).GetOr(map[]), b))
    {
      if !ClientGate.IsAdminSession(currentUser) {
        return;
      }
      selectAll := b;
      var next := FillAll(permissions.GetOr(map[]), b);
      permissions := Some(next);
    }

    /** `handleSubmit`: the body sent, if any. */
    method HandleSubmit() returns (sent: Option<AssignRequest>)
      ensures !ClientGate.IsAdminSession(currentUser) ==> sent.None?
      ensures ClientGate.IsAdminSession(currentUser) ==> sent == Some(AssignRequest(selectedRole, permissions))
    {
      if !ClientGate.IsAdminSession(currentUser) {
        return None;
      }
      sent := Some(AssignRequest(selectedRole, permissions));
    }

    /** A click on a role in the list. */
    method SelectRole(roleId: string)
      modifies this
      ensures permissions == old(permissions) && selectAll == old(selectAll)
      ensures selectedRole == if Selectable(currentUser, roleId) then Some(roleId) else old(selectedRole)
    {
      if Selectable(currentUser, roleId) {
        selectedRole := Some(roleId);
      }
    }

    /** The `.then` of GET /permissions/:roleId. With axios's default status
        check only 2xx answers arrive here; the server answers a malformed id
        with 400, which goes to `.catch` and leaves the page as it was. */
    method ReceivePermissions(answer: PermissionController.RolePermissions)
      modifies this
      ensures selectedRole == old(selectedRole) && selectAll == old(selectAll)
      ensures answer.InvalidRoleId? ==> permissions == old(permissions)
      ensures answer.NotAssigned? ==> permissions == Some(map[])
      ensures answer.Found? ==> permissions == Some(answer.permissions)
    {
      match answer
      case InvalidRoleId =>
      case NotAssigned => permissions := Some(map[]);
      case Found(m) => permissions := Some(m);
    }
  }

  /** The state updater of `handleAllCheckboxChange`: the six categories
      in a loop, then activityLog. */
  method FillAll(prev: Matrix, b: bool) returns (cur: Matrix)
    ensures cur == SetAll(prev, b)
  {
    cur := prev;
    var i := 0;
    while i < |LoopCategories|
      invariant 0 <= i <= |LoopCategories|
      invariant forall c :: c in cur <==> c in prev || c in LoopCategories[..i]
      invariant forall c :: c in cur && c !in LoopCategories[..i] ==> cur[c] == prev[c]
      invariant forall c :: c in LoopCategories[..i] ==> cur[c] == Filled(prev, c, b)
    {
      var c := LoopCategories[i];
      assert LoopCategories[..i + 1] == LoopCategories[..i] + [c];
      LoopCategoriesDistinct(i);
      assert Row(cur, c) == Row(prev, c);
      var row := Row(cur, c);
      if c == "checkIn" {
        row := row["checkin" := b];
      } else if c == "checkOut" {
        row := row["checkout" := b];
      } else {
        row := row["list" := b]["create" := b]["edit" := b]["delete" := b];
      }
      FillStep(Row(prev, c), c, b);
      cur := cur[c := row];
      i := i + 1;
    }
    assert LoopCategories[..i] == LoopCategories;
    ghost var looped := cur;
    assert Row(looped, "activityLog") == Row(prev, "activityLog") by {
      LoopCategoriesExcludeLog();
    }
    cur := cur["activityLog" := Row(cur, "activityLog")["assign" := b]];
    FillLog(Row(prev, "activityLog"), b);
    forall c
      ensures c in cur <==> c in prev || c in CategorySet()
      ensures c in cur && c !in CategorySet() ==> cur[c] == prev[c]
      ensures c in CategorySet() ==> cur[c] == Filled(prev, c, b)
    {
      CategoryMembership(c);
    }
    SetAllByParts(prev, cur, b);
  }

  lemma LoopCategoriesExcludeLog()
    ensures "activityLog" !in LoopCategories
  {
  }

  /** The seven categories are the six of the loop and activityLog. */
  lemma CategoryMembership(c: string)
    ensures c in CategorySet() <==> c in LoopCategories || c == "activityLog"
  {
  }

  /** The statement after the loop fills activityLog. */
  lemma FillLog(row: map<string, bool>, b: bool)
    ensures row["assign" := b] == row + map a | a in ActionSet("activityLog") :: b
  {
  }

  /** A category of the loop is not met again later in it. */
  lemma LoopCategoriesDistinct(i: nat)
    requires i < |LoopCategories|
    ensures LoopCategories[i] !in LoopCategories[..i]
    ensures LoopCategories[i] != "activityLog"
  {
  }

  /** The statements of one loop pass fill category c's schema actions. */
  lemma FillStep(row: map<string, bool>, c: string, b: bool)
    requires c in LoopCategories
    ensures (if c == "checkIn" then row["checkin" := b]
             else if c == "checkOut" then row["checkout" := b]
             else row["list" := b]["create" := b]["edit" := b]["delete" := b])
            == row + map a | a in ActionSet(c) :: b
  {
  }

  lemma SetAllByParts(prev: Matrix, cur: Matrix, b: bool)
    requires forall c :: c in cur <==> c in prev || c in CategorySet()
    requires forall c :: c in cur && c !in CategorySet() ==> cur[c] == prev[c]
    requires forall c :: c in CategorySet() ==> cur[c] == Filled(prev, c, b)
    ensures cur == SetAll(prev, b)
  {
    var r := SetAll(prev, b);
    assert cur.Keys == r.Keys;
    forall c | c in cur
      ensures cur[c] == r[c]
    {
      if c in CategorySet() {
        assert r[c] == Filled(prev, c, b);
      } else {
        assert r[c] == prev[c];
      }
    }
  }

  /** Saving a page matrix that holds every schema flag stores exactly it:
      the sanitiser on the server is a no-op on what the editor sends. */
  lemma SubmitStoresPageMatrix(m: Matrix)
    requires Complete(m)
    ensures PermissionController.Sanitize(RequestPermissions(AssignRequest(None, Some(m)))) == m
  {
    PermissionController.SanitizeRoundTrip(m);
  }
}
