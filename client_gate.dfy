/** The logged-in session the React client keeps (`currentUser`, set from
    the login response in client/src/pages/Login.jsx or from /auth/current in
    client/src/context/UserContext.jsx) and the permission lookup every page
    makes on it. */
module ClientGate {
  import opened Wrappers
  import opened Json
  import PermissionSchema
  import PermissionController
  import AuthController

  /** The `user` object of a successful login response. */
  function LoginSession(o: AuthController.LoginOutcome): Json
    requires o.LoggedIn?
  {
    JObj(map["id" := JStr(o.id), "username" := JStr(o.username), "role" := JStr(o.role),
             "permissions" := PermissionController.RecordsJson(o.permissions)])
  }

  /** The /auth/current answer with the stored token added. */
  function CurrentSession(o: AuthController.CurrentUserOutcome, token: string): Json
    requires o.CurrentUser?
  {
    JObj(map["id" := JStr(o.id), "username" := JStr(o.username), "role" := JStr(o.role),
             "permissions" := PermissionController.RecordsJson(o.permissions), "token" := JStr(token)])
  }

  /** `v?.[i]` on an array; undefined past its end and on non-arrays. */
  function At(v: Option<Json>, i: nat): (r: Option<Json>)
    ensures r.Some? <==> v.Some? && v.value.JArr? && i < |v.value.items|
  {
    if v.Some? && v.value.JArr? && i < |v.value.items| then Some(v.value.items[i]) else None
  }

  /** `currentUser?.permissions?.[0]?.permissions?.[category] || {}`, then
      `[action]`, read for its truthiness: the gate on every page control. */
  predicate CanDo(session: Option<Json>, category: string, action: string) {
    IsTruthy(Member(Member(Member(At(Member(session, "permissions"), 0), "permissions"), category), action))
  }

  /** `currentUser.role === "Admin"`. */
  predicate IsAdminSession(session: Option<Json>) {
    Member(session, "role") == Some(JStr("Admin"))
  }

  /** After a login, a control is shown exactly when the first permission
      record returned carries the flag: only that record is ever read. */
  lemma LoginSessionGate(o: AuthController.LoginOutcome, c: string, a: string)
    requires o.LoggedIn?
    ensures CanDo(Some(LoginSession(o)), c, a) <==>
      |o.permissions| > 0 && PermissionSchema.Flag(o.permissions[0].permissions, c, a)
    ensures IsAdminSession(Some(LoginSession(o))) <==> o.role == "Admin"
  {
    if |o.permissions| > 0 {
      SessionRecordGate(o.permissions, c, a);
    }
  }

  /** The same for a session rebuilt from /auth/current. */
  lemma CurrentSessionGate(o: AuthController.CurrentUserOutcome, token: string, c: string, a: string)
    requires o.CurrentUser?
    ensures CanDo(Some(CurrentSession(o, token)), c, a) <==>
      |o.permissions| > 0 && PermissionSchema.Flag(o.permissions[0].permissions, c, a)
  {
    if |o.permissions| > 0 {
      SessionRecordGate(o.permissions, c, a);
    }
  }

  lemma SessionRecordGate(ps: seq<PermissionSchema.PermissionRecord>, c: string, a: string)
    requires |ps| > 0
    ensures var first := Member(Some(PermissionController.RecordsJson(ps).items[0]), "permissions");
      IsTruthy(Member(Member(first, c), a)) <==> PermissionSchema.Flag(ps[0].permissions, c, a)
  {
    var m := ps[0].permissions;
    assert PermissionController.RecordsJson(ps).items[0] == PermissionController.RecordJson(ps[0]);
    if c in m {
      assert Member(Some(PermissionController.ToJson(m)), c)
        == Some(JObj(map a | a in m[c] :: JBool(m[c][a])));
    }
  }

  /** Neither kind of session has an `_id` property: the user id travels as
      `id`. */
  lemma LoginSessionHasNoUnderscoreId(o: AuthController.LoginOutcome)
    requires o.LoggedIn?
    ensures Member(Some(LoginSession(o)), "_id").None?
  {
  }

  lemma CurrentSessionHasNoUnderscoreId(o: AuthController.CurrentUserOutcome, token: string)
    requires o.CurrentUser?
    ensures Member(Some(CurrentSession(o, token)), "_id").None?
  {
  }

  /** Without a session nothing is shown. */
  lemma NoSessionNoControls(c: string, a: string)
    ensures !CanDo(None, c, a) && !IsAdminSession(None)
  {
  }
}
