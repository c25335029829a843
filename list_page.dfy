/** The three list pages client/src/pages/Users.jsx, Warehouse.jsx and
    Roles.jsx, which share one shape: the fetched array, ten rows per page,
    a running row number, Prev/Next, a delete that filters the local copy,
    and Add/Edit/Delete controls gated on the session's first permission
    record. */
module ListPage {
  import opened Wrappers
  import opened Json
  import Query
  import ClientGate
  import AuthController
  import PermissionSchema

  /** `usersPerPage`, `warehousesPerPage`, `rolesPerPage`. */
  const PageSize: int := 10

  /** A `slice` bound: a negative one counts from the end, and the result is
      clipped to the array. */
  function Clamp(k: int, len: nat): (r: nat)
    ensures r <= len
    ensures 0 <= k <= len ==> r == k
    ensures k > len ==> r == len
  {
    if k < 0 then (if len + k < 0 then 0 else len + k) else if k > len then len else k
  }

  /** `a.slice(start, end)`. */
  function Slice<T>(a: seq<T>, start: int, end: int): (r: seq<T>)
    ensures Clamp(start, |a|) < Clamp(end, |a|) ==> r == a[Clamp(start, |a|)..Clamp(end, |a|)]
    ensures Clamp(end, |a|) <= Clamp(start, |a|) ==> r == []
  {
    var s := Clamp(start, |a|);
    var e := Clamp(end, |a|);
    if s < e then a[s..e] else []
  }

  /** `indexOfFirst…`, `indexOfLast…`. */
  function FirstIndex(page: int): int { page * PageSize - PageSize }
  function LastIndex(page: int): int { page * PageSize }

  /** The rows shown on a page. */
  function Window<T>(items: seq<T>, page: int): seq<T> {
    Slice(items, FirstIndex(page), LastIndex(page))
  }

  /** The serial number printed in row `index` of a page. */
  function RowNumber(page: int, index: int): int {
    FirstIndex(page) + index + 1
  }

  predicate PrevDisabled(page: int) { page == 1 }

  predicate NextDisabled<T>(items: seq<T>, page: int) { LastIndex(page) >= |items| }

  function Min(a: int, b: int): int { if a <= b then a else b }

  /** Page p (counting from 1, where the Prev/Next buttons keep it) shows
      items [(p-1)*10, p*10) clipped to the list: at most ten rows. */
  lemma WindowOfPage<T>(items: seq<T>, page: int)
    requires page >= 1
    ensures var lo := Min((page - 1) * PageSize, |items|);
      var hi := Min(page * PageSize, |items|);
      Window(items, page) == items[lo..hi]
    ensures |Window(items, page)| <= PageSize
  {
  }

  /** Every item has exactly one place: item i is row i % 10 of page
      i / 10 + 1, numbered i + 1. */
  lemma ItemOnItsPage<T>(items: seq<T>, i: nat)
    requires i < |items|
    ensures var p := i / PageSize + 1;
      var k := i % PageSize;
      && k < |Window(items, p)| && Window(items, p)[k] == items[i]
      && RowNumber(p, k) == i + 1
  {
    var p := i / PageSize + 1;
    WindowOfPage(items, p);
  }

  /** On a page from 1 on, Next is enabled exactly when the next page has
      rows, and Prev exactly when there is a page before. */
  lemma NextIffMoreRows<T>(items: seq<T>, page: int)
    requires page >= 1
    ensures !NextDisabled(items, page) <==> Window(items, page + 1) != []
    ensures !PrevDisabled(page) <==> page - 1 >= 1
  {
    WindowOfPage(items, page + 1);
  }

  /** Filter `x._id !== id`. */
  function OtherId(id: string): Json -> bool {
    (x: Json) => Member(Some(x), "_id") != Some(JStr(id))
  }

  /** The local list after a DELETE answered `status`: filtered on 200,
      kept otherwise. */
  function AfterDelete(items: seq<Json>, id: string, status: int): (r: seq<Json>)
    ensures status != 200 ==> r == items
    ensures forall x :: x in r ==> x in items
  {
    if status == 200 then Query.Filter(items, OtherId(id)) else items
  }

  /** A successful delete removes exactly the entries with that `_id` and
      keeps the others in order. */
  lemma DeleteRemovesExactly(items: seq<Json>, id: string)
    ensures forall x :: x in AfterDelete(items, id, 200) <==> x in items && Member(Some(x), "_id") != Some(JStr(id))
    ensures Query.Subsequence(AfterDelete(items, id, 200), items)
  {
    forall x | x in items && Member(Some(x), "_id") != Some(JStr(id))
      ensures x in AfterDelete(items, id, 200)
    {
      Query.FilterKeeps(items, OtherId(id), x);
    }
    Query.FilterSubsequence(items, OtherId(id));
  }

  /** `if (response.data && Array.isArray(response.data))`: an array
      replaces the list, anything else leaves it. */
  function Fetched(data: Json, prior: seq<Json>): (r: seq<Json>)
    ensures data.JArr? ==> r == data.items
    ensures !data.JArr? ==> r == prior
  {
    if Truthy(data) && data.JArr? then data.items else prior
  }

  /** Which page it is; each gates on its own category. */
  datatype Listing = UserList | WarehouseList | RoleList

  function CategoryOf(l: Listing): string {
    match l
    case UserList => "user"
    case WarehouseList => "warehouse"
    case RoleList => "role"
  }

  /** The Add button and the per-row Edit and Delete buttons. */
  datatype Controls = Controls(add: bool, edit: bool, delete: bool)

  function ControlsOf(l: Listing, session: Option<Json>): (c: Controls)
    ensures c.add <==> ClientGate.CanDo(session, CategoryOf(l), "create")
    ensures c.edit <==> ClientGate.CanDo(session, CategoryOf(l), "edit")
    ensures c.delete <==> ClientGate.CanDo(session, CategoryOf(l), "delete")
  {
    Controls(ClientGate.CanDo(session, CategoryOf(l), "create"),
             ClientGate.CanDo(session, CategoryOf(l), "edit"),
             ClientGate.CanDo(session, CategoryOf(l), "delete"))
  }

  /** After a login the users page shows exactly what the first record
      grants on `user`. */
  lemma UsersControlsAfterLogin(o: AuthController.LoginOutcome)
    requires o.LoggedIn? && |o.permissions| > 0
    ensures var m := o.permissions[0].permissions;
      ControlsOf(UserList, Some(ClientGate.LoginSession(o)))
        == Controls(PermissionSchema.Flag(m, "user", "create"), PermissionSchema.Flag(m, "user", "edit"),
                    PermissionSchema.Flag(m, "user", "delete"))
  {
    ClientGate.LoginSessionGate(o, "user", "create");
    ClientGate.LoginSessionGate(o, "user", "edit");
    ClientGate.LoginSessionGate(o, "user", "delete");
  }

  /** The same for the warehouses page on `warehouse`. */
  lemma WarehouseControlsAfterLogin(o: AuthController.LoginOutcome)
    requires o.LoggedIn? && |o.permissions| > 0
    ensures var m := o.permissions[0].permissions;
      ControlsOf(WarehouseList, Some(ClientGate.LoginSession(o)))
        == Controls(PermissionSchema.Flag(m, "warehouse", "create"), PermissionSchema.Flag(m, "warehouse", "edit"),
                    PermissionSchema.Flag(m, "warehouse", "delete"))
  {
    ClientGate.LoginSessionGate(o, "warehouse", "create");
    ClientGate.LoginSessionGate(o, "warehouse", "edit");
    ClientGate.LoginSessionGate(o, "warehouse", "delete");
  }

  /** The same for the roles page on `role`. */
  lemma RoleControlsAfterLogin(o: AuthController.LoginOutcome)
    requires o.LoggedIn? && |o.permissions| > 0
    ensures var m := o.permissions[0].permissions;
      ControlsOf(RoleList, Some(ClientGate.LoginSession(o)))
        == Controls(PermissionSchema.Flag(m, "role", "create"), PermissionSchema.Flag(m, "role", "edit"),
                    PermissionSchema.Flag(m, "role", "delete"))
  {
    ClientGate.LoginSessionGate(o, "role", "create");
    ClientGate.LoginSessionGate(o, "role", "edit");
    ClientGate.LoginSessionGate(o, "role", "delete");
  }

  /** A session whose role has no permission record shows no control, even
      to an Admin (the pages do not look at the role). */
  lemma NoRecordNoControls(o: AuthController.LoginOutcome, l: Listing)
    requires o.LoggedIn? && o.permissions == []
    ensures ControlsOf(l, Some(ClientGate.LoginSession(o))) == Controls(false, false, false)
  {
    ClientGate.LoginSessionGate(o, CategoryOf(l), "create");
    ClientGate.LoginSessionGate(o, CategoryOf(l), "edit");
    ClientGate.LoginSessionGate(o, CategoryOf(l), "delete");
  }
}
