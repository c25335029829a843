/** The permission record of server/models/permissions.js: a role reference
    and a matrix of seven fixed categories, each with a closed set of actions
    (19 flags in all), every flag defaulting to false. */
module PermissionSchema {

  const Categories: seq<string> :=
    ["warehouse", "role", "user", "product", "checkIn", "checkOut", "activityLog"]

  /** The actions of the four record-keeping categories. */
  const CrudActions: seq<string> := ["list", "create", "edit", "delete"]

  /** The legal actions of category c; none for a name outside the seven. */
  function ActionsOf(c: string): seq<string> {
    if c == "warehouse" || c == "role" || c == "user" || c == "product" then CrudActions
    else if c == "checkIn" then ["checkin"]
    else if c == "checkOut" then ["checkout"]
    else if c == "activityLog" then ["assign"]
    else []
  }

  predicate IsCategory(c: string) {
    c in CategorySet()
  }

  predicate IsAction(c: string, a: string) {
    a in ActionSet(c)
  }

  /** The categories as a set. */
  function CategorySet(): set<string> {
    {"warehouse", "role", "user", "product", "checkIn", "checkOut", "activityLog"}
  }

  /** The actions of c as a set. */
  function ActionSet(c: string): set<string> {
    if c == "warehouse" || c == "role" || c == "user" || c == "product" then {"list", "create", "edit", "delete"}
    else if c == "checkIn" then {"checkin"}
    else if c == "checkOut" then {"checkout"}
    else if c == "activityLog" then {"assign"}
    else {}
  }

  /** Only the seven categories have actions. */
  lemma ActionsOnlyInCategories(c: string, a: string)
    requires IsAction(c, a)
    ensures c in CategorySet()
  {
    if c != "warehouse" && c != "role" && c != "user" && c != "product" && c != "checkIn" && c != "checkOut" {
      assert c == "activityLog";
    }
  }

  /** A matrix as a JavaScript object: category -> action -> flag. */
  type Matrix = map<string, map<string, bool>>

  /** The shape every stored matrix has: exactly the seven categories, each
      with exactly its own actions. */
  ghost predicate Complete(m: Matrix) {
    && m.Keys == CategorySet()
    && forall c :: c in m ==> m[c].Keys == ActionSet(c)
  }

  /** `m[c]?.[a]`, a missing entry read as false. */
  predicate Flag(m: Matrix, c: string, a: string) {
    c in m && a in m[c] && m[c][a]
  }

  /** The complete matrix whose every flag is b. */
  function Uniform(b: bool): (m: Matrix)
    ensures Complete(m)
    ensures forall c, a :: IsAction(c, a) ==> Flag(m, c, a) == b
  {
    var m := map c | c in CategorySet() :: map a | a in ActionSet(c) :: b;
    assert forall c, a :: IsAction(c, a) ==> c in m && a in m[c] by {
      forall c, a | IsAction(c, a) ensures c in m && a in m[c] {
        ActionsOnlyInCategories(c, a);
      }
    }
    m
  }

  /** The schema's defaults: every flag false. */
  function Defaults(): (m: Matrix)
    ensures Complete(m)
    ensures forall c, a :: !Flag(m, c, a)
  {
    Uniform(false)
  }

  /** A complete matrix is determined by its 19 flags. */
  lemma CompleteExtensional(m: Matrix, n: Matrix)
    requires Complete(m) && Complete(n)
    requires forall c, a :: IsAction(c, a) ==> Flag(m, c, a) == Flag(n, c, a)
    ensures m == n
  {
    forall c | c in m
      ensures m[c] == n[c]
    {
      var mc, nc := m[c], n[c];
      assert mc.Keys == nc.Keys;
      forall a | a in mc
        ensures mc[a] == nc[a]
      {
        assert IsAction(c, a);
        assert Flag(m, c, a) == mc[a];
        assert Flag(n, c, a) == nc[a];
      }
    }
    assert m.Keys == n.Keys;
  }

  /** The number of action flags of a list of categories. */
  function FlagCount(cs: seq<string>): nat {
    if cs == [] then 0 else |ActionsOf(cs[0])| + FlagCount(cs[1..])
  }

  /** 4 * 4 + 1 + 1 + 1. */
  lemma NineteenFlags()
    ensures FlagCount(Categories) == 19
  {
  }

  /** A permission record: the role it belongs to and its matrix. The role
      reference is required, so every record has one. */
  datatype PermissionRecord = PermissionRecord(role: string, permissions: Matrix)
}
