/** The role registry of server/controllers/roleControllers.js over the
    `roles` collection (fields from server/models/role.js). */
module RoleController {
  import opened Wrappers
  import Query

  /** The schema default of `status`. */
  const DefaultStatus: string := "Active"

  datatype Role = Role(id: string, roleName: string, status: string)

  /** Filter `{ _id: id }`. */
  function HasId(id: string): Role -> bool {
    (r: Role) => r.id == id
  }

  /** Filter `{ roleName: name }`. */
  function HasName(name: string): Role -> bool {
    (r: Role) => r.roleName == name
  }

  ghost predicate UniqueIds(rs: seq<Role>) {
    forall i, j :: 0 <= i < j < |rs| ==> rs[i].id != rs[j].id
  }

  /** `value || fallback` for a request field: an absent or empty value falls
      back to what is stored. */
  function OrElse(v: Option<string>, fallback: string): (r: string)
    ensures r == fallback || (v.Some? && r == v.value)
    ensures (v.None? || v.value == "") ==> r == fallback
    ensures v.Some? && v.value != "" ==> r == v.value
  {
    if v.Some? && v.value != "" then v.value else fallback
  }

  /** The role `updateRole` saves: name and status each keep their old value
      unless the request gives a non-empty one; the id never changes. */
  function Updated(r: Role, roleName: Option<string>, status: Option<string>): (u: Role)
    ensures u.id == r.id
    ensures u.roleName == OrElse(roleName, r.roleName) && u.status == OrElse(status, r.status)
  {
    Role(r.id, OrElse(roleName, r.roleName), OrElse(status, r.status))
  }

  /** An update that supplies nothing leaves the role as it was. */
  lemma UpdateWithNothing(r: Role)
    ensures Updated(r, None, None) == r && Updated(r, Some(""), Some("")) == r
  {
  }

  /** Updating twice with the same request is the same as updating once. */
  lemma UpdateIdempotent(r: Role, roleName: Option<string>, status: Option<string>)
    ensures Updated(Updated(r, roleName, status), roleName, status) == Updated(r, roleName, status)
  {
  }

  /** With unique ids, the first role with an id is the only one. */
  lemma FirstIdIsOnly(rs: seq<Role>, id: string, i: nat)
    requires UniqueIds(rs)
    requires Query.FirstMatch(rs, HasId(id)) == Some(i)
    ensures forall j :: 0 <= j < |rs| && j != i ==> rs[j].id != id
  {
  }

  /** Replacing a role by one with the same id keeps ids unique. */
  lemma ReplaceKeepsUnique(rs: seq<Role>, i: nat, r: Role)
    requires UniqueIds(rs) && i < |rs| && r.id == rs[i].id
    ensures UniqueIds(rs[i := r])
  {
  }

  /** Removing one role keeps the rest unique. */
  lemma RemoveKeepsUnique(rs: seq<Role>, i: nat)
    requires UniqueIds(rs) && i < |rs|
    ensures UniqueIds(Query.RemoveAt(rs, i))
  {
    var r := Query.RemoveAt(rs, i);
    forall a, b | 0 <= a < b < |r|
      ensures r[a].id != r[b].id
    {
      var a', b' := if a < i then a else a + 1, if b < i then b else b + 1;
      assert r[a] == rs[a'] && r[b] == rs[b'];
    }
  }

  class RoleStore {
    var roles: seq<Role>

    /** Ids are the collection's keys, and the schema requires a non-empty
        `roleName` of every saved role. */
    ghost predicate Valid()
      reads this
    {
      UniqueIds(roles) && forall r :: r in roles ==> r.roleName != ""
    }

    ghost function Ids(): set<string>
      reads this
    {
      set r | r in roles :: r.id
    }

    constructor ()
      ensures Valid() && roles == []
    {
      roles := [];
    }

    /** `createRole`: stores name and status, status defaulting to "Active".
        A missing or empty name fails the schema's `required` check: None,
        the 500, with nothing stored. The fresh id comes from the driver. */
    method CreateRole(newId: string, roleName: Option<string>, status: Option<string>) returns (created: Option<Role>)
      requires Valid() && newId !in Ids()
      modifies this
      ensures Valid()
      ensures created.None? <==> roleName.None? || roleName.value == ""
      ensures created.None? ==> roles == old(roles)
      ensures created.Some? ==>
        && created.value == Role(newId, roleName.value, status.GetOr(DefaultStatus))
        && roles == old(roles) + [created.value]
    {
      if roleName.None? || roleName.value == "" {
        return None;
      }
      var role := Role(newId, roleName.value, status.GetOr(DefaultStatus));
      assert forall r :: r in roles ==> r.id != newId;
      roles := roles + [role];
      created := Some(role);
    }

    /** `getRoleById`: the role with that id, or 404 (None). */
    method GetRoleById(id: string) returns (r: Option<Role>)
      requires Valid()
      ensures r.Some? <==> exists k :: 0 <= k < |roles| && roles[k].id == id
      ensures r.Some? ==> r.value in roles && r.value.id == id
    {
      var i := Query.FindOne(roles, HasId(id));
      if i.Some? { r := Some(roles[i.value]); } else { r := None; }
    }

    /** `updateRole`: a miss is 404 with no change; a hit saves Updated(...)
        in place; every other role is left alone. */
    method UpdateRole(id: string, roleName: Option<string>, status: Option<string>) returns (r: Option<Role>)
      requires Valid()
      modifies this
      ensures Valid()
      ensures match Query.FirstMatch(old(roles), HasId(id))
        case None => r.None? && roles == old(roles)
        case Some(i) => r == Some(Updated(old(roles)[i], roleName, status)) && roles == old(roles)[i := r.value]
    {
      var i := Query.FindOne(roles, HasId(id));
      if i.None? {
        return None;
      }
      var updated := Updated(roles[i.value], roleName, status);
      ReplaceKeepsUnique(roles, i.value, updated);
      roles := roles[i.value := updated];
      r := Some(updated);
    }

    /** `deleteRole`: a miss is 404 with no change; a hit removes that role
        alone. Users and permission records that name it are not touched. */
    method DeleteRole(id: string) returns (found: bool)
      requires Valid()
      modifies this
      ensures Valid()
      ensures match Query.FirstMatch(old(roles), HasId(id))
        case None => !found && roles == old(roles)
        case Some(i) => found && roles == Query.RemoveAt(old(roles), i)
      ensures forall x :: x in roles <==> x in old(roles) && x.id != id
    {
      var i := Query.FindOne(roles, HasId(id));
      if i.None? {
        return false;
      }
      FirstIdIsOnly(roles, id, i.value);
      RemoveKeepsUnique(roles, i.value);
      roles := Query.RemoveAt(roles, i.value);
      found := true;
    }
  }
}
