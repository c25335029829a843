/** The warehouse registry of server/controllers/warehouseController.js over
    the `warehouses` collection (server/models/warehouse.js: name and address,
    both required and trimmed). */
module WarehouseController {
  import opened Wrappers
  import Text
  import Query

  datatype Warehouse = Warehouse(id: string, name: string, address: string)

  /** Filter `{ _id: id }`. */
  function HasId(id: string): Warehouse -> bool {
    (w: Warehouse) => w.id == id
  }

  ghost predicate UniqueIds(ws: seq<Warehouse>) {
    forall i, j :: 0 <= i < j < |ws| ==> ws[i].id != ws[j].id
  }

  /** A value as the schema stores it: trimmed and, being required,
      non-empty after trimming. */
  predicate Stored(s: string) {
    s != "" && Text.Trim(s) == s
  }

  /** A request value is accepted by the schema once trimmed. */
  predicate Acceptable(s: string) {
    Text.Trim(s) != ""
  }

  /** The value the schema stores for an accepted request value. */
  lemma AcceptedIsStored(s: string)
    requires Acceptable(s)
    ensures Stored(Text.Trim(s))
  {
    Text.TrimIdempotent(s);
  }

  /** The outcome of `addWarehouse`. */
  datatype AddOutcome =
    | FieldsRequired          // 400 "All fields are required"
    | ServerError             // 500: a field of white space only fails `required`
    | Added(warehouse: Warehouse)  // 201

  /** The outcome of `updateWarehouse`. */
  datatype UpdateOutcome =
    | UpdateRejected          // 500: `runValidators` refuses a blank field
    | WarehouseNotFound       // 404
    | Updated(warehouse: Warehouse)  // 200

  /** The value `findByIdAndUpdate(id, { name, address })` leaves in a field:
      an undefined one is dropped from the update, a given one is trimmed. */
  function Assigned(old_: string, v: Option<string>): (r: string)
    ensures v.None? ==> r == old_
    ensures v.Some? ==> r == Text.Trim(v.value)
  {
    if v.None? then old_ else Text.Trim(v.value)
  }

  /** An update request passes the validators: every given field survives
      trimming. */
  predicate UpdateValid(name: Option<string>, address: Option<string>) {
    (name.None? || Acceptable(name.value)) && (address.None? || Acceptable(address.value))
  }

  /** A validated update keeps a stored warehouse well-formed, and sending
      it again changes nothing more. */
  lemma AssignedKeepsStored(w: Warehouse, name: Option<string>, address: Option<string>)
    requires Stored(w.name) && Stored(w.address) && UpdateValid(name, address)
    ensures Stored(Assigned(w.name, name)) && Stored(Assigned(w.address, address))
    ensures Assigned(Assigned(w.name, name), name) == Assigned(w.name, name)
    ensures Assigned(Assigned(w.address, address), address) == Assigned(w.address, address)
  {
    if name.Some? { AcceptedIsStored(name.value); }
    if address.Some? { AcceptedIsStored(address.value); }
  }

  class WarehouseStore {
    var warehouses: seq<Warehouse>

    ghost predicate Valid()
      reads this
    {
      && UniqueIds(warehouses)
      && forall i :: 0 <= i < |warehouses| ==> Stored(warehouses[i].name) && Stored(warehouses[i].address)
    }

    function Ids(): set<string>
      reads this
    {
      set i | 0 <= i < |warehouses| :: warehouses[i].id
    }

    constructor ()
      ensures Valid() && warehouses == []
    {
      warehouses := [];
    }

    /** `addWarehouse({ name, address })`; `newId` is the ObjectId the driver
        assigns. */
    method AddWarehouse(newId: string, name: Option<string>, address: Option<string>) returns (out: AddOutcome)
      requires Valid() && newId !in Ids()
      modifies this
      ensures Valid()
      ensures out == FieldsRequired <==> name.None? || name.value == "" || address.None? || address.value == ""
      ensures out == ServerError <==>
        (name.Some? && name.value != "" && address.Some? && address.value != ""
         && !(Acceptable(name.value) && Acceptable(address.value)))
      ensures !out.Added? ==> warehouses == old(warehouses)
      ensures out.Added? ==>
        && out.warehouse == Warehouse(newId, Text.Trim(name.value), Text.Trim(address.value))
        && warehouses == old(warehouses) + [out.warehouse]
    {
      if name.None? || name.value == "" || address.None? || address.value == "" {
        return FieldsRequired;
      }
      if !Acceptable(name.value) || !Acceptable(address.value) {
        return ServerError;
      }
      AcceptedIsStored(name.value);
      AcceptedIsStored(address.value);
      var w := Warehouse(newId, Text.Trim(name.value), Text.Trim(address.value));
      AppendKeepsValid(warehouses, w);
      warehouses := warehouses + [w];
      out := Added(w);
    }

    /** `getWarehouses`. */
    method GetWarehouses() returns (ws: seq<Warehouse>)
      ensures ws == warehouses
    {
      ws := warehouses;
    }

    /** `getWarehouseById`: None is the 404. */
    method GetWarehouseById(id: string) returns (r: Option<Warehouse>)
      requires Valid()
      ensures r.None? <==> id !in Ids()
      ensures r.Some? ==> r.value in warehouses && r.value.id == id
    {
      var i := Query.FindOne(warehouses, HasId(id));
      if i.None? {
        return None;
      }
      r := Some(warehouses[i.value]);
    }

    /** `updateWarehouse(id, { name, address })` with `runValidators`: the
        validators run before the lookup. */
    method UpdateWarehouse(id: string, name: Option<string>, address: Option<string>) returns (out: UpdateOutcome)
      requires Valid()
      modifies this
      ensures Valid()
      ensures out == UpdateRejected <==> !UpdateValid(name, address)
      ensures out == WarehouseNotFound <==> UpdateValid(name, address) && id !in old(Ids())
      ensures !out.Updated? ==> warehouses == old(warehouses)
      ensures out.Updated? ==> match Query.FirstMatch(old(warehouses), HasId(id))
        case None => false
        case Some(i) =>
          var w := old(warehouses)[i];
          && out.warehouse == Warehouse(id, Assigned(w.name, name), Assigned(w.address, address))
          && warehouses == old(warehouses)[i := out.warehouse]
    {
      if !UpdateValid(name, address) {
        return UpdateRejected;
      }
      var i := Query.FindOne(warehouses, HasId(id));
      if i.None? {
        return WarehouseNotFound;
      }
      var w := warehouses[i.value];
      AssignedKeepsStored(w, name, address);
      var v := Warehouse(id, Assigned(w.name, name), Assigned(w.address, address));
      ReplaceKeepsValid(warehouses, i.value, v);
      warehouses := warehouses[i.value := v];
      out := Updated(v);
    }

    /** `deleteWarehouse(id)`: false is the 404. */
    method DeleteWarehouse(id: string) returns (deleted: bool)
      requires Valid()
      modifies this
      ensures Valid()
      ensures deleted <==> id in old(Ids())
      ensures match Query.FirstMatch(old(warehouses), HasId(id))
        case None => warehouses == old(warehouses)
        case Some(i) => warehouses == Query.RemoveAt(old(warehouses), i)
      ensures forall w :: w in warehouses <==> w in old(warehouses) && w.id != id
    {
      var i := Query.FindOne(warehouses, HasId(id));
      if i.None? {
        return false;
      }
      RemoveKeepsValid(warehouses, i.value, id);
      warehouses := Query.RemoveAt(warehouses, i.value);
      deleted := true;
    }
  }

  lemma AppendKeepsValid(ws: seq<Warehouse>, w: Warehouse)
    requires UniqueIds(ws) && forall j :: 0 <= j < |ws| ==> Stored(ws[j].name) && Stored(ws[j].address)
    requires forall j :: 0 <= j < |ws| ==> ws[j].id != w.id
    requires Stored(w.name) && Stored(w.address)
    ensures var r := ws + [w];
      UniqueIds(r) && forall j :: 0 <= j < |r| ==> Stored(r[j].name) && Stored(r[j].address)
  {
  }

  lemma ReplaceKeepsValid(ws: seq<Warehouse>, i: nat, v: Warehouse)
    requires UniqueIds(ws) && forall j :: 0 <= j < |ws| ==> Stored(ws[j].name) && Stored(ws[j].address)
    requires i < |ws| && ws[i].id == v.id && Stored(v.name) && Stored(v.address)
    ensures var r := ws[i := v];
      UniqueIds(r) && forall j :: 0 <= j < |r| ==> Stored(r[j].name) && Stored(r[j].address)
  {
  }

  lemma RemoveKeepsValid(ws: seq<Warehouse>, i: nat, id: string)
    requires UniqueIds(ws) && forall j :: 0 <= j < |ws| ==> Stored(ws[j].name) && Stored(ws[j].address)
    requires i < |ws| && ws[i].id == id
    ensures var r := Query.RemoveAt(ws, i);
      && UniqueIds(r)
      && (forall j :: 0 <= j < |r| ==> Stored(r[j].name) && Stored(r[j].address))
      && (forall w :: w in r <==> w in ws && w.id != id)
  {
    var r := Query.RemoveAt(ws, i);
    forall w | w in ws && w.id != id
      ensures w in r
    {
      var k :| 0 <= k < |ws| && ws[k] == w;
      if k < i { assert r[k] == w; } else { assert r[k - 1] == w; }
    }
  }
}
