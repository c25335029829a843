/** The product inventory of server/controllers/ProductController.js over the
    `products` collection (fields from server/models/product.js), keyed by
    serial number. A product is held as its JSON document. */
module ProductController {
  import opened Wrappers
  import opened Json
  import Query

  /** The top-level paths of the product schema. Under the schema's strict
      mode a body key outside these is not stored. */
  const SchemaFields: set<string> :=
    {"serialNumber", "year", "deviceSize", "deviceType", "emcNumber", "cpu", "gpu",
     "modelNumber", "identifier", "memory", "storageType", "batteryCapacity",
     "batteryCycles", "storageSize", "source", "warehouse", "marketplace", "status",
     "imageUrl", "cloudinaryId", "fullUnitGrade", "topCaseGrade", "lcdGrade", "notes",
     "technicalNotes", "technicalCheck", "createdBy"}

  /** The creation timestamp the schema's `timestamps` option adds, held as a
      day number. */
  const CreatedAt: string := "createdAt"

  /** The part of a body that the schema keeps. */
  function Kept(body: Doc): (k: Doc)
    ensures k.Keys <= SchemaFields
    ensures forall f :: f in SchemaFields && f in body ==> f in k && k[f] == body[f]
    ensures forall f :: f in k ==> f in body
  {
    map f | f in body && f in SchemaFields :: body[f]
  }

  /** One of the `technicalCheck` selects: a string there must be one of the
      schema's enum values. */
  predicate SelectValid(tc: map<string, Json>, key: string, allowed: set<string>) {
    key in tc && tc[key].JStr? ==> tc[key].s in allowed
  }

  /** The enum validators `save()` runs on a new document: `findMyMac` is ON
      or OFF, `mdm` and `appleCare` are YES or NO, when given as strings. */
  predicate EnumsValid(body: Doc) {
    "technicalCheck" in body && body["technicalCheck"].JObj? ==>
      var tc := body["technicalCheck"].fields;
      && SelectValid(tc, "findMyMac", {"ON", "OFF"})
      && SelectValid(tc, "mdm", {"YES", "NO"})
      && SelectValid(tc, "appleCare", {"YES", "NO"})
  }

  /** An unanswered select (the empty string) fails validation. */
  lemma EmptySelectRejected(body: Doc, key: string)
    requires "technicalCheck" in body && body["technicalCheck"].JObj?
    requires key in {"findMyMac", "mdm", "appleCare"}
    requires key in body["technicalCheck"].fields && body["technicalCheck"].fields[key] == JStr("")
    ensures !EnumsValid(body)
  {
  }

  /** Filter `{ serialNumber }`. */
  function HasSerial(serial: string): Doc -> bool {
    (d: Doc) => "serialNumber" in d && d["serialNumber"] == JStr(serial)
  }

  /** The document `findOneAndUpdate(filter, body)` leaves: every schema
      field of the body set, every other field as it was. */
  function Patched(d: Doc, body: Doc): (r: Doc)
    ensures forall f :: f in SchemaFields && f in body ==> f in r && r[f] == body[f]
    ensures forall f :: !(f in SchemaFields && f in body) ==> (f in r <==> f in d) && (f in d ==> r[f] == d[f])
  {
    d + Kept(body)
  }

  /** `{ status }`: an undefined status is dropped from the update, so the
      document comes back unchanged. */
  function StatusPatched(d: Doc, status: Option<string>): (r: Doc)
    ensures status.None? ==> r == d
    ensures status.Some? ==> "status" in r && r["status"] == JStr(status.value)
    ensures forall f :: f != "status" ==> (f in r <==> f in d) && (f in d ==> r[f] == d[f])
  {
    if status.None? then d else d["status" := JStr(status.value)]
  }

  /** Patching twice with the same body is patching once. */
  lemma PatchedIdempotent(d: Doc, body: Doc)
    ensures Patched(Patched(d, body), body) == Patched(d, body)
  {
  }

  /** A status patch is a patch with the body `{ status }`. */
  lemma StatusPatchIsPatch(d: Doc, status: string)
    ensures StatusPatched(d, Some(status)) == Patched(d, map["status" := JStr(status)])
  {
    assert Kept(map["status" := JStr(status)]) == map["status" := JStr(status)];
  }

  /** The last status written wins. */
  lemma StatusPatchedTwice(d: Doc, s1: string, s2: string)
    ensures StatusPatched(StatusPatched(d, Some(s1)), Some(s2)) == StatusPatched(d, Some(s2))
  {
  }

  class ProductStore {
    var products: seq<Doc>

    constructor ()
      ensures products == []
    {
      products := [];
    }

    /** `createProduct`: the body's schema fields, stamped with the day of
        creation, appended as a new document; None is the 500 a failed
        validation gives, with nothing stored. */
    method CreateProduct(body: Doc, today: int) returns (r: Option<Doc>)
      modifies this
      ensures r.Some? <==> EnumsValid(body)
      ensures r.Some? ==> r.value == Kept(body)[CreatedAt := JNum(today)] && products == old(products) + [r.value]
      ensures r.None? ==> products == old(products)
    {
      if !EnumsValid(body) {
        return None;
      }
      var p := Kept(body)[CreatedAt := JNum(today)];
      products := products + [p];
      r := Some(p);
    }

    /** `getProducts`. */
    method GetProducts() returns (ps: seq<Doc>)
      ensures ps == products
    {
      ps := products;
    }

    /** `getProductById`: the first product with that serial; None is the 404. */
    method GetProductById(serial: string) returns (r: Option<Doc>)
      ensures r.None? <==> forall j :: 0 <= j < |products| ==> !HasSerial(serial)(products[j])
      ensures r.Some? ==> r.value in products && HasSerial(serial)(r.value)
    {
      var i := Query.FindOne(products, HasSerial(serial));
      if i.None? {
        return None;
      }
      r := Some(products[i.value]);
    }

    /** `updateProduct` with `?serialNumber=serial`. */
    method UpdateProduct(serial: string, body: Doc) returns (r: Option<Doc>)
      modifies this
      ensures match Query.FirstMatch(old(products), HasSerial(serial))
        case None => r.None? && products == old(products)
        case Some(i) =>
          && r == Some(Patched(old(products)[i], body))
          && products == old(products)[i := r.value]
    {
      var i := Query.FindOne(products, HasSerial(serial));
      if i.None? {
        return None;
      }
      var d := Patched(products[i.value], body);
      products := products[i.value := d];
      r := Some(d);
    }

    /** `updateProductStatus(serial, { status })`. */
    method UpdateProductStatus(serial: string, status: Option<string>) returns (r: Option<Doc>)
      modifies this
      ensures match Query.FirstMatch(old(products), HasSerial(serial))
        case None => r.None? && products == old(products)
        case Some(i) =>
          && r == Some(StatusPatched(old(products)[i], status))
          && products == old(products)[i := r.value]
    {
      var i := Query.FindOne(products, HasSerial(serial));
      if i.None? {
        return None;
      }
      var d := StatusPatched(products[i.value], status);
      products := products[i.value := d];
      r := Some(d);
    }

    /** `deleteProduct(id)`: removes the first product whose serial is id. */
    method DeleteProduct(id: string) returns (deleted: bool)
      modifies this
      ensures match Query.FirstMatch(old(products), HasSerial(id))
        case None => !deleted && products == old(products)
        case Some(i) => deleted && products == Query.RemoveAt(old(products), i)
    {
      var i := Query.FindOne(products, HasSerial(id));
      if i.None? {
        return false;
      }
      products := Query.RemoveAt(products, i.value);
      deleted := true;
    }
  }

  /** Deleting removes one document and keeps the rest in order: the
      multiset drops exactly the first match. */
  lemma DeleteRemovesOne(ps: seq<Doc>, i: nat)
    requires i < |ps|
    ensures multiset(Query.RemoveAt(ps, i)) + multiset{ps[i]} == multiset(ps)
  {
    assert ps == ps[..i] + [ps[i]] + ps[i + 1..];
  }
}
