/** client/src/pages/AllProducts.jsx: the product table with its search
    filter, the selection of products to check out, the bulk check-out, the
    delete, and the gated buttons. Products are the JSON documents of
    GET /products. */
module AllProducts {
  import opened Wrappers
  import opened Json
  import Text
  import Query
  import ClientGate

  /** `product.serialNumber`. */
  function Serial(p: Json): Option<Json> {
    Member(Some(p), "serialNumber")
  }

  /** `product.serialNumber === s`. */
  predicate IsSerial(p: Json, s: string) {
    Serial(p) == Some(JStr(s))
  }

  /** `serialNumber.toLowerCase()` succeeds only on a string. */
  predicate HasSerialString(p: Json) {
    Serial(p).Some? && Serial(p).value.JStr?
  }

  /** The day of `createdAt`; None when there is none, as an invalid Date
      gives NaN, which compares false with everything. */
  function Day(p: Json): Option<int> {
    var c := Member(Some(p), "createdAt");
    if c.Some? && c.value.JNum? then Some(c.value.n) else None
  }

  /** `(!from || productDate >= from) && (!to || productDate <= to)`, with
      the bounds as the days chosen in the two date inputs. */
  predicate WithinDays(p: Json, from: Option<int>, to: Option<int>) {
    && (from.None? || (Day(p).Some? && Day(p).value >= from.value))
    && (to.None? || (Day(p).Some? && Day(p).value <= to.value))
  }

  /** The lower-cased serial contains the lower-cased query. */
  predicate MatchesQuery(p: Json, query: string) {
    HasSerialString(p) && Text.Includes(Text.ToLower(Serial(p).value.s), Text.ToLower(query))
  }

  function Matches(query: string, from: Option<int>, to: Option<int>): Json -> bool {
    (p: Json) => WithinDays(p, from, to) && MatchesQuery(p, query)
  }

  /** `handleSearch`: None when some product has no string serial, on which
      `toLowerCase` throws. */
  function Search(products: seq<Json>, query: string, from: Option<int>, to: Option<int>): (r: Option<seq<Json>>)
    ensures r.None? <==> exists j :: 0 <= j < |products| && !HasSerialString(products[j])
    ensures r.Some? ==> |r.value| <= |products|
  {
    if exists j :: 0 <= j < |products| && !HasSerialString(products[j]) then None
    else Some(Query.Filter(products, Matches(query, from, to)))
  }

  /** A product is listed exactly when it is within the dates and its serial
      matches, and the listing keeps the products' order. */
  lemma SearchExact(products: seq<Json>, query: string, from: Option<int>, to: Option<int>)
    requires Search(products, query, from, to).Some?
    ensures var r := Search(products, query, from, to).value;
      && (forall p :: p in r <==> p in products && WithinDays(p, from, to) && MatchesQuery(p, query))
      && Query.Subsequence(r, products)
  {
    forall p | p in products && WithinDays(p, from, to) && MatchesQuery(p, query)
      ensures p in Search(products, query, from, to).value
    {
      Query.FilterKeeps(products, Matches(query, from, to), p);
    }
    Query.FilterSubsequence(products, Matches(query, from, to));
  }

  /** An empty query without dates lists everything. */
  lemma EmptySearchKeepsAll(products: seq<Json>)
    requires forall j :: 0 <= j < |products| ==> HasSerialString(products[j])
    ensures Search(products, "", None, None) == Some(products)
  {
    forall j | 0 <= j < |products|
      ensures Matches("", None, None)(products[j])
    {
      Text.IncludesEmpty(Text.ToLower(Serial(products[j]).value.s));
    }
    Query.FilterAll(products, Matches("", None, None));
  }

  /** The search ignores letter case in the query. */
  lemma SearchIgnoresQueryCase(products: seq<Json>, query: string, from: Option<int>, to: Option<int>)
    ensures Search(products, Text.ToLower(query), from, to) == Search(products, query, from, to)
  {
    assert Text.ToLower(Text.ToLower(query)) == Text.ToLower(query);
    FilterAgree(products, Matches(Text.ToLower(query), from, to), Matches(query, from, to));
  }

  /** Filters by predicates that agree on the sequence are equal. */
  lemma {:induction false} FilterAgree<T>(s: seq<T>, p: T -> bool, q: T -> bool)
    requires forall j :: 0 <= j < |s| ==> p(s[j]) == q(s[j])
    ensures Query.Filter(s, p) == Query.Filter(s, q)
    decreases |s|
  {
    if s != [] {
      FilterAgree(s[1..], p, q);
    }
  }

  // ----------------------------------------------------------- selection

  /** The selection `Map`'s keys in insertion order, without `serial`. */
  function Without(sel: seq<string>, serial: string): (r: seq<string>)
    ensures forall t :: t in r <==> t in sel && t != serial
  {
    var r := Query.Filter(sel, (t: string) => t != serial);
    forall t | t in sel && t != serial
      ensures t in r
    {
      Query.FilterKeeps(sel, (t: string) => t != serial, t);
    }
    r
  }

  /** `handleSelectProduct(serial)`: delete the key when present, otherwise
      set it, which puts it last. */
  function ToggleSelection(sel: seq<string>, serial: string): (r: seq<string>)
    ensures serial in r <==> serial !in sel
    ensures forall t :: t != serial ==> (t in r <==> t in sel)
  {
    if serial in sel then Without(sel, serial) else sel + [serial]
  }

  ghost predicate Distinct(sel: seq<string>) {
    forall i, j :: 0 <= i < j < |sel| ==> sel[i] != sel[j]
  }

  /** Like a Map's keys, the selection never holds a serial twice. */
  lemma ToggleKeepsDistinct(sel: seq<string>, serial: string)
    ensures Distinct(sel) ==> Distinct(ToggleSelection(sel, serial))
  {
    if serial in sel {
      WithoutKeepsDistinct(sel, serial);
    }
  }

  lemma WithoutKeepsDistinct(sel: seq<string>, serial: string)
    ensures Distinct(sel) ==> Distinct(Without(sel, serial))
  {
    if Distinct(sel) {
      Query.FilterSubsequence(sel, (t: string) => t != serial);
      SubsequenceDistinct(Without(sel, serial), sel);
    }
  }

  lemma {:induction false} SubsequenceDistinct(s: seq<string>, t: seq<string>)
    requires Query.Subsequence(s, t) && Distinct(t)
    ensures Distinct(s)
    decreases |t|
  {
    if s != [] && t != [] {
      assert Distinct(t[1..]);
      if s[0] == t[0] && Query.Subsequence(s[1..], t[1..]) {
        SubsequenceDistinct(s[1..], t[1..]);
        SubsequenceMembers(s[1..], t[1..]);
        assert s[0] !in t[1..];
        forall i, j | 0 <= i < j < |s|
          ensures s[i] != s[j]
        {
          if i == 0 {
            assert s[j] == s[1..][j - 1];
          } else {
            assert s[i] == s[1..][i - 1] && s[j] == s[1..][j - 1];
          }
        }
      } else {
        SubsequenceDistinct(s, t[1..]);
      }
    }
  }

  lemma {:induction false} SubsequenceMembers(s: seq<string>, t: seq<string>)
    requires Query.Subsequence(s, t)
    ensures forall x :: x in s ==> x in t
    decreases |t|
  {
    if s != [] && t != [] {
      if s[0] == t[0] && Query.Subsequence(s[1..], t[1..]) {
        SubsequenceMembers(s[1..], t[1..]);
        assert forall x :: x in s ==> x == s[0] || x in s[1..];
      } else {
        SubsequenceMembers(s, t[1..]);
      }
    }
  }

  /** Selecting a new serial and clicking it again restores the selection. */
  lemma ToggleTwice(sel: seq<string>, serial: string)
    requires serial !in sel
    ensures ToggleSelection(ToggleSelection(sel, serial), serial) == sel
  {
    var ps := (t: string) => t != serial;
    Query.FilterAll(sel, ps);
    assert (sel + [serial])[..|sel|] == sel;
    FilterDropsLast(sel, serial);
  }

  lemma {:induction false} FilterDropsLast(sel: seq<string>, serial: string)
    requires serial !in sel
    ensures Query.Filter(sel + [serial], (t: string) => t != serial) == sel
    decreases |sel|
  {
    if sel == [] {
      assert [serial][1..] == [];
    } else {
      assert (sel + [serial])[1..] == sel[1..] + [serial];
      FilterDropsLast(sel[1..], serial);
    }
  }

  // ------------------------------------------------------------ check-out

  /** `{ ...product, status: 'checkedout' }`. */
  function CheckedOut(p: Json): Json {
    JObj((if p.JObj? then p.fields else map[])["status" := JStr("checkedout")])
  }

  /** Marking keeps the serial, so a product is found again by it. */
  lemma CheckedOutKeepsSerial(p: Json)
    ensures Serial(CheckedOut(p)) == Serial(p)
    ensures CheckedOut(CheckedOut(p)) == CheckedOut(p)
  {
  }

  /** The product is one of the selected serials. */
  predicate Selected(p: Json, sel: seq<string>) {
    Serial(p).Some? && Serial(p).value.JStr? && Serial(p).value.s in sel
  }

  /** The list after checking out the serials sel: exactly the selected
      products carry status 'checkedout', the others are untouched. */
  function MarkCheckedOut(ps: seq<Json>, sel: seq<string>): (r: seq<Json>)
    ensures |r| == |ps|
    ensures forall j :: 0 <= j < |ps| ==> r[j] == if Selected(ps[j], sel) then CheckedOut(ps[j]) else ps[j]
  {
    seq(|ps|, j requires 0 <= j < |ps| => if Selected(ps[j], sel) then CheckedOut(ps[j]) else ps[j])
  }

  /** Any two orders of the same serials mark the list alike: the updaters
      of the check-out may run in any completion order. */
  lemma MarkEachOrderFree(ps: seq<Json>, s1: seq<string>, s2: seq<string>)
    requires forall x :: x in s1 <==> x in s2
    ensures MarkEach(ps, s1) == MarkEach(ps, s2)
  {
    assert forall j :: 0 <= j < |ps| ==> (Selected(ps[j], s1) <==> Selected(ps[j], s2));
  }

  /** The `prevProducts.map(...)` of one PATCH. */
  function MarkOne(ps: seq<Json>, serial: string): (r: seq<Json>)
    ensures |r| == |ps|
  {
    seq(|ps|, j requires 0 <= j < |ps| => if IsSerial(ps[j], serial) then CheckedOut(ps[j]) else ps[j])
  }

  lemma MarkStep(ps: seq<Json>, sel: seq<string>, serial: string)
    ensures MarkOne(MarkCheckedOut(ps, sel), serial) == MarkCheckedOut(ps, sel + [serial])
  {
    var a := MarkOne(MarkCheckedOut(ps, sel), serial);
    var b := MarkCheckedOut(ps, sel + [serial]);
    forall j | 0 <= j < |ps|
      ensures a[j] == b[j]
    {
      CheckedOutKeepsSerial(ps[j]);
    }
  }

  /** The status of every product after a check-out. */
  lemma CheckOutStatus(ps: seq<Json>, sel: seq<string>, j: nat)
    requires j < |ps|
    ensures Serial(MarkCheckedOut(ps, sel)[j]) == Serial(ps[j])
    ensures Selected(ps[j], sel) ==> Member(Some(MarkCheckedOut(ps, sel)[j]), "status") == Some(JStr("checkedout"))
    ensures !Selected(ps[j], sel) ==> MarkCheckedOut(ps, sel)[j] == ps[j]
  {
    CheckedOutKeepsSerial(ps[j]);
  }

  /** Filter `product.serialNumber !== serial`. */
  function OtherSerial(serial: string): Json -> bool {
    (p: Json) => !IsSerial(p, serial)
  }

  /** Deleting a serial removes exactly its products and keeps the others in
      order. */
  lemma DeleteExact(ps: seq<Json>, serial: string)
    ensures forall p :: p in Query.Filter(ps, OtherSerial(serial)) <==> p in ps && !IsSerial(p, serial)
    ensures Query.Subsequence(Query.Filter(ps, OtherSerial(serial)), ps)
  {
    forall p | p in ps && !IsSerial(p, serial)
      ensures p in Query.Filter(ps, OtherSerial(serial))
    {
      Query.FilterKeeps(ps, OtherSerial(serial), p);
    }
    Query.FilterSubsequence(ps, OtherSerial(serial));
  }

  /** The PATCH requests of `handleCheckOut`, all succeeding, each followed
      by its `prevProducts.map(...)`, applied in the order of `sel`.
      `Promise.all` sends them at once and the updaters run in the order the
      answers arrive; `MarkEachOrderFree` shows that order does not matter. */
  function MarkEach(ps: seq<Json>, sel: seq<string>): (r: seq<Json>)
    ensures r == MarkCheckedOut(ps, sel)
    decreases |sel|
  {
    if sel == [] then
      assert MarkCheckedOut(ps, []) == ps;
      ps
    else
      var init := sel[..|sel| - 1];
      assert sel == init + [sel[|sel| - 1]];
      MarkStep(ps, init, sel[|sel| - 1]);
      MarkOne(MarkEach(ps, init), sel[|sel| - 1])
  }

  /** The page's state: all products, the listed ones, and the keys of
      `selectedProducts` in insertion order. */
  datatype Page = Page(products: seq<Json>, filtered: seq<Json>, selected: seq<string>)

  /** The state every handler keeps: the selection is a key set. */
  ghost predicate Valid(pg: Page) {
    Distinct(pg.selected)
  }

  /** `fetchProducts`: a non-array answer counts as no products, and both
      lists show what was fetched. */
  function Received(pg: Page, data: Json): (r: Page)
    ensures r.selected == pg.selected
    ensures r.products == r.filtered
    ensures data.JArr? ==> r.products == data.items
    ensures !data.JArr? ==> r.products == []
  {
    var items := if data.JArr? then data.items else [];
    pg.(products := items, filtered := items)
  }

  /** `handleSearch`: None when it throws, on a product without a string
      serial; otherwise only the listing changes. */
  function Searched(pg: Page, query: string, from: Option<int>, to: Option<int>): (r: Option<Page>)
    ensures r.None? <==> exists j :: 0 <= j < |pg.products| && !HasSerialString(pg.products[j])
    ensures r.Some? ==> r.value.products == pg.products && r.value.selected == pg.selected
    ensures r.Some? ==> Query.Subsequence(r.value.filtered, pg.products)
    ensures r.Some? ==> forall p :: p in r.value.filtered <==> p in pg.products && WithinDays(p, from, to) && MatchesQuery(p, query)
  {
    match Search(pg.products, query, from, to)
    case None => None
    case Some(listed) =>
      SearchExact(pg.products, query, from, to);
      Some(pg.(filtered := listed))
  }

  /** `handleSelectProduct(serial)`: only the selection changes. */
  function Toggled(pg: Page, serial: string): (r: Page)
    ensures r.products == pg.products && r.filtered == pg.filtered
    ensures serial in r.selected <==> serial !in pg.selected
    ensures forall t :: t != serial ==> (t in r.selected <==> t in pg.selected)
    ensures Valid(pg) ==> Valid(r)
  {
    ToggleKeepsDistinct(pg.selected, serial);
    pg.(selected := ToggleSelection(pg.selected, serial))
  }

  /** `handleCheckOut`: both lists marked for the selection, which is then
      cleared. */
  function CheckedOutPage(pg: Page): (r: Page)
    ensures r.products == MarkCheckedOut(pg.products, pg.selected)
    ensures r.filtered == MarkCheckedOut(pg.filtered, pg.selected)
    ensures r.selected == [] && Valid(r)
  {
    Page(MarkEach(pg.products, pg.selected), MarkEach(pg.filtered, pg.selected), [])
  }

  /** `handleDeleteProduct(serial)`: when the DELETE succeeded the serial
      leaves both lists and the selection; a failed one changes nothing. */
  function Deleted(pg: Page, serial: string, succeeded: bool): (r: Page)
    ensures !succeeded ==> r == pg
    ensures succeeded ==> forall p :: p in r.products <==> p in pg.products && !IsSerial(p, serial)
    ensures succeeded ==> forall p :: p in r.filtered <==> p in pg.filtered && !IsSerial(p, serial)
    ensures succeeded ==> forall t :: t in r.selected <==> t in pg.selected && t != serial
    ensures Valid(pg) ==> Valid(r)
  {
    if !succeeded then pg
    else
      DeleteExact(pg.products, serial);
      DeleteExact(pg.filtered, serial);
      WithoutKeepsDistinct(pg.selected, serial);
      Page(Query.Filter(pg.products, OtherSerial(serial)),
           Query.Filter(pg.filtered, OtherSerial(serial)),
           Without(pg.selected, serial))
  }

  /** The buttons: Check-Out (shown, and enabled), Create, and the per-row
      Edit and Delete. */
  datatype Buttons = Buttons(checkOutShown: bool, checkOutEnabled: bool, create: bool, edit: bool, delete: bool)

  function ButtonsShown(session: Option<Json>, pg: Page): (b: Buttons)
    ensures b.checkOutShown <==> ClientGate.CanDo(session, "checkOut", "checkout")
    ensures b.checkOutEnabled <==> pg.selected != []
    ensures b.create <==> ClientGate.CanDo(session, "product", "create")
    ensures b.edit <==> ClientGate.CanDo(session, "product", "edit")
    ensures b.delete <==> ClientGate.CanDo(session, "product", "delete")
  {
    Buttons(ClientGate.CanDo(session, "checkOut", "checkout"), |pg.selected| != 0,
            ClientGate.CanDo(session, "product", "create"),
            ClientGate.CanDo(session, "product", "edit"),
            ClientGate.CanDo(session, "product", "delete"))
  }
}
