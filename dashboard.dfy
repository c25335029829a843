/** client/src/pages/Dashboard.jsx: four counters computed from the
    GET /users and GET /products answers. */
module Dashboard {
  import opened Wrappers
  import opened Json
  import Query
  import UserController

  /** The counters. `users` is None when the users answer has no `length`
      (an object), which the page renders as nothing. */
  datatype Stats = Stats(users: Option<nat>, products: nat, checkIns: nat, checkOuts: nat)

  const Initial: Stats := Stats(Some(0), 0, 0, 0)

  /** `x.length` on an answer body: arrays and strings have one. */
  function Length(v: Json): (r: Option<nat>)
    ensures v.JArr? ==> r == Some(|v.items|)
    ensures !v.JArr? && !v.JStr? ==> r.None?
  {
    match v
    case JArr(items) => Some(|items|)
    case JStr(s) => Some(|s|)
    case _ => None
  }

  /** Filter `p.status === s`. */
  function HasStatus(s: string): Json -> bool {
    (p: Json) => Member(Some(p), "status") == Some(JStr(s))
  }

  /** The two statuses the dashboard counts. */
  const CheckIn: string := "checkin"
  const CheckedOut: string := "checkedout"

  /** `fetchData`: a products answer that is not an array makes `filter`
      throw, the catch logs and the counters stay. A `null` users body or a
      `null` product element would also throw in the source; here they give
      an undefined users counter or an uncounted element. The server never
      sends either. */
  function FetchData(usersData: Json, productsData: Json, prior: Stats): (r: Stats)
    ensures !productsData.JArr? ==> r == prior
    ensures productsData.JArr? ==>
      && r.users == Length(usersData)
      && r.products == |productsData.items|
      && r.checkIns == |Query.Filter(productsData.items, HasStatus(CheckIn))|
      && r.checkOuts == |Query.Filter(productsData.items, HasStatus(CheckedOut))|
  {
    if !productsData.JArr? then prior
    else
      var ps := productsData.items;
      Stats(Length(usersData), |ps|, |Query.Filter(ps, HasStatus(CheckIn))|, |Query.Filter(ps, HasStatus(CheckedOut))|)
  }

  /** The statuses are distinct, so a product is counted at most once:
      check-ins plus check-outs never exceed the products. */
  lemma CountsBounded(usersData: Json, ps: seq<Json>, prior: Stats)
    ensures var r := FetchData(usersData, JArr(ps), prior);
      r.checkIns + r.checkOuts <= r.products
  {
    DisjointFilters(ps, HasStatus(CheckIn), HasStatus(CheckedOut));
  }

  lemma {:induction false} DisjointFilters<T>(s: seq<T>, p: T -> bool, q: T -> bool)
    requires forall x :: !(p(x) && q(x))
    ensures |Query.Filter(s, p)| + |Query.Filter(s, q)| <= |s|
    decreases |s|
  {
    if s != [] {
      DisjointFilters(s[1..], p, q);
    }
  }

  /** On an empty users collection the server answers with a message
      object, and the users counter becomes undefined rather than 0. */
  lemma NoUsersCounterUndefined(productsData: Json, prior: Stats)
    requires productsData.JArr?
    ensures FetchData(UserController.UsersResponseJson(UserController.NoUsersFound), productsData, prior).users.None?
  {
  }

  /** Otherwise it is the number of users stored. */
  lemma UsersCounter(us: seq<UserController.User>, productsData: Json, prior: Stats)
    requires productsData.JArr?
    ensures FetchData(UserController.UsersResponseJson(UserController.AllUsers(us)), productsData, prior).users
      == Some(|us|)
  {
  }
}
