/** The customer's side of script.js as state transitions: placing an order from the
    order form (`handleOrderSubmit`) or in one click (`quickBookOrder`), logging in
    (`handleLogin`), signing up (`handleSignup`), editing the profile (`updateProfile`)
    and logging out (`handleLogout`). What the browser keeps in storage (products, orders,
    registered users and the logged-in customer) is one `Client` value. The end of the
    module is about the storefront's category filter and the built-in products. */
module Storefront {
  import opened Wrappers
  import opened Text
  import opened Seqs
  import opened Pricing
  import opened Catalog
  import opened Users
  import opened Orders
  import opened Categories
  import opened Sync
  import Store

  /** The browser's stored state; `session` is the `customerInfo` entry. */
  datatype Client = Client(
    products: seq<Product>,
    orders: seq<Order>,
    users: seq<User>,
    session: Option<CustomerInfo>)

  /** The product id read back from the modal by `parseInt`; `None` stands for `NaN`. */
  function Place(orders: seq<Order>, products: seq<Product>, productId: Option<int>, c: CustomerInfo,
                 paymentMethod: string, now: nat): (r: seq<Order>)
    ensures r != orders <==> productId.Some? && FindProduct(products, productId.value).Some?
    ensures r != orders ==>
      && |r| == |orders| + 1 && r[..|orders|] == orders
      && r[|orders|] == NewOrder(FindProduct(products, productId.value).value, c, paymentMethod, now)
  {
    if productId.None? then orders
    else match PlaceOrder(orders, products, productId.value, c, paymentMethod, now)
      case None => orders
      case Some(os) => os
  }

  // ---------------------------------------------------------------- placing orders

  /** `handleOrderSubmit` as written: the customer record it stores has no email, so the
      user upsert that runs before the product lookup overwrites the registered email
      with `''`, and the order carries an empty email. The user is upserted even when the
      product is not found. */
  function SubmitOrderAsWritten(cl: Client, productId: Option<int>, name: string, mobile: string,
                                address: string, paymentMethod: string, now: nat): (r: Client)
    ensures r.products == cl.products
    ensures r.session == Some(CustomerInfo(name, mobile, "", address))
    ensures r.users == Upsert(cl.users, name, mobile, address, "", now)
    ensures CountMobile(r.users, mobile) >= 1
    ensures |r.orders| >= |cl.orders| && r.orders[..|cl.orders|] == cl.orders
    ensures r.orders != cl.orders <==> productId.Some? && FindProduct(cl.products, productId.value).Some?
    ensures r.orders != cl.orders ==>
      r.orders == cl.orders + [NewOrder(FindProduct(cl.products, productId.value).value,
                                        CustomerInfo(name, mobile, "", address), paymentMethod, now)]
    ensures forall k :: |cl.orders| <= k < |r.orders| ==> r.orders[k].customerEmail == ""
  {
    var info := CustomerInfo(name, mobile, "", address);
    UpsertCounts(cl.users, name, mobile, address, "", now, mobile);
    cl.(session := Some(info),
        users := Upsert(cl.users, name, mobile, address, "", now),
        orders := Place(cl.orders, cl.products, productId, info, paymentMethod, now))
  }

  /** The email `handleOrderSubmit` evidently means to carry: the logged-in customer's
      (the form is only reachable from a session), or `''` without one. */
  function SessionEmail(cl: Client): string {
    if cl.session.Some? then cl.session.value.email else ""
  }

  /** `handleOrderSubmit` with the customer's email carried through. */
  function SubmitOrder(cl: Client, productId: Option<int>, name: string, mobile: string,
                       address: string, paymentMethod: string, now: nat): (r: Client)
    ensures r.products == cl.products
    ensures r.session == Some(CustomerInfo(name, mobile, SessionEmail(cl), address))
    ensures r.users == Upsert(cl.users, name, mobile, address, SessionEmail(cl), now)
    ensures CountMobile(r.users, mobile) >= 1
    ensures |r.orders| >= |cl.orders| && r.orders[..|cl.orders|] == cl.orders
    ensures r.orders != cl.orders <==> productId.Some? && FindProduct(cl.products, productId.value).Some?
    ensures r.orders != cl.orders ==>
      r.orders == cl.orders + [NewOrder(FindProduct(cl.products, productId.value).value,
                                        CustomerInfo(name, mobile, SessionEmail(cl), address), paymentMethod, now)]
    ensures forall k :: |cl.orders| <= k < |r.orders| ==> r.orders[k].customerEmail == SessionEmail(cl)
  {
    var email := SessionEmail(cl);
    var info := CustomerInfo(name, mobile, email, address);
    UpsertCounts(cl.users, name, mobile, address, email, now, mobile);
    cl.(session := Some(info),
        users := Upsert(cl.users, name, mobile, address, email, now),
        orders := Place(cl.orders, cl.products, productId, info, paymentMethod, now))
  }

  /** `quickBookOrder`: with a logged-in customer and a known product, one order is
      appended for the session's customer; the users and the session are left alone. */
  function QuickBook(cl: Client, productId: Option<int>, paymentMethod: string, now: nat): (r: Client)
    ensures r.products == cl.products && r.users == cl.users && r.session == cl.session
    ensures r.orders != cl.orders <==>
      cl.session.Some? && productId.Some? && FindProduct(cl.products, productId.value).Some?
    ensures r.orders != cl.orders ==> |r.orders| == |cl.orders| + 1 && r.orders[..|cl.orders|] == cl.orders
    ensures r.orders != cl.orders ==>
      var o := r.orders[|cl.orders|];
      && o.customerName == cl.session.value.name && o.customerMobile == cl.session.value.mobile
      && o.customerEmail == cl.session.value.email && o.customerAddress == cl.session.value.address
      && o.status == InProgress
    ensures r.orders != cl.orders ==>
      r.orders[|cl.orders|] == NewOrder(FindProduct(cl.products, productId.value).value, cl.session.value, paymentMethod, now)
  {
    match cl.session
    case None => cl
    case Some(info) => cl.(orders := Place(cl.orders, cl.products, productId, info, paymentMethod, now))
  }

  /** Submitting the form as written with a registered mobile erases that user's email. */
  lemma SubmitOrderErasesEmail(cl: Client, productId: Option<int>, name: string, mobile: string,
                               address: string, paymentMethod: string, now: nat, k: nat)
    requires k < |cl.users| && cl.users[k].mobile == mobile
    ensures var i := FindIndex(cl.users, HasMobile(mobile)).value;
      var r := SubmitOrderAsWritten(cl, productId, name, mobile, address, paymentMethod, now);
      && r.users[i].mobile == mobile && r.users[i].email == ""
      && r.users[i].userId == cl.users[i].userId
  {
    assert HasMobile(mobile)(cl.users[k]);
  }

  /** The as-written form and one-click booking record different orders for the same
      customer: the form's order loses the email (so no confirmation mail is sent). */
  lemma SubmitDiffersFromQuickBook(cl: Client, productId: int, paymentMethod: string, now: nat)
    requires cl.session.Some? && cl.session.value.email != ""
    requires FindProduct(cl.products, productId).Some?
    ensures var s := cl.session.value;
      SubmitOrderAsWritten(cl, Some(productId), s.name, s.mobile, s.address, paymentMethod, now).orders
      != QuickBook(cl, Some(productId), paymentMethod, now).orders
  {
    var s := cl.session.value;
    var a := SubmitOrderAsWritten(cl, Some(productId), s.name, s.mobile, s.address, paymentMethod, now);
    var b := QuickBook(cl, Some(productId), paymentMethod, now);
    assert a.orders[|cl.orders|].customerEmail == "";
    assert b.orders[|cl.orders|].customerEmail == s.email;
  }

  /** With the email carried through, a registered customer whose session matches the
      stored user keeps the email, and the form books the very order one-click booking
      would. */
  lemma SubmitOrderKeepsEmail(cl: Client, productId: Option<int>, paymentMethod: string, now: nat, k: nat)
    requires cl.session.Some?
    requires k < |cl.users| && SessionOf(cl.users[k]) == cl.session.value
    requires UniqueMobiles(cl.users)
    ensures var s := cl.session.value;
      var r := SubmitOrder(cl, productId, s.name, s.mobile, s.address, paymentMethod, now);
      && r.users == cl.users
      && r.session == cl.session
      && r.orders == QuickBook(cl, productId, paymentMethod, now).orders
  {
    var s := cl.session.value;
    assert HasMobile(s.mobile)(cl.users[k]);
    var i := FindIndex(cl.users, HasMobile(s.mobile)).value;
    assert i == k;
    var r := SubmitOrder(cl, productId, s.name, s.mobile, s.address, paymentMethod, now);
    assert r.users[k] == cl.users[k];
    assert r.users == cl.users;
  }

  // ---------------------------------------------------------------- login, signup, profile, logout

  /** `handleLogin`: the typed mobile is trimmed; an empty local user list is first
      refilled from the server by the users' adopt rule; the first user with that mobile
      becomes the session. An unknown mobile leaves the session as it was. */
  function Login(cl: Client, mobileInput: string, reply: Reply<User>): (r: Client)
    ensures r.products == cl.products && r.orders == cl.orders
    ensures r.users == AdoptIfEmpty(cl.users, reply)
    ensures (forall k :: 0 <= k < |r.users| ==> r.users[k].mobile != Trim(mobileInput)) ==>
      r.session == cl.session
    ensures forall k: nat :: FirstWithMobile(r.users, Trim(mobileInput), k) ==> r.session == Some(SessionOf(r.users[k]))
  {
    var users := AdoptIfEmpty(cl.users, reply);
    var m := Trim(mobileInput);
    FirstWithMobileIsFound(users, m);
    match FindIndex(users, HasMobile(m))
    case Some(i) => cl.(users := users, session := Some(SessionOf(users[i])))
    case None => cl.(users := users)
  }

  /** `handleSignup`: all four fields are trimmed; a mobile already registered refuses
      the signup and changes nothing; otherwise one user is appended and becomes the
      session. */
  function Signup(cl: Client, name: string, mobile: string, email: string, address: string, now: nat)
    : (r: Client)
    ensures r.products == cl.products && r.orders == cl.orders
    ensures (exists k :: 0 <= k < |cl.users| && cl.users[k].mobile == Trim(mobile)) ==> r == cl
    ensures (forall k :: 0 <= k < |cl.users| ==> cl.users[k].mobile != Trim(mobile)) ==>
      && r.users == cl.users + [User(UserIdAt(now), Trim(name), Trim(mobile), Trim(email), Trim(address), now)]
      && r.session == Some(CustomerInfo(Trim(name), Trim(mobile), Trim(email), Trim(address)))
  {
    var m := Trim(mobile);
    if FindUser(cl.users, m).Some? then cl
    else
      var n, e, a := Trim(name), Trim(email), Trim(address);
      NewMobileAppends(cl.users, n, m, a, e, now);
      cl.(session := Some(CustomerInfo(n, m, e, a)), users := Upsert(cl.users, n, m, a, e, now))
  }

  /** `updateProfile`: the trimmed fields become the session and are upserted by mobile.
      User ids and mobiles already stored never change. */
  function UpdateProfile(cl: Client, name: string, mobile: string, email: string, address: string, now: nat)
    : (r: Client)
    ensures r.products == cl.products && r.orders == cl.orders
    ensures r.session == Some(CustomerInfo(Trim(name), Trim(mobile), Trim(email), Trim(address)))
    ensures CountMobile(r.users, Trim(mobile)) >= 1
    ensures |r.users| >= |cl.users|
    ensures forall k :: 0 <= k < |cl.users| ==>
      r.users[k].userId == cl.users[k].userId && r.users[k].mobile == cl.users[k].mobile
  {
    var n, m, e, a := Trim(name), Trim(mobile), Trim(email), Trim(address);
    UpsertCounts(cl.users, n, m, a, e, now, m);
    UpsertKeepsKeys(cl.users, n, m, a, e, now);
    cl.(session := Some(CustomerInfo(n, m, e, a)), users := Upsert(cl.users, n, m, a, e, now))
  }

  /** `handleLogout`: a confirmed logout forgets the session and nothing else. */
  function Logout(cl: Client, confirmed: bool): (r: Client)
    ensures r.products == cl.products && r.orders == cl.orders && r.users == cl.users
    ensures r.session.None? <==> confirmed || cl.session.None?
    ensures !confirmed ==> r == cl
  {
    if confirmed then cl.(session := None) else cl
  }

  /** Logging in picks the first stored user with the typed mobile, once the local list
      is non-empty. */
  lemma LoginPicksFirst(cl: Client, mobileInput: string, reply: Reply<User>, k: nat)
    requires FirstWithMobile(cl.users, Trim(mobileInput), k)
    ensures Login(cl, mobileInput, reply) == cl.(session := Some(SessionOf(cl.users[k])))
  {
    assert AdoptIfEmpty(cl.users, reply) == cl.users;
    FindFirstWithMobile(cl.users, Trim(mobileInput), k);
  }

  /** A signup with a new mobile puts its user last, as the first one with that mobile. */
  lemma SignupPutsUserLast(cl: Client, name: string, mobile: string, email: string, address: string, now: nat)
    requires forall k :: 0 <= k < |cl.users| ==> cl.users[k].mobile != Trim(mobile)
    ensures var s := Signup(cl, name, mobile, email, address, now);
      && FirstWithMobile(s.users, Trim(mobile), |cl.users|)
      && s.session == Some(SessionOf(s.users[|cl.users|]))
  {
    var nu := User(UserIdAt(now), Trim(name), Trim(mobile), Trim(email), Trim(address), now);
    assert Signup(cl, name, mobile, email, address, now).users == cl.users + [nu];
    AppendedIsFirst(cl.users, nu);
  }

  /** A freshly signed-up customer can log in with the same mobile and gets the same
      session back. */
  lemma LoginAfterSignup(cl: Client, name: string, mobile: string, email: string, address: string,
                         now: nat, mobileInput: string, reply: Reply<User>)
    requires forall k :: 0 <= k < |cl.users| ==> cl.users[k].mobile != Trim(mobile)
    requires Trim(mobileInput) == Trim(mobile)
    ensures var s := Signup(cl, name, mobile, email, address, now);
      Login(s, mobileInput, reply).session == s.session
  {
    var s := Signup(cl, name, mobile, email, address, now);
    SignupPutsUserLast(cl, name, mobile, email, address, now);
    LoginPicksFirst(s, mobileInput, reply, |cl.users|);
  }

  /** Logging out and back in with the session's own mobile restores the session, as
      long as the session matches its stored user and mobiles are unique. */
  lemma LogoutThenLogin(cl: Client, k: nat, mobileInput: string, reply: Reply<User>)
    requires cl.session.Some?
    requires k < |cl.users| && SessionOf(cl.users[k]) == cl.session.value
    requires UniqueMobiles(cl.users)
    requires Trim(mobileInput) == cl.session.value.mobile
    ensures Login(Logout(cl, true), mobileInput, reply) == cl
  {
    var out := Logout(cl, true);
    assert out == cl.(session := None);
    assert FirstWithMobile(out.users, Trim(mobileInput), k);
    LoginPicksFirst(out, mobileInput, reply, k);
  }

  /** Every way the storefront writes the user list keeps mobile numbers unique. */
  lemma UserWritesKeepUniqueMobiles(cl: Client, productId: Option<int>, name: string, mobile: string,
                                    email: string, address: string, paymentMethod: string, now: nat)
    requires UniqueMobiles(cl.users)
    ensures UniqueMobiles(Signup(cl, name, mobile, email, address, now).users)
    ensures UniqueMobiles(UpdateProfile(cl, name, mobile, email, address, now).users)
    ensures UniqueMobiles(SubmitOrder(cl, productId, name, mobile, address, paymentMethod, now).users)
    ensures UniqueMobiles(SubmitOrderAsWritten(cl, productId, name, mobile, address, paymentMethod, now).users)
  {
    UpsertKeepsUnique(cl.users, Trim(name), Trim(mobile), Trim(address), Trim(email), now);
    UpsertKeepsUnique(cl.users, name, mobile, address, SessionEmail(cl), now);
    UpsertKeepsUnique(cl.users, name, mobile, address, "", now);
  }

  /** Changing the mobile in the profile to an unregistered one registers a second user:
      the old entry stays, under the old mobile. */
  lemma ProfileMobileChangeAddsUser(cl: Client, name: string, mobile: string, email: string,
                                    address: string, now: nat, k: nat)
    requires k < |cl.users|
    requires forall j :: 0 <= j < |cl.users| ==> cl.users[j].mobile != Trim(mobile)
    ensures var r := UpdateProfile(cl, name, mobile, email, address, now);
      && |r.users| == |cl.users| + 1
      && r.users[k] == cl.users[k]
      && r.users[|cl.users|].mobile == Trim(mobile)
  {
  }

  // ---------------------------------------------------------------- category filter and built-in products

  /** `getCategoryName`: the display name of a built-in product's category key, or the
      key itself. */
  function CategoryName(key: string): string {
    if key == "oils" then "Herbal Oils"
    else if key == "powders" then "Ayurvedic Powders"
    else if key == "tablets" then "Herbal Tablets"
    else if key == "creams" then "Ayurvedic Creams"
    else if key == "tea" then "Herbal Teas"
    else key
  }

  /** The first character of a slug is the lower-cased first character of the name. */
  lemma SlugHead(name: string)
    requires |name| > 0 && !IsSpace(name[0])
    ensures |Slug(name)| > 0 && Slug(name)[0] == LowerChar(name[0])
  {
    var t := ToLower(name);
    assert t[0] == LowerChar(name[0]);
    assert !IsSpace(t[0]);
  }

  /** The filter a category option selects. */
  function ByCategory(value: string): Criteria {
    Criteria("", value, "", None)
  }

  /** The built-in products' category keys start with `o`, `p`, `t` or `c`. */
  lemma BuiltInKeyHeads(j: nat)
    requires j < |DefaultProducts|
    ensures |DefaultProducts[j].category| > 0 && DefaultProducts[j].category[0] in "optc"
  {
  }

  /** The default category names start with `H` or `A`, so their slugs with `h` or `a`. */
  lemma DefaultOptionHead(k: nat)
    requires k < |Store.DefaultCategories|
    ensures var v := CategoryOptions(Store.DefaultCategories)[k].value;
      |v| > 0 && v[0] in "ha"
  {
    var name := Store.DefaultCategories[k];
    assert |name| > 0 && name[0] in "HA";
    SlugHead(name);
  }

  /** No built-in product is listed under a category value starting with `h` or `a`. */
  lemma NoBuiltInUnder(v: string)
    requires |v| > 0 && v[0] in "ha"
    ensures ApplyFilters(DefaultProducts, ByCategory(v)) == []
  {
    var ps := DefaultProducts;
    forall j | 0 <= j < |ps|
      ensures !Matcher(ByCategory(v))(ps[j])
    {
      BuiltInKeyHeads(j);
    }
    FilterDropsAll(ps, Matcher(ByCategory(v)));
  }

  /** As written, the storefront's category options are slugs (`herbal-oils`, ...) while
      the built-in products carry the short keys (`oils`, ...): choosing any of the five
      default categories lists none of the eight built-in products. */
  lemma CategoryFilterHidesBuiltIns(k: nat)
    requires k < |Store.DefaultCategories|
    ensures ApplyFilters(DefaultProducts, ByCategory(CategoryOptions(Store.DefaultCategories)[k].value)) == []
  {
    DefaultOptionHead(k);
    NoBuiltInUnder(CategoryOptions(Store.DefaultCategories)[k].value);
  }

  /** The corrected category test: a product is filed under a category option when its
      category is the option's value, as the written filter has it, or when the display
      name `getCategoryName` gives its category slugs to that value. So each category lists
      the products filed under it: the admin panel's products carry the slug itself, and
      the built-in products a short key such as `oils`. */
  predicate FiledUnder(value: string, p: Product) {
    value == "" || p.category == value || Slug(CategoryName(p.category)) == value
  }

  /** The four listing filters with the corrected category test. */
  predicate MatchesCorrected(c: Criteria, p: Product) {
    && MatchesSearch(c.search, p)
    && FiledUnder(c.category, p)
    && InPriceRange(c.priceRange, p.price, p.discount)
    && MatchesDiscount(c.minDiscount, p)
  }

  function CorrectedMatcher(c: Criteria): Product -> bool {
    (p: Product) => MatchesCorrected(c, p)
  }

  /** The corrected listing: exactly the products that pass, in catalogue order. It lists
      every product the written filter lists, and with no category chosen it is the
      written listing. */
  function ApplyFiltersCorrected(ps: seq<Product>, c: Criteria): (r: seq<Product>)
    ensures forall p :: p in r <==> p in ps && MatchesCorrected(c, p)
    ensures IsSubsequence(r, ps)
    ensures forall p :: p in ApplyFilters(ps, c) ==> p in r
    ensures c.category == "" ==> r == ApplyFilters(ps, c)
  {
    FilterIsSubsequence(ps, CorrectedMatcher(c));
    if c.category == "" then
      FilterSameKeep(ps, CorrectedMatcher(c), Matcher(c));
      Filter(ps, CorrectedMatcher(c))
    else
      Filter(ps, CorrectedMatcher(c))
  }

  /** A product that passes the corrected filter is listed as often as it occurs in the
      catalogue, one that fails not at all. */
  lemma ApplyFiltersCorrectedMultiplicity(ps: seq<Product>, c: Criteria, p: Product)
    ensures multiset(ApplyFiltersCorrected(ps, c))[p] == if MatchesCorrected(c, p) then multiset(ps)[p] else 0
  {
    FilterMultiplicity(ps, CorrectedMatcher(c), p);
  }

  /** A product added in the admin panel under category `name` carries `Slug(name)`
      (the dropdown's option value), and the corrected filter lists it under that option. */
  lemma AdminProductListed(ps: seq<Product>, name: string, j: nat)
    requires j < |ps| && ps[j].category == Slug(name)
    ensures ps[j] in ApplyFiltersCorrected(ps, ByCategory(CategoryOptions([name])[0].value))
  {
    var p := ps[j];
    assert ToLower("") == "";
    ContainsEmpty(ToLower(p.name));
    assert MatchesCorrected(ByCategory(Slug(name)), p);
  }

  /** Away from the five built-in keys, and for a category stored as a slug, the corrected
      test and the written one agree: the correction changes nothing else. */
  lemma CorrectedAgreesOffBuiltIns(c: Criteria, p: Product)
    requires p.category !in CategoryKeys && Slug(p.category) == p.category
    ensures MatchesCorrected(c, p) <==> Matches(c, p)
  {
    assert CategoryName(p.category) == p.category;
  }

  /** The product keys `getCategoryName` knows, in the order of the default categories. */
  const CategoryKeys: seq<string> := ["oils", "powders", "tablets", "creams", "tea"]

  /** `getCategoryName` sends the `k`-th key to the `k`-th default category. */
  lemma CategoryNameOfKey(k: nat)
    requires k < |CategoryKeys|
    ensures k < |Store.DefaultCategories| && CategoryName(CategoryKeys[k]) == Store.DefaultCategories[k]
  {
    if k == 0 {
    } else if k == 1 {
    } else if k == 2 {
    } else if k == 3 {
    } else {
    }
  }

  /** The first five built-in products carry the five keys in order. */
  lemma DefaultProductKey(k: nat)
    requires k < |CategoryKeys|
    ensures DefaultProducts[k].category == CategoryKeys[k]
  {
  }

  /** The `k`-th built-in product is filed under the option of the `k`-th default
      category. */
  lemma KeyFiledUnderDefault(k: nat)
    requires k < |Store.DefaultCategories|
    ensures FiledUnder(CategoryOptions(Store.DefaultCategories)[k].value, DefaultProducts[k])
  {
    CategoryNameOfKey(k);
    DefaultProductKey(k);
    assert CategoryOptions(Store.DefaultCategories)[k].value == Slug(Store.DefaultCategories[k]);
  }

  /** The category of each built-in product, as an index into the default categories. */
  function CategoryIndexOf(j: nat): (i: nat)
    requires j < |DefaultProducts|
    ensures i < |Store.DefaultCategories|
    ensures DefaultProducts[i].category == DefaultProducts[j].category
  {
    [0, 1, 2, 3, 4, 1, 0, 2][j]
  }

  /** Corrected, every default category lists at least one built-in product. */
  lemma CategoryFilterFindsBuiltIns(k: nat)
    requires k < |Store.DefaultCategories|
    ensures ApplyFiltersCorrected(DefaultProducts, ByCategory(CategoryOptions(Store.DefaultCategories)[k].value)) != []
  {
    KeyFiledUnderDefault(k);
    ListedWhenFiled(CategoryOptions(Store.DefaultCategories)[k].value, k);
  }

  /** Corrected, every built-in product is listed under one of the default categories. */
  lemma BuiltInsListedUnderSomeCategory(j: nat)
    requires j < |DefaultProducts|
    ensures exists i :: (0 <= i < |Store.DefaultCategories|
      && DefaultProducts[j] in ApplyFiltersCorrected(DefaultProducts, ByCategory(CategoryOptions(Store.DefaultCategories)[i].value)))
  {
    var i := CategoryIndexOf(j);
    KeyFiledUnderDefault(i);
    ListedWhenFiled(CategoryOptions(Store.DefaultCategories)[i].value, j);
  }

  /** A built-in product is listed when the filter selects a category it is filed under. */
  lemma ListedWhenFiled(value: string, j: nat)
    requires j < |DefaultProducts| && FiledUnder(value, DefaultProducts[j])
    ensures DefaultProducts[j] in ApplyFiltersCorrected(DefaultProducts, ByCategory(value))
  {
    var p := DefaultProducts[j];
    assert ToLower("") == "";
    ContainsEmpty(ToLower(p.name));
    assert MatchesCorrected(ByCategory(value), p);
  }
}
