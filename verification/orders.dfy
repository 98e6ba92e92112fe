/** Orders: placing one (script.js `handleOrderSubmit` / `quickBookOrder`), cancelling
    it (`cancelOrder`), completing it (admin.js `markOrderAsCompleted`), the status tabs of
    the customer and admin pages, the transaction totals, and the per-user order counts of
    the admin user table. Dates are milliseconds since the epoch. */
module Orders {
  import opened Wrappers
  import opened Text
  import opened Seqs
  import opened Pricing
  import opened Catalog
  import opened Users

  datatype Status = InProgress | Completed | Cancelled

  /** An order. `price` is the discounted price charged, `originalPrice` and `discount`
      the product's at the time; `cancelledAt` and `cancellationReason` are absent until
      the order is cancelled. */
  datatype Order = Order(
    id: string,
    productId: int,
    productName: string,
    productImage: string,
    price: int,
    originalPrice: int,
    discount: int,
    customerName: string,
    customerMobile: string,
    customerAddress: string,
    customerEmail: string,
    orderDate: int,
    deliveryDate: int,
    status: Status,
    paymentMethod: string,
    cancelledAt: Option<int>,
    cancellationReason: Option<string>)

  const DayMs: int := 24 * 60 * 60 * 1000

  /** Delivery is promised seven days after the order. */
  const DeliveryDelay: int := 7 * DayMs

  function OrderIdAt(now: nat): string {
    "ORD" + Decimal(now)
  }

  /** Orders placed at different milliseconds get different ids. */
  lemma OrderIdsDistinct(a: nat, b: nat)
    ensures OrderIdAt(a) == OrderIdAt(b) <==> a == b
  {
    DecimalInjective(a, b);
    if OrderIdAt(a) == OrderIdAt(b) {
      assert OrderIdAt(a)[3..] == Decimal(a);
      assert OrderIdAt(b)[3..] == Decimal(b);
    }
  }

  function HasOrderId(id: string): Order -> bool {
    (o: Order) => o.id == id
  }

  predicate UniqueIds(orders: seq<Order>) {
    forall i, j :: 0 <= i < j < |orders| ==> orders[i].id != orders[j].id
  }

  /** The price fields of an order agree with each other: the charged price is the
      rounded discounted price and lies between 0 and the original price. */
  predicate PriceConsistent(o: Order) {
    && o.price == DiscountedPrice(o.originalPrice, o.discount)
    && 0 <= o.price <= o.originalPrice
  }

  predicate AllPriceConsistent(orders: seq<Order>) {
    forall k :: 0 <= k < |orders| ==> PriceConsistent(orders[k])
  }

  // ---------------------------------------------------------------- placing

  /** The order both booking paths build for product `p` and customer `c` at `now`. */
  function NewOrder(p: Product, c: CustomerInfo, paymentMethod: string, now: nat): Order {
    Order(OrderIdAt(now), p.id, p.name, p.image, DiscountedPrice(p.price, p.discount), p.price, p.discount,
      c.name, c.mobile, c.address, c.email, now, now + DeliveryDelay, InProgress, paymentMethod, None, None)
  }

  /** The shared core of `handleOrderSubmit` and `quickBookOrder`: look the product up
      and append a new in-progress order for it; `None` is the "Product not found!" case,
      which saves nothing. */
  function PlaceOrder(orders: seq<Order>, products: seq<Product>, productId: int, c: CustomerInfo,
                      paymentMethod: string, now: nat): (r: Option<seq<Order>>)
    ensures r.None? <==> forall k :: 0 <= k < |products| ==> products[k].id != productId
    ensures r.Some? ==> |r.value| == |orders| + 1 && r.value[..|orders|] == orders
    ensures r.Some? ==>
      var o := r.value[|orders|];
      && o.id == OrderIdAt(now) && o.productId == productId
      && o.status == InProgress && o.cancelledAt.None? && o.cancellationReason.None?
      && o.orderDate == now && o.deliveryDate == now + DeliveryDelay
      && o.customerName == c.name && o.customerMobile == c.mobile
      && o.customerAddress == c.address && o.customerEmail == c.email
      && o.paymentMethod == paymentMethod
      && 100 * o.price - 50 <= 100 * o.originalPrice - o.originalPrice * o.discount < 100 * o.price + 50
    ensures r.Some? ==>
      var p := FindProduct(products, productId).value;
      var o := r.value[|orders|];
      && o.productName == p.name && o.productImage == p.image
      && o.originalPrice == p.price && o.discount == p.discount
  {
    match FindProduct(products, productId)
    case None => None
    case Some(p) => Some(orders + [NewOrder(p, c, paymentMethod, now)])
  }

  /** The order dialog's quote, computed from the charged price, is what the placed order
      records: the dialog, the order card and the receipt agree. */
  lemma OrderQuoteMatchesOrder(orders: seq<Order>, products: seq<Product>, productId: int, c: CustomerInfo,
                               paymentMethod: string, now: nat)
    requires PlaceOrder(orders, products, productId, c, paymentMethod, now).Some?
    ensures
      var o := PlaceOrder(orders, products, productId, c, paymentMethod, now).value[|orders|];
      var q := OrderQuote(o.originalPrice, o.discount);
      q.final == o.price && q.saving == o.originalPrice - o.price && q.original == o.originalPrice
  {
    var o := PlaceOrder(orders, products, productId, c, paymentMethod, now).value[|orders|];
    var q := OrderQuote(o.originalPrice, o.discount);
    DiscountedPriceUnique(o.originalPrice, o.discount, o.price);
    DiscountedPriceUnique(o.originalPrice, o.discount, q.final);
  }

  /** An order placed for a well-priced product has consistent prices, and placing keeps
      every order's prices consistent. */
  lemma PlaceOrderPriceConsistent(orders: seq<Order>, products: seq<Product>, productId: int, c: CustomerInfo,
                                  paymentMethod: string, now: nat)
    requires AllWellPriced(products) && AllPriceConsistent(orders)
    requires PlaceOrder(orders, products, productId, c, paymentMethod, now).Some?
    ensures AllPriceConsistent(PlaceOrder(orders, products, productId, c, paymentMethod, now).value)
  {
    var p := FindProduct(products, productId).value;
    var r := PlaceOrder(orders, products, productId, c, paymentMethod, now).value;
    DiscountedPriceBounds(p.price, p.discount);
    assert r[|orders|] == NewOrder(p, c, paymentMethod, now);
    forall k | 0 <= k < |r|
      ensures PriceConsistent(r[k])
    {
      if k < |orders| {
        assert r[k] == orders[k];
      }
    }
  }

  /** Placing keeps ids unique as long as no existing order was placed at `now`. */
  lemma PlaceOrderKeepsUniqueIds(orders: seq<Order>, products: seq<Product>, productId: int, c: CustomerInfo,
                                 paymentMethod: string, now: nat)
    requires UniqueIds(orders)
    requires forall k :: 0 <= k < |orders| ==> orders[k].id != OrderIdAt(now)
    ensures PlaceOrder(orders, products, productId, c, paymentMethod, now).Some? ==>
      UniqueIds(PlaceOrder(orders, products, productId, c, paymentMethod, now).value)
  {
    var r := PlaceOrder(orders, products, productId, c, paymentMethod, now);
    if r.Some? {
      forall i, j | 0 <= i < j < |r.value|
        ensures r.value[i].id != r.value[j].id
      {
        assert r.value[i] == orders[i];
        if j < |orders| {
          assert r.value[j] == orders[j];
        }
      }
    }
  }

  // ---------------------------------------------------------------- cancelling and completing

  /** The order as `cancelOrder` leaves it: cancelled at `now`, with the trimmed reason
      when one was typed and the earlier reason, if any, otherwise. */
  function WithCancellation(o: Order, reason: string, now: int): Order {
    o.(status := Cancelled, cancelledAt := Some(now),
       cancellationReason := if IsBlank(reason) then o.cancellationReason else Some(Trim(reason)))
  }

  /** `cancelOrder`. `reason` is the prompt's answer, `None` when the prompt is dismissed;
      `confirmed` is the confirmation dialog's. Only then is the first order with this id
      cancelled; an unknown id changes nothing. */
  function CancelOrder(orders: seq<Order>, id: string, reason: Option<string>, confirmed: bool, now: int)
    : (r: seq<Order>)
    ensures |r| == |orders|
    ensures reason.None? || !confirmed || (forall k :: 0 <= k < |orders| ==> orders[k].id != id) ==> r == orders
    ensures reason.Some? && confirmed && (exists k :: 0 <= k < |orders| && orders[k].id == id) ==>
      var i := FindIndex(orders, HasOrderId(id)).value;
      && orders[i].id == id
      && r[i].status == Cancelled && r[i].cancelledAt == Some(now)
      && r[i].cancellationReason
         == (if IsBlank(reason.value) then orders[i].cancellationReason else Some(Trim(reason.value)))
      && r[i].(status := orders[i].status, cancelledAt := orders[i].cancelledAt,
               cancellationReason := orders[i].cancellationReason) == orders[i]
      && (forall j :: 0 <= j < |orders| && j != i ==> r[j] == orders[j])
  {
    if reason.None? || !confirmed then orders
    else
      match FindIndex(orders, HasOrderId(id))
      case None => orders
      case Some(i) => orders[i := WithCancellation(orders[i], reason.value, now)]
  }

  /** `markOrderAsCompleted`: once confirmed, the first order with this id becomes
      completed and nothing else about it or the other orders changes. */
  function MarkCompleted(orders: seq<Order>, id: string, confirmed: bool): (r: seq<Order>)
    ensures |r| == |orders|
    ensures !confirmed || (forall k :: 0 <= k < |orders| ==> orders[k].id != id) ==> r == orders
    ensures confirmed && (exists k :: 0 <= k < |orders| && orders[k].id == id) ==>
      var i := FindIndex(orders, HasOrderId(id)).value;
      && orders[i].id == id
      && r[i].status == Completed && r[i].(status := orders[i].status) == orders[i]
      && (forall j :: 0 <= j < |orders| && j != i ==> r[j] == orders[j])
  {
    if !confirmed then orders
    else
      match FindIndex(orders, HasOrderId(id))
      case None => orders
      case Some(i) => orders[i := orders[i].(status := Completed)]
  }

  /** Both pages show the cancel and complete buttons only on in-progress orders. With
      ids unique, pressing one on such an order never touches an order that is already
      completed or cancelled: those statuses are final. */
  lemma FinalStatusesStay(orders: seq<Order>, id: string, k: nat, reason: Option<string>, confirmed: bool, now: int)
    requires UniqueIds(orders)
    requires k < |orders| && orders[k].id == id && orders[k].status == InProgress
    ensures forall j :: 0 <= j < |orders| && orders[j].status != InProgress ==>
      CancelOrder(orders, id, reason, confirmed, now)[j] == orders[j]
      && MarkCompleted(orders, id, confirmed)[j] == orders[j]
  {
    var i := FindIndex(orders, HasOrderId(id)).value;
    assert orders[i].id == id;
    assert i == k;
  }

  /** Cancelling and completing keep every order's prices as they were. */
  lemma StatusChangesKeepPrices(orders: seq<Order>, id: string, reason: Option<string>, confirmed: bool, now: int)
    requires AllPriceConsistent(orders)
    ensures AllPriceConsistent(CancelOrder(orders, id, reason, confirmed, now))
    ensures AllPriceConsistent(MarkCompleted(orders, id, confirmed))
  {
  }

  // ---------------------------------------------------------------- status counts

  function HasStatus(s: Status): Order -> bool {
    (o: Order) => o.status == s
  }

  /** The badge on a status tab: `orders.filter(o => o.status === s).length`. */
  function CountStatus(orders: seq<Order>, s: Status): nat {
    CountIf(orders, HasStatus(s))
  }

  /** Every order is in exactly one status, so the three badges add up to the "all" badge. */
  lemma {:induction false} StatusCountsPartition(orders: seq<Order>)
    ensures CountStatus(orders, InProgress) + CountStatus(orders, Completed) + CountStatus(orders, Cancelled)
         == |orders|
    decreases |orders|
  {
    if |orders| > 0 {
      var o, rest := orders[0], orders[1..];
      assert orders == [o] + rest;
      StatusCountsPartition(rest);
      CountIfConcat([o], rest, HasStatus(InProgress));
      CountIfConcat([o], rest, HasStatus(Completed));
      CountIfConcat([o], rest, HasStatus(Cancelled));
    }
  }

  /** Cancelling an in-progress order moves it from the in-progress badge to the
      cancelled badge. */
  lemma CancelMovesCount(orders: seq<Order>, id: string, reason: string, now: int)
    requires exists k :: 0 <= k < |orders| && orders[k].id == id
    requires orders[FindIndex(orders, HasOrderId(id)).value].status == InProgress
    ensures var r := CancelOrder(orders, id, Some(reason), true, now);
      && CountStatus(r, InProgress) == CountStatus(orders, InProgress) - 1
      && CountStatus(r, Cancelled) == CountStatus(orders, Cancelled) + 1
      && CountStatus(r, Completed) == CountStatus(orders, Completed)
  {
    var i := FindIndex(orders, HasOrderId(id)).value;
    var r := CancelOrder(orders, id, Some(reason), true, now);
    assert r == orders[i := r[i]];
    CountIfReplace(orders, i, r[i], HasStatus(InProgress));
    CountIfReplace(orders, i, r[i], HasStatus(Cancelled));
    CountIfReplace(orders, i, r[i], HasStatus(Completed));
  }

  // ---------------------------------------------------------------- order lists

  function ByDate(): Order -> int {
    (o: Order) => o.orderDate
  }

  /** The status a tab of the customer's "My Orders" page selects; "all" and any other
      value select every order. */
  function CustomerTabStatus(tab: string): Option<Status> {
    if tab == "in-progress" then Some(InProgress)
    else if tab == "completed" then Some(Completed)
    else if tab == "cancelled" then Some(Cancelled)
    else None
  }

  /** The admin order tabs: there is no cancelled tab, so cancelled orders appear only
      under "all". */
  function AdminTabStatus(tab: string): Option<Status> {
    if tab == "in-progress" then Some(InProgress)
    else if tab == "completed" then Some(Completed)
    else None
  }

  /** The order cards a tab shows: the orders with the selected status (all of them for
      `None`), newest first, ties in stored order. As many cards as the tab's badge says. */
  function OrderList(orders: seq<Order>, selected: Option<Status>): (r: seq<Order>)
    ensures SortedDesc(r, ByDate())
    ensures forall o :: o in r <==> o in orders && (selected.Some? ==> o.status == selected.value)
    ensures |r| == if selected.Some? then CountStatus(orders, selected.value) else |orders|
  {
    var shown := if selected.Some? then Filter(orders, HasStatus(selected.value)) else orders;
    var r := SortDesc(shown, ByDate());
    assert forall o :: o in r <==> o in shown by {
      forall o
        ensures o in r <==> o in shown
      {
        assert o in r <==> o in multiset(r);
        assert o in shown <==> o in multiset(shown);
      }
    }
    r
  }

  /** `displayOrders(filter)` on the customer page. */
  function CustomerOrders(orders: seq<Order>, tab: string): (r: seq<Order>)
    ensures SortedDesc(r, ByDate())
    ensures tab == "all" ==> multiset(r) == multiset(orders)
    ensures forall o :: o in r <==> o in orders && (tab == "in-progress" ==> o.status == InProgress)
                                              && (tab == "completed" ==> o.status == Completed)
                                              && (tab == "cancelled" ==> o.status == Cancelled)
  {
    OrderList(orders, CustomerTabStatus(tab))
  }

  /** `displayAdminOrders(filter)`: a "cancelled" tab value shows every order. */
  function AdminOrders(orders: seq<Order>, tab: string): (r: seq<Order>)
    ensures SortedDesc(r, ByDate())
    ensures tab != "in-progress" && tab != "completed" ==> multiset(r) == multiset(orders)
    ensures forall o :: o in r <==> o in orders && (tab == "in-progress" ==> o.status == InProgress)
                                              && (tab == "completed" ==> o.status == Completed)
  {
    OrderList(orders, AdminTabStatus(tab))
  }

  /** Orders placed in the same millisecond keep their stored order in every list. */
  lemma OrderListKeepsTies(orders: seq<Order>, selected: Option<Status>, date: int)
    ensures Filter(OrderList(orders, selected), KeyIs(ByDate(), date))
         == Filter(if selected.Some? then Filter(orders, HasStatus(selected.value)) else orders,
                   KeyIs(ByDate(), date))
  {
    SortDescStable(if selected.Some? then Filter(orders, HasStatus(selected.value)) else orders, ByDate(), date);
  }

  // ---------------------------------------------------------------- status labels

  /** The status badge of the customer's order cards. */
  function CustomerStatusText(s: Status): string {
    match s
    case Completed => "Completed"
    case Cancelled => "Cancelled"
    case InProgress => "In Progress"
  }

  /** The status badge of the admin order cards as written: anything not completed reads
      "In Progress", so a cancelled order, which the "all" tab lists, is shown as in
      progress. */
  function AdminStatusTextAsWritten(s: Status): string {
    if s == Completed then "Completed" else "In Progress"
  }

  /** A cancelled order and an in-progress one carry the same admin badge. */
  lemma AdminBadgeHidesCancellation()
    ensures AdminStatusTextAsWritten(Cancelled) == AdminStatusTextAsWritten(InProgress) == "In Progress"
  {
  }

  /** The admin badge naming all three statuses, as the customer page does. */
  function AdminStatusText(s: Status): (t: string)
    ensures s != Cancelled ==> t == AdminStatusTextAsWritten(s)
  {
    CustomerStatusText(s)
  }

  /** The corrected badge tells the statuses apart. */
  lemma AdminStatusTextDistinguishes(s: Status, t: Status)
    ensures AdminStatusText(s) == AdminStatusText(t) <==> s == t
  {
    assert AdminStatusText(InProgress)[0] == 'I';
    assert AdminStatusText(Completed)[1] == 'o';
    assert AdminStatusText(Cancelled)[1] == 'a';
  }

  // ---------------------------------------------------------------- transactions

  function PriceOf(): Order -> int {
    (o: Order) => o.price
  }

  function SavingOf(): Order -> int {
    (o: Order) => o.originalPrice - o.price
  }

  function OriginalPriceOf(): Order -> int {
    (o: Order) => o.originalPrice
  }

  /** The transactions view: the orders newest first, their number, the total spent and
      the total saved. */
  datatype Summary = Summary(rows: seq<Order>, count: nat, totalAmount: int, totalSavings: int)

  /** `displayTransactions`: the totals are summed over the sorted rows, which is the same
      as summing the stored orders. */
  function Transactions(orders: seq<Order>): (t: Summary)
    ensures t.count == |orders| && SortedDesc(t.rows, ByDate()) && multiset(t.rows) == multiset(orders)
    ensures t.totalAmount == SumOf(orders, PriceOf()) && t.totalSavings == SumOf(orders, SavingOf())
  {
    var rows := SortDesc(orders, ByDate());
    SumOfSort(orders, ByDate(), PriceOf());
    SumOfSort(orders, ByDate(), SavingOf());
    Summary(rows, |rows|, SumOf(rows, PriceOf()), SumOf(rows, SavingOf()))
  }

  lemma {:induction false} SpentPlusSavedIsOriginal(orders: seq<Order>)
    ensures SumOf(orders, PriceOf()) + SumOf(orders, SavingOf()) == SumOf(orders, OriginalPriceOf())
    decreases |orders|
  {
    if |orders| > 0 {
      SpentPlusSavedIsOriginal(orders[1..]);
    }
  }

  /** The totals account for the full list price, and with consistent prices the saving
      is never negative and never above it. */
  lemma TransactionTotals(orders: seq<Order>)
    ensures var t := Transactions(orders);
      t.totalAmount + t.totalSavings == SumOf(orders, OriginalPriceOf())
    ensures AllPriceConsistent(orders) ==>
      var t := Transactions(orders);
      0 <= t.totalSavings && 0 <= t.totalAmount
  {
    SpentPlusSavedIsOriginal(orders);
    if AllPriceConsistent(orders) {
      SumOfNonNegative(orders, SavingOf());
      SumOfNonNegative(orders, PriceOf());
    }
  }

  // ---------------------------------------------------------------- admin user table

  function PlacedBy(mobile: string): Order -> bool {
    (o: Order) => o.customerMobile == mobile
  }

  /** The "Orders" column of the user table: the orders whose customer mobile is the
      user's. */
  function OrderCount(orders: seq<Order>, mobile: string): nat {
    CountIf(orders, PlacedBy(mobile))
  }

  /** Placing an order adds one to its customer's count and to nobody else's. */
  lemma PlaceOrderCounts(orders: seq<Order>, products: seq<Product>, productId: int, c: CustomerInfo,
                         paymentMethod: string, now: nat, mobile: string)
    requires PlaceOrder(orders, products, productId, c, paymentMethod, now).Some?
    ensures OrderCount(PlaceOrder(orders, products, productId, c, paymentMethod, now).value, mobile)
         == OrderCount(orders, mobile) + (if c.mobile == mobile then 1 else 0)
  {
    var r := PlaceOrder(orders, products, productId, c, paymentMethod, now).value;
    assert r == orders + [r[|orders|]];
    CountIfConcat(orders, [r[|orders|]], PlacedBy(mobile));
  }

  /** Cancelling or completing an order leaves every user's count alone: a cancelled
      order still counts. */
  lemma StatusChangesKeepCounts(orders: seq<Order>, id: string, reason: Option<string>, confirmed: bool,
                                now: int, mobile: string)
    ensures OrderCount(CancelOrder(orders, id, reason, confirmed, now), mobile) == OrderCount(orders, mobile)
    ensures OrderCount(MarkCompleted(orders, id, confirmed), mobile) == OrderCount(orders, mobile)
  {
    match FindIndex(orders, HasOrderId(id))
    case None =>
    case Some(i) =>
      var r1 := CancelOrder(orders, id, reason, confirmed, now);
      var r2 := MarkCompleted(orders, id, confirmed);
      assert r1 == orders[i := r1[i]];
      assert r2 == orders[i := r2[i]];
      CountIfUpdate(orders, i, r1[i], PlacedBy(mobile));
      CountIfUpdate(orders, i, r2[i], PlacedBy(mobile));
  }

  /** One row of the admin user table. */
  datatype UserRow = UserRow(user: User, orderCount: nat)

  function RegisteredOn(): UserRow -> int {
    (row: UserRow) => row.user.registeredOn
  }

  function RowsOf(users: seq<User>, orders: seq<Order>): (rows: seq<UserRow>)
    ensures |rows| == |users|
    ensures forall k :: 0 <= k < |users| ==> rows[k].user == users[k]
    ensures forall k :: 0 <= k < |users| ==> rows[k].orderCount == OrderCount(orders, users[k].mobile)
  {
    seq(|users|, k requires 0 <= k < |users| => UserRow(users[k], OrderCount(orders, users[k].mobile)))
  }

  /** `displayRegisteredUsers`: one row per user, newest registration first, each with
      the number of orders placed from that user's mobile. */
  function UserTable(users: seq<User>, orders: seq<Order>): (rows: seq<UserRow>)
    ensures |rows| == |users| && SortedDesc(rows, RegisteredOn())
    ensures multiset(rows) == multiset(RowsOf(users, orders))
    ensures forall k :: 0 <= k < |rows| ==>
      rows[k].user in users && rows[k].orderCount == OrderCount(orders, rows[k].user.mobile)
  {
    var unsorted := RowsOf(users, orders);
    var rows := SortDesc(unsorted, RegisteredOn());
    forall k | 0 <= k < |rows|
      ensures rows[k].user in users && rows[k].orderCount == OrderCount(orders, rows[k].user.mobile)
    {
      assert rows[k] in multiset(unsorted);
      var j :| 0 <= j < |unsorted| && unsorted[j] == rows[k];
    }
    rows
  }
}
