/** The order service's store: the product catalog and the orders with
    their lines, plus the invariant every operation of the service keeps. */
module OrderModel {
  import opened Wrappers
  import opened Contracts
  import opened Seqs

  datatype OrderStatus = Pending | Confirmed | Completed | Cancelled

  datatype Product = Product(
    productId: Guid,
    name: string,
    price: Money,
    stock: int,
    createdAt: Time,
    updatedAt: Time)

  /** One order line; `unitPrice` is the catalog price snapshotted when the
      line was last priced. */
  datatype OrderItem = OrderItem(orderItemId: Guid, productId: Guid, quantity: int, unitPrice: Money)

  datatype Order = Order(
    orderId: Guid,
    customerId: Guid,
    paymentType: PaymentType,
    createdAt: Time,
    updatedAt: Time,
    status: OrderStatus,
    items: seq<OrderItem>)

  /** The order database: products and orders keyed by their ids. */
  datatype Store = Store(catalog: map<Guid, Product>, orders: map<Guid, Order>)

  /** A request line `{ProductId, Quantity, UnitPrice}`; the client's unit
      price is carried but never read. */
  datatype ItemRequest = ItemRequest(productId: Guid, quantity: int, unitPrice: Money)

  /** What a successful operation leaves behind: the saved store and the
      events it published, in order. */
  datatype Step = Step(store: Store, events: seq<Event>)

  datatype Shortfall = Shortfall(productName: string, requested: int, available: int)

  /** Why an order operation refused the request. */
  datatype Reason =
    | NoSuchOrder(orderId: Guid)
    | NoOrders
    | NoItems
    | NothingProvided
    | ProductsNotFound(missing: seq<Guid>)
    | InsufficientStock(shortfalls: seq<Shortfall>)
    | NoPositiveQuantity
    | NotPending(status: OrderStatus)
    | NoValidItems
    | AllQuantitiesInvalid
    | NoMatchingItems

  /** The exception class the service throws, with its reason. */
  datatype OrderError = KeyNotFound(reason: Reason) | InvalidOperation(reason: Reason)

  function LineTotal(item: OrderItem): Money {
    item.unitPrice * item.quantity
  }

  /** The order total, Σ UnitPrice × Quantity; it is derived, never stored. */
  function Total(items: seq<OrderItem>): Money {
    if |items| == 0 then 0 else LineTotal(items[0]) + Total(items[1..])
  }

  /** Total quantity of the lines that reference `productId`. */
  function QuantityOf(items: seq<OrderItem>, productId: Guid): int {
    if |items| == 0 then 0
    else (if items[0].productId == productId then items[0].quantity else 0) + QuantityOf(items[1..], productId)
  }

  /** The products an order references. */
  function Products(items: seq<OrderItem>): set<Guid> {
    set it | it in items :: it.productId
  }

  function RequestedIds(request: seq<ItemRequest>): (ids: seq<Guid>)
    ensures |ids| == |request|
    ensures forall i :: 0 <= i < |request| ==> ids[i] == request[i].productId
  {
    seq(|request|, i requires 0 <= i < |request| => request[i].productId)
  }

  /** `FirstOrDefault(item => item.ProductId == productId)`, as an index. */
  function FindLine(items: seq<OrderItem>, productId: Guid): (r: Option<nat>)
    ensures r.Some? ==> r.value < |items| && items[r.value].productId == productId
    ensures r.Some? ==> forall j :: 0 <= j < r.value ==> items[j].productId != productId
    ensures r.None? <==> forall j :: 0 <= j < |items| ==> items[j].productId != productId
  {
    if |items| == 0 then None
    else if items[0].productId == productId then Some(0)
    else match FindLine(items[1..], productId)
      case None => None
      case Some(k) => Some(k + 1)
  }

  /** At most one line per product. */
  predicate DistinctProducts(items: seq<OrderItem>) {
    forall i, j :: 0 <= i < j < |items| ==> items[i].productId != items[j].productId
  }

  /** The current catalog price of a product (0 for an unknown product,
      which no caller reaches). */
  function PriceOf(catalog: map<Guid, Product>, productId: Guid): Money {
    if productId in catalog then catalog[productId].price else 0
  }

  function NameOf(catalog: map<Guid, Product>, productId: Guid): string {
    if productId in catalog then catalog[productId].name else ""
  }

  /** The `Items` list carried by order events. */
  function Snapshot(items: seq<OrderItem>, catalog: map<Guid, Product>): (r: seq<EventItem>)
    ensures |r| == |items|
    ensures forall i :: 0 <= i < |items| ==>
      r[i] == EventItem(items[i].orderItemId, items[i].productId, NameOf(catalog, items[i].productId),
                        items[i].quantity, items[i].unitPrice)
  {
    seq(|items|, i requires 0 <= i < |items| =>
      EventItem(items[i].orderItemId, items[i].productId, NameOf(catalog, items[i].productId),
                items[i].quantity, items[i].unitPrice))
  }

  predicate ProductValid(p: Product) {
    p.price > 0 && p.stock >= 0
  }

  /** A persisted order has lines, one per product, each with a positive
      quantity and a product that exists. */
  predicate OrderWellFormed(o: Order, catalog: map<Guid, Product>) {
    && |o.items| > 0
    && DistinctProducts(o.items)
    && (forall i :: 0 <= i < |o.items| ==> o.items[i].quantity > 0 && o.items[i].productId in catalog)
  }

  /** The store invariant: positive prices, non-negative stock, and
      well-formed orders filed under their own ids. */
  predicate Valid(s: Store) {
    && (forall id :: id in s.catalog ==> s.catalog[id].productId == id && ProductValid(s.catalog[id]))
    && (forall id :: id in s.orders ==> s.orders[id].orderId == id && OrderWellFormed(s.orders[id], s.catalog))
  }

  /** Two lines of a one-line-per-product order with the same product are
      the same line. */
  lemma SameProductSameLine(items: seq<OrderItem>, a: OrderItem, b: OrderItem)
    requires DistinctProducts(items)
    requires a in items && b in items && a.productId == b.productId
    ensures a == b
  {
    var i :| 0 <= i < |items| && items[i] == a;
    var j :| 0 <= j < |items| && items[j] == b;
    assert !(i < j) && !(j < i);
  }

  /** In a one-line-per-product order, the quantity for a product is the
      quantity of its line, or zero when it has none. */
  lemma {:induction false} QuantityOfLine(items: seq<OrderItem>, it: OrderItem)
    requires DistinctProducts(items)
    requires it in items
    ensures QuantityOf(items, it.productId) == it.quantity
  {
    if items[0] == it {
      QuantityOfAbsent(items[1..], it.productId);
    } else {
      assert DistinctProducts(items[1..]) by {
        forall i, j | 0 <= i < j < |items[1..]|
          ensures items[1..][i].productId != items[1..][j].productId
        {
          assert items[1..][i] == items[i + 1] && items[1..][j] == items[j + 1];
        }
      }
      assert it in items[1..];
      QuantityOfLine(items[1..], it);
    }
  }

  lemma {:induction false} QuantityOfAbsent(items: seq<OrderItem>, productId: Guid)
    requires forall i :: 0 <= i < |items| ==> items[i].productId != productId
    ensures QuantityOf(items, productId) == 0
  {
    if |items| > 0 {
      QuantityOfAbsent(items[1..], productId);
    }
  }

  /** The total of a concatenation is the sum of the totals. */
  lemma {:induction false} TotalAppend(a: seq<OrderItem>, b: seq<OrderItem>)
    ensures Total(a + b) == Total(a) + Total(b)
  {
    if |a| == 0 {
      assert a + b == b;
    } else {
      assert (a + b)[1..] == a[1..] + b;
      TotalAppend(a[1..], b);
    }
  }
}
