/** The read side of the order service: the DTO an order is returned as,
    with its derived totals, and the two queries that produce it. */
module OrderProjection {
  import opened Wrappers
  import opened Contracts
  import opened OrderModel

  datatype ProductView = ProductView(productId: Guid, name: string, price: Money, stock: int)

  datatype ItemView = ItemView(
    orderItemId: Guid,
    quantity: int,
    unitPrice: Money,
    product: ProductView,
    totalPrice: Money)

  datatype OrderView = OrderView(
    orderId: Guid,
    customerId: Guid,
    paymentType: PaymentType,
    totalPrice: Money,
    createdAt: Time,
    updatedAt: Time,
    status: OrderStatus,
    items: seq<ItemView>)

  /** The order lines' products are loaded with the order: each line's
      product is in the catalog. */
  predicate Resolves(items: seq<OrderItem>, catalog: map<Guid, Product>) {
    forall i :: 0 <= i < |items| ==> items[i].productId in catalog
  }

  /** Sum of the per-line totals shown in a view. */
  function ViewsTotal(views: seq<ItemView>): Money {
    if |views| == 0 then 0 else views[0].totalPrice + ViewsTotal(views[1..])
  }

  /** The `ProductDto` projection of a product. */
  function ProductViewOf(p: Product): ProductView {
    ProductView(p.productId, p.name, p.price, p.stock)
  }

  function ItemViewOf(item: OrderItem, p: Product): ItemView {
    ItemView(item.orderItemId, item.quantity, item.unitPrice, ProductViewOf(p), item.unitPrice * item.quantity)
  }

  /** Lines whose shown totals are UnitPrice × Quantity of the order's lines,
      one for one, add up to the order total. */
  lemma {:induction false} ViewsTotalIsTotal(items: seq<OrderItem>, views: seq<ItemView>)
    requires |views| == |items|
    requires forall i :: 0 <= i < |items| ==> views[i].totalPrice == items[i].unitPrice * items[i].quantity
    ensures ViewsTotal(views) == Total(items)
  {
    if |items| > 0 {
      ViewsTotalIsTotal(items[1..], views[1..]);
    }
  }

  /** `GetOrderDtoOutput`: one item view per order line, in order, and a
      header total that is the sum of the line totals. */
  function ViewOf(o: Order, catalog: map<Guid, Product>): (v: OrderView)
    requires Resolves(o.items, catalog)
    ensures v.orderId == o.orderId && v.customerId == o.customerId && v.paymentType == o.paymentType
    ensures v.createdAt == o.createdAt && v.updatedAt == o.updatedAt && v.status == o.status
    ensures |v.items| == |o.items|
    ensures forall i :: 0 <= i < |o.items| ==>
      && v.items[i].orderItemId == o.items[i].orderItemId
      && v.items[i].quantity == o.items[i].quantity
      && v.items[i].unitPrice == o.items[i].unitPrice
      && v.items[i].totalPrice == v.items[i].unitPrice * v.items[i].quantity
      && v.items[i].product.productId == catalog[o.items[i].productId].productId
      && v.items[i].product.name == catalog[o.items[i].productId].name
      && v.items[i].product.price == catalog[o.items[i].productId].price
      && v.items[i].product.stock == catalog[o.items[i].productId].stock
    ensures v.totalPrice == ViewsTotal(v.items)
  {
    var views := seq(|o.items|, i requires 0 <= i < |o.items| => ItemViewOf(o.items[i], catalog[o.items[i].productId]));
    ViewsTotalIsTotal(o.items, views);
    OrderView(o.orderId, o.customerId, o.paymentType, Total(o.items), o.createdAt, o.updatedAt, o.status, views)
  }

  /** Every stored order's lines resolve against the catalog. */
  predicate AllResolve(s: Store) {
    forall id :: id in s.orders ==> Resolves(s.orders[id].items, s.catalog)
  }

  /** `GetOrderByIdAsync`: the view of the order, or not-found. */
  function GetOrderById(s: Store, orderId: Guid): (r: Result<OrderView, OrderError>)
    requires orderId in s.orders ==> Resolves(s.orders[orderId].items, s.catalog)
    ensures r.Failure? <==> orderId !in s.orders
    ensures r.Failure? ==> r.error == KeyNotFound(NoSuchOrder(orderId))
    ensures r.Success? ==> r.value.orderId == s.orders[orderId].orderId && r.value.status == s.orders[orderId].status
    ensures r.Success? ==> r.value.totalPrice == Total(s.orders[orderId].items)
    ensures r.Success? ==> r.value == ViewOf(s.orders[orderId], s.catalog)
  {
    if orderId !in s.orders then Failure(KeyNotFound(NoSuchOrder(orderId)))
    else
      var v := ViewOf(s.orders[orderId], s.catalog);
      ViewsTotalIsTotal(s.orders[orderId].items, v.items);
      Success(v)
  }

  /** `GetAllAsync`: a view of every stored order, keyed by order id; an
      empty store is reported as not-found. */
  function GetAll(s: Store): (r: Result<map<Guid, OrderView>, OrderError>)
    requires AllResolve(s)
    ensures r.Failure? <==> |s.orders| == 0
    ensures r.Failure? ==> r.error == KeyNotFound(NoOrders)
    ensures r.Success? ==> r.value.Keys == s.orders.Keys
    ensures r.Success? ==> forall id :: id in r.value ==>
      && r.value[id].orderId == s.orders[id].orderId
      && r.value[id].customerId == s.orders[id].customerId
      && r.value[id].status == s.orders[id].status
      && |r.value[id].items| == |s.orders[id].items|
      && r.value[id].totalPrice == ViewsTotal(r.value[id].items)
    ensures r.Success? ==> forall id :: id in r.value ==> r.value[id] == ViewOf(s.orders[id], s.catalog)
  {
    if |s.orders| == 0 then Failure(KeyNotFound(NoOrders))
    else Success(map id | id in s.orders :: ViewOf(s.orders[id], s.catalog))
  }
}
