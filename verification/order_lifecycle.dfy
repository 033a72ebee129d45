/** Order creation, confirmation and deletion, and the request checks
    shared with the item-editing operations. */
module OrderLifecycle {
  import opened Wrappers
  import opened Contracts
  import opened Seqs
  import opened OrderModel

  /** `products.Count`: the catalog query returns each matching product
      once, however often the request names it. */
  function FoundCount(ids: seq<Guid>, catalog: map<Guid, Product>): nat {
    |ToSet(ids) * catalog.Keys|
  }

  predicate AllFound(ids: seq<Guid>, catalog: map<Guid, Product>) {
    forall i :: 0 <= i < |ids| ==> ids[i] in catalog
  }

  /** The requested ids absent from the catalog, in request order. */
  function Missing(ids: seq<Guid>, catalog: map<Guid, Product>): (r: seq<Guid>)
    ensures forall id :: id in r <==> id in ids && id !in catalog
  {
    Filter(ids, (id: Guid) => id !in catalog)
  }

  /** The existence check by count passes exactly when every requested
      product exists and none is requested twice. */
  lemma FoundCountPasses(ids: seq<Guid>, catalog: map<Guid, Product>)
    ensures FoundCount(ids, catalog) == |ids| <==> Distinct(ids) && AllFound(ids, catalog)
  {
    var s := ToSet(ids);
    CardinalityOfElements(ids);
    assert s == (s * catalog.Keys) + (s - catalog.Keys);
    assert (s * catalog.Keys) !! (s - catalog.Keys);
    assert |s| == |s * catalog.Keys| + |s - catalog.Keys|;
    if FoundCount(ids, catalog) == |ids| {
      assert |s - catalog.Keys| == 0;
      forall i | 0 <= i < |ids|
        ensures ids[i] in catalog
      {
        assert ids[i] in s;
        assert ids[i] !in s - catalog.Keys;
      }
    }
    if Distinct(ids) && AllFound(ids, catalog) {
      assert s - catalog.Keys == {};
    }
  }

  /** Every line that names an existing product asks for no more than its stock. */
  predicate AllInStock(request: seq<ItemRequest>, catalog: map<Guid, Product>) {
    forall i :: 0 <= i < |request| && request[i].productId in catalog ==>
      catalog[request[i].productId].stock >= request[i].quantity
  }

  predicate SomePositive(request: seq<ItemRequest>) {
    exists i :: 0 <= i < |request| && request[i].quantity > 0
  }

  /** The stock check of a creation request: one entry per line asking for
      more than the catalog holds. */
  function Shortfalls(request: seq<ItemRequest>, catalog: map<Guid, Product>): (r: seq<Shortfall>)
    ensures |r| == 0 <==> AllInStock(request, catalog)
    ensures forall i :: 0 <= i < |request| && request[i].productId in catalog
                        && catalog[request[i].productId].stock < request[i].quantity ==>
      Shortfall(catalog[request[i].productId].name, request[i].quantity, catalog[request[i].productId].stock) in r
  {
    if |request| == 0 then []
    else
      var q := request[0];
      var rest := Shortfalls(request[1..], catalog);
      assert forall i :: 1 <= i < |request| ==> request[i] == request[1..][i - 1];
      (if q.productId in catalog && catalog[q.productId].stock < q.quantity
       then [Shortfall(catalog[q.productId].name, q.quantity, catalog[q.productId].stock)]
       else [])
      + rest
  }

  /** Prices request lines from the catalog, drawing one fresh id per line. */
  function PriceLines(kept: seq<ItemRequest>, catalog: map<Guid, Product>, newItemId: nat -> Guid)
    : (lines: seq<OrderItem>)
    ensures |lines| == |kept|
    ensures forall j :: 0 <= j < |kept| ==>
      lines[j] == OrderItem(newItemId(j), kept[j].productId, kept[j].quantity, PriceOf(catalog, kept[j].productId))
  {
    seq(|kept|, j requires 0 <= j < |kept| =>
      OrderItem(newItemId(j), kept[j].productId, kept[j].quantity, PriceOf(catalog, kept[j].productId)))
  }

  /** The lines of a new order: the request lines with a positive
      quantity, each priced from the catalog. */
  function PricedLines(request: seq<ItemRequest>, catalog: map<Guid, Product>, newItemId: nat -> Guid)
    : (lines: seq<OrderItem>)
    ensures forall j :: 0 <= j < |lines| ==>
      lines[j].quantity > 0 && lines[j].unitPrice == PriceOf(catalog, lines[j].productId)
  {
    PriceLines(Filter(request, (q: ItemRequest) => q.quantity > 0), catalog, newItemId)
  }

  /** Every line of a new order comes from a request line with the same
      product and quantity. */
  lemma PricedLinesFromRequest(request: seq<ItemRequest>, catalog: map<Guid, Product>, newItemId: nat -> Guid)
    ensures var lines := PricedLines(request, catalog, newItemId);
      forall j :: 0 <= j < |lines| ==>
        exists i :: 0 <= i < |request| && request[i].productId == lines[j].productId
                    && request[i].quantity == lines[j].quantity
  {
    var kept := Filter(request, (q: ItemRequest) => q.quantity > 0);
    var lines := PricedLines(request, catalog, newItemId);
    forall j | 0 <= j < |lines|
      ensures exists i :: 0 <= i < |request| && request[i].productId == lines[j].productId
                          && request[i].quantity == lines[j].quantity
    {
      assert kept[j] in kept;
      var i :| 0 <= i < |request| && request[i] == kept[j];
    }
  }

  /** Every request line with a positive quantity becomes a line of the
      new order, and the order is empty exactly when no line has one. */
  lemma PricedLinesCoverRequest(request: seq<ItemRequest>, catalog: map<Guid, Product>, newItemId: nat -> Guid)
    ensures var lines := PricedLines(request, catalog, newItemId);
      forall i :: 0 <= i < |request| && request[i].quantity > 0 ==>
        exists j :: 0 <= j < |lines| && lines[j].productId == request[i].productId
                    && lines[j].quantity == request[i].quantity
    ensures |PricedLines(request, catalog, newItemId)| == 0 <==> !SomePositive(request)
  {
    var kept := Filter(request, (q: ItemRequest) => q.quantity > 0);
    var lines := PricedLines(request, catalog, newItemId);
    forall i | 0 <= i < |request| && request[i].quantity > 0
      ensures exists j :: 0 <= j < |lines| && lines[j].productId == request[i].productId
                          && lines[j].quantity == request[i].quantity
    {
      assert request[i] in request;
      assert request[i] in kept;
      var j :| 0 <= j < |kept| && kept[j] == request[i];
      assert lines[j].productId == request[i].productId;
    }
    if |lines| == 0 {
      forall i | 0 <= i < |request|
        ensures request[i].quantity <= 0
      {
        assert request[i] in request;
        assert request[i] !in kept;
      }
    } else {
      assert kept[0] in request;
    }
  }

  /** The order with id `orderId` if it exists and is still Pending; the
      gate in front of every operation that changes an order. */
  function PendingOrder(s: Store, orderId: Guid): (r: Result<Order, OrderError>)
    ensures orderId !in s.orders ==> r == Failure(KeyNotFound(NoSuchOrder(orderId)))
    ensures orderId in s.orders && s.orders[orderId].status != Pending ==>
      r == Failure(InvalidOperation(NotPending(s.orders[orderId].status)))
    ensures r.Success? <==> orderId in s.orders && s.orders[orderId].status == Pending
    ensures r.Success? ==> r.value == s.orders[orderId]
  {
    if orderId !in s.orders then Failure(KeyNotFound(NoSuchOrder(orderId)))
    else if s.orders[orderId].status != Pending then Failure(InvalidOperation(NotPending(s.orders[orderId].status)))
    else Success(s.orders[orderId])
  }

  /** `CreateOrderAsync`. The source draws the customer id with
      `Guid.NewGuid()` rather than reading the request, so it arrives here
      as a fresh value, as do the order id and the line ids. */
  function CreateOrder(s: Store, request: seq<ItemRequest>, orderId: Guid, customerId: Guid, now: Time,
                       newItemId: nat -> Guid): (r: Result<Step, OrderError>)
    ensures |request| == 0 ==> r == Failure(InvalidOperation(NoItems))
    ensures r.Success? ==>
      && r.value.store.catalog == s.catalog
      && r.value.store.orders.Keys == s.orders.Keys + {orderId}
      && (forall id :: id in s.orders && id != orderId ==> r.value.store.orders[id] == s.orders[id])
    ensures r.Success? ==>
      var o := r.value.store.orders[orderId];
      && o.orderId == orderId && o.customerId == customerId && o.status == Pending && o.createdAt == now
      && o.items == PricedLines(request, s.catalog, newItemId)
      && r.value.events == [OrderPlaced(orderId, customerId, Total(o.items), now, Snapshot(o.items, s.catalog))]
  {
    if |request| == 0 then Failure(InvalidOperation(NoItems))
    else
      var ids := RequestedIds(request);
      if FoundCount(ids, s.catalog) != |ids| then
        Failure(KeyNotFound(ProductsNotFound(Missing(ids, s.catalog))))
      else
        var short := Shortfalls(request, s.catalog);
        if |short| != 0 then Failure(InvalidOperation(InsufficientStock(short)))
        else
          var lines := PricedLines(request, s.catalog, newItemId);
          if |lines| == 0 then Failure(InvalidOperation(NoPositiveQuantity))
          else
            var order := Order(orderId, customerId, ChompWallet, now, now, Pending, lines);
            Success(Step(s.(orders := s.orders[orderId := order]),
                         [OrderPlaced(orderId, customerId, Total(lines), now, Snapshot(lines, s.catalog))]))
  }

  /** Creation succeeds exactly when the request is non-empty, names each
      product once, every product exists with enough stock, and some line
      has a positive quantity. */
  lemma CreateOrderSucceedsIff(s: Store, request: seq<ItemRequest>, orderId: Guid, customerId: Guid, now: Time,
                               newItemId: nat -> Guid)
    ensures CreateOrder(s, request, orderId, customerId, now, newItemId).Success? <==>
      && |request| > 0
      && Distinct(RequestedIds(request))
      && AllFound(RequestedIds(request), s.catalog)
      && AllInStock(request, s.catalog)
      && SomePositive(request)
  {
    FoundCountPasses(RequestedIds(request), s.catalog);
    PricedLinesCoverRequest(request, s.catalog, newItemId);
  }

  /** A missing product, or a product named twice, fails creation with one
      error that lists every requested id absent from the catalog. */
  lemma CreateOrderReportsMissing(s: Store, request: seq<ItemRequest>, orderId: Guid, customerId: Guid, now: Time,
                                  newItemId: nat -> Guid)
    requires |request| > 0
    requires !Distinct(RequestedIds(request)) || !AllFound(RequestedIds(request), s.catalog)
    ensures var r := CreateOrder(s, request, orderId, customerId, now, newItemId);
      && r.Failure? && r.error.KeyNotFound? && r.error.reason.ProductsNotFound?
      && forall id :: id in r.error.reason.missing <==> id in RequestedIds(request) && id !in s.catalog
  {
    FoundCountPasses(RequestedIds(request), s.catalog);
  }

  /** Insufficient stock fails creation with one error naming every line
      that asks for more than the product's stock. */
  lemma CreateOrderReportsShortfalls(s: Store, request: seq<ItemRequest>, orderId: Guid, customerId: Guid, now: Time,
                                     newItemId: nat -> Guid)
    requires |request| > 0 && Distinct(RequestedIds(request)) && AllFound(RequestedIds(request), s.catalog)
    requires !AllInStock(request, s.catalog)
    ensures var r := CreateOrder(s, request, orderId, customerId, now, newItemId);
      && r.Failure? && r.error.InvalidOperation? && r.error.reason.InsufficientStock?
      && forall i :: 0 <= i < |request| && s.catalog[request[i].productId].stock < request[i].quantity ==>
           Shortfall(s.catalog[request[i].productId].name, request[i].quantity, s.catalog[request[i].productId].stock)
             in r.error.reason.shortfalls
  {
    FoundCountPasses(RequestedIds(request), s.catalog);
    assert forall i :: 0 <= i < |request| ==> request[i].productId in s.catalog by {
      assert forall i :: 0 <= i < |request| ==> RequestedIds(request)[i] == request[i].productId;
    }
  }

  /** When every requested product exists, every line of the new order
      names a catalog product and carries its current price. */
  lemma PricedLinesInCatalog(request: seq<ItemRequest>, catalog: map<Guid, Product>, newItemId: nat -> Guid)
    requires AllFound(RequestedIds(request), catalog)
    ensures var lines := PricedLines(request, catalog, newItemId);
      forall j :: 0 <= j < |lines| ==>
        lines[j].productId in catalog && lines[j].unitPrice == catalog[lines[j].productId].price
  {
    var lines := PricedLines(request, catalog, newItemId);
    PricedLinesFromRequest(request, catalog, newItemId);
    forall j | 0 <= j < |lines|
      ensures lines[j].productId in catalog
    {
      var i :| 0 <= i < |request| && request[i].productId == lines[j].productId
               && request[i].quantity == lines[j].quantity;
      assert RequestedIds(request)[i] == lines[j].productId;
    }
  }

  /** `ConfirmOrderAsync`: Pending → Confirmed, and the hand-off event to
      the payment service. */
  function ConfirmOrder(s: Store, orderId: Guid, now: Time): (r: Result<Step, OrderError>)
    ensures r.Success? <==> orderId in s.orders && s.orders[orderId].status == Pending
    ensures orderId !in s.orders ==> r == Failure(KeyNotFound(NoSuchOrder(orderId)))
    ensures orderId in s.orders && s.orders[orderId].status != Pending ==>
      r == Failure(InvalidOperation(NotPending(s.orders[orderId].status)))
    ensures r.Success? ==>
      var o := s.orders[orderId];
      && r.value.store.catalog == s.catalog
      && r.value.store.orders == s.orders[orderId := o.(status := Confirmed)]
      && r.value.events == [OrderConfirmed(orderId, o.customerId, o.paymentType, Total(o.items), now)]
  {
    var order :- PendingOrder(s, orderId);
    var confirmed := order.(status := Confirmed);
    Success(Step(s.(orders := s.orders[orderId := confirmed]),
                 [OrderConfirmed(orderId, order.customerId, order.paymentType, Total(order.items), now)]))
  }

  /** `DeleteOrderAsync`: only a Pending order can be deleted. */
  function DeleteOrder(s: Store, orderId: Guid, now: Time): (r: Result<Step, OrderError>)
    ensures r.Success? <==> orderId in s.orders && s.orders[orderId].status == Pending
    ensures orderId !in s.orders ==> r == Failure(KeyNotFound(NoSuchOrder(orderId)))
    ensures orderId in s.orders && s.orders[orderId].status != Pending ==>
      r == Failure(InvalidOperation(NotPending(s.orders[orderId].status)))
    ensures r.Success? ==>
      && r.value.store.catalog == s.catalog
      && orderId !in r.value.store.orders
      && (forall id :: id in s.orders && id != orderId <==> id in r.value.store.orders)
      && (forall id :: id in r.value.store.orders ==> r.value.store.orders[id] == s.orders[id])
      && r.value.events == [OrderCancelled(orderId, s.orders[orderId].customerId, "Order deleted by user request", now)]
  {
    var order :- PendingOrder(s, orderId);
    Success(Step(s.(orders := s.orders - {orderId}),
                 [OrderCancelled(orderId, order.customerId, "Order deleted by user request", now)]))
  }
}
