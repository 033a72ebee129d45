/** `AddOrderItemsAsync` and `RemoveOrderItemsAsync`: incremental changes
    to the lines of a Pending order. */
module OrderItems {
  import opened Wrappers
  import opened Contracts
  import opened Seqs
  import opened OrderModel
  import opened OrderLines
  import opened OrderLifecycle

  // ---------------------------------------------------------------------
  // Adding items
  // ---------------------------------------------------------------------

  /** One requested line: raise the quantity of the product's first line
      and refresh its price, or add a new line at the catalog price. */
  function AddLine(items: seq<OrderItem>, q: ItemRequest, price: Money, freshId: Guid): seq<OrderItem> {
    match FindLine(items, q.productId)
    case Some(k) => Relined(items, k, items[k].quantity + q.quantity, price)
    case None => items + [OrderItem(freshId, q.productId, q.quantity, price)]
  }

  /** The addition loop over the requested lines, in request order. */
  function AddAll(items: seq<OrderItem>, request: seq<ItemRequest>, catalog: map<Guid, Product>,
                  newItemId: nat -> Guid, next: nat): seq<OrderItem>
    decreases |request|
  {
    if |request| == 0 then items
    else
      AddAll(AddLine(items, request[0], PriceOf(catalog, request[0].productId), newItemId(next)),
             request[1..], catalog, newItemId, next + 1)
  }

  lemma AddLineSpec(items: seq<OrderItem>, q: ItemRequest, price: Money, freshId: Guid)
    ensures var m := AddLine(items, q, price, freshId);
      && |m| >= |items|
      && (forall j :: 0 <= j < |items| ==> m[j].orderItemId == items[j].orderItemId && m[j].productId == items[j].productId)
      && (forall j :: 0 <= j < |items| && items[j].productId != q.productId ==> m[j] == items[j])
      && (forall j :: |items| <= j < |m| ==> m[j].productId == q.productId)
      && (forall p :: QuantityOf(m, p) == QuantityOf(items, p) + (if p == q.productId then q.quantity else 0))
      && Products(m) == Products(items) + {q.productId}
      && (DistinctProducts(items) ==>
            DistinctProducts(m) && forall j :: 0 <= j < |m| && m[j].productId == q.productId ==> m[j].unitPrice == price)
  {
    match FindLine(items, q.productId)
    case Some(k) =>
      var m := Relined(items, k, items[k].quantity + q.quantity, price);
      ProductsRelined(items, k, items[k].quantity + q.quantity, price);
      assert q.productId in Products(items) by { assert items[k] in items; }
      forall p
        ensures QuantityOf(m, p) == QuantityOf(items, p) + (if p == q.productId then q.quantity else 0)
      {
        QuantityOfRelined(items, k, items[k].quantity + q.quantity, price, p);
      }
    case None =>
      var line := OrderItem(freshId, q.productId, q.quantity, price);
      assert q.productId !in Products(items);
      ProductsAppended(items, line);
      forall p
        ensures QuantityOf(items + [line], p) == QuantityOf(items, p) + (if p == q.productId then q.quantity else 0)
      {
        QuantityOfAppended(items, line, p);
      }
  }

  /** The addition loop never drops or moves a line, touches only the
      requested products' lines, and raises each product's quantity by
      the total requested for it. */
  lemma {:induction false} AddAllSpec(items: seq<OrderItem>, request: seq<ItemRequest>, catalog: map<Guid, Product>,
                                      newItemId: nat -> Guid, next: nat)
    decreases |request|
    ensures var r := AddAll(items, request, catalog, newItemId, next);
      && |r| >= |items|
      && (forall j :: 0 <= j < |items| ==> r[j].orderItemId == items[j].orderItemId && r[j].productId == items[j].productId)
      && (forall j :: 0 <= j < |items| && items[j].productId !in Requested(request) ==> r[j] == items[j])
      && (forall j :: |items| <= j < |r| ==> r[j].productId in Requested(request))
      && (forall p :: QuantityOf(r, p) == QuantityOf(items, p) + RequestedTotal(request, p))
      && Products(r) == Products(items) + Requested(request)
  {
    if |request| > 0 {
      var q := request[0];
      var m := AddLine(items, q, PriceOf(catalog, q.productId), newItemId(next));
      RequestedCons(request);
      AddLineSpec(items, q, PriceOf(catalog, q.productId), newItemId(next));
      AddAllSpec(m, request[1..], catalog, newItemId, next + 1);
    }
  }

  /** In a one-line-per-product order the addition loop keeps one line per
      product and leaves every requested product's line at its catalog
      price. */
  lemma {:induction false} AddAllPrices(items: seq<OrderItem>, request: seq<ItemRequest>, catalog: map<Guid, Product>,
                                        newItemId: nat -> Guid, next: nat)
    requires DistinctProducts(items)
    decreases |request|
    ensures var r := AddAll(items, request, catalog, newItemId, next);
      && DistinctProducts(r)
      && (forall j :: 0 <= j < |r| && r[j].productId in Requested(request) ==>
            r[j].unitPrice == PriceOf(catalog, r[j].productId))
  {
    if |request| > 0 {
      var q := request[0];
      var price := PriceOf(catalog, q.productId);
      var m := AddLine(items, q, price, newItemId(next));
      var r := AddAll(items, request, catalog, newItemId, next);
      RequestedCons(request);
      AddLineSpec(items, q, price, newItemId(next));
      AddAllPrices(m, request[1..], catalog, newItemId, next + 1);
      AddAllSpec(m, request[1..], catalog, newItemId, next + 1);
      forall j | 0 <= j < |r| && r[j].productId == q.productId && q.productId !in Requested(request[1..])
        ensures r[j].unitPrice == price
      {
        assert j < |m|;
      }
    }
  }

  /** `AddOrderItemsAsync`. The request must be non-empty and have a line
      with a positive quantity; those lines must name existing products,
      each once. The order is saved and an update published. */
  function AddItems(s: Store, orderId: Guid, request: seq<ItemRequest>, newItemId: nat -> Guid): (r: Result<Step, OrderError>)
    ensures orderId !in s.orders ==> r == Failure(KeyNotFound(NoSuchOrder(orderId)))
    ensures orderId in s.orders && s.orders[orderId].status != Pending ==>
      r == Failure(InvalidOperation(NotPending(s.orders[orderId].status)))
    ensures orderId in s.orders && s.orders[orderId].status == Pending && |request| == 0 ==>
      r == Failure(InvalidOperation(NothingProvided))
    ensures orderId in s.orders && s.orders[orderId].status == Pending && |request| > 0 && |Positive(request)| == 0 ==>
      r == Failure(InvalidOperation(AllQuantitiesInvalid))
    ensures r.Success? ==>
      && orderId in s.orders && s.orders[orderId].status == Pending
      && orderId in r.value.store.orders
      && var o := r.value.store.orders[orderId];
      && r.value.store == s.(orders := s.orders[orderId := s.orders[orderId].(items := o.items)])
      && r.value.events == [UpdatedEvent(orderId, o, s.catalog)]
  {
    var order :- PendingOrder(s, orderId);
    if |request| == 0 then Failure(InvalidOperation(NothingProvided))
    else
      var valid := Positive(request);
      if |valid| == 0 then Failure(InvalidOperation(AllQuantitiesInvalid))
      else
        var ids := RequestedIds(valid);
        if FoundCount(ids, s.catalog) != |ids| then
          Failure(InvalidOperation(ProductsNotFound(Missing(ids, s.catalog))))
        else
          var added := order.(items := AddAll(order.items, valid, s.catalog, newItemId, 0));
          Success(Step(s.(orders := s.orders[orderId := added]), [UpdatedEvent(orderId, added, s.catalog)]))
  }

  /** Adding to a Pending order succeeds exactly when the request has a
      line with a positive quantity and those lines name existing
      products, each once. */
  lemma AddItemsSucceedsIff(s: Store, orderId: Guid, request: seq<ItemRequest>, newItemId: nat -> Guid)
    requires orderId in s.orders && s.orders[orderId].status == Pending
    ensures AddItems(s, orderId, request, newItemId).Success? <==>
      && |Positive(request)| > 0
      && Distinct(RequestedIds(Positive(request)))
      && AllFound(RequestedIds(Positive(request)), s.catalog)
  {
    FoundCountPasses(RequestedIds(Positive(request)), s.catalog);
  }

  /** A successful addition keeps every existing line in place with its id
      and product, adds the requested quantity to each product's total,
      and adds lines only for requested products. */
  lemma AddItemsIncrements(s: Store, orderId: Guid, request: seq<ItemRequest>, newItemId: nat -> Guid)
    requires AddItems(s, orderId, request, newItemId).Success?
    ensures var old_ := s.orders[orderId].items;
      var items := AddItems(s, orderId, request, newItemId).value.store.orders[orderId].items;
      && |items| >= |old_|
      && (forall j :: 0 <= j < |old_| ==> items[j].orderItemId == old_[j].orderItemId && items[j].productId == old_[j].productId)
      && (forall p :: QuantityOf(items, p) == QuantityOf(old_, p) + RequestedTotal(Positive(request), p))
      && Products(items) == Products(old_) + Requested(Positive(request))
  {
    AddAllSpec(s.orders[orderId].items, Positive(request), s.catalog, newItemId, 0);
  }

  /** In a one-line-per-product order, a successful addition keeps one
      line per product, and each requested product's line carries the
      current catalog price. */
  lemma AddItemsRefreshesPrices(s: Store, orderId: Guid, request: seq<ItemRequest>, newItemId: nat -> Guid)
    requires AddItems(s, orderId, request, newItemId).Success?
    requires DistinctProducts(s.orders[orderId].items)
    ensures var items := AddItems(s, orderId, request, newItemId).value.store.orders[orderId].items;
      && DistinctProducts(items)
      && (forall j :: 0 <= j < |items| && items[j].productId in Requested(Positive(request)) ==>
            items[j].unitPrice == PriceOf(s.catalog, items[j].productId))
  {
    AddAllPrices(s.orders[orderId].items, Positive(request), s.catalog, newItemId, 0);
  }

  // ---------------------------------------------------------------------
  // Removing items
  // ---------------------------------------------------------------------

  /** The removal loop's state: the lines (with reduced quantities), the
      positions of the lines marked for deletion (a list, so a line can
      be marked twice), and whether anything matched. */
  datatype Removal = Removal(items: seq<OrderItem>, removed: seq<nat>, changed: bool)

  /** One requested line: a request for at least the line's current
      quantity marks the product's first line for deletion, a smaller one
      reduces it, and a product without a line is skipped. */
  function RemoveLine(st: Removal, q: ItemRequest): Removal {
    match FindLine(st.items, q.productId)
    case None => st
    case Some(k) =>
      if q.quantity >= st.items[k].quantity then Removal(st.items, st.removed + [k], true)
      else Removal(st.items[k := st.items[k].(quantity := st.items[k].quantity - q.quantity)], st.removed, true)
  }

  /** The removal loop over the requested lines, in request order. */
  function RemoveAll(st: Removal, request: seq<ItemRequest>): Removal
    decreases |request|
  {
    if |request| == 0 then st else RemoveAll(RemoveLine(st, request[0]), request[1..])
  }

  lemma {:induction false} RequestedTotalNonNegative(request: seq<ItemRequest>, productId: Guid)
    requires forall i :: 0 <= i < |request| ==> request[i].quantity > 0
    ensures RequestedTotal(request, productId) >= 0
  {
    if |request| > 0 {
      RequestedTotalNonNegative(request[1..], productId);
    }
  }

  /** One removal step keeps the lines' ids, products and prices; marks
      only the requested product's line; and either marks it or lowers its
      quantity by the requested amount. */
  lemma RemoveLineSpec(st: Removal, q: ItemRequest)
    requires DistinctProducts(st.items)
    ensures var st1 := RemoveLine(st, q);
      && |st1.items| == |st.items|
      && (forall k :: 0 <= k < |st.items| ==>
            st1.items[k].orderItemId == st.items[k].orderItemId && st1.items[k].productId == st.items[k].productId
            && st1.items[k].unitPrice == st.items[k].unitPrice)
      && DistinctProducts(st1.items)
      && (forall k :: k in st.removed ==> k in st1.removed)
      && (forall k :: k in st1.removed && k !in st.removed ==> k < |st.items|)
      && (forall k :: 0 <= k < |st.items| && k !in st.removed ==>
            (k !in st1.removed <==> st.items[k].productId != q.productId || q.quantity < st.items[k].quantity))
      && (forall k :: 0 <= k < |st.items| && k !in st1.removed ==>
            st1.items[k].quantity == st.items[k].quantity - (if st.items[k].productId == q.productId then q.quantity else 0))
      && (st1.changed <==> st.changed || FindLine(st.items, q.productId).Some?)
      && (forall k :: 0 <= k < |st.items| && k !in st.removed && st.items[k].quantity > 0 && k !in st1.removed ==>
            st1.items[k].quantity > 0)
  {
  }

  /** The removal loop, on a one-line-per-product order and positive
      requests: a line not yet marked ends up unmarked exactly when the
      total requested for its product is below its quantity, and then its
      quantity has dropped by that total; the loop reports a change
      exactly when some request names a product with a line. */
  lemma {:induction false} RemoveAllSpec(st: Removal, request: seq<ItemRequest>)
    requires DistinctProducts(st.items)
    requires forall k :: 0 <= k < |st.items| && k !in st.removed ==> st.items[k].quantity > 0
    requires forall i :: 0 <= i < |request| ==> request[i].quantity > 0
    decreases |request|
    ensures var r := RemoveAll(st, request);
      && |r.items| == |st.items|
      && (forall k :: 0 <= k < |st.items| ==>
            r.items[k].orderItemId == st.items[k].orderItemId && r.items[k].productId == st.items[k].productId
            && r.items[k].unitPrice == st.items[k].unitPrice)
      && DistinctProducts(r.items)
      && (forall k :: k in st.removed ==> k in r.removed)
      && (forall k :: 0 <= k < |st.items| && k !in st.removed ==>
            (k !in r.removed <==> RequestedTotal(request, st.items[k].productId) < st.items[k].quantity))
      && (forall k :: 0 <= k < |st.items| && k !in r.removed ==>
            r.items[k].quantity == st.items[k].quantity - RequestedTotal(request, st.items[k].productId))
  {
    if |request| > 0 {
      var q := request[0];
      var tail := request[1..];
      var st1 := RemoveLine(st, q);
      var r := RemoveAll(st, request);
      assert r == RemoveAll(st1, tail);
      RemoveLineSpec(st, q);
      RemoveAllSpec(st1, tail);
      forall k | 0 <= k < |st.items|
        ensures RequestedTotal(request, st.items[k].productId)
             == (if st.items[k].productId == q.productId then q.quantity else 0) + RequestedTotal(tail, st.items[k].productId)
        ensures RequestedTotal(tail, st.items[k].productId) >= 0
      {
        RequestedTotalNonNegative(tail, st.items[k].productId);
      }
      forall k | 0 <= k < |st.items| && k !in st.removed
        ensures k !in r.removed <==> RequestedTotal(request, st.items[k].productId) < st.items[k].quantity
      {
        if st.items[k].productId == q.productId && q.quantity >= st.items[k].quantity {
          assert k in st1.removed;
        } else {
          assert k !in st1.removed;
        }
      }
    }
  }

  /** The removal loop reports a change exactly when some request names
      a product the order has a line for. */
  lemma {:induction false} RemoveAllChanged(st: Removal, request: seq<ItemRequest>)
    requires DistinctProducts(st.items)
    decreases |request|
    ensures var r := RemoveAll(st, request);
      r.changed <==> st.changed || exists i :: 0 <= i < |request| && FindLine(st.items, request[i].productId).Some?
  {
    if |request| > 0 {
      var q := request[0];
      var tail := request[1..];
      var st1 := RemoveLine(st, q);
      RemoveLineSpec(st, q);
      RemoveAllChanged(st1, tail);
      forall p
        ensures FindLine(st1.items, p) == FindLine(st.items, p)
      {
        FindLineSameProducts(st1.items, st.items, p);
      }
      if exists i :: 0 <= i < |tail| && FindLine(st1.items, tail[i].productId).Some? {
        var i :| 0 <= i < |tail| && FindLine(st1.items, tail[i].productId).Some?;
        assert request[i + 1] == tail[i];
      }
      if exists i :: 0 <= i < |request| && FindLine(st.items, request[i].productId).Some? {
        var i :| 0 <= i < |request| && FindLine(st.items, request[i].productId).Some?;
        if i > 0 {
          assert tail[i - 1] == request[i];
        }
      }
    }
  }

  /** The lines from position `j` on that are not marked, in order. */
  function SurvivorsFrom(items: seq<OrderItem>, removed: seq<nat>, j: nat): seq<OrderItem>
    requires j <= |items|
    decreases |items| - j
  {
    if j == |items| then []
    else (if j in removed then [] else [items[j]]) + SurvivorsFrom(items, removed, j + 1)
  }

  /** The lines `RemoveRange` leaves behind. */
  function Survivors(items: seq<OrderItem>, removed: seq<nat>): seq<OrderItem> {
    SurvivorsFrom(items, removed, 0)
  }

  /** What a survivor list holds: exactly the unmarked lines. */
  lemma {:induction false} SurvivorsFromMembers(items: seq<OrderItem>, removed: seq<nat>, j: nat)
    requires j <= |items|
    decreases |items| - j
    ensures forall x :: x in SurvivorsFrom(items, removed, j) <==>
      exists k :: j <= k < |items| && k !in removed && items[k] == x
  {
    if j < |items| {
      SurvivorsFromMembers(items, removed, j + 1);
    }
  }

  /** The quantity of the surviving line for `productId`, if any. */
  function LiveQuantity(items: seq<OrderItem>, removed: seq<nat>, j: nat, productId: Guid): int {
    match FindLine(items, productId)
    case None => 0
    case Some(k) => if k >= j && k !in removed then items[k].quantity else 0
  }

  /** In a one-line-per-product order, a product's quantity among the
      survivors is its line's quantity when that line survives, else 0. */
  lemma {:induction false} SurvivorsQuantity(items: seq<OrderItem>, removed: seq<nat>, j: nat, productId: Guid)
    requires j <= |items|
    requires DistinctProducts(items)
    decreases |items| - j
    ensures QuantityOf(SurvivorsFrom(items, removed, j), productId) == LiveQuantity(items, removed, j, productId)
  {
    if j < |items| {
      var head := if j in removed then [] else [items[j]];
      SurvivorsQuantity(items, removed, j + 1, productId);
      QuantityOfConcat(head, SurvivorsFrom(items, removed, j + 1), productId);
      if items[j].productId == productId {
        assert FindLine(items, productId) == Some(j);
      }
    }
  }

  /** Dropping marked lines keeps an order one-line-per-product. */
  lemma {:induction false} SurvivorsDistinct(items: seq<OrderItem>, removed: seq<nat>, j: nat)
    requires j <= |items|
    requires DistinctProducts(items)
    decreases |items| - j
    ensures DistinctProducts(SurvivorsFrom(items, removed, j))
  {
    if j < |items| && j !in removed {
      var rest := SurvivorsFrom(items, removed, j + 1);
      var f := [items[j]] + rest;
      SurvivorsDistinct(items, removed, j + 1);
      SurvivorsFromMembers(items, removed, j + 1);
      forall a, b | 0 <= a < b < |f|
        ensures f[a].productId != f[b].productId
      {
        assert f[b] == rest[b - 1] && rest[b - 1] in rest;
        if a > 0 {
          assert f[a] == rest[a - 1];
        }
      }
    } else if j < |items| {
      SurvivorsDistinct(items, removed, j + 1);
    }
  }

  /** Checks shared by both readings of the removal: a non-empty request,
      some positive quantity, and some requested product with a line. */
  function PlanRemoval(order: Order, request: seq<ItemRequest>): (r: Result<Removal, OrderError>)
    ensures |request| == 0 ==> r == Failure(InvalidOperation(NothingProvided))
    ensures |request| > 0 && |Positive(request)| == 0 ==> r == Failure(InvalidOperation(AllQuantitiesInvalid))
    ensures r.Success? ==> r.value == RemoveAll(Removal(order.items, [], false), Positive(request))
  {
    if |request| == 0 then Failure(InvalidOperation(NothingProvided))
    else
      var valid := Positive(request);
      if |valid| == 0 then Failure(InvalidOperation(AllQuantitiesInvalid))
      else
        var plan := RemoveAll(Removal(order.items, [], false), valid);
        if !plan.changed then Failure(InvalidOperation(NoMatchingItems)) else Success(plan)
  }

  predicate HasQuantity(items: seq<OrderItem>) {
    exists i :: 0 <= i < |items| && items[i].quantity > 0
  }

  /** `RemoveOrderItemsAsync` as written: the lines left are counted as
      the order's line count minus the length of the deletion list, which
      counts a line twice when two request lines delete it. */
  function RemoveItemsAsWritten(s: Store, orderId: Guid, request: seq<ItemRequest>, now: Time): (r: Result<Step, OrderError>)
    ensures orderId !in s.orders ==> r == Failure(KeyNotFound(NoSuchOrder(orderId)))
    ensures orderId in s.orders && s.orders[orderId].status != Pending ==>
      r == Failure(InvalidOperation(NotPending(s.orders[orderId].status)))
    ensures orderId in s.orders && s.orders[orderId].status == Pending && |request| == 0 ==>
      r == Failure(InvalidOperation(NothingProvided))
    ensures orderId in s.orders && s.orders[orderId].status == Pending && |request| > 0 && |Positive(request)| == 0 ==>
      r == Failure(InvalidOperation(AllQuantitiesInvalid))
    ensures r.Success? ==>
      && orderId in s.orders && s.orders[orderId].status == Pending
      && r.value.store.catalog == s.catalog
      && if orderId in r.value.store.orders then
           var o := r.value.store.orders[orderId];
           && r.value.store.orders == s.orders[orderId := s.orders[orderId].(items := o.items)]
           && r.value.events == [UpdatedEvent(orderId, o, s.catalog)]
         else
           && r.value.store.orders == s.orders - {orderId}
           && r.value.events == [OrderCancelled(orderId, s.orders[orderId].customerId, "All items removed from order", now)]
    ensures r.Success? && |s.orders[orderId].items| == |RemoveAll(Removal(s.orders[orderId].items, [], false),
                                                                Positive(request)).removed| ==>
      orderId !in r.value.store.orders
  {
    var order :- PendingOrder(s, orderId);
    var plan :- PlanRemoval(order, request);
    var left := Survivors(plan.items, plan.removed);
    if |order.items| - |plan.removed| == 0 || !HasQuantity(left) then
      Success(Step(s.(orders := s.orders - {orderId}),
                   [OrderCancelled(orderId, order.customerId, "All items removed from order", now)]))
    else
      var reduced := order.(items := left);
      Success(Step(s.(orders := s.orders[orderId := reduced]), [UpdatedEvent(orderId, reduced, s.catalog)]))
  }

  /** `RemoveOrderItemsAsync` with the lines left counted as they are: the
      order is deleted exactly when no line with a quantity survives. */
  function RemoveItems(s: Store, orderId: Guid, request: seq<ItemRequest>, now: Time): (r: Result<Step, OrderError>)
    ensures orderId !in s.orders ==> r == Failure(KeyNotFound(NoSuchOrder(orderId)))
    ensures orderId in s.orders && s.orders[orderId].status != Pending ==>
      r == Failure(InvalidOperation(NotPending(s.orders[orderId].status)))
    ensures orderId in s.orders && s.orders[orderId].status == Pending && |request| == 0 ==>
      r == Failure(InvalidOperation(NothingProvided))
    ensures orderId in s.orders && s.orders[orderId].status == Pending && |request| > 0 && |Positive(request)| == 0 ==>
      r == Failure(InvalidOperation(AllQuantitiesInvalid))
    ensures r.Success? ==>
      && orderId in s.orders && s.orders[orderId].status == Pending
      && r.value.store.catalog == s.catalog
      && if orderId in r.value.store.orders then
           var o := r.value.store.orders[orderId];
           && r.value.store.orders == s.orders[orderId := s.orders[orderId].(items := o.items)]
           && r.value.events == [UpdatedEvent(orderId, o, s.catalog)]
         else
           && r.value.store.orders == s.orders - {orderId}
           && r.value.events == [OrderCancelled(orderId, s.orders[orderId].customerId, "All items removed from order", now)]
  {
    var order :- PendingOrder(s, orderId);
    var plan :- PlanRemoval(order, request);
    var left := Survivors(plan.items, plan.removed);
    if |left| == 0 || !HasQuantity(left) then
      Success(Step(s.(orders := s.orders - {orderId}),
                   [OrderCancelled(orderId, order.customerId, "All items removed from order", now)]))
    else
      var reduced := order.(items := left);
      Success(Step(s.(orders := s.orders[orderId := reduced]), [UpdatedEvent(orderId, reduced, s.catalog)]))
  }

  /** Some request line names a product with a line exactly when the
      requested and the ordered products meet. */
  lemma MatchesIffShared(items: seq<OrderItem>, request: seq<ItemRequest>)
    ensures (exists i :: 0 <= i < |request| && FindLine(items, request[i].productId).Some?) <==>
            Requested(request) * Products(items) != {}
  {
    if exists i :: 0 <= i < |request| && FindLine(items, request[i].productId).Some? {
      var i :| 0 <= i < |request| && FindLine(items, request[i].productId).Some?;
      assert request[i] in request;
      assert items[FindLine(items, request[i].productId).value] in items;
      assert request[i].productId in Requested(request) * Products(items);
    }
    if Requested(request) * Products(items) != {} {
      var p :| p in Requested(request) * Products(items);
      var q :| q in request && q.productId == p;
      var it :| it in items && it.productId == p;
      var i :| 0 <= i < |request| && request[i] == q;
      assert FindLine(items, request[i].productId).Some?;
    }
  }

  /** A non-empty removal from a Pending order with a positive quantity
      succeeds exactly when some positively requested product has a line
      in the order. */
  lemma RemoveItemsSucceedsIff(s: Store, orderId: Guid, request: seq<ItemRequest>, now: Time)
    requires orderId in s.orders && s.orders[orderId].status == Pending
    requires DistinctProducts(s.orders[orderId].items)
    requires |Positive(request)| > 0
    ensures RemoveItems(s, orderId, request, now).Success? <==>
      Requested(Positive(request)) * Products(s.orders[orderId].items) != {}
  {
    RemoveAllChanged(Removal(s.orders[orderId].items, [], false), Positive(request));
    MatchesIffShared(s.orders[orderId].items, Positive(request));
  }

  function Max0(x: int): int {
    if x < 0 then 0 else x
  }

  /** On a well-formed order and positive requests, a product's quantity
      among the surviving lines is its original quantity less the total
      requested for it, and never below zero. */
  lemma PlanQuantityOf(items: seq<OrderItem>, valid: seq<ItemRequest>, p: Guid)
    requires DistinctProducts(items)
    requires forall k :: 0 <= k < |items| ==> items[k].quantity > 0
    requires forall i :: 0 <= i < |valid| ==> valid[i].quantity > 0
    ensures var plan := RemoveAll(Removal(items, [], false), valid);
      QuantityOf(Survivors(plan.items, plan.removed), p) == Max0(QuantityOf(items, p) - RequestedTotal(valid, p))
  {
    var plan := RemoveAll(Removal(items, [], false), valid);
    RemoveAllSpec(Removal(items, [], false), valid);
    SurvivorsQuantity(plan.items, plan.removed, 0, p);
    RequestedTotalNonNegative(valid, p);
    FindLineSameProducts(plan.items, items, p);
    match FindLine(items, p)
    case None =>
      QuantityOfAbsent(items, p);
    case Some(k) =>
      QuantityOfLine(items, items[k]);
  }

  /** Every surviving line is an original line with only its quantity
      changed. */
  lemma PlanKeepsLines(items: seq<OrderItem>, valid: seq<ItemRequest>)
    requires DistinctProducts(items)
    requires forall k :: 0 <= k < |items| ==> items[k].quantity > 0
    requires forall i :: 0 <= i < |valid| ==> valid[i].quantity > 0
    ensures var plan := RemoveAll(Removal(items, [], false), valid);
      && DistinctProducts(Survivors(plan.items, plan.removed))
      && forall it :: it in Survivors(plan.items, plan.removed) ==>
           exists k :: 0 <= k < |items| && it == items[k].(quantity := it.quantity)
  {
    var plan := RemoveAll(Removal(items, [], false), valid);
    RemoveAllSpec(Removal(items, [], false), valid);
    SurvivorsFromMembers(plan.items, plan.removed, 0);
    SurvivorsDistinct(plan.items, plan.removed, 0);
  }

  /** When a well-formed order survives a removal, each product's
      quantity has dropped by the total requested for it, to no less than
      zero; lines keep their ids, products and prices. */
  lemma RemoveItemsQuantities(s: Store, orderId: Guid, request: seq<ItemRequest>, now: Time)
    requires RemoveItems(s, orderId, request, now).Success?
    requires orderId in RemoveItems(s, orderId, request, now).value.store.orders
    requires DistinctProducts(s.orders[orderId].items)
    requires forall k :: 0 <= k < |s.orders[orderId].items| ==> s.orders[orderId].items[k].quantity > 0
    ensures var old_ := s.orders[orderId].items;
      var items := RemoveItems(s, orderId, request, now).value.store.orders[orderId].items;
      && DistinctProducts(items)
      && (forall p :: QuantityOf(items, p) == Max0(QuantityOf(old_, p) - RequestedTotal(Positive(request), p)))
      && (forall it :: it in items ==> exists k :: 0 <= k < |old_| && it == old_[k].(quantity := it.quantity))
  {
    RemoveItemsLeavesSurvivors(s, orderId, request, now);
    PlanKeepsLines(s.orders[orderId].items, Positive(request));
    PlanQuantities(s.orders[orderId].items, Positive(request));
  }

  /** The lines a removal leaves on the order are the survivors of its plan. */
  lemma RemoveItemsLeavesSurvivors(s: Store, orderId: Guid, request: seq<ItemRequest>, now: Time)
    requires RemoveItems(s, orderId, request, now).Success?
    requires orderId in RemoveItems(s, orderId, request, now).value.store.orders
    ensures var plan := RemoveAll(Removal(s.orders[orderId].items, [], false), Positive(request));
      RemoveItems(s, orderId, request, now).value.store.orders[orderId].items == Survivors(plan.items, plan.removed)
  {
  }

  lemma PlanQuantities(items: seq<OrderItem>, valid: seq<ItemRequest>)
    requires DistinctProducts(items)
    requires forall k :: 0 <= k < |items| ==> items[k].quantity > 0
    requires forall i :: 0 <= i < |valid| ==> valid[i].quantity > 0
    ensures var plan := RemoveAll(Removal(items, [], false), valid);
      forall p :: QuantityOf(Survivors(plan.items, plan.removed), p) == Max0(QuantityOf(items, p) - RequestedTotal(valid, p))
  {
    var plan := RemoveAll(Removal(items, [], false), valid);
    forall p
      ensures QuantityOf(Survivors(plan.items, plan.removed), p) == Max0(QuantityOf(items, p) - RequestedTotal(valid, p))
    {
      PlanQuantityOf(items, valid, p);
    }
  }

  /** On a well-formed order, some line with a quantity survives exactly
      when some line's product is asked for less than its quantity. */
  lemma PlanLeavesSomething(items: seq<OrderItem>, valid: seq<ItemRequest>)
    requires DistinctProducts(items)
    requires forall k :: 0 <= k < |items| ==> items[k].quantity > 0
    requires forall i :: 0 <= i < |valid| ==> valid[i].quantity > 0
    ensures var plan := RemoveAll(Removal(items, [], false), valid);
      var left := Survivors(plan.items, plan.removed);
      (|left| > 0 && HasQuantity(left)) <==>
        exists k :: 0 <= k < |items| && RequestedTotal(valid, items[k].productId) < items[k].quantity
  {
    var plan := RemoveAll(Removal(items, [], false), valid);
    var left := Survivors(plan.items, plan.removed);
    RemoveAllSpec(Removal(items, [], false), valid);
    SurvivorsFromMembers(plan.items, plan.removed, 0);
    if exists k :: 0 <= k < |items| && RequestedTotal(valid, items[k].productId) < items[k].quantity {
      var k :| 0 <= k < |items| && RequestedTotal(valid, items[k].productId) < items[k].quantity;
      assert plan.items[k] in left;
      var i :| 0 <= i < |left| && left[i] == plan.items[k];
    }
    if |left| > 0 && HasQuantity(left) {
      assert left[0] in left;
      var k :| 0 <= k < |plan.items| && k !in plan.removed && plan.items[k] == left[0];
    }
  }

  /** A removal from a well-formed order deletes the order exactly when
      every line's product is asked for at least the line's quantity. */
  lemma RemoveItemsDeletesIff(s: Store, orderId: Guid, request: seq<ItemRequest>, now: Time)
    requires RemoveItems(s, orderId, request, now).Success?
    requires DistinctProducts(s.orders[orderId].items)
    requires forall k :: 0 <= k < |s.orders[orderId].items| ==> s.orders[orderId].items[k].quantity > 0
    ensures var old_ := s.orders[orderId].items;
      orderId !in RemoveItems(s, orderId, request, now).value.store.orders <==>
        forall k :: 0 <= k < |old_| ==> RequestedTotal(Positive(request), old_[k].productId) >= old_[k].quantity
  {
    PlanLeavesSomething(s.orders[orderId].items, Positive(request));
  }

  // The example behind the duplicate-removal discrepancy: order {A: 2, B: 3}
  // and a request that names A twice, each time for its full quantity.
  const ExampleLineA := OrderItem(10, 1, 2, 100)
  const ExampleLineB := OrderItem(11, 2, 3, 50)
  const ExampleStore := Store(
    map[1 := Product(1, "A", 100, 5, 0, 0), 2 := Product(2, "B", 50, 5, 0, 0)],
    map[7 := Order(7, 8, ChompWallet, 0, 0, Pending, [ExampleLineA, ExampleLineB])])
  const ExampleRequest := [ItemRequest(1, 2, 0), ItemRequest(1, 2, 0)]

  /** On the example, the loop marks line A twice and the only survivor is B. */
  lemma ExamplePlan()
    ensures Positive(ExampleRequest) == ExampleRequest
    ensures RemoveAll(Removal([ExampleLineA, ExampleLineB], [], false), ExampleRequest)
         == Removal([ExampleLineA, ExampleLineB], [0, 0], true)
    ensures Survivors([ExampleLineA, ExampleLineB], [0, 0]) == [ExampleLineB]
  {
    var request := ExampleRequest;
    var items := [ExampleLineA, ExampleLineB];
    FilterAllKept(request, (q: ItemRequest) => q.quantity > 0);
    assert FindLine(items, 1) == Some(0);
    var st1 := RemoveLine(Removal(items, [], false), request[0]);
    assert st1 == Removal(items, [0], true);
    assert RemoveAll(st1, request[1..]) == RemoveAll(RemoveLine(st1, request[1]), []);
    assert SurvivorsFrom(items, [0, 0], 1) == [ExampleLineB] + SurvivorsFrom(items, [0, 0], 2);
  }

  /** Two request lines for the same product delete the order although
      another line remains: on the example, a valid store, line A is marked twice, the
      count of lines left comes to 2 - 2 = 0, and the order is deleted. */
  lemma RemoveItemsAsWrittenDeletesSurvivor()
    ensures Valid(ExampleStore)
    ensures RemoveItemsAsWritten(ExampleStore, 7, ExampleRequest, 5).Success?
    ensures 7 !in RemoveItemsAsWritten(ExampleStore, 7, ExampleRequest, 5).value.store.orders
  {
    ExamplePlan();
  }

  /** Counting the lines that survive, the same removal keeps the order
      with line B. */
  lemma RemoveItemsKeepsSurvivor()
    ensures RemoveItems(ExampleStore, 7, ExampleRequest, 5).Success?
    ensures 7 in RemoveItems(ExampleStore, 7, ExampleRequest, 5).value.store.orders
    ensures RemoveItems(ExampleStore, 7, ExampleRequest, 5).value.store.orders[7].items == [ExampleLineB]
  {
    ExamplePlan();
    assert [ExampleLineB][0].quantity > 0;
  }
}
