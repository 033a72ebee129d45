/** The order service's reaction to a successful payment: the order is
    completed and its quantities are taken out of stock, all or nothing. */
module Settlement {
  import opened Wrappers
  import opened Contracts
  import opened OrderModel

  /** Why settling a payment threw; the exception is rethrown and nothing
      is saved. A line whose product is gone fails on the null navigation. */
  datatype SettleError =
    | NoSuchProduct(productId: Guid)
    | StockShort(productName: string, available: int, required: int)

  /** The catalog after `p` loses `quantity` units. */
  function Taken(catalog: map<Guid, Product>, p: Guid, quantity: int): map<Guid, Product>
    requires p in catalog
  {
    catalog[p := catalog[p].(stock := catalog[p].stock - quantity)]
  }

  /** Every product the lines reference exists and has at least the lines'
      total quantity in stock. */
  predicate Enough(items: seq<OrderItem>, catalog: map<Guid, Product>) {
    forall id :: id in Products(items) ==> id in catalog && QuantityOf(items, id) <= catalog[id].stock
  }

  /** The stock loop: lines are visited in order, each checked against the
      stock already reduced by the lines before it. On success every product
      has lost exactly the quantity the lines ask of it, no referenced
      product has gone below zero, and nothing else about the catalog
      changed. */
  function TakeStock(catalog: map<Guid, Product>, items: seq<OrderItem>): (r: Result<map<Guid, Product>, SettleError>)
    ensures r.Success? ==> r.value.Keys == catalog.Keys
    ensures r.Success? ==> forall id :: id in catalog ==>
      r.value[id] == catalog[id].(stock := catalog[id].stock - QuantityOf(items, id))
    ensures r.Success? ==> Enough(items, catalog)
    decreases |items|
  {
    if |items| == 0 then Success(catalog)
    else
      var it := items[0];
      if it.productId !in catalog then Failure(NoSuchProduct(it.productId))
      else if catalog[it.productId].stock < it.quantity then
        Failure(StockShort(catalog[it.productId].name, catalog[it.productId].stock, it.quantity))
      else
        var r := TakeStock(Taken(catalog, it.productId, it.quantity), items[1..]);
        assert r.Success? ==> Enough(items, catalog) by {
          if r.Success? {
            forall id | id in Products(items)
              ensures id in catalog && QuantityOf(items, id) <= catalog[id].stock
            {
              if id != it.productId {
                assert id in Products(items[1..]) by {
                  var k :| k in items && k.productId == id;
                  assert k != items[0];
                }
              } else if id !in Products(items[1..]) {
                QuantityOfAbsent(items[1..], id);
              }
            }
          }
        }
        r
  }

  lemma {:induction false} QuantityOfNonNegative(items: seq<OrderItem>, p: Guid)
    requires forall i :: 0 <= i < |items| ==> items[i].quantity >= 0
    ensures QuantityOf(items, p) >= 0
  {
    if |items| > 0 {
      QuantityOfNonNegative(items[1..], p);
    }
  }

  /** With non-negative line quantities, checking line by line against the
      running stock fails exactly when some product's total demand exceeds
      its stock: the sequential check is the aggregate one. */
  lemma {:induction false} TakeStockSucceedsIff(catalog: map<Guid, Product>, items: seq<OrderItem>)
    requires forall i :: 0 <= i < |items| ==> items[i].quantity >= 0
    ensures TakeStock(catalog, items).Success? <==> Enough(items, catalog)
    decreases |items|
  {
    if |items| > 0 {
      var it := items[0];
      var tail := items[1..];
      assert it in items;
      if it.productId in catalog {
        QuantityOfNonNegative(tail, it.productId);
        if catalog[it.productId].stock >= it.quantity {
          var next := Taken(catalog, it.productId, it.quantity);
          TakeStockSucceedsIff(next, tail);
          if Enough(items, catalog) {
            forall id | id in Products(tail)
              ensures id in next && QuantityOf(tail, id) <= next[id].stock
            {
              var k :| k in tail && k.productId == id;
              assert k in items;
            }
          }
        }
      }
    }
  }

  /** `PaymentSucceededConsumer.Consume`: an unknown order is ignored; a
      known one is marked Completed whatever its status, and its lines are
      taken out of stock. A failure saves nothing. */
  function Settle(s: Store, orderId: Guid): (r: Result<Store, SettleError>)
    ensures orderId !in s.orders ==> r == Success(s)
    ensures r.Success? && orderId in s.orders ==>
      var o := s.orders[orderId];
      && r.value.orders == s.orders[orderId := o.(status := Completed)]
      && r.value.catalog.Keys == s.catalog.Keys
      && (forall id :: id in s.catalog ==>
            r.value.catalog[id] == s.catalog[id].(stock := s.catalog[id].stock - QuantityOf(o.items, id)))
      && (forall id :: id in Products(o.items) ==> id in r.value.catalog && r.value.catalog[id].stock >= 0)
  {
    if orderId !in s.orders then Success(s)
    else
      var o := s.orders[orderId];
      var catalog :- TakeStock(s.catalog, o.items);
      Success(Store(catalog, s.orders[orderId := o.(status := Completed)]))
  }

  /** On a store whose orders have positive quantities, settling a known
      order fails exactly when some product it references is missing or
      short of the order's total demand for it. */
  lemma SettleSucceedsIff(s: Store, orderId: Guid)
    requires Valid(s)
    requires orderId in s.orders
    ensures Settle(s, orderId).Success? <==> Enough(s.orders[orderId].items, s.catalog)
  {
    var items := s.orders[orderId].items;
    assert forall i :: 0 <= i < |items| ==> items[i].quantity >= 0;
    TakeStockSucceedsIff(s.catalog, items);
  }

  /** Products the settled order does not reference keep their stock. */
  lemma SettleLeavesOthers(s: Store, orderId: Guid, p: Guid)
    requires orderId in s.orders && p in s.catalog && p !in Products(s.orders[orderId].items)
    requires Settle(s, orderId).Success?
    ensures Settle(s, orderId).value.catalog[p] == s.catalog[p]
  {
    var items := s.orders[orderId].items;
    forall i | 0 <= i < |items|
      ensures items[i].productId != p
    {
      assert items[i] in items;
    }
    QuantityOfAbsent(items, p);
  }
}
