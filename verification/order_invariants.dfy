/** The store invariant — positive prices, non-negative stock, and orders
    that are non-empty, one line per product, positive quantities and
    existing products — is kept by every operation on orders. */
module OrderInvariants {
  import opened Wrappers
  import opened Contracts
  import opened Seqs
  import opened OrderModel
  import opened OrderLines
  import opened OrderLifecycle
  import opened OrderEdit
  import opened OrderItems
  import opened Settlement

  /** No two lines of a request name the same product. */
  predicate DistinctRequests(request: seq<ItemRequest>) {
    forall i, j :: 0 <= i < j < |request| ==> request[i].productId != request[j].productId
  }

  lemma DistinctRequestsIds(request: seq<ItemRequest>)
    ensures DistinctRequests(request) <==> Distinct(RequestedIds(request))
  {
    var ids := RequestedIds(request);
    if Distinct(ids) {
      forall i, j | 0 <= i < j < |request|
        ensures request[i].productId != request[j].productId
      {
        assert ids[i] != ids[j];
      }
    }
  }

  /** Filtering a request whose products are named once keeps them named once. */
  lemma {:induction false} FilterRequestsDistinct(request: seq<ItemRequest>, keep: ItemRequest -> bool)
    requires DistinctRequests(request)
    ensures DistinctRequests(Filter(request, keep))
  {
    if |request| > 0 {
      var tail := request[1..];
      assert DistinctRequests(tail) by {
        forall i, j | 0 <= i < j < |tail|
          ensures tail[i].productId != tail[j].productId
        {
          assert tail[i] == request[i + 1] && tail[j] == request[j + 1];
        }
      }
      FilterRequestsDistinct(tail, keep);
      if keep(request[0]) {
        var r := Filter(tail, keep);
        var f := [request[0]] + r;
        assert forall q :: q in r ==> q.productId != request[0].productId by {
          forall q | q in r
            ensures q.productId != request[0].productId
          {
            var k :| 0 <= k < |tail| && tail[k] == q;
            assert request[k + 1] == q;
          }
        }
        forall i, j | 0 <= i < j < |f|
          ensures f[i].productId != f[j].productId
        {
          if i == 0 {
            assert f[j] == r[j - 1] && r[j - 1] in r;
          } else {
            assert f[i] == r[i - 1] && f[j] == r[j - 1];
          }
        }
      }
    }
  }

  /** A creation request that names each product once yields one line per product. */
  lemma PricedLinesDistinct(request: seq<ItemRequest>, catalog: map<Guid, Product>, newItemId: nat -> Guid)
    requires Distinct(RequestedIds(request))
    ensures DistinctProducts(PricedLines(request, catalog, newItemId))
  {
    var kept := Filter(request, (q: ItemRequest) => q.quantity > 0);
    DistinctRequestsIds(request);
    FilterRequestsDistinct(request, (q: ItemRequest) => q.quantity > 0);
    var lines := PricedLines(request, catalog, newItemId);
    assert forall j :: 0 <= j < |lines| ==> lines[j].productId == kept[j].productId;
  }

  lemma CreateOrderKeepsValid(s: Store, request: seq<ItemRequest>, orderId: Guid, customerId: Guid, now: Time,
                              newItemId: nat -> Guid)
    requires Valid(s)
    requires CreateOrder(s, request, orderId, customerId, now, newItemId).Success?
    ensures Valid(CreateOrder(s, request, orderId, customerId, now, newItemId).value.store)
  {
    CreateOrderSucceedsIff(s, request, orderId, customerId, now, newItemId);
    PricedLinesCoverRequest(request, s.catalog, newItemId);
    PricedLinesInCatalog(request, s.catalog, newItemId);
    PricedLinesDistinct(request, s.catalog, newItemId);
  }

  lemma ConfirmOrderKeepsValid(s: Store, orderId: Guid, now: Time)
    requires Valid(s)
    requires ConfirmOrder(s, orderId, now).Success?
    ensures Valid(ConfirmOrder(s, orderId, now).value.store)
  {
  }

  lemma DeleteOrderKeepsValid(s: Store, orderId: Guid, now: Time)
    requires Valid(s)
    requires DeleteOrder(s, orderId, now).Success?
    ensures Valid(DeleteOrder(s, orderId, now).value.store)
  {
  }

  /** A requested product's first requested quantity, in a request of
      positive quantities, is positive. */
  lemma {:induction false} RequestedQtyPositive(request: seq<ItemRequest>, p: Guid)
    requires forall i :: 0 <= i < |request| ==> request[i].quantity > 0
    requires p in Requested(request)
    ensures RequestedQty(request, p) > 0
  {
    if request[0].productId != p {
      var q :| q in request && q.productId == p;
      assert q in request[1..];
      RequestedQtyPositive(request[1..], p);
    }
  }

  /** Every product of a request whose ids all resolve is in the catalog. */
  lemma RequestedInCatalog(request: seq<ItemRequest>, catalog: map<Guid, Product>)
    requires AllFound(RequestedIds(request), catalog)
    ensures Requested(request) <= catalog.Keys
  {
    forall p | p in Requested(request)
      ensures p in catalog
    {
      var q :| q in request && q.productId == p;
      var i :| 0 <= i < |request| && request[i] == q;
      assert RequestedIds(request)[i] == p;
    }
  }

  /** A line at the first requested quantity of a requested product is
      well-formed when the request is. */
  lemma MergedLineWellFormed(line: OrderItem, wanted: seq<ItemRequest>, catalog: map<Guid, Product>)
    requires forall i :: 0 <= i < |wanted| ==> wanted[i].quantity > 0
    requires Requested(wanted) <= catalog.Keys
    requires line.productId in Requested(wanted)
    requires line.quantity == RequestedQty(wanted, line.productId)
    ensures line.quantity > 0 && line.productId in catalog
  {
    RequestedQtyPositive(wanted, line.productId);
  }

  /** Lines covering a non-empty request's products are not empty. */
  lemma CoveringLinesNonEmpty(m: seq<OrderItem>, wanted: seq<ItemRequest>)
    requires |wanted| > 0
    requires Requested(wanted) <= Products(m)
    ensures |m| > 0
  {
    assert wanted[0] in wanted;
    assert wanted[0].productId in Products(m);
    var it :| it in m && it.productId == wanted[0].productId;
  }

  lemma EditOrderKeepsValid(s: Store, orderId: Guid, lines: seq<EditLine>, newItemId: nat -> Guid)
    requires Valid(s)
    requires EditOrder(s, orderId, lines, newItemId).Success?
    ensures Valid(EditOrder(s, orderId, lines, newItemId).value.store)
  {
    var r := EditOrder(s, orderId, lines, newItemId).value;
    if r.store != s {
      var wanted := Wanted(lines);
      EditOrderSucceedsIff(s, orderId, lines, newItemId);
      RequestedInCatalog(wanted, s.catalog);
      FoundCountPasses(RequestedIds(wanted), s.catalog);
      SmartMergeSpec(s.orders[orderId].items, wanted, s.catalog, newItemId);
      var m := SmartMerge(s.orders[orderId].items, wanted, s.catalog, newItemId).items;
      assert r.store.orders[orderId].items == m;
      CoveringLinesNonEmpty(m, wanted);
      forall j | 0 <= j < |m|
        ensures m[j].quantity > 0 && m[j].productId in s.catalog
      {
        assert m[j] in m;
        MergedLineWellFormed(m[j], wanted, s.catalog);
      }
    }
  }

  /** A product named in a request of positive quantities is asked for a
      positive total. */
  lemma {:induction false} RequestedTotalPositive(request: seq<ItemRequest>, p: Guid)
    requires forall i :: 0 <= i < |request| ==> request[i].quantity > 0
    requires p in Requested(request)
    ensures RequestedTotal(request, p) > 0
  {
    RequestedTotalNonNegative(request[1..], p);
    if request[0].productId != p {
      var q :| q in request && q.productId == p;
      assert q in request[1..];
      RequestedTotalPositive(request[1..], p);
    }
  }

  lemma {:induction false} QuantityOfPositive(items: seq<OrderItem>, p: Guid)
    requires forall k :: 0 <= k < |items| ==> items[k].quantity > 0
    ensures QuantityOf(items, p) >= 0
    ensures p in Products(items) ==> QuantityOf(items, p) > 0
  {
    if |items| > 0 {
      QuantityOfPositive(items[1..], p);
      if p in Products(items) && items[0].productId != p {
        var it :| it in items && it.productId == p;
        assert it in items[1..];
      }
    }
  }

  /** Lines that raise a well-formed order's quantities by a request of
      positive quantities for existing products are well-formed. */
  lemma AddedLinesWellFormed(old_: seq<OrderItem>, valid: seq<ItemRequest>, items: seq<OrderItem>,
                             catalog: map<Guid, Product>)
    requires forall k :: 0 <= k < |old_| ==> old_[k].quantity > 0 && old_[k].productId in catalog
    requires forall i :: 0 <= i < |valid| ==> valid[i].quantity > 0
    requires Requested(valid) <= catalog.Keys
    requires DistinctProducts(items)
    requires Products(items) == Products(old_) + Requested(valid)
    requires forall p :: QuantityOf(items, p) == QuantityOf(old_, p) + RequestedTotal(valid, p)
    ensures forall j :: 0 <= j < |items| ==> items[j].quantity > 0 && items[j].productId in catalog
  {
    forall j | 0 <= j < |items|
      ensures items[j].quantity > 0 && items[j].productId in catalog
    {
      var p := items[j].productId;
      assert items[j] in items;
      QuantityOfLine(items, items[j]);
      QuantityOfPositive(old_, p);
      RequestedTotalNonNegative(valid, p);
      if p in Products(old_) {
        var it :| it in old_ && it.productId == p;
        var k :| 0 <= k < |old_| && old_[k] == it;
      } else {
        RequestedTotalPositive(valid, p);
      }
    }
  }

  lemma AddItemsKeepsValid(s: Store, orderId: Guid, request: seq<ItemRequest>, newItemId: nat -> Guid)
    requires Valid(s)
    requires AddItems(s, orderId, request, newItemId).Success?
    ensures Valid(AddItems(s, orderId, request, newItemId).value.store)
  {
    var valid := Positive(request);
    AddItemsSucceedsIff(s, orderId, request, newItemId);
    RequestedInCatalog(valid, s.catalog);
    AddItemsIncrements(s, orderId, request, newItemId);
    AddItemsRefreshesPrices(s, orderId, request, newItemId);
    AddedLinesWellFormed(s.orders[orderId].items, valid,
                         AddItems(s, orderId, request, newItemId).value.store.orders[orderId].items, s.catalog);
  }

  /** The lines a removal leaves on a well-formed order are well-formed
      apart from being possibly empty. */
  lemma SurvivorsWellFormed(items: seq<OrderItem>, valid: seq<ItemRequest>, catalog: map<Guid, Product>)
    requires DistinctProducts(items)
    requires forall k :: 0 <= k < |items| ==> items[k].quantity > 0 && items[k].productId in catalog
    requires forall i :: 0 <= i < |valid| ==> valid[i].quantity > 0
    ensures var plan := RemoveAll(Removal(items, [], false), valid);
      var left := Survivors(plan.items, plan.removed);
      && DistinctProducts(left)
      && forall j :: 0 <= j < |left| ==> left[j].quantity > 0 && left[j].productId in catalog
  {
    var plan := RemoveAll(Removal(items, [], false), valid);
    var left := Survivors(plan.items, plan.removed);
    RemoveAllSpec(Removal(items, [], false), valid);
    SurvivorsFromMembers(plan.items, plan.removed, 0);
    SurvivorsDistinct(plan.items, plan.removed, 0);
    forall j | 0 <= j < |left|
      ensures left[j].quantity > 0 && left[j].productId in catalog
    {
      assert left[j] in left;
      var k :| 0 <= k < |plan.items| && k !in plan.removed && plan.items[k] == left[j];
    }
  }

  lemma RemoveItemsKeepsValid(s: Store, orderId: Guid, request: seq<ItemRequest>, now: Time)
    requires Valid(s)
    requires RemoveItems(s, orderId, request, now).Success?
    ensures Valid(RemoveItems(s, orderId, request, now).value.store)
  {
    var st := RemoveItems(s, orderId, request, now).value.store;
    if orderId in st.orders {
      var plan := RemoveAll(Removal(s.orders[orderId].items, [], false), Positive(request));
      assert st.orders[orderId].items == Survivors(plan.items, plan.removed);
      SurvivorsWellFormed(s.orders[orderId].items, Positive(request), s.catalog);
    }
  }

  /** Settling a payment keeps the invariant: referenced products do not
      go below zero, and only stock and one order's status change. */
  lemma SettleKeepsValid(s: Store, orderId: Guid)
    requires Valid(s)
    requires Settle(s, orderId).Success?
    ensures Valid(Settle(s, orderId).value)
  {
    if orderId in s.orders {
      var st := Settle(s, orderId).value;
      var items := s.orders[orderId].items;
      forall id | id in st.catalog
        ensures st.catalog[id].productId == id && ProductValid(st.catalog[id])
      {
        if id !in Products(items) {
          SettleLeavesOthers(s, orderId, id);
        }
      }
    }
  }
}
