/** Line-level edits shared by the item operations: rewriting one line in
    place, appending a line, and how quantities, product sets and line
    lookup respond to each. */
module OrderLines {
  import opened Wrappers
  import opened Contracts
  import opened Seqs
  import opened OrderModel

  /** The products a request names. */
  function Requested(request: seq<ItemRequest>): set<Guid> {
    set q | q in request :: q.productId
  }

  /** The request lines with a positive quantity, in request order. */
  function Positive(request: seq<ItemRequest>): (r: seq<ItemRequest>)
    ensures forall i :: 0 <= i < |r| ==> r[i].quantity > 0
    ensures forall q :: q in r <==> q in request && q.quantity > 0
  {
    Filter(request, (q: ItemRequest) => q.quantity > 0)
  }

  /** The quantity the first request line for `productId` asks for. */
  function RequestedQty(request: seq<ItemRequest>, productId: Guid): int {
    if |request| == 0 then 0
    else if request[0].productId == productId then request[0].quantity
    else RequestedQty(request[1..], productId)
  }

  /** The quantity all request lines for `productId` ask for together. */
  function RequestedTotal(request: seq<ItemRequest>, productId: Guid): int {
    if |request| == 0 then 0
    else (if request[0].productId == productId then request[0].quantity else 0)
         + RequestedTotal(request[1..], productId)
  }

  /** Line `k` with a new quantity and unit price; its id and product stay. */
  function Relined(items: seq<OrderItem>, k: nat, quantity: int, price: Money): (r: seq<OrderItem>)
    requires k < |items|
    ensures |r| == |items|
    ensures forall j :: 0 <= j < |r| ==> r[j].orderItemId == items[j].orderItemId && r[j].productId == items[j].productId
  {
    items[k := items[k].(quantity := quantity, unitPrice := price)]
  }

  lemma {:induction false} QuantityOfConcat(a: seq<OrderItem>, b: seq<OrderItem>, productId: Guid)
    ensures QuantityOf(a + b, productId) == QuantityOf(a, productId) + QuantityOf(b, productId)
  {
    if |a| == 0 {
      assert a + b == b;
    } else {
      assert (a + b)[1..] == a[1..] + b;
      QuantityOfConcat(a[1..], b, productId);
    }
  }

  /** Rewriting a line moves its product's quantity by the difference and
      leaves every other product's quantity alone. */
  lemma QuantityOfRelined(items: seq<OrderItem>, k: nat, quantity: int, price: Money, productId: Guid)
    requires k < |items|
    ensures QuantityOf(Relined(items, k, quantity, price), productId)
         == QuantityOf(items, productId) + (if items[k].productId == productId then quantity - items[k].quantity else 0)
  {
    var r := Relined(items, k, quantity, price);
    assert items == items[..k] + [items[k]] + items[k + 1..];
    assert r == items[..k] + [r[k]] + items[k + 1..];
    QuantityOfConcat(items[..k] + [items[k]], items[k + 1..], productId);
    QuantityOfConcat(items[..k], [items[k]], productId);
    QuantityOfConcat(items[..k] + [r[k]], items[k + 1..], productId);
    QuantityOfConcat(items[..k], [r[k]], productId);
  }

  lemma QuantityOfAppended(items: seq<OrderItem>, line: OrderItem, productId: Guid)
    ensures QuantityOf(items + [line], productId)
         == QuantityOf(items, productId) + (if line.productId == productId then line.quantity else 0)
  {
    QuantityOfConcat(items, [line], productId);
  }

  /** Line lookup depends only on the products of the lines. */
  lemma FindLineSameProducts(a: seq<OrderItem>, b: seq<OrderItem>, productId: Guid)
    requires |a| == |b|
    requires forall j :: 0 <= j < |a| ==> a[j].productId == b[j].productId
    ensures FindLine(a, productId) == FindLine(b, productId)
  {
    var fa, fb := FindLine(a, productId), FindLine(b, productId);
    if fa.Some? && fb.Some? {
      assert !(fa.value < fb.value) && !(fb.value < fa.value);
    }
  }

  /** An appended line is found only for its own product, and only when no
      earlier line has it. */
  lemma FindLineAppended(items: seq<OrderItem>, line: OrderItem, productId: Guid)
    ensures productId != line.productId ==> FindLine(items + [line], productId) == FindLine(items, productId)
    ensures FindLine(items, productId).Some? ==> FindLine(items + [line], productId) == FindLine(items, productId)
    ensures productId == line.productId && FindLine(items, productId).None? ==>
      FindLine(items + [line], productId) == Some(|items|)
  {
    var f, g := FindLine(items, productId), FindLine(items + [line], productId);
    if f.Some? {
      assert (items + [line])[f.value] == items[f.value];
    } else if productId != line.productId {
      assert g.None? by {
        forall j | 0 <= j < |items + [line]|
          ensures (items + [line])[j].productId != productId
        {
          if j < |items| {
            assert (items + [line])[j] == items[j];
          }
        }
      }
    } else {
      assert (items + [line])[|items|] == line;
    }
  }

  lemma ProductsAppended(items: seq<OrderItem>, line: OrderItem)
    ensures Products(items + [line]) == Products(items) + {line.productId}
    ensures line.productId !in Products(items) && DistinctProducts(items) ==> DistinctProducts(items + [line])
  {
    var r := items + [line];
    assert line in r;
    forall p | p in Products(r)
      ensures p in Products(items) + {line.productId}
    {
      var it :| it in r && it.productId == p;
      var j :| 0 <= j < |r| && r[j] == it;
      if j < |items| {
        assert items[j] == it;
      }
    }
    forall p | p in Products(items)
      ensures p in Products(r)
    {
      var it :| it in items && it.productId == p;
      assert it in r;
    }
    if line.productId !in Products(items) && DistinctProducts(items) {
      forall i, j | 0 <= i < j < |r|
        ensures r[i].productId != r[j].productId
      {
        assert r[i] == items[i];
        if j < |items| {
          assert r[j] == items[j];
        } else {
          assert items[i] in items;
        }
      }
    }
  }

  lemma ProductsRelined(items: seq<OrderItem>, k: nat, quantity: int, price: Money)
    requires k < |items|
    ensures Products(Relined(items, k, quantity, price)) == Products(items)
    ensures DistinctProducts(items) ==> DistinctProducts(Relined(items, k, quantity, price))
  {
    var r := Relined(items, k, quantity, price);
    forall p | p in Products(r)
      ensures p in Products(items)
    {
      var it :| it in r && it.productId == p;
      var j :| 0 <= j < |r| && r[j] == it;
      assert items[j] in items;
    }
    forall p | p in Products(items)
      ensures p in Products(r)
    {
      var it :| it in items && it.productId == p;
      var j :| 0 <= j < |items| && items[j] == it;
      assert r[j] in r;
    }
  }

  /** `Requested` of a request is its first product plus the rest's, and
      with distinct products the first is not among the rest. */
  lemma RequestedCons(request: seq<ItemRequest>)
    requires |request| > 0
    ensures Requested(request) == {request[0].productId} + Requested(request[1..])
    ensures Distinct(RequestedIds(request)) ==>
      Distinct(RequestedIds(request[1..])) && request[0].productId !in Requested(request[1..])
  {
    var tail := request[1..];
    assert request == [request[0]] + tail;
    if Distinct(RequestedIds(request)) {
      RequestedTailDistinct(request);
    }
  }

  lemma RequestedTailDistinct(request: seq<ItemRequest>)
    requires |request| > 0 && Distinct(RequestedIds(request))
    ensures Distinct(RequestedIds(request[1..])) && request[0].productId !in Requested(request[1..])
  {
    var ids := RequestedIds(request);
    var tail := request[1..];
    assert RequestedIds(tail) == ids[1..];
    forall q | q in tail
      ensures q.productId != request[0].productId
    {
      var i :| 0 <= i < |tail| && tail[i] == q;
      assert ids[i + 1] == q.productId;
    }
  }

  /** The `OrderUpdatedEvent` for an order after an item change. The
      source passes the order's creation time in the timestamp slot. */
  function UpdatedEvent(orderId: Guid, o: Order, catalog: map<Guid, Product>): Event {
    OrderUpdated(orderId, o.customerId, o.paymentType, Total(o.items), o.createdAt, Snapshot(o.items, catalog))
  }

  /** Dropping lines keeps an order one-line-per-product. */
  lemma {:induction false} FilterDistinctProducts(items: seq<OrderItem>, keep: OrderItem -> bool)
    requires DistinctProducts(items)
    ensures DistinctProducts(Filter(items, keep))
  {
    if |items| > 0 {
      var tail := items[1..];
      assert DistinctProducts(tail) by {
        forall i, j | 0 <= i < j < |tail|
          ensures tail[i].productId != tail[j].productId
        {
          assert tail[i] == items[i + 1] && tail[j] == items[j + 1];
        }
      }
      FilterDistinctProducts(tail, keep);
      if keep(items[0]) {
        var r := Filter(tail, keep);
        var f := [items[0]] + r;
        assert forall it :: it in r ==> it.productId != items[0].productId by {
          forall it | it in r
            ensures it.productId != items[0].productId
          {
            assert it in tail;
            var k :| 0 <= k < |tail| && tail[k] == it;
            assert items[k + 1] == it;
          }
        }
        forall i, j | 0 <= i < j < |f|
          ensures f[i].productId != f[j].productId
        {
          assert f[j] == r[j - 1];
          assert r[j - 1] in r;
          if i > 0 {
            assert f[i] == r[i - 1];
          }
        }
      }
    }
  }
}
