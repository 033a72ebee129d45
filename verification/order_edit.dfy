/** `EditOrderAsync`: the smart merge, which treats the request as the
    desired final list of lines. Lines for products the request omits are
    deleted, lines it names are set to the requested quantity at the
    current catalog price, and products new to the order get new lines. */
module OrderEdit {
  import opened Wrappers
  import opened Contracts
  import opened Seqs
  import opened OrderModel
  import opened OrderLines
  import opened OrderLifecycle

  /** A line of an edit request; the source treats its product and
      quantity as optional, and never reads the client's unit price. */
  datatype EditLine = EditLine(productId: Option<Guid>, quantity: Option<int>, unitPrice: Money)

  /** The lines the merge acts on: product and quantity present, quantity positive. */
  predicate Usable(line: EditLine) {
    line.productId.Some? && line.quantity.Some? && line.quantity.value > 0
  }

  function AsRequest(line: EditLine): ItemRequest
    requires Usable(line)
  {
    ItemRequest(line.productId.value, line.quantity.value, line.unitPrice)
  }

  /** The usable lines of a request, in request order. */
  function Wanted(lines: seq<EditLine>): (r: seq<ItemRequest>)
    ensures |r| <= |lines|
    ensures forall i :: 0 <= i < |r| ==> r[i].quantity > 0
    ensures |r| == 0 <==> forall i :: 0 <= i < |lines| ==> !Usable(lines[i])
    ensures forall p :: p in Requested(r) <==>
      exists i :: 0 <= i < |lines| && Usable(lines[i]) && lines[i].productId.value == p
  {
    if |lines| == 0 then []
    else
      var rest := Wanted(lines[1..]);
      assert forall i :: 1 <= i < |lines| ==> lines[i] == lines[1..][i - 1];
      var r := if Usable(lines[0]) then [AsRequest(lines[0])] + rest else rest;
      assert forall q :: q in r <==> (Usable(lines[0]) && q == AsRequest(lines[0])) || q in rest;
      assert forall p :: p in Requested(r) <==>
        (Usable(lines[0]) && lines[0].productId.value == p) || p in Requested(rest) by {
        forall p | p in Requested(rest)
          ensures p in Requested(r)
        {
          var q :| q in rest && q.productId == p;
          assert q in r;
        }
        if Usable(lines[0]) {
          assert AsRequest(lines[0]) in r;
        }
      }
      r
  }

  /** The outcome of merging: the lines, and whether anything changed. */
  datatype Merged = Merged(items: seq<OrderItem>, changed: bool)

  /** One desired line: update the first line for its product when the
      quantity or price differs, or add a new line. */
  function MergeLine(items: seq<OrderItem>, q: ItemRequest, price: Money, freshId: Guid): Merged {
    match FindLine(items, q.productId)
    case Some(k) =>
      Merged(Relined(items, k, q.quantity, price), items[k].quantity != q.quantity || items[k].unitPrice != price)
    case None =>
      Merged(items + [OrderItem(freshId, q.productId, q.quantity, price)], true)
  }

  /** The merge loop over the desired lines, in request order. */
  function MergeAll(items: seq<OrderItem>, wanted: seq<ItemRequest>, catalog: map<Guid, Product>,
                    newItemId: nat -> Guid, next: nat): Merged
    decreases |wanted|
  {
    if |wanted| == 0 then Merged(items, false)
    else
      var m := MergeLine(items, wanted[0], PriceOf(catalog, wanted[0].productId), newItemId(next));
      var rest := MergeAll(m.items, wanted[1..], catalog, newItemId, next + 1);
      Merged(rest.items, m.changed || rest.changed)
  }

  /** One merge step keeps one line per product, keeps the existing lines
      in place, touches only the requested product's line, and leaves that
      line with the requested quantity and the given price. */
  lemma MergeLineSpec(items: seq<OrderItem>, q: ItemRequest, price: Money, freshId: Guid)
    requires DistinctProducts(items)
    ensures var m := MergeLine(items, q, price, freshId).items;
      && |m| >= |items|
      && (forall j :: 0 <= j < |items| ==> m[j].orderItemId == items[j].orderItemId && m[j].productId == items[j].productId)
      && (forall j :: 0 <= j < |items| && items[j].productId != q.productId ==> m[j] == items[j])
      && (forall j :: |items| <= j < |m| ==> m[j].productId == q.productId)
      && DistinctProducts(m)
      && Products(m) == Products(items) + {q.productId}
      && (forall j :: 0 <= j < |m| && m[j].productId == q.productId ==> m[j].quantity == q.quantity && m[j].unitPrice == price)
  {
    match FindLine(items, q.productId)
    case Some(k) =>
      ProductsRelined(items, k, q.quantity, price);
      assert q.productId in Products(items) by { assert items[k] in items; }
    case None =>
      var line := OrderItem(freshId, q.productId, q.quantity, price);
      assert q.productId !in Products(items);
      ProductsAppended(items, line);
  }

  /** The merge loop, for distinct requested products: one line per
      product; existing lines stay in place and keep their ids; lines for
      unrequested products are untouched; appended lines are for requested
      products; and every line of a requested product carries the
      requested quantity and the catalog price. */
  lemma {:induction false} MergeAllSpec(items: seq<OrderItem>, wanted: seq<ItemRequest>, catalog: map<Guid, Product>,
                                        newItemId: nat -> Guid, next: nat)
    requires DistinctProducts(items)
    requires Distinct(RequestedIds(wanted))
    decreases |wanted|
    ensures var r := MergeAll(items, wanted, catalog, newItemId, next).items;
      && |r| >= |items|
      && (forall j :: 0 <= j < |items| ==> r[j].orderItemId == items[j].orderItemId && r[j].productId == items[j].productId)
      && (forall j :: 0 <= j < |items| && items[j].productId !in Requested(wanted) ==> r[j] == items[j])
      && (forall j :: |items| <= j < |r| ==> r[j].productId in Requested(wanted))
      && DistinctProducts(r)
      && Products(r) == Products(items) + Requested(wanted)
      && (forall j :: 0 <= j < |r| && r[j].productId in Requested(wanted) ==>
            r[j].quantity == RequestedQty(wanted, r[j].productId) && r[j].unitPrice == PriceOf(catalog, r[j].productId))
  {
    if |wanted| > 0 {
      var q := wanted[0];
      var tail := wanted[1..];
      var m := MergeLine(items, q, PriceOf(catalog, q.productId), newItemId(next)).items;
      var r := MergeAll(items, wanted, catalog, newItemId, next).items;
      RequestedCons(wanted);
      MergeLineSpec(items, q, PriceOf(catalog, q.productId), newItemId(next));
      MergeAllSpec(m, tail, catalog, newItemId, next + 1);
      assert r == MergeAll(m, tail, catalog, newItemId, next + 1).items;
      forall j | 0 <= j < |r| && r[j].productId in Requested(wanted)
        ensures r[j].quantity == RequestedQty(wanted, r[j].productId)
        ensures r[j].unitPrice == PriceOf(catalog, r[j].productId)
      {
        if r[j].productId == q.productId {
          assert j < |m|;
          assert r[j] == m[j];
        }
      }
    }
  }

  /** The merge reports a change exactly when the lines it returns differ
      from the lines it was given. */
  lemma {:induction false} MergeAllChangedIff(items: seq<OrderItem>, wanted: seq<ItemRequest>, catalog: map<Guid, Product>,
                                              newItemId: nat -> Guid, next: nat)
    requires DistinctProducts(items)
    requires Distinct(RequestedIds(wanted))
    decreases |wanted|
    ensures MergeAll(items, wanted, catalog, newItemId, next).changed <==>
            MergeAll(items, wanted, catalog, newItemId, next).items != items
  {
    if |wanted| > 0 {
      var q := wanted[0];
      var tail := wanted[1..];
      var price := PriceOf(catalog, q.productId);
      var step := MergeLine(items, q, price, newItemId(next));
      var m := step.items;
      var r := MergeAll(items, wanted, catalog, newItemId, next).items;
      RequestedCons(wanted);
      MergeLineSpec(items, q, price, newItemId(next));
      MergeAllSpec(m, tail, catalog, newItemId, next + 1);
      MergeAllChangedIff(m, tail, catalog, newItemId, next + 1);
      match FindLine(items, q.productId)
      case Some(k) =>
        if step.changed {
          assert m[k] != items[k];
          assert r[k] == m[k];
        } else {
          assert m == items;
        }
      case None =>
        assert |r| >= |m| > |items|;
    }
  }

  /** Steps 1 and 2 of the merge: drop the lines whose product the
      request omits, then merge the desired lines into the rest. */
  function SmartMerge(items: seq<OrderItem>, wanted: seq<ItemRequest>, catalog: map<Guid, Product>,
                      newItemId: nat -> Guid): Merged
  {
    var keep := Requested(wanted);
    var removesSome := exists j :: 0 <= j < |items| && items[j].productId !in keep;
    var kept := Filter(items, (it: OrderItem) => it.productId in keep);
    var merged := MergeAll(kept, wanted, catalog, newItemId, 0);
    Merged(merged.items, removesSome || merged.changed)
  }

  /** The lines kept by step 1 name requested products only, one line each. */
  lemma KeptLines(items: seq<OrderItem>, wanted: seq<ItemRequest>)
    requires DistinctProducts(items)
    ensures var kept := Filter(items, (it: OrderItem) => it.productId in Requested(wanted));
      DistinctProducts(kept) && Products(kept) <= Requested(wanted)
  {
    var keepIt := (it: OrderItem) => it.productId in Requested(wanted);
    var kept := Filter(items, keepIt);
    FilterDistinctProducts(items, keepIt);
    forall p | p in Products(kept)
      ensures p in Requested(wanted)
    {
      var it :| it in kept && it.productId == p;
      assert keepIt(it);
    }
  }

  /** For distinct requested products, the merged order has one line per
      requested product and no other, each with the requested quantity and
      the catalog price. */
  lemma SmartMergeSpec(items: seq<OrderItem>, wanted: seq<ItemRequest>, catalog: map<Guid, Product>,
                       newItemId: nat -> Guid)
    requires DistinctProducts(items)
    requires Distinct(RequestedIds(wanted))
    ensures var m := SmartMerge(items, wanted, catalog, newItemId).items;
      && DistinctProducts(m)
      && Products(m) == Requested(wanted)
      && (forall j :: 0 <= j < |m| ==>
            m[j].quantity == RequestedQty(wanted, m[j].productId) && m[j].unitPrice == PriceOf(catalog, m[j].productId))
    ensures var m := SmartMerge(items, wanted, catalog, newItemId).items;
      forall i :: 0 <= i < |items| && items[i].productId in Requested(wanted) ==>
        exists j :: 0 <= j < |m| && m[j].orderItemId == items[i].orderItemId && m[j].productId == items[i].productId
  {
    var kept := Filter(items, (it: OrderItem) => it.productId in Requested(wanted));
    KeptLines(items, wanted);
    MergeAllSpec(kept, wanted, catalog, newItemId, 0);
    var m := SmartMerge(items, wanted, catalog, newItemId).items;
    assert m == MergeAll(kept, wanted, catalog, newItemId, 0).items;
    forall j | 0 <= j < |m|
      ensures m[j].productId in Requested(wanted)
    {
      assert m[j] in m;
    }
    SmartMergeKeepsIds(items, wanted, catalog, newItemId);
  }

  /** Every existing line of a requested product is still in the merged
      order under its own id. */
  lemma SmartMergeKeepsIds(items: seq<OrderItem>, wanted: seq<ItemRequest>, catalog: map<Guid, Product>,
                           newItemId: nat -> Guid)
    requires DistinctProducts(items)
    requires Distinct(RequestedIds(wanted))
    ensures var m := SmartMerge(items, wanted, catalog, newItemId).items;
      forall i :: 0 <= i < |items| && items[i].productId in Requested(wanted) ==>
        exists j :: 0 <= j < |m| && m[j].orderItemId == items[i].orderItemId && m[j].productId == items[i].productId
  {
    var keepIt := (it: OrderItem) => it.productId in Requested(wanted);
    var kept := Filter(items, keepIt);
    KeptLines(items, wanted);
    MergeAllSpec(kept, wanted, catalog, newItemId, 0);
    var m := SmartMerge(items, wanted, catalog, newItemId).items;
    assert m == MergeAll(kept, wanted, catalog, newItemId, 0).items;
    forall i | 0 <= i < |items| && items[i].productId in Requested(wanted)
      ensures exists j :: 0 <= j < |m| && m[j].orderItemId == items[i].orderItemId && m[j].productId == items[i].productId
    {
      assert keepIt(items[i]);
      assert items[i] in kept;
      var k :| 0 <= k < |kept| && kept[k] == items[i];
      assert m[k].orderItemId == kept[k].orderItemId && m[k].productId == kept[k].productId;
    }
  }

  /** The merge reports a change exactly when the lines it returns differ
      from the lines it was given. */
  lemma SmartMergeChangedIff(items: seq<OrderItem>, wanted: seq<ItemRequest>, catalog: map<Guid, Product>,
                             newItemId: nat -> Guid)
    requires DistinctProducts(items)
    requires Distinct(RequestedIds(wanted))
    ensures var m := SmartMerge(items, wanted, catalog, newItemId);
      m.changed <==> m.items != items
  {
    var keepIt := (it: OrderItem) => it.productId in Requested(wanted);
    var kept := Filter(items, keepIt);
    var merged := MergeAll(kept, wanted, catalog, newItemId, 0);
    KeptLines(items, wanted);
    SmartMergeSpec(items, wanted, catalog, newItemId);
    MergeAllChangedIff(kept, wanted, catalog, newItemId, 0);
    FilterAllKept(items, keepIt);
    if exists j :: 0 <= j < |items| && items[j].productId !in Requested(wanted) {
      var j :| 0 <= j < |items| && items[j].productId !in Requested(wanted);
      assert items[j] in items;
      assert items[j].productId in Products(items);
    } else {
      assert kept == items;
    }
  }

  /** `EditOrderAsync`. An empty list changes nothing; otherwise the usable
      lines must be non-empty and name existing products, each once. When
      the merge removes, updates or adds nothing, the order is returned as
      it was and nothing is published. */
  function EditOrder(s: Store, orderId: Guid, lines: seq<EditLine>, newItemId: nat -> Guid): (r: Result<Step, OrderError>)
    ensures orderId !in s.orders ==> r == Failure(KeyNotFound(NoSuchOrder(orderId)))
    ensures orderId in s.orders && s.orders[orderId].status != Pending ==>
      r == Failure(InvalidOperation(NotPending(s.orders[orderId].status)))
    ensures orderId in s.orders && s.orders[orderId].status == Pending && |lines| == 0 ==> r == Success(Step(s, []))
    ensures orderId in s.orders && s.orders[orderId].status == Pending && |lines| > 0
            && (forall i :: 0 <= i < |lines| ==> !Usable(lines[i])) ==>
      r == Failure(InvalidOperation(NoValidItems))
    ensures r.Success? ==> orderId in s.orders && s.orders[orderId].status == Pending
    ensures r.Success? ==>
      || (r.value.store == s && r.value.events == [])
      || (orderId in r.value.store.orders &&
          var o := r.value.store.orders[orderId];
          && r.value.store == s.(orders := s.orders[orderId := s.orders[orderId].(items := o.items)])
          && r.value.events == [UpdatedEvent(orderId, o, s.catalog)])
  {
    var order :- PendingOrder(s, orderId);
    if |lines| == 0 then Success(Step(s, []))
    else
      var wanted := Wanted(lines);
      if |wanted| == 0 then Failure(InvalidOperation(NoValidItems))
      else
        var ids := RequestedIds(wanted);
        if FoundCount(ids, s.catalog) != |ids| then
          Failure(InvalidOperation(ProductsNotFound(Missing(ids, s.catalog))))
        else
          var merged := SmartMerge(order.items, wanted, s.catalog, newItemId);
          if !merged.changed then Success(Step(s, []))
          else
            var edited := order.(items := merged.items);
            Success(Step(s.(orders := s.orders[orderId := edited]), [UpdatedEvent(orderId, edited, s.catalog)]))
  }

  /** A non-empty edit of a Pending order succeeds exactly when some line
      is usable and the usable lines name existing products, each once. */
  lemma EditOrderSucceedsIff(s: Store, orderId: Guid, lines: seq<EditLine>, newItemId: nat -> Guid)
    requires orderId in s.orders && s.orders[orderId].status == Pending && |lines| > 0
    ensures EditOrder(s, orderId, lines, newItemId).Success? <==>
      && |Wanted(lines)| > 0
      && Distinct(RequestedIds(Wanted(lines)))
      && AllFound(RequestedIds(Wanted(lines)), s.catalog)
  {
    FoundCountPasses(RequestedIds(Wanted(lines)), s.catalog);
  }

  /** After an edit of a one-line-per-product order, the order has one
      line per usable requested product and no other, each with the
      requested quantity and the current catalog price. */
  lemma EditOrderMerges(s: Store, orderId: Guid, lines: seq<EditLine>, newItemId: nat -> Guid)
    requires EditOrder(s, orderId, lines, newItemId).Success? && |lines| > 0
    requires DistinctProducts(s.orders[orderId].items)
    ensures var items := EditOrder(s, orderId, lines, newItemId).value.store.orders[orderId].items;
      && DistinctProducts(items)
      && (forall p :: p in Products(items) <==>
            exists i :: 0 <= i < |lines| && Usable(lines[i]) && lines[i].productId.value == p)
      && (forall j :: 0 <= j < |items| ==>
            items[j].quantity == RequestedQty(Wanted(lines), items[j].productId)
            && items[j].unitPrice == PriceOf(s.catalog, items[j].productId))
  {
    var wanted := Wanted(lines);
    FoundCountPasses(RequestedIds(wanted), s.catalog);
    SmartMergeSpec(s.orders[orderId].items, wanted, s.catalog, newItemId);
    SmartMergeChangedIff(s.orders[orderId].items, wanted, s.catalog, newItemId);
    assert EditOrder(s, orderId, lines, newItemId).value.store.orders[orderId].items
        == SmartMerge(s.orders[orderId].items, wanted, s.catalog, newItemId).items;
  }

  /** An edit of a one-line-per-product order publishes an event exactly
      when it changes the store. */
  lemma EditOrderPublishesIffChanged(s: Store, orderId: Guid, lines: seq<EditLine>, newItemId: nat -> Guid)
    requires EditOrder(s, orderId, lines, newItemId).Success?
    requires DistinctProducts(s.orders[orderId].items)
    ensures var r := EditOrder(s, orderId, lines, newItemId).value;
      r.events == [] <==> r.store == s
  {
    if |lines| > 0 {
      var order := s.orders[orderId];
      var wanted := Wanted(lines);
      FoundCountPasses(RequestedIds(wanted), s.catalog);
      SmartMergeChangedIff(order.items, wanted, s.catalog, newItemId);
      var m := SmartMerge(order.items, wanted, s.catalog, newItemId);
      if m.changed {
        assert s.orders[orderId := order.(items := m.items)][orderId] != s.orders[orderId];
      }
    }
  }
}
