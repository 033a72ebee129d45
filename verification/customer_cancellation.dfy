/** The order service's reaction to a deleted user account: every order
    of that customer is cancelled in one bulk update. */
module CustomerCancellation {
  import opened Contracts
  import opened OrderModel

  /** The ids of the orders placed by `customerId`. */
  function OwnedBy(orders: map<Guid, Order>, customerId: Guid): set<Guid> {
    set id | id in orders && orders[id].customerId == customerId
  }

  /** `UserDeletedConsumer.Consume`: the bulk status update and the count
      it reports. Orders of the customer become Cancelled whatever their
      status; only the status field is written; other customers' orders
      and the catalog are untouched. */
  function CancelCustomerOrders(s: Store, customerId: Guid): (r: (Store, nat))
    ensures r.0.catalog == s.catalog
    ensures r.0.orders.Keys == s.orders.Keys
    ensures forall id :: id in s.orders && s.orders[id].customerId == customerId ==>
      r.0.orders[id] == s.orders[id].(status := Cancelled)
    ensures forall id :: id in s.orders && s.orders[id].customerId != customerId ==>
      r.0.orders[id] == s.orders[id]
    ensures r.1 == |OwnedBy(s.orders, customerId)|
  {
    var orders := map id | id in s.orders ::
      if s.orders[id].customerId == customerId then s.orders[id].(status := Cancelled) else s.orders[id];
    (s.(orders := orders), |OwnedBy(s.orders, customerId)|)
  }

  /** After the update the customer has no order in any other status, and
      the number of that customer's orders is what was reported. */
  lemma CancelCustomerOrdersCancelsAll(s: Store, customerId: Guid)
    ensures var (s', n) := CancelCustomerOrders(s, customerId);
      && (forall id :: id in s'.orders && s'.orders[id].customerId == customerId ==> s'.orders[id].status == Cancelled)
      && OwnedBy(s'.orders, customerId) == OwnedBy(s.orders, customerId)
      && n == |OwnedBy(s'.orders, customerId)|
  {
  }

  /** The bulk update keeps the store invariant: it writes statuses only. */
  lemma CancelCustomerOrdersKeepsValid(s: Store, customerId: Guid)
    requires Valid(s)
    ensures Valid(CancelCustomerOrders(s, customerId).0)
  {
  }
}
