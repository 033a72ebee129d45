/** The payment service's reaction to a confirmed order: a fixed wallet
    balance decides between success and failure. */
module Payment {
  import opened Contracts
  import opened OrderModel
  import opened OrderLifecycle

  /** The wallet balance every payment is checked against: 500.00. */
  const WalletBalance: Money := 50000

  /** `OrderConfirmedConsumer.Consume`: exactly one event is published,
      success when the wallet covers the total and failure otherwise. The
      payment id and the clock are parameters. */
  function Pay(confirmed: Event, paymentId: Guid, now: Time): (events: seq<Event>)
    requires confirmed.OrderConfirmed?
    ensures |events| == 1
    ensures events[0].PaymentSucceeded? || events[0].PaymentFailed?
    ensures events[0].PaymentSucceeded? <==> confirmed.totalPrice <= WalletBalance
    ensures events[0].paymentId == paymentId && events[0].orderId == confirmed.orderId
    ensures events[0].customerId == confirmed.customerId
    ensures events[0].PaymentSucceeded? ==> events[0].amount == confirmed.totalPrice && events[0].paidAt == now
    ensures events[0].PaymentFailed? ==> events[0].reason == "Insufficient balance." && events[0].failedAt == now
  {
    if WalletBalance >= confirmed.totalPrice then
      [PaymentSucceeded(paymentId, confirmed.orderId, confirmed.customerId, confirmed.totalPrice, now)]
    else
      [PaymentFailed(paymentId, confirmed.orderId, confirmed.customerId, "Insufficient balance.", now)]
  }

  /** Confirming an order and paying for it succeeds exactly when the
      order's lines total at most the wallet balance. */
  lemma ConfirmedOrderPaidIff(s: Store, orderId: Guid, now: Time, paymentId: Guid, paidAt: Time)
    requires ConfirmOrder(s, orderId, now).Success?
    ensures var confirmed := ConfirmOrder(s, orderId, now).value.events[0];
      && confirmed.OrderConfirmed?
      && (Pay(confirmed, paymentId, paidAt)[0].PaymentSucceeded? <==> Total(s.orders[orderId].items) <= WalletBalance)
  {
  }
}
