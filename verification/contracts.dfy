/** The message contracts exchanged over the broker, and the scalar types
    shared by every service. */
module Contracts {

  /** Identifiers are opaque GUIDs; only equality matters. */
  type Guid = int

  /** Instants, in seconds. */
  type Time = int

  /** Decimal amounts, in cents (the source's decimal arithmetic is exact). */
  type Money = int

  const Minute: int := 60
  const Day: int := 24 * 60 * Minute

  datatype PaymentType = ChompWallet | Cod | EWallet | Bank

  /** The line snapshot nested in order events. */
  datatype EventItem = EventItem(
    orderItemId: Guid,
    productId: Guid,
    productName: string,
    quantity: int,
    unitPrice: Money)

  /** Every event a service of the system publishes. */
  datatype Event =
    | UserCreated(userId: Guid, username: string, email: string, contactNo: string, createdAt: Time)
    | UserUpdated(userId: Guid, username: string, email: string, contactNo: string, updatedAt: Time)
    | UserDeleted(userId: Guid, username: string, email: string, contactNo: string, deletedAt: Time)
    | OrderPlaced(orderId: Guid, customerId: Guid, totalPrice: Money, createdAt: Time, items: seq<EventItem>)
    | OrderUpdated(orderId: Guid, customerId: Guid, paymentType: PaymentType, totalPrice: Money,
                   updatedAt: Time, items: seq<EventItem>)
    | OrderCancelled(orderId: Guid, customerId: Guid, reason: string, cancelledAt: Time)
    | OrderConfirmed(orderId: Guid, customerId: Guid, paymentType: PaymentType, totalPrice: Money,
                     completedAt: Time)
    | ProductCreated(productId: Guid, productName: string, price: Money, stock: int, createdAt: Time)
    | ProductUpdated(productId: Guid, productName: string, price: Money, stock: int, updatedAt: Time)
    | ProductDeleted(productId: Guid, productName: string, deletedAt: Time)
    | PaymentSucceeded(paymentId: Guid, orderId: Guid, customerId: Guid, amount: Money, paidAt: Time)
    | PaymentFailed(paymentId: Guid, orderId: Guid, customerId: Guid, reason: string, failedAt: Time)
}
