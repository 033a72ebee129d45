# Chomp: order, payment and account core in Dafny

This project models the business core of Chomp, a small set of C# microservices, as pure Dafny functions over immutable state. It proves properties about those functions.

- **Order service.** The order lifecycle: create, confirm, edit (the "smart merge"), add items, remove items, and delete. Also the `GetOrderDto` projection, the product catalog, and two message consumers:
  - the one that settles a paid order and takes its stock;
  - the one that cancels a deleted customer's orders.
- **Payment service.** The decision to accept or refuse a confirmed order against the fixed wallet.
- **User service.**
  - Accounts: sign-up, profile edit, hard delete, soft delete, restore, and the queries.
  - The daily purge of accounts whose grace period is over.
  - Refresh tokens: activity, revocation, validation, and the refresh exchange.
  - Sign-in: the credential check and the last-sign-in stamp.
  - The account-status request filter and the "may modify this user" rule.

Conventions:
- An operation returns `Result<…, Error>`. The error carries the exception class the service throws (`KeyNotFound`, `InvalidOperation`, `Unauthorized`) and a reason.
- A success carries the saved state and the events published, in order.
- Money is an integer number of cents; C# `decimal` is exact for these values. Time is an integer number of seconds.
- Guids are integers. Fresh ids, the clock, BCrypt hashing and verification, `Guid.TryParse`, and the claims read from an access token are parameters.
- The user and refresh-token tables are sequences in table order, so "first match" means what `FirstOrDefaultAsync` returns. Orders and products are maps keyed by id.
- Each service has a store invariant: `OrderModel.Valid` and `UsersModel.Valid`. A `…KeepsValid` lemma shows that each writing operation preserves it.

## Model

| member | source | states |
|---|---|---|
| OrderLifecycle.CreateOrder | OrderService/Services/OrderService.cs:58-159 | An empty request is refused. On success the new Pending order holds exactly the positively-quantified lines at catalog prices, and OrderPlaced carries its total; the store is otherwise unchanged |
| OrderLifecycle.CreateOrderSucceedsIff | OrderService/Services/OrderService.cs:60-129 | Creation succeeds exactly when the request is non-empty, names each product once, every product exists with enough stock, and some line has a positive quantity |
| OrderLifecycle.CreateOrderReportsMissing | OrderService/Services/OrderService.cs:74-82 | A missing or repeated product fails with one KeyNotFound that lists every requested id absent from the catalog |
| OrderLifecycle.CreateOrderReportsShortfalls | OrderService/Services/OrderService.cs:84-101 | Insufficient stock fails with one error naming every line that asks for more than its product's stock |
| OrderLifecycle.FoundCountPasses | OrderService/Services/OrderService.cs:67-75 | The product-count check passes exactly when every requested id exists and none repeats |
| OrderLifecycle.PricedLinesFromRequest | OrderService/Services/OrderService.cs:109-121 | Every line of a new order comes from a request line with the same product and quantity |
| OrderLifecycle.PricedLinesCoverRequest | OrderService/Services/OrderService.cs:109-129 | Every request line with a positive quantity becomes a line; the order is empty exactly when none has one |
| OrderLifecycle.PricedLinesInCatalog | OrderService/Services/OrderService.cs:111-117 | Each new line names a catalog product and carries its current price |
| OrderLifecycle.PendingOrder | OrderService/Services/OrderService.cs:163-178 | Succeeds exactly for an existing Pending order; an unknown id is KeyNotFound and any other status is InvalidOperation |
| OrderLifecycle.ConfirmOrder | OrderService/Services/OrderService.cs:161-192 | Only a Pending order is confirmed; only its status changes, and OrderConfirmed carries the order total |
| OrderLifecycle.DeleteOrder | OrderService/Services/OrderService.cs:582-611 | Only a Pending order is deleted; it alone leaves the store, and OrderCancelled is published |
| OrderEdit.EditOrder | OrderService/Services/OrderService.cs:194-329 | An empty list changes nothing. Otherwise some usable line must exist and the usable lines must name existing products once each. An edit that changes nothing returns the order as it was and publishes nothing |
| OrderEdit.EditOrderSucceedsIff | OrderService/Services/OrderService.cs:201-240 | A non-empty edit of a Pending order succeeds exactly when some line is usable and the usable lines name existing products, each once |
| OrderEdit.EditOrderMerges | OrderService/Services/OrderService.cs:242-293 | Afterwards the order has one line per usable requested product and no other, each with the requested quantity and the current catalog price |
| OrderEdit.EditOrderPublishesIffChanged | OrderService/Services/OrderService.cs:296-325 | An edit publishes an event exactly when it changes the store |
| OrderEdit.SmartMergeSpec | OrderService/Services/OrderService.cs:242-293 | The merged lines are exactly one per requested product, with its quantity and catalog price; existing lines keep their ids |
| OrderEdit.SmartMergeChangedIff | OrderService/Services/OrderService.cs:245-293 | The merge's change flag is raised exactly when the resulting lines differ from the original ones |
| OrderItems.AddItems | OrderService/Services/OrderService.cs:331-444 | Requires a non-empty request with a positive line whose products exist, each once; on success the order is saved and OrderUpdated published |
| OrderItems.AddItemsSucceedsIff | OrderService/Services/OrderService.cs:338-380 | Adding to a Pending order succeeds exactly when some line is positive and the positive lines name existing products, each once |
| OrderItems.AddItemsIncrements | OrderService/Services/OrderService.cs:385-415 | Existing lines keep their ids and products; each product's total quantity rises by the total requested for it; new lines are for requested products only |
| OrderItems.AddItemsRefreshesPrices | OrderService/Services/OrderService.cs:387-410 | One line per product is kept, and each requested product's line carries the current catalog price |
| OrderItems.RemoveItems | OrderService/Services/OrderService.cs:446-580 | Corrected removal: the order is deleted exactly when no line with a quantity survives; otherwise the survivors are saved and OrderUpdated published |
| OrderItems.RemoveItemsSucceedsIff | OrderService/Services/OrderService.cs:453-520 | A non-empty removal from a Pending order with a positive line succeeds exactly when some positively requested product has a line |
| OrderItems.RemoveItemsQuantities | OrderService/Services/OrderService.cs:485-514 | When the order survives, each product's quantity drops by the total requested for it, floored at zero, and lines keep their ids, products and prices |
| OrderItems.RemoveItemsDeletesIff | OrderService/Services/OrderService.cs:497-552 | The order is deleted exactly when every line's product is asked for at least the line's quantity |
| OrderItems.RemoveItemsAsWritten | OrderService/Services/OrderService.cs:446-580 | As written: the same error cases and store frame as the corrected removal, but the order is deleted whenever the deletion list is as long as the order's line list, duplicates included |
| OrderItems.RemoveItemsAsWrittenDeletesSurvivor | OrderService/Services/OrderService.cs:497-539 | As written, two request lines for one product delete an order although another line remains |
| OrderItems.RemoveItemsKeepsSurvivor | OrderService/Services/OrderService.cs:522-555 | The corrected removal keeps that order with its surviving line |
| OrderProjection.ViewOf | OrderService/Services/OrderService.cs:613-637 | One item view per order line, in order, each totalling UnitPrice × Quantity; the header total is their sum |
| OrderProjection.ViewsTotalIsTotal | OrderService/Services/Helper/MapToGetOrderDto.cs:11-28 | The sum of the shown line totals equals the order total |
| OrderProjection.GetOrderById | OrderService/Services/OrderService.cs:43-56 | The full view of the stored order, lines included, or KeyNotFound exactly when the id is unknown |
| OrderProjection.GetAll | OrderService/Services/OrderService.cs:28-41 | The full view of every stored order and nothing else; KeyNotFound exactly when there are none |
| Settlement.TakeStock | OrderService/Consumers/PaymentSucceededConsumer.cs:45-62 | On success each product has lost exactly the order's quantity of it, none went negative, and nothing else changed |
| Settlement.TakeStockSucceedsIff | OrderService/Consumers/PaymentSucceededConsumer.cs:47-55 | The line-by-line stock check fails exactly when some product's total demand exceeds its stock |
| Settlement.Settle | OrderService/Consumers/PaymentSucceededConsumer.cs:21-77 | An unknown order is ignored; a known one becomes Completed and its lines leave stock; a failure saves nothing |
| Settlement.SettleSucceedsIff | OrderService/Consumers/PaymentSucceededConsumer.cs:30-64 | Settling a known order fails exactly when some product it references is missing or short of the order's demand |
| Settlement.SettleLeavesOthers | OrderService/Consumers/PaymentSucceededConsumer.cs:47-62 | Products the order does not reference keep their stock |
| CustomerCancellation.CancelCustomerOrders | OrderService/Consumers/UserDeletedConsumer.cs:21-33 | Every order of the customer becomes Cancelled, only the status is written, other orders and the catalog stay, and the reported count is the customer's order count |
| CustomerCancellation.CancelCustomerOrdersCancelsAll | OrderService/Consumers/UserDeletedConsumer.cs:26-29 | Afterwards the customer has no order in any status but Cancelled |
| CustomerCancellation.CancelCustomerOrdersKeepsValid | OrderService/Consumers/UserDeletedConsumer.cs:26-29 | The bulk update keeps the order store invariant |
| OrderInvariants.CreateOrderKeepsValid | OrderService/Services/OrderService.cs:103-132 | A created order is well-formed: lines exist, positive, one per product |
| OrderInvariants.ConfirmOrderKeepsValid | OrderService/Services/OrderService.cs:180-181 | Confirmation keeps the store invariant |
| OrderInvariants.DeleteOrderKeepsValid | OrderService/Services/OrderService.cs:598-599 | Deletion keeps the store invariant |
| OrderInvariants.EditOrderKeepsValid | OrderService/Services/OrderService.cs:242-303 | An edit keeps every order well-formed |
| OrderInvariants.AddItemsKeepsValid | OrderService/Services/OrderService.cs:385-417 | Adding items keeps every order well-formed |
| OrderInvariants.RemoveItemsKeepsValid | OrderService/Services/OrderService.cs:522-555 | The corrected removal keeps every order well-formed: an order never stays with no lines |
| OrderInvariants.SettleKeepsValid | OrderService/Consumers/PaymentSucceededConsumer.cs:43-64 | Settlement keeps stock non-negative and the store invariant |
| Catalog.CreateProduct | OrderService/Services/ProductService.cs:27-78 | Succeeds exactly for a non-blank name (blank by `char.IsWhiteSpace`, Unicode space separators included) that is unused, a positive price and non-negative stock, with the first failing check's error; adds just that product and publishes ProductCreated |
| Catalog.EditProduct | OrderService/Services/ProductService.cs:109-173 | A blank name, in the sense of `char.IsWhiteSpace`, keeps the stored one. Fails on an unknown id, a name held by another product, a non-positive price or a negative stock; the timestamp moves and ProductUpdated is published only on a change |
| Catalog.DeleteProduct | OrderService/Services/ProductService.cs:80-107 | Succeeds exactly for an existing product no order line references; removes only it and publishes ProductDeleted |
| Catalog.GetAllProducts | OrderService/Services/ProductService.cs:175-185 | The projection (id, name, price, stock) of every product, keyed by id; KeyNotFound exactly when the catalog is empty |
| Catalog.GetProductById | OrderService/Services/ProductService.cs:187-197 | The product's projection (id, name, price, stock), or KeyNotFound exactly when the id is unknown |
| Catalog.CreateProductKeepsInvariants | OrderService/Services/ProductService.cs:35-61 | Creation keeps the store valid and product names unique |
| Catalog.EditProductKeepsInvariants | OrderService/Services/ProductService.cs:120-153 | Editing keeps the store valid and product names unique |
| Catalog.DeleteProductKeepsValid | OrderService/Services/ProductService.cs:89-96 | Deleting an unreferenced product leaves every order's products in the catalog |
| Payment.Pay | PaymentService/Consumers/OrderConfirmedConsumer.cs:15-51 | Exactly one event is published: PaymentSucceeded for the order's amount when the total is within the 500 wallet, PaymentFailed with "Insufficient balance." otherwise |
| Payment.ConfirmedOrderPaidIff | PaymentService/Consumers/OrderConfirmedConsumer.cs:22-25 | Confirming then paying succeeds exactly when the order's line total is at most the wallet |
| Tokens.ActivityRules | UserService/Models/RefreshToken.cs:28 | A revoked token is never active, a token is inactive from its expiry instant on, and an unrevoked unexpired token is active |
| Tokens.RevokeAll | UserService/Services/TokenService.cs:173-188 | Afterwards the user holds no active token. Only the user's active tokens are stamped with time and reason; every other row and field stays |
| Tokens.RevokeAllIdempotent | UserService/Services/TokenService.cs:175-183 | Revoking everything twice is revoking it once |
| Tokens.Revoke | UserService/Services/TokenService.cs:190-203 | The table changes exactly when the presented token exists and is active; afterwards it is inactive and every other row is unchanged |
| Tokens.ValidateAsWritten | UserService/Services/TokenService.cs:205-225 | As written: an unknown token is refused and an inactive owner is refused; revocation and expiry are not checked |
| Tokens.Validate | UserService/Services/TokenService.cs:205-225 | Corrected: a token that is present but revoked or expired is refused as an invalid refresh token; on an active token the result is the as-written validation's; every failure is Unauthorized |
| Tokens.Refresh | UserService/Services/TokenService.cs:84-171 | Every failure is Unauthorized, checked in source order: missing claims, then an unreadable subject, then validation, then a subject mismatch, then an access token issued more than a minute before the refresh token. A success appends one active token for that user. It leaves the users and every other token row unchanged and the presented token revoked |
| Tokens.Exchange | UserService/Services/TokenService.cs:90-147 | The checks after validation, in source order, with the error each produces. It succeeds exactly when the claims are present, validation passed for the claimed subject, and the one-minute timeline rule holds; a success keeps the users and adds one token row |
| Tokens.RefreshAsWritten | UserService/Services/TokenService.cs:84-171 | As written, on top of the validation that ignores revocation: the same claim failures, and a success only for the claimed subject with the timeline rule satisfied |
| Tokens.RefreshIsSingleUse | UserService/Services/TokenService.cs:141-147 | After a successful exchange, presenting the same refresh token again is refused |
| Tokens.ValidateAsWrittenAcceptsRevoked | UserService/Services/TokenService.cs:205-225 | As written, a revoked token of an Active user still validates; the corrected validation refuses it |
| Tokens.RefreshAsWrittenReplays | UserService/Services/TokenService.cs:84-171 | As written, a refresh token that was just exchanged is accepted again |
| Tokens.RefreshKeepsValid | UserService/Services/TokenService.cs:141-147 | A refresh keeps the account invariant: the new token belongs to an existing account |
| UserAccounts.CreateUser | UserService/Services/UserService.cs:28-76 | Fails exactly when a live account holds the username or the email; it is reported as a username clash when the first matching live account holds the username, else as an email clash, so a username held by every live holder of the email is always a username clash. Otherwise appends an Active regular user with the given fields and publishes UserCreated |
| UserAccounts.CreateUserKeepsValid | UserService/Services/UserService.cs:30-59 | With a fresh id, sign-up keeps ids and live usernames and emails unique |
| UserAccounts.EditUser | UserService/Services/UserService.cs:101-175 | Unknown id, then a username, then an email held by any other account, are refused. Fields that are not blank by `char.IsWhiteSpace` are written; only a real change stamps UpdatedAt and publishes UserUpdated |
| UserAccounts.EditUserTwiceChangesNothing | UserService/Services/UserService.cs:127-172 | Repeating an edit without a password changes nothing and publishes nothing |
| UserAccounts.EditUserKeepsValid | UserService/Services/UserService.cs:111-157 | An edit keeps the account invariant |
| UserAccounts.DeleteUser | UserService/Services/UserService.cs:78-99 | An unknown id is KeyNotFound; otherwise exactly that row is removed, its tokens go with it, and UserDeleted is published |
| UserAccounts.DeleteUserRemovesAccount | UserService/Services/UserService.cs:80-87 | No account with that id remains |
| UserAccounts.DeleteUserKeepsValid | UserService/Data/UsersDbContext.cs:19-23 | Because tokens cascade, a hard delete leaves no token without its owner |
| UserAccounts.SoftDelete | UserService/Services/UserService.cs:207-239 | Refuses an unknown or already deleted account. Otherwise marks it deleted and PendingDeletion, due 7 days later, with the given or default reason, and revokes all its active tokens |
| UserAccounts.SoftDeleteKeepsValid | UserService/Services/UserService.cs:224-231 | Soft deletion keeps the account invariant |
| UserAccounts.RestoreAsWritten | UserService/Services/UserService.cs:241-275 | As written: refuses unknown, not-deleted or past-due accounts; otherwise clears the deletion fields and reactivates |
| UserAccounts.Restore | UserService/Services/UserService.cs:241-275 | Corrected: also refuses when a live account now holds the username or email |
| UserAccounts.RestoreKeepsValid | UserService/Services/UserService.cs:264-269 | The corrected restoration keeps live usernames and emails unique |
| UserAccounts.RestoreUndoesSoftDelete | UserService/Services/UserService.cs:224-269 | Within the grace period, restore after soft delete gives the account back as it was, Active, with only UpdatedAt moved |
| UserAccounts.RestoreAsWrittenDuplicatesUsername | UserService/Services/UserService.cs:30-31 | As written, soft delete, sign-up with the same name, and restore leave two live accounts with one username |
| UserAccounts.GetAll | UserService/Services/UserService.cs:177-190 | The projections of exactly the live accounts; KeyNotFound exactly when there are none |
| UserAccounts.GetById | UserService/Services/UserService.cs:192-205 | The projection of the live account with that id; a soft-deleted account is reported missing |
| UserAccounts.GetSoftDeleted | UserService/Services/UserService.cs:277-287 | The projections of exactly the soft-deleted accounts |
| UserCleanup.Purge | UserService/Services/UserCleanupService.cs:44-94 | Removes exactly the due accounts and the tokens they own; accounts still in their grace period stay |
| UserCleanup.PurgeNothingDue | UserService/Services/UserCleanupService.cs:58-87 | With nothing due, the purge changes nothing |
| UserCleanup.PurgeIdempotent | UserService/Services/UserCleanupService.cs:52-78 | Purging twice at the same instant is purging once |
| UserCleanup.PurgeKeepsValid | UserService/Services/UserCleanupService.cs:67-78 | The purge keeps the account invariant; no token is left pointing at a removed account |
| Auth.Login | UserService/Services/AuthService.cs:35-56 | An unknown username or a wrong password is "invalid credentials"; an inactive account is reported only after the password verifies; success returns a matching Active account |
| Auth.LoginSucceedsIff | UserService/Services/AuthService.cs:37-53 | With live usernames unique, sign-in succeeds exactly when the password verifies and the account is Active |
| Auth.UpdateLastSignIn | UserService/Services/AuthService.cs:22-32 | Stamps the sign-in time on that account only; an unknown id changes nothing |
| Auth.UpdateLastSignInKeepsValid | UserService/Services/AuthService.cs:24-29 | Stamping the sign-in time keeps the account invariant |
| Access.ParseStatusName | UserService/Attributes/AccountStatusFilter.cs:16-19 | Parsing reads back every status name written into a token |
| Access.AccountStatusFilter | UserService/Attributes/AccountStatusFilter.cs:10-42 | An authenticated caller whose status claim reads Banned or PendingDeletion is refused with 403 and the matching message; everyone else proceeds |
| Access.FilterOnIssuedToken | UserService/Attributes/AccountStatusFilter.cs:14-41 | For a token's own status claim, the filter proceeds exactly when the status is Active |
| Access.CanModifyUser | UserService/Services/Helpers/CanModifyUserHelper.cs:8-24 | An Admin role claim may modify anyone; otherwise the id claim must parse to the target |
| Access.CanModifyWithIssuedToken | UserService/Services/Helpers/CanModifyUserHelper.cs:13-20 | With a token's own claims, an Admin may modify any account and anyone else only their own |

## Left out

- Controllers, `Program` start-up, DbContext configuration other than the refresh-token cascade, exception middleware, and every NotificationService consumer. They route, log or format; they decide nothing.
- PaymentService's `CODService` and OrderService's `PaymentFailedConsumer`. The consumer only logs.
- JWT creation and signature checking, the random bytes of a new refresh token, BCrypt, `Guid.NewGuid`, `Guid.TryParse` and `DateTime.UtcNow`. They appear as parameters. The exchange takes the already-read claims of the expired access token.
- The background loop of the cleanup service and its daily delay. Only one `PerformCleanup` pass is modelled.
- DTO validation attributes, such as the required fields and lengths of `CreateUserDto`. The model accepts any string the attributes would let through.
- Logging and console output.
- Configuration: `Jwt:RefreshTokenExpiryDays` is fixed at its default of 7 days. The access token's `Jwt:ExpiryMinutes` is not modelled.
- Access.ParseStatus: reads only the three status names. `Enum.TryParse` also accepts numeric strings, and the `AccountStatus` enum declaration is not part of this model. Its three values come from how the services use it.
- Tokens.Owner: a token whose owning account is missing is reported as a failed refresh. The source would throw a null dereference, which its catch-all turns into the same `Unauthorized`.
- The `Order` and `Product` model classes lack fields the services read and write, such as status, payment type and `UpdatedAt`. The model gives them those fields. `User.cs` likewise lacks the soft-deletion fields that `UserService` uses.
- `RefreshToken` is indexed under a `Token` property in `UsersDbContext`, but queried by `RefreshTokenValue`. The model has one `value` field.
- OrderEdit.EditOrder: the request's payment type is never written by the source, so the model ignores it. The `OrderUpdatedEvent` passes the creation time in its timestamp slot, and the model follows that.
- Settlement.Settle: a product that has disappeared from the catalog is reported as a missing product. The source would throw a null dereference when it reads its stock.
- Orders are not tied to authenticated customers. `CreateOrderAsync` draws a fresh customer id instead of reading the caller's, so the customer id is a parameter.

- OrderItems.AddItems: quantities are unbounded integers. `OrderItem.Quantity` is a 32-bit `int`, and the `+=` at OrderService.cs:394 wraps in unchecked C#: a line of 1 plus a request of 2147483647 stores -2147483648. The model stores 2147483648.
- OrderItems.AddItemsIncrements: states the unbounded increment, for the same reason; it matches the source only while every summed quantity stays at most 2147483647.
- OrderInvariants.AddItemsKeepsValid: proves that quantities stay positive on unbounded integers; the source can reach a negative quantity through the 32-bit wrap.
- OrderLifecycle.ConfirmOrder, Payment.ConfirmedOrderPaidIff: the order total the events carry is taken as the sum of UnitPrice × Quantity over the lines. `Order.TotalPrice` is a stored property that no visible code assigns, so read literally every event would carry 0 and every payment would succeed. OrderPlaced and OrderUpdated carry the same derived total.
- UserAccounts.SoftDelete: the `RevokeAllRefreshToken(id, "User account deleted")` call is not defined in the user service's own file. The model takes it to be the token service's revoke-all rule (TokenService.cs:173-188).
- OrderLifecycle.ConfirmOrder, OrderLines.UpdatedEvent: the calls that publish OrderConfirmed and OrderUpdated (OrderService.cs:184-189, 313-323, 429-440, 564-575) pass no payment type, although both event records declare one. The model's events carry the order's own payment type.
- OrderProjection.ViewOf: the service's private mapper passes no payment type. The view's payment type follows the `GetOrderDto` record and the shared mapper helper, which copy the order's.

## Findings

| source | as written | input that shows it | evidently intended | confidence | as-written member | corrected member |
|---|---|---|---|---|---|---|
| OrderService/Services/OrderService.cs:485-534 | The lines left are counted as the number of lines minus the length of the deletion list. A line is added to that list once per request line naming its product | Order lines A (qty 2) and B (qty 3) of catalog products 1 and 2; request two lines for A, qty 2 each. The count gives 2 - 2 = 0 and the whole order is deleted | Delete the order only when no line survives; here B survives | not executed | OrderItems.RemoveItemsAsWritten, OrderItems.RemoveItemsAsWrittenDeletesSurvivor | OrderItems.RemoveItems, OrderItems.RemoveItemsKeepsSurvivor |
| UserService/Services/TokenService.cs:205-225 | Validation checks only that the token exists and its owner is Active. `IsActive` is never consulted, so a revoked or expired token still refreshes | An Active user signs out, which revokes their token at instant 5. At instant 10 the same token validates and the exchange issues a new session; after an exchange the old token is accepted again | Refuse revoked and expired tokens, so each refresh token is single-use | not executed | Tokens.ValidateAsWritten, Tokens.ValidateAsWrittenAcceptsRevoked, Tokens.RefreshAsWritten, Tokens.RefreshAsWrittenReplays | Tokens.Validate, Tokens.Refresh, Tokens.RefreshIsSingleUse |
| UserService/Services/UserService.cs:241-275 | Restoration clears the soft-deletion flags without checking that the username and email are still free. Sign-up only checks live accounts | Account 1 "customer1" is soft-deleted. Account 2 signs up as "customer1". Restoring account 1 leaves two live accounts named "customer1" | Refuse the restoration when a live account now holds the username or email | not executed | UserAccounts.RestoreAsWritten, UserAccounts.RestoreAsWrittenDuplicatesUsername | UserAccounts.Restore, UserAccounts.RestoreKeepsValid |
