# Hall reservation: booking and settlement

A Dafny model of the booking and settlement core of the hall-reservation
system (Fudr007/DBhallReservation). The Oracle database becomes one
immutable value, `Schema.Db`. Each table-gateway call is a pure function that
returns an `Outcome` (its result together with the database it leaves
behind). A gateway call either commits one step or raises and rolls back.

- Every gateway write takes `ok: bool`. When `ok` is false the insert or
  update raises, and the database is returned unchanged.
- The multi-step coordinators take `faults: set<nat>`: the k-th write attempt
  of the flow fails iff k is in the set. "No writes after an early failure",
  "the reservation stays behind when a line write fails" and "the payment is
  removed when the transfer fails" thus become postconditions over all fault
  sets.
- `Db.journal` lists the committed writes in order, so write ordering is
  stated as an equation on the journal.
- Times are whole seconds and the clock reading `now` is a parameter. Prices
  and balances are exact `real`s. The duration in hours is
  `(end - start) / 3600` unrounded. Line hours are that value truncated
  toward zero, as Python's `int(...)` does.

Modules follow the program's layers:

- table gateways: `ReservationTable`, `HallTable`, `ServiceLineTable`,
  `AssignmentTable`, `PaymentTable`, `CashAccountTable` (with the sums in
  `Balances`), `CustomerTable`;
- services: `Pricing`, `Booking` (`create_reservation`, current and older
  generation), `Settlement` (`pay_and_transfer`), `CustomerService`;
- the two console call sites: `App`;
- the hall invariant: `BookingInvariant`.

Three defects of the code are parameters of the model: the hall check, the
compensating delete, and the SYSTEM-account probe. Each has an as-written
and a corrected variant (see Findings). `App.AddReservation` and
`App.PayReservation` follow the code as written. `App.AddReservationWith` and
`App.PayReservationWith` take the variant as a parameter, so the corrected
behaviour is stated as well.

## Model

| member | source | states |
|---|---|---|
| Pricing.CalcPrice | Src/Services/Reservation_Service.py:154-167 | The total accumulated loop by loop equals hours × (sum of hall rates + sum of not-optional rates) + sum of optional values, with the hours unrounded |
| Pricing.PriceExample | Src/Services/Reservation_Service.py:154-167 | One hall at 10/h for two hours, a not-optional service at 5/h and an optional value 8 cost 38 |
| Pricing.PricePositive | Src/Services/Reservation_Service.py:154-167 | Non-negative rates and values, a non-empty window and one hall with a positive rate give a positive price, so `Reservation.create`'s price check accepts it |
| Pricing.PriceShiftInvariant | Src/Services/Reservation_Service.py:156 | The price depends on the window only through its length |
| HallTable.BusyHalls | Src/Table_Gateways/Hall.py:109-111 | A hall is busy iff some assignment puts a non-cancelled reservation overlapping [from, to) on it |
| HallTable.ReadAvailableInDate | Src/Table_Gateways/Hall.py:106-118 | The result is a map (a dict) whose keys are exactly the catalog halls that are not occupied, each mapped to its name; the query writes nothing |
| HallTable.CancelledNeverBlocks | Src/Table_Gateways/Hall.py:111 | A hall whose every reservation is cancelled is available for any window |
| HallTable.TouchingWindowsDoNotConflict | Src/Table_Gateways/Hall.py:111 | Windows that only touch the reserved ones (end == from or start == to) do not conflict |
| HallTable.UnassignedHallAvailable | Src/Table_Gateways/Hall.py:109-111 | A catalog hall with no assignment is always available |
| ReservationTable.Validate | Src/Table_Gateways/Reservation.py:12-17 | The checks run in source order: start in the past, then start not before end, then price <= 0; each error is reported exactly when the earlier checks pass and its own fails |
| ReservationTable.Create | Src/Table_Gateways/Reservation.py:11-56 | Succeeds iff validation passes and the insert commits. Then it inserts one CREATED row under the next identity and returns that id. Every failure leaves the database unchanged and reports the validation error or the database error |
| ReservationTable.SetStatus | Src/Table_Gateways/Reservation.py:58-66 | The status update changes only the status of the row with the given id; other rows and the key set are unchanged; a failure changes nothing |
| ReservationTable.Delete | Src/Table_Gateways/Reservation.py:88-102 | Removes exactly the row with the given id and keeps all others |
| ReservationTable.PastStartPolicies | Table_Gateways/Reservation.py:11-15 | For a past start that otherwise validates, the current gateway rejects with StartInPast and writes nothing; the older one succeeds iff the insert commits |
| ServiceLineTable.Create | Src/Table_Gateways/Reservation_Service.py:11-28 | Appends exactly one (reservation, service, hours) row on success; nothing on failure |
| ServiceLineTable.Update | Src/Table_Gateways/Reservation_Service.py:30-46 | Changes only `hours`, only on rows matching both ids; a failure changes nothing |
| ServiceLineTable.Delete | Src/Table_Gateways/Reservation_Service.py:48-63 | Removes exactly the rows matching both ids: every other row stays with its multiplicity, and a failed delete changes nothing |
| ServiceLineTable.Read | Src/Table_Gateways/Reservation_Service.py:65-77 | Returns exactly the rows of the reservation, each as often as it is stored; the query has no ORDER BY, so the order is not part of the promise |
| ServiceLineTable.ReadAfterAppend | Src/Table_Gateways/Reservation_Service.py:65-72 | Rows appended for a reservation are read back after its earlier rows, in order |
| AssignmentTable.Create | Src/Services/Reservation_Service.py:39-41 | One (reservation, hall) row is appended on success, nothing on failure |
| PaymentTable.Create | Src/Table_Gateways/Payment.py:10-40 | Inserts one (reservation id, amount) row and returns `true` rather than a row id; a failure adds no row |
| PaymentTable.UpdateAmount | Src/Table_Gateways/Payment.py:42-70 | The amount changes only on the rows of the given reservation; a failure changes nothing |
| PaymentTable.Delete | Src/Table_Gateways/Payment.py:72-86 | Removes every payment of the given reservation id and no other row: the rows of other reservations keep their multiplicity |
| PaymentTable.Read | Src/Table_Gateways/Payment.py:88-100 | Returns a payment of the reservation iff one exists |
| PaymentTable.ReadAfterCreate | Src/Table_Gateways/Payment.py:88-95 | A payment created for a reservation without one is what `read` returns |
| PaymentTable.ReadAfterDelete | Src/Table_Gateways/Payment.py:72-95 | After a delete, `read` finds no payment of that reservation |
| CashAccountTable.AccountTypeOfUpper | Table_Gateways/Cash_Account.py:11-27 | Upper-casing is idempotent, so the stored upper-cased name denotes the same account type |
| CashAccountTable.AccountTypeNames | Table_Gateways/Cash_Account.py:11-12 | The type check ignores ASCII case and rejects anything else, such as a trailing blank or the empty name |
| CashAccountTable.CanonicalNames | Table_Gateways/Cash_Account.py:10-11 | The names SYSTEM and CUSTOMER denote the two account types |
| CashAccountTable.Create | Table_Gateways/Cash_Account.py:10-39 | Succeeds iff the type name is valid, the balance is non-negative, the SYSTEM probe finds nothing for a SYSTEM account, and the insert commits. It then returns the next id and appends one row with that id, the balance and the type. Errors come in source order (type name, balance, the SYSTEM probe's own error, then the insert's database error) and leave the database unchanged |
| CashAccountTable.CreateCanonical | Table_Gateways/Cash_Account.py:10-11 | Creating under the default name CUSTOMER, or under SYSTEM, is creating an account of that kind |
| CashAccountTable.CreateOfKind | Table_Gateways/Cash_Account.py:13-39 | The insert keeps the identity invariant. With the probe reading the account rows it also keeps "at most one SYSTEM account" |
| CashAccountTable.Update | Table_Gateways/Cash_Account.py:41-59 | `+` adds to and `-` subtracts from the rows with the id, with no non-negativity check. Any other operator is rejected and changes nothing. With distinct ids the total moves by exactly the signed amount |
| CashAccountTable.CheckBalance | Table_Gateways/Cash_Account.py:77-91 | With distinct ids, true iff the account exists and its balance is at least the amount |
| CashAccountTable.Transfer | Table_Gateways/Cash_Account.py:93-112 | Debits the source row and credits every SYSTEM row in one commit. On failure neither change persists. The total moves by (SYSTEM rows − source rows) × amount |
| CashAccountTable.TransferConserves | Table_Gateways/Cash_Account.py:96-105 | With exactly one SYSTEM account and an existing source account, the total of all balances is unchanged |
| CashAccountTable.TransferFromMissingAccountCreatesMoney | Table_Gateways/Cash_Account.py:96-105 | From a missing account the transfer credits the SYSTEM account without a matching debit |
| CashAccountTable.TransferWithTwoSystemAccounts | Table_Gateways/Cash_Account.py:101-104 | With two SYSTEM accounts each transfer adds the amount to the total once more |
| CashAccountTable.TransferCanOverdraw | Table_Gateways/Cash_Account.py:96-100 | The transfer checks no funds: 10 from a balance of 5 leaves -5 |
| CashAccountTable.AccountTableProbeAllowsSecondSystem | Table_Gateways/Cash_Account.py:18-24 | With the probe on table `account` finding nothing, a second SYSTEM row is inserted next to the existing one |
| CashAccountTable.CashAccountProbeRefusesSecondSystem | Table_Gateways/Cash_Account.py:18-22 | With the probe on the account rows, the second SYSTEM account is refused and nothing is written |
| Balances.TotalDebitCredit | Table_Gateways/Cash_Account.py:96-104 | Debiting one id and crediting the SYSTEM rows moves the total by the count difference times the amount |
| CustomerTable.Create | Src/Services/Customer_Service.py:18-19 | One customer row is inserted under the next identity, pointing at the given account; a failure changes nothing |
| CustomerService.CreateCustomerAndAccount | Src/Services/Customer_Service.py:14-28 | The account (balance 0, type CUSTOMER) is created first, then the customer holding its id. An account failure creates no customer. A customer failure leaves the new account behind |
| CustomerService.NewCustomerOwnsFreshAccount | Src/Services/Customer_Service.py:16-19 | No money moves, and the new customer's account did not exist before and exists exactly once after |
| Booking.FirstUnavailable | Src/Services/Reservation_Service.py:148-150 | No result iff every requested hall is in the availability result. Otherwise the result is the name of the first missing hall, in request order |
| Booking.CheckHalls | Src/Services/Reservation_Service.py:144-152 | As written, a dict result never rejects. A rejection always names a requested hall missing from the result |
| Booking.AddKeys | Src/Services/Reservation_Service.py:28-32 | Filling the combined dict keeps the existing keys in place and appends exactly the new keys, ordered by their first occurrence; keys stay distinct and are the union |
| Booking.CombinedServiceIds | Src/Services/Reservation_Service.py:28-32 | The line keys are distinct and are exactly the optional ids together with the not-optional ids |
| Booking.CombinedServiceIdsOrder | Src/Services/Reservation_Service.py:28-32 | The chosen optional ids come before every not-optional id that was not chosen, and each group is in first-occurrence order |
| Booking.TruncHours | Src/Services/Reservation_Service.py:34 | The line hours are the duration in hours truncated toward zero |
| Booking.InsertLines | Src/Services/Reservation_Service.py:35-37 | Lines are written in key order up to the first failing attempt. That attempt is the error, and only the lines before it are stored and journaled |
| Booking.InsertAssignments | Src/Services/Reservation_Service.py:39-41 | Assignments are written in request order up to the first failing attempt, and only those before it are stored |
| Booking.Book | Src/Services/Reservation_Service.py:18-51 | A hall rejection or a rejected reservation happens before any write and leaves the database unchanged |
| Booking.WriteDetails | Src/Services/Reservation_Service.py:28-51 | The detail writes touch only lines, assignments and the journal, only append, and on failure store fewer rows than requested |
| Booking.BookSucceeds | Src/Services/Reservation_Service.py:18-51 | A booking succeeds iff the hall check passes, the reservation validates and none of the 1 + lines + halls write attempts fails |
| Booking.WriteDetailsSucceeds | Src/Services/Reservation_Service.py:28-41 | The detail writes succeed iff none of attempts 1 .. lines + halls fails |
| Booking.BookWrites | Src/Services/Reservation_Service.py:25-41 | On success: one CREATED reservation at the priced total, then one line per combined key with the truncated hours, then one assignment per hall, journaled in that order; nothing else changes |
| Booking.WriteDetailsWrites | Src/Services/Reservation_Service.py:28-41 | On success every line, then every assignment, is appended in order |
| Booking.BookLeavesPartialWrites | Src/Services/Reservation_Service.py:36-51 | A failing line or assignment write leaves the reservation and the earlier rows in place; nothing is rolled back |
| Booking.CreateReservation | Src/Services/Reservation_Service.py:18-23 | Against the stored state, the as-written check never reports an unavailable hall. The corrected check reports one iff a requested hall is missing from the catalog or occupied, and then writes nothing |
| Booking.CreateReservationLegacy | Services/Reservation_Service.py:15-43 | The older flow returns no error iff the list-only check passes, start < end, price > 0 and no write fails; a dict result never yields a hall error |
| Booking.LegacyAgreesForFutureStarts | Services/Reservation_Service.py:15-43 | For starts not in the past both generations leave the same database, and the older one returns the error the current one raises |
| Booking.LegacyBooksPastStarts | Table_Gateways/Reservation.py:11-15 | A past start is rejected by the current generation without writes and booked by the older one |
| BookingInvariant.CreateKeepsNoDoubleBooking | Src/Services/Reservation_Service.py:18-51 | With the corrected hall check, every booking keeps the identity invariant and "no hall holds two live overlapping reservations", whatever write fails |
| BookingInvariant.DetailsKeepInvariants | Src/Services/Reservation_Service.py:28-41 | Writing the details of a reservation whose halls are free keeps both invariants wherever the writes stop |
| BookingInvariant.ListOnlyCheckAllowsDoubleBooking | Src/Services/Reservation_Service.py:144-152 | As written, a request overlapping a confirmed reservation of the same hall is booked, and the hall ends up double-booked |
| BookingInvariant.AnyResultCheckRejectsDoubleBooking | Src/Services/Reservation_Service.py:144-152 | The corrected check rejects the same request with the hall's name and writes nothing |
| Settlement.PayAndTransfer | Src/Services/Reservation_Service.py:53-76 | Runs payment, then transfer, then CONFIRMED. A payment failure writes nothing. A transfer failure runs the compensating delete, leaves accounts unchanged and reports the delete's failure if that fails. A status failure keeps payment and transfer. Success confirms the reservation and journals the three writes in order |
| Settlement.SettlementConservesTotal | Src/Services/Reservation_Service.py:62-63 | With one SYSTEM account and an existing source account, no outcome of the settlement changes the total of all balances |
| Settlement.OwnPaymentCompensationUndoesPayment | Src/Services/Reservation_Service.py:69-72 | With the compensation keyed by the paid reservation, a failed transfer leaves no payment of it and, if it had none, restores the payment rows exactly |
| Settlement.KeyTrueCompensationKeepsPayment | Src/Services/Reservation_Service.py:58-71 | As written, after a failed transfer a reservation other than 1 keeps its payment row while no money moved, and reservation 1's payments are deleted |
| Settlement.SettlementKeepsInvariants | Src/Services/Reservation_Service.py:65-66 | Settling a reservation that is not cancelled keeps the identity and no-double-booking invariants |
| App.ReadNotPaid | Src/Services/Reservation_Service.py:111-126 | A reservation joined with its customer is listed iff it has no payment, and every listed row is such a reservation |
| App.PayReservationWith | Src/App.py:123-136 | A failing balance check raises "insufficient funds" and calls nothing. Otherwise the reservation is settled for its listed total from the listed account. Success means the account existed and covered the amount |
| App.PayReservation | Src/App.py:123-136 | As written: payment succeeds iff the balance check passes and none of the three settlement writes fails; money moves only when the balance check passes and the payment and transfer commit |
| App.PaymentNeverOverdraws | Src/App.py:130-133 | Because of the balance check, no account with a non-negative balance goes negative, in any outcome |
| App.PaidReservationLeavesList | Src/App.py:126-133 | A paid reservation leaves the unpaid list, and the payment recorded is its total price |
| App.FailedTransferRelistsReservation | Src/Services/Reservation_Service.py:69-72 | With the corrected compensation, a reservation whose transfer failed is listed as unpaid again, unchanged |
| App.KeyTrueHidesUnpaidReservation | Src/Services/Reservation_Service.py:58-71 | As written, a reservation other than 1 whose transfer failed drops off the unpaid list although no money moved |
| App.NotOptionalServices | Src/App.py:103 | Exactly the catalog's not-optional services |
| App.AddReservationWith | Src/App.py:99-110 | With the check acting on the dict, a hall is reported unavailable iff it is missing from the catalog or occupied; as written it never is. A past start that passes the hall check is rejected without writes |
| App.AddReservation | Src/App.py:99-110 | As written: no hall is ever reported unavailable, and a past start is rejected without writes |
| App.AddReservationDoubleBooks | Src/App.py:99-110 | As written, the form for a held hall is booked and the hall is double-booked; with the check acting on the dict the same form is refused and nothing is written |
| App.EveryMandatoryServiceBilled | Src/App.py:103-107 | After a successful booking, under either hall check, every not-optional catalog service has a line of the new reservation with the booking's truncated hours |
| App.AddReservationKeepsInvariants | Src/App.py:99-110 | With the check acting on the dict, adding a reservation keeps both invariants, whatever write fails |

## Left out

- Console I/O, the menu and dispatch loop, the forms, configuration loading and CSV import: none of them affects the stored state the model describes.
- Reads never fail. Only writes carry an `ok` flag or a fault index, because the read queries (`check_balance`, `read_available_in_date`, `read_not_paid`) are not the subject of any rollback.
- The exception classes and message texts, including the cx_Oracle error-code mapping: each failure is one error value per distinguishable cause.
- Floating-point rounding: prices, balances and hours are exact reals.
- `str.upper()` is modelled on ASCII letters only.
- Concurrency and locking: every flow is a single sequential connection.
- The view-backed queries `read_available_halls`, `read_reservation_detail`, `read_id_name_email` and `report`: their views are not part of this model.
- `Reservation.update` and `Payment.update` take a free attribute name. Only the status update (`ReservationTable.SetStatus`) and the amount update (`PaymentTable.UpdateAmount`) are modelled.
- The gateways `Reservation_Hall`, `Customer` and `Src/Table_Gateways/Cash_Account.py` are not part of this model.
  - `AssignmentTable.Create` and `CustomerTable.Create` are single inserts that commit or raise.
  - The ledger follows `Table_Gateways/Cash_Account.py`.
- The hall gateway of the older generation is not part of this model. `Booking.CreateReservationLegacy` therefore takes the availability result as a parameter.
- `CashAccount.delete`, `read` and `read_all`, and the other `read_all` queries: they are not used by the modelled flows.
- Errors raised outside the gateways are not modelled. This covers a non-datetime argument, `None` from `Payment.create`, and an unexpected exception in `check_halls`.
- CashAccountTable.CheckBalance: states its meaning only for tables with distinct account ids, because with duplicate ids the count compared with 1 is not a property of one account.
- CustomerService.CreateCustomerAndAccount: calls `CashAccountTable.CreateOfKind` with the CUSTOMER kind directly. `CashAccountTable.CreateCanonical` shows this equals `create()` with its default type name.
- App.AddReservationKeepsInvariants: is stated for the corrected hall check only, because as written the invariant fails (App.AddReservationDoubleBooks).
- App.PaymentNeverOverdraws: requires a non-negative total price, because a negative amount would debit the SYSTEM account. `Reservation.create` never stores such a price.
- Settlement.KeyTrueCompensationKeepsPayment: binding Python's `True` as the key 1 assumes the driver's usual conversion of `bool` to a number.

## Findings

| source | as written | input that shows it | evidently intended | confidence | as-written member | corrected member |
|---|---|---|---|---|---|---|
| Src/Services/Reservation_Service.py:147 | `check_halls` rejects only when the availability result is a `list`, but `read_available_in_date` returns a dict, so no hall is ever reported unavailable | Hall 1 held by a confirmed reservation for [0, 7200); a request for hall 1 over [3600, 10800) | Test membership in the returned dict and raise "Hall X is unavailable" | not executed | BookingInvariant.ListOnlyCheckAllowsDoubleBooking | BookingInvariant.CreateKeepsNoDoubleBooking |
| Src/Services/Reservation_Service.py:58-71 | `Payment.create` returns `True`, and the compensation `payment.delete(payment_id)` therefore deletes the payments of reservation id `True` (1) | Pay reservation 2 with the transfer failing: its payment row stays, and reservation 1's payments are deleted | Delete the payment of the reservation being paid | not executed | Settlement.KeyTrueCompensationKeepsPayment | Settlement.OwnPaymentCompensationUndoesPayment |
| Table_Gateways/Cash_Account.py:19 | The SYSTEM-uniqueness probe reads table `account`, while accounts are inserted into `CASH_ACCOUNT` | One SYSTEM account in `CASH_ACCOUNT` and no SYSTEM row in `account`: `create(0, 'SYSTEM')` inserts a second SYSTEM account | Probe `CASH_ACCOUNT` for a SYSTEM row | not executed | CashAccountTable.AccountTableProbeAllowsSecondSystem | CashAccountTable.CashAccountProbeRefusesSecondSystem |
