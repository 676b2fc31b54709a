/**
 * The database of the hall-reservation system as one immutable value.
 *
 * Every table the booking and settlement flows touch is a field of `Db`.
 * Tables keyed by an identity column are maps; tables the source only
 * inserts into and filters by column values are sequences of rows in
 * insertion order. `journal` records, in order, every write that was
 * committed; a write that fails is rolled back and leaves no entry, so
 * "nothing was written" is simply `db' == db`.
 */
module Schema {
  import opened Results

  /** A point in time, in whole seconds. */
  type Time = int

  datatype Status = Created | Confirmed | Cancelled

  datatype Reservation = Reservation(
    customerId: int,
    start: Time,
    end: Time,
    totalPrice: real,
    status: Status)

  /** A row of `Reservation_Service`: hours billed for one service of a reservation. */
  datatype ServiceLine = ServiceLine(reservationId: int, serviceId: int, hours: int)

  /** A row of `Reservation_Hall`. */
  datatype HallAssignment = HallAssignment(reservationId: int, hallId: int)

  datatype Payment = Payment(reservationId: int, amount: real)

  datatype AccountType = CustomerAccount | SystemAccount

  /** A row of `CASH_ACCOUNT`; `id` is its identity column. */
  datatype CashAccount = CashAccount(id: int, balance: real, accountType: AccountType)

  datatype Customer = Customer(
    accountId: int,
    name: string,
    email: string,
    phone: string,
    customerType: string)

  /** Catalog row of `Hall`, keyed by hall id. */
  datatype HallInfo = HallInfo(name: string, rate: real)

  /** Catalog row of `Service`: id, name, hourly rate, optional flag. */
  datatype ServiceRow = ServiceRow(id: int, name: string, rate: real, isOptional: bool)

  /** One requested hall as the caller passes it: the hall's id, name and hourly rate. */
  datatype HallRow = HallRow(id: int, name: string, rate: real)

  /** One chosen optional service: its id and the value the caller attached to it. */
  datatype Choice = Choice(serviceId: int, value: real)

  /** A committed write. */
  datatype Commit =
    | ReservationInserted(reservationId: int)
    | ReservationStatusSet(reservationId: int, status: Status)
    | ReservationDeleted(reservationId: int)
    | LineInserted(line: ServiceLine)
    | LinesUpdated(reservationId: int, serviceId: int, hours: int)
    | LinesDeleted(reservationId: int, serviceId: int)
    | HallAssigned(assignment: HallAssignment)
    | PaymentInserted(payment: Payment)
    | PaymentsUpdated(reservationId: int, amount: real)
    | PaymentsDeleted(reservationId: int)
    | AccountInserted(accountId: int)
    | AccountUpdated(accountId: int)
    | Transferred(fromId: int, amount: real)
    | CustomerInserted(customerId: int)

  datatype Db = Db(
    halls: map<int, HallInfo>,
    services: seq<ServiceRow>,
    reservations: map<int, Reservation>,
    nextReservationId: nat,
    lines: seq<ServiceLine>,
    assignments: seq<HallAssignment>,
    payments: seq<Payment>,
    accounts: seq<CashAccount>,
    nextAccountId: nat,
    customers: map<int, Customer>,
    nextCustomerId: nat,
    journal: seq<Commit>)

  /** The result of one call together with the database it leaves behind. */
  datatype Outcome<+T, +E> = Outcome(result: Result<T, E>, db: Db)

  /**
   * Injected write failures for a multi-step flow: the `k`-th write attempt
   * of the flow (counting from 0) fails iff `k` is in the set.
   */
  type Faults = set<nat>

  /** Identity columns only move forward: no stored row refers to an id not yet issued. */
  ghost predicate WellFormed(db: Db)
  {
    && (forall id :: id in db.reservations ==> id < db.nextReservationId)
    && (forall i :: 0 <= i < |db.assignments| ==> db.assignments[i].reservationId < db.nextReservationId)
    && (forall i :: 0 <= i < |db.accounts| ==> db.accounts[i].id < db.nextAccountId)
    && DistinctIds(db.accounts)
    && (forall id :: id in db.customers ==> id < db.nextCustomerId)
  }

  /** No two account rows share an id. */
  ghost predicate DistinctIds(rows: seq<CashAccount>)
  {
    forall i, j :: 0 <= i < |rows| && 0 <= j < |rows| && rows[i].id == rows[j].id ==> i == j
  }

  /** A reservation that takes part in conflict checks: it exists and is not cancelled. */
  predicate Live(db: Db, rid: int)
  {
    rid in db.reservations && db.reservations[rid].status != Cancelled
  }
}
