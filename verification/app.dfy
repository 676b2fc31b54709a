/**
 * The two call sites of the coordinators in the console application:
 * `add_reservation` books with the full list of not-optional services, and
 * `pay_reservation` settles a reservation picked from the unpaid list after
 * checking the customer's balance. Both catch every error and report it, so
 * their outcome is the error value together with whatever was committed.
 */
module App {
  import opened Results
  import opened Schema
  import opened Seqs
  import opened Balances
  import ReservationTable
  import PaymentTable
  import CashAccountTable
  import opened Booking
  import opened BookingInvariant
  import opened Settlement

  /** A row of `read_not_paid`. */
  datatype NotPaidRow = NotPaidRow(
    reservationId: int,
    customerId: int,
    accountId: int,
    name: string,
    email: string,
    totalPrice: real)

  /** A reservation joined with its customer, as `read_not_paid` selects it. */
  predicate Joined(db: Db, rid: int)
  {
    rid in db.reservations && db.reservations[rid].customerId in db.customers
  }

  function NotPaidRowOf(db: Db, rid: int): NotPaidRow
    requires Joined(db, rid)
  {
    var res := db.reservations[rid];
    var c := db.customers[res.customerId];
    NotPaidRow(rid, res.customerId, c.accountId, c.name, c.email, res.totalPrice)
  }

  /**
   * `read_not_paid`: every reservation that has a customer and no payment
   * row, whatever its status.
   */
  function ReadNotPaid(db: Db): (rows: set<NotPaidRow>)
    ensures forall rid :: Joined(db, rid) ==> (NotPaidRowOf(db, rid) in rows <==> !PaymentTable.HasPayment(db, rid))
    ensures forall row :: row in rows ==>
              && Joined(db, row.reservationId)
              && row == NotPaidRowOf(db, row.reservationId)
              && !PaymentTable.HasPayment(db, row.reservationId)
  {
    set rid | rid in db.reservations.Keys && Joined(db, rid) && !PaymentTable.HasPayment(db, rid) :: NotPaidRowOf(db, rid)
  }

  datatype PayError = InsufficientFunds | SettleFailed(error: SettleError)

  /**
   * `pay_reservation` for the selected row, with the compensation passed in:
   * the balance check comes first and, when it fails, nothing is called;
   * otherwise the reservation is settled for its listed total price from the
   * customer's account.
   */
  function PayReservationWith(db: Db, choice: NotPaidRow, comp: Compensation, faults: Faults)
    : (r: Outcome<(), PayError>)
    ensures !CashAccountTable.CheckBalance(db, choice.accountId, choice.totalPrice)
            ==> r == Outcome(Err(InsufficientFunds), db)
    ensures r.result.Ok? <==> && CashAccountTable.CheckBalance(db, choice.accountId, choice.totalPrice)
                              && 0 !in faults && 1 !in faults && 2 !in faults
    ensures r.result.Ok? && DistinctIds(db.accounts) ==>
              exists i :: 0 <= i < |db.accounts| && db.accounts[i].id == choice.accountId
                          && db.accounts[i].balance >= choice.totalPrice
    ensures r.result.Ok? ==> r.db.payments == db.payments + [Payment(choice.reservationId, choice.totalPrice)]
    ensures r.db.customers == db.customers
  {
    if !CashAccountTable.CheckBalance(db, choice.accountId, choice.totalPrice) then
      Outcome(Err(InsufficientFunds), db)
    else
      var settled := PayAndTransfer(db, choice.reservationId, choice.accountId, choice.totalPrice, comp, faults);
      if settled.result.Err? then Outcome(Err(SettleFailed(settled.result.error)), settled.db)
      else Outcome(Ok(()), settled.db)
  }

  /**
   * `pay_reservation` as written: a failed transfer is compensated by
   * deleting the payments keyed by the `True` that `Payment.create` returned.
   */
  function PayReservation(db: Db, choice: NotPaidRow, faults: Faults): (r: Outcome<(), PayError>)
    ensures r.result.Ok? <==> && CashAccountTable.CheckBalance(db, choice.accountId, choice.totalPrice)
                              && 0 !in faults && 1 !in faults && 2 !in faults
    ensures r.db.accounts == if CashAccountTable.CheckBalance(db, choice.accountId, choice.totalPrice)
                                && 0 !in faults && 1 !in faults
                             then CashAccountTable.Transfer(db, choice.totalPrice, choice.accountId, true).db.accounts
                             else db.accounts
  {
    PayReservationWith(db, choice, DeleteKeyTrue, faults)
  }

  /**
   * The balance check keeps settlement from overdrawing: no account with a
   * non-negative balance goes negative, in any outcome, although the
   * transfer itself checks nothing.
   */
  lemma PaymentNeverOverdraws(db: Db, choice: NotPaidRow, faults: Faults)
    requires DistinctIds(db.accounts)
    requires choice.totalPrice >= 0.0
    ensures var r := PayReservation(db, choice, faults);
            && |r.db.accounts| == |db.accounts|
            && forall i :: 0 <= i < |db.accounts| && db.accounts[i].balance >= 0.0 ==> r.db.accounts[i].balance >= 0.0
  {
    if CashAccountTable.CheckBalance(db, choice.accountId, choice.totalPrice) && 0 !in faults && 1 !in faults {
      FundedTransferKeepsNonNegative(db, choice.totalPrice, choice.accountId);
    }
  }

  /** A transfer from an account holding at least the amount leaves no non-negative balance negative. */
  lemma FundedTransferKeepsNonNegative(db: Db, amount: real, fromId: int)
    requires DistinctIds(db.accounts)
    requires amount >= 0.0
    requires exists j :: 0 <= j < |db.accounts| && db.accounts[j].id == fromId && db.accounts[j].balance >= amount
    ensures var moved := CashAccountTable.Transfer(db, amount, fromId, true).db.accounts;
            forall i :: 0 <= i < |db.accounts| && db.accounts[i].balance >= 0.0 ==> moved[i].balance >= 0.0
  {
    var j :| 0 <= j < |db.accounts| && db.accounts[j].id == fromId && db.accounts[j].balance >= amount;
    var moved := CashAccountTable.Transfer(db, amount, fromId, true).db.accounts;
    forall i | 0 <= i < |db.accounts| && db.accounts[i].balance >= 0.0 ensures moved[i].balance >= 0.0 {
      if db.accounts[i].id == fromId {
        assert i == j;
      }
    }
  }

  /**
   * A paid reservation leaves the unpaid list, and the payment recorded is
   * the listed total price of that reservation.
   */
  lemma PaidReservationLeavesList(db: Db, choice: NotPaidRow, faults: Faults)
    requires choice in ReadNotPaid(db)
    requires PayReservation(db, choice, faults).result.Ok?
    ensures var r := PayReservation(db, choice, faults);
            && Payment(choice.reservationId, db.reservations[choice.reservationId].totalPrice) in r.db.payments
            && forall row :: row in ReadNotPaid(r.db) ==> row.reservationId != choice.reservationId
  {
    var r := PayReservation(db, choice, faults);
    var k := |db.payments|;
    assert r.db.payments[k] == Payment(choice.reservationId, choice.totalPrice);
    assert PaymentTable.HasPayment(r.db, choice.reservationId);
  }

  /**
   * When the transfer fails, the payment just made is removed again and a
   * reservation that was listed as unpaid is listed again, unchanged.
   */
  lemma FailedTransferRelistsReservation(db: Db, choice: NotPaidRow)
    requires choice in ReadNotPaid(db)
    requires CashAccountTable.CheckBalance(db, choice.accountId, choice.totalPrice)
    ensures var r := PayReservationWith(db, choice, DeleteOwnPayment, {1});
            r.result == Err(SettleFailed(TransferFailed)) && choice in ReadNotPaid(r.db)
  {
    var rid := choice.reservationId;
    OwnPaymentCompensationUndoesPayment(db, rid, choice.accountId, choice.totalPrice);
    var r := PayReservationWith(db, choice, DeleteOwnPayment, {1});
    assert Joined(r.db, rid) && NotPaidRowOf(r.db, rid) == NotPaidRowOf(db, rid);
  }

  /**
   * With the compensation as written, a reservation other than 1 whose
   * transfer failed drops off the unpaid list although no money moved, so it
   * can no longer be paid from the application.
   */
  lemma KeyTrueHidesUnpaidReservation(db: Db, choice: NotPaidRow)
    requires choice in ReadNotPaid(db) && choice.reservationId != 1
    requires CashAccountTable.CheckBalance(db, choice.accountId, choice.totalPrice)
    ensures var r := PayReservation(db, choice, {1});
            && r.result == Err(SettleFailed(TransferFailed))
            && r.db.accounts == db.accounts
            && forall row :: row in ReadNotPaid(r.db) ==> row.reservationId != choice.reservationId
  {
    KeyTrueCompensationKeepsPayment(db, choice.reservationId, choice.accountId, choice.totalPrice);
  }

  /** The reservation form: customer, window, chosen optional services and halls. */
  datatype ReservationForm = ReservationForm(
    customerId: int,
    start: Time,
    end: Time,
    chosen: seq<Choice>,
    halls: seq<HallRow>)

  /** `Service.read_not_optional()`: the catalog's not-optional services, in catalog order. */
  function NotOptionalServices(db: Db): (services: seq<ServiceRow>)
    ensures forall s :: s in services <==> s in db.services && !s.isOptional
  {
    Filter(db.services, (s: ServiceRow) => !s.isOptional)
  }

  /** The request `add_reservation` hands to `create_reservation`. */
  function RequestOf(db: Db, form: ReservationForm): Request
  {
    Request(form.customerId, form.start, form.end, form.chosen, NotOptionalServices(db), form.halls)
  }

  /**
   * `add_reservation` with the hall check passed in: books the form with
   * every not-optional service of the catalog, rejecting past starts against
   * `now`.
   */
  function AddReservationWith(db: Db, form: ReservationForm, now: Time, check: HallCheck, faults: Faults)
    : (r: Outcome<(), BookingError>)
    ensures check == ListOnly ==> !(r.result.Err? && r.result.error.HallUnavailable?)
    ensures check == AnyResult ==>
              ((r.result.Err? && r.result.error.HallUnavailable?)
               <==> exists i :: 0 <= i < |form.halls|
                               && (form.halls[i].id !in db.halls
                                   || HallTable.Occupied(db, form.halls[i].id, form.start, form.end)))
    ensures form.start < now
            && (check == ListOnly
                || forall i :: 0 <= i < |form.halls| ==>
                     form.halls[i].id in db.halls && !HallTable.Occupied(db, form.halls[i].id, form.start, form.end))
            ==> r == Outcome(Err(ReservationRejected(ReservationTable.StartInPast)), db)
  {
    CreateReservation(db, RequestOf(db, form), ReservationTable.RejectPastStart(now), check, faults)
  }

  /**
   * `add_reservation` as written: the hall check never acts on the dict the
   * hall gateway returns, so the only rejection before any write is a start
   * in the past.
   */
  function AddReservation(db: Db, form: ReservationForm, now: Time, faults: Faults): (r: Outcome<(), BookingError>)
    ensures !(r.result.Err? && r.result.error.HallUnavailable?)
    ensures form.start < now ==> r == Outcome(Err(ReservationRejected(ReservationTable.StartInPast)), db)
  {
    AddReservationWith(db, form, now, ListOnly, faults)
  }

  /** The form that asks for hall 1 during [3600, 10800) for customer 7. */
  const OverlappingForm := ReservationForm(7, 3600, 10800, [], [HallRow(1, "A", 10.0)])

  /**
   * As written, adding a reservation for a hall that a confirmed
   * reservation holds goes through and double-books the hall; with the
   * check acting on the dict the same form is refused and nothing is written.
   */
  lemma AddReservationDoubleBooks()
    ensures var r := AddReservation(HeldHallDb, OverlappingForm, 0, {});
            r.result.Ok? && !NoDoubleBooking(r.db)
    ensures AddReservationWith(HeldHallDb, OverlappingForm, 0, AnyResult, {}) == Outcome(Err(HallUnavailable("A")), HeldHallDb)
  {
    assert NotOptionalServices(HeldHallDb) == [];
    assert RequestOf(HeldHallDb, OverlappingForm) == OverlappingRequest;
    ListOnlyCheckAllowsDoubleBooking();
    AnyResultCheckRejectsDoubleBooking();
  }

  /**
   * A successful booking bills every not-optional service of the catalog:
   * each gets a service line of the new reservation with the booking's
   * truncated hours, whether or not the customer chose it. This holds for
   * either hall check.
   */
  lemma EveryMandatoryServiceBilled(db: Db, form: ReservationForm, now: Time, check: HallCheck, faults: Faults)
    requires AddReservationWith(db, form, now, check, faults).result.Ok?
    ensures var r := AddReservationWith(db, form, now, check, faults);
            forall s :: s in db.services && !s.isOptional ==>
              ServiceLine(db.nextReservationId, s.id, TruncHours(form.start, form.end)) in r.db.lines
  {
    var req := RequestOf(db, form);
    var ids := CombinedServiceIds(req.optional, req.notOptional);
    var rid, hours := db.nextReservationId, TruncHours(form.start, form.end);
    var r := AddReservationWith(db, form, now, check, faults);
    assert r.db.lines == db.lines + LineRows(rid, ids, hours) by {
      BookWrites(db, req, AsDict(HallTable.ReadAvailableInDate(db, req.start, req.end)),
                 ReservationTable.RejectPastStart(now), check, faults);
    }
    LinesCoverIds(db.lines, rid, ids, hours);
    forall s | s in db.services && !s.isOptional ensures s.id in ids {
      MandatoryIdRequested(db, form, s);
    }
  }

  /** Every id of the list gets its line among the appended rows. */
  lemma LinesCoverIds(lines: seq<ServiceLine>, rid: int, ids: seq<int>, hours: int)
    ensures forall x :: x in ids ==> ServiceLine(rid, x, hours) in lines + LineRows(rid, ids, hours)
  {
    var rows := LineRows(rid, ids, hours);
    forall x | x in ids ensures ServiceLine(rid, x, hours) in lines + rows {
      var m :| 0 <= m < |ids| && ids[m] == x;
      assert (lines + rows)[|lines| + m] == rows[m];
    }
  }

  /** A not-optional catalog service is among the ids the booking writes lines for. */
  lemma MandatoryIdRequested(db: Db, form: ReservationForm, s: ServiceRow)
    requires s in db.services && !s.isOptional
    ensures s.id in CombinedServiceIds(form.chosen, NotOptionalServices(db))
  {
    var mandatory := NotOptionalServices(db);
    var k :| 0 <= k < |mandatory| && mandatory[k] == s;
    assert ServiceIds(mandatory)[k] == s.id;
  }

  /**
   * With the hall check acting on the dict, adding a reservation keeps the
   * identity and no-double-booking invariants, whatever write fails.
   */
  lemma AddReservationKeepsInvariants(db: Db, form: ReservationForm, now: Time, faults: Faults)
    requires WellFormed(db) && NoDoubleBooking(db)
    ensures var r := AddReservationWith(db, form, now, AnyResult, faults);
            WellFormed(r.db) && NoDoubleBooking(r.db)
  {
    CreateKeepsNoDoubleBooking(db, RequestOf(db, form), ReservationTable.RejectPastStart(now), faults);
  }
}
