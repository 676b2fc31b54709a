/**
 * `ReservationService.pay_and_transfer`: record a payment, move the money
 * from the customer's account to the SYSTEM account, then confirm the
 * reservation. When the transfer fails the payment is meant to be removed
 * again; each step commits on its own.
 */
module Settlement {
  import opened Results
  import opened Schema
  import opened Seqs
  import opened Balances
  import PaymentTable
  import CashAccountTable
  import ReservationTable
  import opened BookingInvariant

  /**
   * What the compensating delete is handed. As written it is the value
   * `Payment.create` returned, `True`, which as a bound key is the
   * reservation id 1 (`DeleteKeyTrue`); the evident intent is the id of the
   * reservation being paid (`DeleteOwnPayment`).
   */
  datatype Compensation = DeleteKeyTrue | DeleteOwnPayment

  /** The reservation id the compensating `Payment.delete` filters on. */
  function CompensationKey(comp: Compensation, rid: int): int
  {
    match comp
    case DeleteKeyTrue => 1
    case DeleteOwnPayment => rid
  }

  /**
   * How `pay_and_transfer` ends. A failure of the compensating delete
   * escapes as the gateway's raw `PaymentException`; the others become a
   * `ReservationServiceException`.
   */
  datatype SettleError = PaymentFailed | TransferFailed | CompensationFailed | ConfirmFailed

  /**
   * Write attempt 0 is the payment row, 1 the transfer, and 2 either the
   * compensating delete (after a failed transfer) or the status update.
   */
  function PayAndTransfer(db: Db, rid: int, accountId: int, amount: real, comp: Compensation, faults: Faults)
    : (r: Outcome<(), SettleError>)
    ensures r.result.Ok? <==> 0 !in faults && 1 !in faults && 2 !in faults
    ensures 0 in faults ==> r == Outcome(Err(PaymentFailed), db)
    ensures 0 !in faults && 1 in faults ==> r.result == Err(if 2 in faults then CompensationFailed else TransferFailed)
    ensures 0 !in faults && 1 !in faults && 2 in faults ==> r.result == Err(ConfirmFailed)
    ensures 0 !in faults && 1 in faults ==> r.db.accounts == db.accounts
    ensures r.db.accounts == if 0 !in faults && 1 !in faults
                             then CashAccountTable.Transfer(db, amount, accountId, true).db.accounts
                             else db.accounts
    ensures r.db == db.(payments := r.db.payments, accounts := r.db.accounts,
                        reservations := r.db.reservations, journal := r.db.journal)
    ensures |r.db.accounts| == |db.accounts|
    ensures forall i :: 0 <= i < |db.accounts| ==> r.db.accounts[i].id == db.accounts[i].id
    ensures r.db.reservations.Keys == db.reservations.Keys
    ensures forall k :: k in db.reservations && k != rid ==> r.db.reservations[k] == db.reservations[k]
    ensures r.result.Ok? && rid in db.reservations ==> r.db.reservations[rid] == db.reservations[rid].(status := Confirmed)
    ensures r.result.Ok? || r.result == Err(ConfirmFailed) ==> r.db.payments == db.payments + [Payment(rid, amount)]
    ensures r.result == Err(ConfirmFailed) ==> r.db.reservations == db.reservations
    ensures r.result.Ok? ==>
              r.db.journal == db.journal + [PaymentInserted(Payment(rid, amount)), Transferred(accountId, amount),
                                            ReservationStatusSet(rid, Confirmed)]
  {
    var paid := PaymentTable.Create(db, rid, amount, 0 !in faults);
    if paid.result.Err? then Outcome(Err(PaymentFailed), db)
    else
      var moved := CashAccountTable.Transfer(paid.db, amount, accountId, 1 !in faults);
      if moved.result.Err? then
        var undo := PaymentTable.Delete(moved.db, CompensationKey(comp, rid), 2 !in faults);
        if undo.result.Err? then Outcome(Err(CompensationFailed), undo.db)
        else Outcome(Err(TransferFailed), undo.db)
      else
        var confirmed := ReservationTable.SetStatus(moved.db, rid, Confirmed, 2 !in faults);
        if confirmed.result.Err? then Outcome(Err(ConfirmFailed), confirmed.db)
        else Outcome(Ok(()), confirmed.db)
  }

  /**
   * A settlement that gets past the payment moves the sum of all balances as
   * one transfer does; with one SYSTEM account and an existing, uniquely
   * identified source account, no money is created or lost in any outcome.
   */
  lemma SettlementConservesTotal(db: Db, rid: int, accountId: int, amount: real, comp: Compensation, faults: Faults)
    requires DistinctIds(db.accounts)
    requires SystemCount(db.accounts) == 1
    requires HasId(db.accounts, accountId)
    ensures Total(PayAndTransfer(db, rid, accountId, amount, comp, faults).db.accounts) == Total(db.accounts)
  {
    CountIdDistinct(db.accounts, accountId);
  }

  /**
   * With the compensation keyed by the reservation being paid, a failed
   * transfer leaves no payment of that reservation behind, and a
   * reservation that had no payment before is back to its previous payment
   * rows exactly.
   */
  lemma OwnPaymentCompensationUndoesPayment(db: Db, rid: int, accountId: int, amount: real)
    ensures var r := PayAndTransfer(db, rid, accountId, amount, DeleteOwnPayment, {1});
            && r.result == Err(TransferFailed)
            && !PaymentTable.HasPayment(r.db, rid)
            && r.db.accounts == db.accounts
            && r.db.reservations == db.reservations
    ensures !PaymentTable.HasPayment(db, rid) ==>
              PayAndTransfer(db, rid, accountId, amount, DeleteOwnPayment, {1}).db.payments == db.payments
  {
    var r := PayAndTransfer(db, rid, accountId, amount, DeleteOwnPayment, {1});
    forall i | 0 <= i < |r.db.payments| ensures r.db.payments[i].reservationId != rid {
      assert r.db.payments[i] in r.db.payments;
    }
    if !PaymentTable.HasPayment(db, rid) {
      var keep := (p: Payment) => p.reservationId != rid;
      FilterAppend(db.payments, [Payment(rid, amount)], keep);
      FilterKeepsAll(db.payments, keep);
      assert Filter([Payment(rid, amount)], keep) == [];
    }
  }

  /**
   * As written, a failed transfer for any reservation other than 1 keeps
   * its payment row, so the reservation reads as paid although no money
   * moved; the delete instead removes every payment of reservation 1.
   */
  lemma KeyTrueCompensationKeepsPayment(db: Db, rid: int, accountId: int, amount: real)
    requires rid != 1
    ensures var r := PayAndTransfer(db, rid, accountId, amount, DeleteKeyTrue, {1});
            && r.result == Err(TransferFailed)
            && Payment(rid, amount) in r.db.payments
            && PaymentTable.HasPayment(r.db, rid)
            && !PaymentTable.HasPayment(r.db, 1)
            && r.db.accounts == db.accounts
  {
    var r := PayAndTransfer(db, rid, accountId, amount, DeleteKeyTrue, {1});
    var paid := db.payments + [Payment(rid, amount)];
    assert Payment(rid, amount) in paid;
    assert Payment(rid, amount) in r.db.payments;
    var k :| 0 <= k < |r.db.payments| && r.db.payments[k] == Payment(rid, amount);
    forall i | 0 <= i < |r.db.payments| ensures r.db.payments[i].reservationId != 1 {
      assert r.db.payments[i] in r.db.payments;
    }
  }

  /**
   * Settlement keeps the identity invariant, and it keeps the hall
   * invariant unless it confirms a cancelled reservation, which would bring
   * that reservation's halls back into play.
   */
  lemma SettlementKeepsInvariants(db: Db, rid: int, accountId: int, amount: real, comp: Compensation, faults: Faults)
    requires WellFormed(db) && NoDoubleBooking(db)
    requires rid in db.reservations ==> db.reservations[rid].status != Cancelled
    ensures var r := PayAndTransfer(db, rid, accountId, amount, comp, faults);
            WellFormed(r.db) && NoDoubleBooking(r.db)
  {
    var r := PayAndTransfer(db, rid, accountId, amount, comp, faults);
    forall i, j | 0 <= i < |r.db.assignments| && 0 <= j < |r.db.assignments|
      ensures !Clash(r.db, r.db.assignments[i], r.db.assignments[j])
    {
      assert !Clash(db, db.assignments[i], db.assignments[j]);
    }
  }
}
