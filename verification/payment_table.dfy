/**
 * The `Payment` table gateway. Rows are addressed by their reservation id:
 * `update`, `delete` and `read` all filter on `reservation_id`.
 */
module PaymentTable {
  import opened Results
  import opened Schema
  import opened Seqs

  datatype PaymentError = DatabaseError

  /**
   * `Payment.create`: inserts one (reservation id, amount) row and returns
   * `True`, not the new row's id.
   */
  function Create(db: Db, reservationId: int, amount: real, ok: bool): (r: Outcome<bool, PaymentError>)
    ensures r.result.Ok? <==> ok
    ensures r.result.Ok? ==> r.result.value == true
    ensures !ok ==> r.db == db
    ensures ok ==> && r.db.payments == db.payments + [Payment(reservationId, amount)]
                   && r.db == db.(payments := r.db.payments,
                                  journal := db.journal + [PaymentInserted(Payment(reservationId, amount))])
  {
    if !ok then Outcome(Err(DatabaseError), db)
    else
      var row := Payment(reservationId, amount);
      Outcome(Ok(true), db.(payments := db.payments + [row], journal := db.journal + [PaymentInserted(row)]))
  }

  /** The payment rows not addressed by `reservationId`, in order. */
  function Without(payments: seq<Payment>, reservationId: int): (rest: seq<Payment>)
    ensures forall p :: p in rest <==> p in payments && p.reservationId != reservationId
    ensures forall p :: multiset(rest)[p] == if p.reservationId == reservationId then 0 else multiset(payments)[p]
  {
    Filter(payments, (p: Payment) => p.reservationId != reservationId)
  }

  /** `Payment.delete(x)`: removes every payment of reservation `x` and no other row. */
  function Delete(db: Db, reservationId: int, ok: bool): (r: Outcome<(), PaymentError>)
    ensures r.result.Ok? <==> ok
    ensures !ok ==> r.db == db
    ensures ok ==> forall p :: p in r.db.payments <==> p in db.payments && p.reservationId != reservationId
    ensures ok ==> forall p :: multiset(r.db.payments)[p] == if p.reservationId == reservationId then 0 else multiset(db.payments)[p]
    ensures ok ==> r.db == db.(payments := r.db.payments, journal := db.journal + [PaymentsDeleted(reservationId)])
  {
    if !ok then Outcome(Err(DatabaseError), db)
    else Outcome(Ok(()), db.(payments := Without(db.payments, reservationId),
                             journal := db.journal + [PaymentsDeleted(reservationId)]))
  }

  /** `Payment.update("amount", value, x)`: sets the amount on the payments of reservation `x` only. */
  function UpdateAmount(db: Db, reservationId: int, amount: real, ok: bool): (r: Outcome<(), PaymentError>)
    ensures r.result.Ok? <==> ok
    ensures !ok ==> r.db == db
    ensures |r.db.payments| == |db.payments|
    ensures forall i :: 0 <= i < |db.payments| ==>
              r.db.payments[i] == if ok && db.payments[i].reservationId == reservationId
                                  then Payment(reservationId, amount) else db.payments[i]
    ensures ok ==> r.db == db.(payments := r.db.payments,
                               journal := db.journal + [PaymentsUpdated(reservationId, amount)])
  {
    if !ok then Outcome(Err(DatabaseError), db)
    else
      var rows := seq(|db.payments|, i requires 0 <= i < |db.payments| =>
                        if db.payments[i].reservationId == reservationId then db.payments[i].(amount := amount)
                        else db.payments[i]);
      Outcome(Ok(()), db.(payments := rows, journal := db.journal + [PaymentsUpdated(reservationId, amount)]))
  }

  /** Some payment of the reservation exists. */
  predicate HasPayment(db: Db, reservationId: int)
  {
    exists i :: 0 <= i < |db.payments| && db.payments[i].reservationId == reservationId
  }

  /** Index of the first payment of the reservation, or the table length when there is none. */
  function FirstPayment(payments: seq<Payment>, reservationId: int): (k: nat)
    ensures k <= |payments|
    ensures forall i :: 0 <= i < k ==> payments[i].reservationId != reservationId
    ensures k < |payments| ==> payments[k].reservationId == reservationId
  {
    if payments == [] then 0
    else if payments[0].reservationId == reservationId then 0
    else 1 + FirstPayment(payments[1..], reservationId)
  }

  /** `Payment.read(x)`: `fetchone()` over the payments of reservation `x`. */
  function Read(db: Db, reservationId: int): (row: Option<Payment>)
    ensures row.None? <==> !HasPayment(db, reservationId)
    ensures row.Some? ==> row.value in db.payments && row.value.reservationId == reservationId
  {
    var k := FirstPayment(db.payments, reservationId);
    if k < |db.payments| then Some(db.payments[k]) else None
  }

  /** A payment just created is read back, unless an earlier payment of the same reservation shadows it. */
  lemma ReadAfterCreate(db: Db, reservationId: int, amount: real)
    requires !HasPayment(db, reservationId)
    ensures Read(Create(db, reservationId, amount, true).db, reservationId) == Some(Payment(reservationId, amount))
  {
    var db' := Create(db, reservationId, amount, true).db;
    assert db'.payments[|db.payments|] == Payment(reservationId, amount);
  }

  /** After a successful delete no payment of that reservation can be read. */
  lemma ReadAfterDelete(db: Db, reservationId: int)
    ensures Read(Delete(db, reservationId, true).db, reservationId) == None
  {
    var db' := Delete(db, reservationId, true).db;
    assert forall i :: 0 <= i < |db'.payments| ==> db'.payments[i] in db'.payments;
  }
}
