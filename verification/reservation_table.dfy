/**
 * The `Reservation` table gateway: `create` with its validations, the status
 * update used by settlement, and `delete`.
 */
module ReservationTable {
  import opened Results
  import opened Schema

  /**
   * Whether `create` rejects a start time in the past. The current gateway
   * compares against the clock reading `now`; the older gateway has no such
   * check.
   */
  datatype PastPolicy = RejectPastStart(now: Time) | AllowPastStart

  datatype ReservationError =
    | StartInPast
    | StartNotBeforeEnd
    | InvalidTotalPrice(price: real)
    | DatabaseError

  /** The checks `create` makes before touching the database, in the order it makes them. */
  function Validate(start: Time, end: Time, price: real, policy: PastPolicy): (e: Option<ReservationError>)
    ensures e == None <==> (policy.RejectPastStart? ==> start >= policy.now) && start < end && price > 0.0
    ensures e == Some(StartInPast) <==> policy.RejectPastStart? && start < policy.now
    ensures e == Some(StartNotBeforeEnd)
            <==> !(policy.RejectPastStart? && start < policy.now) && start >= end
    ensures e == Some(InvalidTotalPrice(price))
            <==> !(policy.RejectPastStart? && start < policy.now) && start < end && price <= 0.0
    ensures e != Some(DatabaseError)
  {
    if policy.RejectPastStart? && start < policy.now then Some(StartInPast)
    else if start >= end then Some(StartNotBeforeEnd)
    else if price <= 0.0 then Some(InvalidTotalPrice(price))
    else None
  }

  /**
   * `Reservation.create`: validate, then insert one row with status CREATED
   * and return its new identity. `ok` is false when the insert raises; the
   * gateway then rolls back.
   */
  function Create(db: Db, customerId: int, start: Time, end: Time, price: real,
                  policy: PastPolicy, ok: bool): (r: Outcome<int, ReservationError>)
    ensures r.result.Ok? <==> Validate(start, end, price, policy) == None && ok
    ensures r.result.Err? ==> r.db == db
    ensures r.result.Err? && Validate(start, end, price, policy).Some?
            ==> r.result.error == Validate(start, end, price, policy).value
    ensures r.result.Err? && Validate(start, end, price, policy) == None ==> r.result.error == DatabaseError
    ensures r.result.Ok? ==>
              var id := r.result.value;
              && id == db.nextReservationId
              && (WellFormed(db) ==> id !in db.reservations && WellFormed(r.db))
              && r.db.reservations == db.reservations[id := Reservation(customerId, start, end, price, Created)]
              && r.db == db.(reservations := r.db.reservations,
                             nextReservationId := id + 1,
                             journal := db.journal + [ReservationInserted(id)])
  {
    var invalid := Validate(start, end, price, policy);
    if invalid.Some? then Outcome(Err(invalid.value), db)
    else if !ok then Outcome(Err(DatabaseError), db)
    else
      var id := db.nextReservationId;
      Outcome(Ok(id), db.(reservations := db.reservations[id := Reservation(customerId, start, end, price, Created)],
                          nextReservationId := id + 1,
                          journal := db.journal + [ReservationInserted(id)]))
  }

  /**
   * `Reservation.update("status", value, id)`: sets the status of the row
   * with that id; a missing id matches no row and changes nothing.
   */
  function SetStatus(db: Db, id: int, status: Status, ok: bool): (r: Outcome<(), ReservationError>)
    ensures r.result.Ok? <==> ok
    ensures !ok ==> r == Outcome(Err(DatabaseError), db)
    ensures ok ==> r.db.journal == db.journal + [ReservationStatusSet(id, status)]
    ensures ok ==> r.db.reservations.Keys == db.reservations.Keys
    ensures ok && id in db.reservations ==> r.db.reservations[id] == db.reservations[id].(status := status)
    ensures forall k :: k in db.reservations && k != id ==> r.db.reservations[k] == db.reservations[k]
    ensures r.db == db.(reservations := r.db.reservations, journal := r.db.journal)
  {
    if !ok then Outcome(Err(DatabaseError), db)
    else
      var rows := if id in db.reservations then db.reservations[id := db.reservations[id].(status := status)]
                  else db.reservations;
      Outcome(Ok(()), db.(reservations := rows, journal := db.journal + [ReservationStatusSet(id, status)]))
  }

  /** `Reservation.delete(id)`: removes exactly the row with that id. */
  function Delete(db: Db, id: int, ok: bool): (r: Outcome<(), ReservationError>)
    ensures r.result.Ok? <==> ok
    ensures !ok ==> r == Outcome(Err(DatabaseError), db)
    ensures ok ==> id !in r.db.reservations && r.db.reservations.Keys == db.reservations.Keys - {id}
    ensures forall k :: k in r.db.reservations ==> r.db.reservations[k] == db.reservations[k]
    ensures ok ==> r.db == db.(reservations := r.db.reservations,
                               journal := db.journal + [ReservationDeleted(id)])
  {
    if !ok then Outcome(Err(DatabaseError), db)
    else Outcome(Ok(()), db.(reservations := db.reservations - {id},
                             journal := db.journal + [ReservationDeleted(id)]))
  }

  /**
   * The two gateway generations differ only on a start in the past: the
   * current one rejects it, the older one stores the row when the insert
   * succeeds.
   */
  lemma PastStartPolicies(db: Db, customerId: int, start: Time, end: Time, price: real, now: Time, ok: bool)
    requires start < now && start < end && price > 0.0
    ensures Create(db, customerId, start, end, price, RejectPastStart(now), ok) == Outcome(Err(StartInPast), db)
    ensures Create(db, customerId, start, end, price, AllowPastStart, ok).result.Ok? <==> ok
  {
  }
}
