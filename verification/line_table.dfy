/**
 * The `Reservation_Service` table gateway (`ServiceReservation`): rows of
 * (reservation id, service id, hours), filtered by column values.
 */
module ServiceLineTable {
  import opened Results
  import opened Schema
  import opened Seqs

  /** The gateway raises its own `ReservationServiceException` on any database error. */
  datatype LineError = DatabaseError

  /** `create`: appends one row. */
  function Create(db: Db, reservationId: int, serviceId: int, hours: int, ok: bool): (r: Outcome<(), LineError>)
    ensures r.result.Ok? <==> ok
    ensures !ok ==> r.db == db
    ensures ok ==> var row := ServiceLine(reservationId, serviceId, hours);
                   && r.db.lines == db.lines + [row]
                   && r.db == db.(lines := r.db.lines, journal := db.journal + [LineInserted(row)])
  {
    if !ok then Outcome(Err(DatabaseError), db)
    else
      var row := ServiceLine(reservationId, serviceId, hours);
      Outcome(Ok(()), db.(lines := db.lines + [row], journal := db.journal + [LineInserted(row)]))
  }

  /** The row matches both key columns. */
  predicate Matches(line: ServiceLine, reservationId: int, serviceId: int)
  {
    line.reservationId == reservationId && line.serviceId == serviceId
  }

  /** `update`: sets `hours` on the rows matching both ids. */
  function Update(db: Db, reservationId: int, serviceId: int, hours: int, ok: bool): (r: Outcome<(), LineError>)
    ensures r.result.Ok? <==> ok
    ensures !ok ==> r.db == db
    ensures |r.db.lines| == |db.lines|
    ensures forall i :: 0 <= i < |db.lines| ==>
              r.db.lines[i] == if ok && Matches(db.lines[i], reservationId, serviceId)
                               then db.lines[i].(hours := hours) else db.lines[i]
    ensures ok ==> r.db == db.(lines := r.db.lines,
                               journal := db.journal + [LinesUpdated(reservationId, serviceId, hours)])
  {
    if !ok then Outcome(Err(DatabaseError), db)
    else
      var rows := seq(|db.lines|, i requires 0 <= i < |db.lines| =>
                        if Matches(db.lines[i], reservationId, serviceId) then db.lines[i].(hours := hours)
                        else db.lines[i]);
      Outcome(Ok(()), db.(lines := rows, journal := db.journal + [LinesUpdated(reservationId, serviceId, hours)]))
  }

  /** `delete`: removes the rows matching both ids and keeps every other row, in order. */
  function Delete(db: Db, reservationId: int, serviceId: int, ok: bool): (r: Outcome<(), LineError>)
    ensures r.result.Ok? <==> ok
    ensures !ok ==> r.db == db
    ensures ok ==> forall l :: l in r.db.lines <==> l in db.lines && !Matches(l, reservationId, serviceId)
    ensures ok ==> forall l :: multiset(r.db.lines)[l] == if Matches(l, reservationId, serviceId) then 0 else multiset(db.lines)[l]
    ensures ok ==> r.db == db.(lines := r.db.lines, journal := db.journal + [LinesDeleted(reservationId, serviceId)])
  {
    if !ok then Outcome(Err(DatabaseError), db)
    else
      var rows := Filter(db.lines, (l: ServiceLine) => !Matches(l, reservationId, serviceId));
      Outcome(Ok(()), db.(lines := rows, journal := db.journal + [LinesDeleted(reservationId, serviceId)]))
  }

  /** `read(reservation_id)`: the rows of that reservation, in table order. */
  function Read(db: Db, reservationId: int): (rows: seq<ServiceLine>)
    ensures forall l :: l in rows <==> l in db.lines && l.reservationId == reservationId
    ensures forall l :: multiset(rows)[l] == if l.reservationId == reservationId then multiset(db.lines)[l] else 0
  {
    Filter(db.lines, (l: ServiceLine) => l.reservationId == reservationId)
  }

  /** Rows appended for one reservation are read back after the earlier rows of that reservation. */
  lemma ReadAfterAppend(lines: seq<ServiceLine>, added: seq<ServiceLine>, reservationId: int)
    requires forall i :: 0 <= i < |added| ==> added[i].reservationId == reservationId
    ensures Filter(lines + added, (l: ServiceLine) => l.reservationId == reservationId)
         == Filter(lines, (l: ServiceLine) => l.reservationId == reservationId) + added
  {
    var keep := (l: ServiceLine) => l.reservationId == reservationId;
    FilterAppend(lines, added, keep);
    FilterKeepsAll(added, keep);
  }
}
