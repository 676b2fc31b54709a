/**
 * The `Reservation_Hall` table gateway (`ReservationHall.create`). Its
 * source file is not part of this model; it is modelled as an insert of one
 * (reservation id, hall id) row that either commits or raises.
 */
module AssignmentTable {
  import opened Results
  import opened Schema

  datatype AssignmentError = DatabaseError

  function Create(db: Db, reservationId: int, hallId: int, ok: bool): (r: Outcome<(), AssignmentError>)
    ensures r.result.Ok? <==> ok
    ensures !ok ==> r.db == db
    ensures ok ==> var row := HallAssignment(reservationId, hallId);
                   && r.db.assignments == db.assignments + [row]
                   && r.db == db.(assignments := r.db.assignments, journal := db.journal + [HallAssigned(row)])
  {
    if !ok then Outcome(Err(DatabaseError), db)
    else
      var row := HallAssignment(reservationId, hallId);
      Outcome(Ok(()), db.(assignments := db.assignments + [row], journal := db.journal + [HallAssigned(row)]))
  }
}
