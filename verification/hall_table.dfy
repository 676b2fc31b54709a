/**
 * `Hall.read_available_in_date`: the halls of the catalog that no live
 * reservation occupies during a half-open window.
 */
module HallTable {
  import opened Schema

  /** The SQL overlap test `:start < r.end_time AND :end > r.start_time`. */
  predicate Overlaps(from: Time, to: Time, r: Reservation)
  {
    from < r.end && to > r.start
  }

  /** Assignment `a` puts a live reservation overlapping [from, to) on hall `hallId`. */
  predicate Blocks(db: Db, a: HallAssignment, hallId: int, from: Time, to: Time)
  {
    a.hallId == hallId && Live(db, a.reservationId) && Overlaps(from, to, db.reservations[a.reservationId])
  }

  /** The `NOT EXISTS` subquery of the availability query, read declaratively. */
  ghost predicate Occupied(db: Db, hallId: int, from: Time, to: Time)
  {
    exists i :: 0 <= i < |db.assignments| && Blocks(db, db.assignments[i], hallId, from, to)
  }

  /** The halls that the assignments `rows` block during [from, to). */
  function BusyHalls(db: Db, rows: seq<HallAssignment>, from: Time, to: Time): (busy: set<int>)
    ensures forall h :: h in busy <==> exists i :: 0 <= i < |rows| && Blocks(db, rows[i], h, from, to)
  {
    if rows == [] then {}
    else
      var a := rows[|rows| - 1];
      var prefix := BusyHalls(db, rows[..|rows| - 1], from, to);
      assert forall i :: 0 <= i < |rows| - 1 ==> rows[..|rows| - 1][i] == rows[i];
      if Live(db, a.reservationId) && Overlaps(from, to, db.reservations[a.reservationId])
      then prefix + {a.hallId}
      else prefix
  }

  /**
   * The query result: a map from hall id to hall name (a dict, not a list)
   * holding exactly the catalog halls that are not occupied.
   */
  function ReadAvailableInDate(db: Db, from: Time, to: Time): (free: map<int, string>)
    ensures forall h :: h in free <==> h in db.halls && !Occupied(db, h, from, to)
    ensures forall h :: h in free ==> free[h] == db.halls[h].name
  {
    var busy := BusyHalls(db, db.assignments, from, to);
    map h | h in db.halls && h !in busy :: db.halls[h].name
  }

  /** A cancelled reservation never makes a hall unavailable, whatever its window. */
  lemma CancelledNeverBlocks(db: Db, hallId: int, from: Time, to: Time)
    requires hallId in db.halls
    requires forall i :: 0 <= i < |db.assignments| && db.assignments[i].hallId == hallId
               && db.assignments[i].reservationId in db.reservations
               ==> db.reservations[db.assignments[i].reservationId].status == Cancelled
    ensures hallId in ReadAvailableInDate(db, from, to)
  {
  }

  /** Windows that only touch an existing reservation's window do not conflict with it. */
  lemma TouchingWindowsDoNotConflict(db: Db, hallId: int, from: Time, to: Time)
    requires hallId in db.halls
    requires forall i :: 0 <= i < |db.assignments| && db.assignments[i].hallId == hallId
               && db.assignments[i].reservationId in db.reservations
               ==> (db.reservations[db.assignments[i].reservationId].end <= from
                    || db.reservations[db.assignments[i].reservationId].start >= to)
    ensures hallId in ReadAvailableInDate(db, from, to)
  {
  }

  /** A catalog hall without any assignment is available for every window. */
  lemma UnassignedHallAvailable(db: Db, hallId: int, from: Time, to: Time)
    requires hallId in db.halls
    requires forall i :: 0 <= i < |db.assignments| ==> db.assignments[i].hallId != hallId
    ensures hallId in ReadAvailableInDate(db, from, to)
  {
  }

  /** Overlap of two windows does not depend on which one is the query. */
  lemma OverlapsSymmetric(r: Reservation, s: Reservation)
    ensures Overlaps(r.start, r.end, s) <==> Overlaps(s.start, s.end, r)
  {
  }
}
