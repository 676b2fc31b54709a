/**
 * The property the hall check exists for: no hall carries two live
 * reservations whose windows overlap. With the check acting on the dict the
 * hall gateway returns, every booking keeps it, whatever write fails; as
 * written, the check never acts and a conflicting booking goes through.
 */
module BookingInvariant {
  import opened Results
  import opened Schema
  import opened Pricing
  import opened HallTable
  import ReservationTable
  import opened Booking

  /** Assignments `a` and `b` put two different live, overlapping reservations on one hall. */
  predicate Clash(db: Db, a: HallAssignment, b: HallAssignment)
  {
    && a.hallId == b.hallId
    && a.reservationId != b.reservationId
    && Live(db, a.reservationId)
    && Live(db, b.reservationId)
    && Overlaps(db.reservations[b.reservationId].start, db.reservations[b.reservationId].end,
                db.reservations[a.reservationId])
  }

  ghost predicate NoDoubleBooking(db: Db)
  {
    forall i, j :: 0 <= i < |db.assignments| && 0 <= j < |db.assignments|
                   ==> !Clash(db, db.assignments[i], db.assignments[j])
  }

  /**
   * Inserting a reservation under a fresh id changes nothing for the
   * assignments already stored.
   */
  lemma FreshReservationKeeps(db: Db, db': Db, rid: int)
    requires WellFormed(db) && NoDoubleBooking(db)
    requires rid == db.nextReservationId
    requires db'.assignments == db.assignments
    requires forall k :: k in db.reservations ==> k in db'.reservations && db'.reservations[k] == db.reservations[k]
    requires forall k :: k in db'.reservations && k != rid ==> k in db.reservations
    ensures NoDoubleBooking(db')
  {
    forall i, j | 0 <= i < |db'.assignments| && 0 <= j < |db'.assignments|
      ensures !Clash(db', db'.assignments[i], db'.assignments[j])
    {
      assert !Clash(db, db.assignments[i], db.assignments[j]);
    }
  }

  /**
   * Appending assignments of one reservation to halls that no other live
   * reservation blocks during its window keeps the invariant.
   */
  lemma AppendFreeAssignments(db: Db, db': Db, rid: int, rows: seq<HallAssignment>)
    requires NoDoubleBooking(db)
    requires rid in db.reservations
    requires db'.reservations == db.reservations && db'.assignments == db.assignments + rows
    requires forall k :: 0 <= k < |rows| ==> rows[k].reservationId == rid
    requires forall k, i :: 0 <= k < |rows| && 0 <= i < |db.assignments| && db.assignments[i].reservationId != rid
               ==> !Blocks(db, db.assignments[i], rows[k].hallId, db.reservations[rid].start, db.reservations[rid].end)
    ensures NoDoubleBooking(db')
  {
    var n := |db.assignments|;
    forall i, j | 0 <= i < |db'.assignments| && 0 <= j < |db'.assignments|
      ensures !Clash(db', db'.assignments[i], db'.assignments[j])
    {
      var a, b := db'.assignments[i], db'.assignments[j];
      if i < n && j < n {
        assert a == db.assignments[i] && b == db.assignments[j];
      } else if i >= n && j >= n {
        assert a == rows[i - n] && b == rows[j - n];
      } else if i < n {
        assert a == db.assignments[i] && b == rows[j - n];
        if Clash(db', a, b) {
          OverlapsSymmetric(db.reservations[rid], db.reservations[a.reservationId]);
          assert Blocks(db, db.assignments[i], rows[j - n].hallId, db.reservations[rid].start, db.reservations[rid].end);
        }
      } else {
        assert b == db.assignments[j] && a == rows[i - n];
        if Clash(db', a, b) {
          assert Blocks(db, db.assignments[j], rows[i - n].hallId, db.reservations[rid].start, db.reservations[rid].end);
        }
      }
    }
  }

  /** The assignments the detail writes leave behind are those of a prefix of the requested halls. */
  lemma WriteDetailsAssigns(db: Db, rid: int, req: Request, faults: Faults) returns (m: nat)
    ensures m <= |req.halls|
    ensures WriteDetails(db, rid, req, faults).db.assignments == db.assignments + AssignmentRows(rid, req.halls[..m])
  {
    var ids := CombinedServiceIds(req.optional, req.notOptional);
    var lines := InsertLines(db, rid, ids, TruncHours(req.start, req.end), faults, 1);
    if lines.result.Err? {
      m := 0;
      assert AssignmentRows(rid, req.halls[..0]) == [];
    } else {
      m := FirstFault(faults, 1 + |ids|, |req.halls|);
    }
  }

  /**
   * The detail writes of a booking whose halls are free keep both
   * invariants, wherever they stop.
   */
  lemma DetailsKeepInvariants(mid: Db, rid: int, req: Request, faults: Faults)
    requires WellFormed(mid) && NoDoubleBooking(mid)
    requires rid in mid.reservations && rid < mid.nextReservationId
    requires mid.reservations[rid].start == req.start && mid.reservations[rid].end == req.end
    requires forall k, i :: 0 <= k < |req.halls| && 0 <= i < |mid.assignments|
               && mid.assignments[i].reservationId != rid
               ==> !Blocks(mid, mid.assignments[i], req.halls[k].id, req.start, req.end)
    ensures var db' := WriteDetails(mid, rid, req, faults).db;
            WellFormed(db') && NoDoubleBooking(db')
  {
    var db' := WriteDetails(mid, rid, req, faults).db;
    var m := WriteDetailsAssigns(mid, rid, req, faults);
    var rows := AssignmentRows(rid, req.halls[..m]);
    forall k, i | 0 <= k < |rows| && 0 <= i < |mid.assignments| && mid.assignments[i].reservationId != rid
      ensures !Blocks(mid, mid.assignments[i], rows[k].hallId, req.start, req.end)
    {
      assert rows[k].hallId == req.halls[k].id;
    }
    AppendFreeAssignments(mid, db', rid, rows);
  }

  /** Halls free in `db` stay free for every other reservation once a fresh one is inserted. */
  lemma FreeHallsStayFree(db: Db, mid: Db, rid: int, req: Request)
    requires WellFormed(db)
    requires rid == db.nextReservationId
    requires mid.assignments == db.assignments
    requires forall k :: k in db.reservations ==> k in mid.reservations && mid.reservations[k] == db.reservations[k]
    requires forall k :: k in mid.reservations && k != rid ==> k in db.reservations
    requires forall k :: 0 <= k < |req.halls| ==> !Occupied(db, req.halls[k].id, req.start, req.end)
    ensures forall k, i :: 0 <= k < |req.halls| && 0 <= i < |mid.assignments|
              && mid.assignments[i].reservationId != rid
              ==> !Blocks(mid, mid.assignments[i], req.halls[k].id, req.start, req.end)
  {
    forall k, i | 0 <= k < |req.halls| && 0 <= i < |mid.assignments| && mid.assignments[i].reservationId != rid
      ensures !Blocks(mid, mid.assignments[i], req.halls[k].id, req.start, req.end)
    {
      assert !Blocks(db, db.assignments[i], req.halls[k].id, req.start, req.end);
    }
  }

  /**
   * With the hall check acting on the gateway's dict, `create_reservation`
   * keeps both the identity invariant and the no-double-booking invariant,
   * also when a write fails part-way and leaves a partial booking behind.
   */
  lemma CreateKeepsNoDoubleBooking(db: Db, req: Request, policy: ReservationTable.PastPolicy, faults: Faults)
    requires WellFormed(db) && NoDoubleBooking(db)
    ensures var r := CreateReservation(db, req, policy, AnyResult, faults);
            WellFormed(r.db) && NoDoubleBooking(r.db)
  {
    var avail := AsDict(ReadAvailableInDate(db, req.start, req.end));
    if CheckHalls(req.halls, avail, AnyResult) == None {
      var created := ReservationTable.Create(db, req.customerId, req.start, req.end, Price(req), policy, 0 !in faults);
      if created.result.Ok? {
        var rid := created.result.value;
        var mid := created.db;
        FreshReservationKeeps(db, mid, rid);
        assert forall k :: 0 <= k < |req.halls| ==> Contains(avail, req.halls[k].id);
        FreeHallsStayFree(db, mid, rid, req);
        DetailsKeepInvariants(mid, rid, req, faults);
      }
    }
  }

  /** A confirmed reservation (id 0) holds hall 1, named "A", during [0, 7200). */
  const HeldHallDb := Db(map[1 := HallInfo("A", 10.0)], [], map[0 := Reservation(7, 0, 7200, 20.0, Confirmed)], 1,
                         [], [HallAssignment(0, 1)], [], [], 0, map[], 0, [])

  /** A request for hall 1 during [3600, 10800), which overlaps the held window. */
  const OverlappingRequest := Request(7, 3600, 10800, [], [], [HallRow(1, "A", 10.0)])

  lemma HeldHallDbIsConsistent()
    ensures WellFormed(HeldHallDb) && NoDoubleBooking(HeldHallDb)
  {
  }

  /** The request is priced at two hours of hall "A" and carries no service lines. */
  lemma OverlappingRequestFacts()
    ensures Price(OverlappingRequest) == 20.0
    ensures CombinedServiceIds(OverlappingRequest.optional, OverlappingRequest.notOptional) == []
  {
    var req := OverlappingRequest;
    assert HallRateSum(req.halls) == 10.0;
    assert Hours(req.start, req.end) == 2.0;
    assert ChoiceIds([]) == [] && ServiceIds([]) == [];
  }

  /**
   * As written the hall check never acts: the overlapping request is booked
   * and the hall ends up double-booked.
   */
  lemma ListOnlyCheckAllowsDoubleBooking()
    ensures var r := CreateReservation(HeldHallDb, OverlappingRequest, ReservationTable.RejectPastStart(0), ListOnly, {});
            r.result.Ok? && !NoDoubleBooking(r.db)
  {
    var db, req := HeldHallDb, OverlappingRequest;
    var policy := ReservationTable.RejectPastStart(0);
    var avail := AsDict(ReadAvailableInDate(db, req.start, req.end));
    OverlappingRequestFacts();
    BookSucceeds(db, req, avail, policy, ListOnly, {});
    assert NoFaultBelow({}, 2);
    BookWrites(db, req, avail, policy, ListOnly, {});
    DoubleBooked(CreateReservation(db, req, policy, ListOnly, {}).db);
  }

  /** Hall 1 held by reservation 0 during [0, 7200) and by reservation 1 during [3600, 10800). */
  lemma DoubleBooked(db: Db)
    requires db.assignments == HeldHallDb.assignments + [HallAssignment(1, 1)]
    requires db.reservations == HeldHallDb.reservations[1 := Reservation(7, 3600, 10800, 20.0, Created)]
    ensures !NoDoubleBooking(db)
  {
    assert Clash(db, db.assignments[0], db.assignments[1]);
  }

  /** The check acting on the dict rejects the same request with the hall's name and writes nothing. */
  lemma AnyResultCheckRejectsDoubleBooking()
    ensures CreateReservation(HeldHallDb, OverlappingRequest, ReservationTable.RejectPastStart(0), AnyResult, {})
            == Outcome(Err(HallUnavailable("A")), HeldHallDb)
  {
    var db, req := HeldHallDb, OverlappingRequest;
    var avail := AsDict(ReadAvailableInDate(db, req.start, req.end));
    assert Blocks(db, db.assignments[0], 1, req.start, req.end);
    assert !Contains(avail, 1);
  }
}
