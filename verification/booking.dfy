/**
 * `ReservationService.create_reservation`: check the requested halls, price
 * the request, insert the reservation, then one service line per combined
 * service id and one hall assignment per requested hall. Every gateway call
 * commits on its own, so a failure part-way leaves the earlier rows in place.
 */
module Booking {
  import opened Results
  import opened Schema
  import opened Seqs
  import opened Pricing
  import opened HallTable
  import ReservationTable
  import ServiceLineTable
  import AssignmentTable

  /**
   * A booking request. The dicts of the source are sequences in insertion
   * order: `optional` maps a service id to the value attached to it, `halls`
   * maps a hall id to its catalog row, and `notOptional` is the list of
   * service rows that every reservation carries.
   */
  datatype Request = Request(
    customerId: int,
    start: Time,
    end: Time,
    optional: seq<Choice>,
    notOptional: seq<ServiceRow>,
    halls: seq<HallRow>)

  /**
   * What `create_reservation` reports. Every one of these surfaces as a
   * `ReservationServiceException`; the variants keep apart what the message
   * text tells apart.
   */
  datatype BookingError =
    | HallUnavailable(name: string)
    | ReservationRejected(reason: ReservationTable.ReservationError)
    | LineWriteFailed(serviceId: int)
    | AssignmentWriteFailed(hallId: int)

  /** The value `check_halls` inspects: a list of ids or a dict keyed by id. */
  datatype Availability = AsList(ids: seq<int>) | AsDict(rows: map<int, string>)

  /**
   * How `check_halls` treats the availability result. As written it acts only
   * when the result is a list (`ListOnly`); the hall gateway returns a dict,
   * so nothing is ever rejected. `AnyResult` tests membership in whichever
   * container comes back.
   */
  datatype HallCheck = ListOnly | AnyResult

  /** Python's `hall_id in available_halls`: list membership or dict key membership. */
  predicate Contains(avail: Availability, hallId: int)
  {
    match avail
    case AsList(ids) => hallId in ids
    case AsDict(rows) => hallId in rows
  }

  /** The name of the first requested hall, in dict order, that is not available. */
  function FirstUnavailable(halls: seq<HallRow>, avail: Availability): (name: Option<string>)
    ensures name == None <==> forall i :: 0 <= i < |halls| ==> Contains(avail, halls[i].id)
    ensures name.Some? ==>
              exists k :: && 0 <= k < |halls|
                          && !Contains(avail, halls[k].id)
                          && name.value == halls[k].name
                          && forall j :: 0 <= j < k ==> Contains(avail, halls[j].id)
  {
    if halls == [] then None
    else if !Contains(avail, halls[0].id) then Some(halls[0].name)
    else
      var rest := FirstUnavailable(halls[1..], avail);
      assert forall i :: 1 <= i < |halls| ==> halls[i] == halls[1..][i - 1];
      rest
  }

  /**
   * `check_halls`: `Some(name)` is the string it returns for an unavailable
   * hall, `None` is its `True`.
   */
  function CheckHalls(halls: seq<HallRow>, avail: Availability, check: HallCheck): (name: Option<string>)
    ensures check == ListOnly && avail.AsDict? ==> name == None
    ensures name == None <==>
              ((check == ListOnly && avail.AsDict?) || forall i :: 0 <= i < |halls| ==> Contains(avail, halls[i].id))
    ensures name.Some? ==> exists k :: 0 <= k < |halls| && !Contains(avail, halls[k].id) && name.value == halls[k].name
  {
    if check == ListOnly && !avail.AsList? then None
    else FirstUnavailable(halls, avail)
  }

  /** The service ids of the chosen optional services, in dict order. */
  function ChoiceIds(optional: seq<Choice>): (ids: seq<int>)
    ensures |ids| == |optional|
    ensures forall i :: 0 <= i < |optional| ==> ids[i] == optional[i].serviceId
  {
    seq(|optional|, i requires 0 <= i < |optional| => optional[i].serviceId)
  }

  /** The ids of service rows, in list order. */
  function ServiceIds(services: seq<ServiceRow>): (ids: seq<int>)
    ensures |ids| == |services|
    ensures forall i :: 0 <= i < |services| ==> ids[i] == services[i].id
  {
    seq(|services|, i requires 0 <= i < |services| => services[i].id)
  }

  /** No id occurs twice. */
  predicate Distinct(ids: seq<int>)
  {
    forall i, j :: 0 <= i < j < |ids| ==> ids[i] != ids[j]
  }

  /**
   * Assigning `combined[k] = ...` for each key of `ks` in turn, seen through
   * the dict's keys: a new key goes to the end, an existing key keeps its
   * place.
   */
  function AddKeys(keys: seq<int>, ks: seq<int>): (r: seq<int>)
    ensures Distinct(keys) ==> Distinct(r)
    ensures forall x :: x in r <==> x in keys || x in ks
    ensures |keys| <= |r| && r[..|keys|] == keys
    ensures forall i :: |keys| <= i < |r| ==> r[i] in ks && r[i] !in keys
    ensures forall i, j :: |keys| <= i < j < |r| ==> FirstIndex(ks, r[i]) < FirstIndex(ks, r[j])
    decreases |ks|
  {
    if ks == [] then keys
    else
      var next := if ks[0] in keys then keys else keys + [ks[0]];
      assert forall x :: x in ks <==> x == ks[0] || x in ks[1..];
      var r := AddKeys(next, ks[1..]);
      assert r[..|keys|] == r[..|next|][..|keys|];
      AddKeysOrder(keys, ks, next, r);
      r
  }

  /** One step of `AddKeys`: the key placed now comes before every key placed later. */
  lemma AddKeysOrder(keys: seq<int>, ks: seq<int>, next: seq<int>, r: seq<int>)
    requires ks != []
    requires next == if ks[0] in keys then keys else keys + [ks[0]]
    requires |next| <= |r| && r[..|next|] == next
    requires forall i :: |next| <= i < |r| ==> r[i] in ks[1..] && r[i] !in next
    requires forall i, j :: |next| <= i < j < |r| ==> FirstIndex(ks[1..], r[i]) < FirstIndex(ks[1..], r[j])
    ensures forall i :: |keys| <= i < |r| ==> r[i] in ks && r[i] !in keys
    ensures forall i, j :: |keys| <= i < j < |r| ==> FirstIndex(ks, r[i]) < FirstIndex(ks, r[j])
  {
    forall i | |keys| <= i < |r| ensures r[i] in ks && r[i] !in keys {
      if i < |next| {
        assert r[i] == next[i] == ks[0];
      } else {
        assert r[i] in ks[1..];
      }
    }
    forall i, j | |keys| <= i < j < |r| ensures FirstIndex(ks, r[i]) < FirstIndex(ks, r[j]) {
      assert r[j] != ks[0] by {
        assert j >= |next| && r[j] !in next;
        if ks[0] !in keys {
          assert next[|keys|] == ks[0];
        }
      }
      if i >= |next| {
        assert r[i] != ks[0] by {
          if ks[0] !in keys {
            assert next[|keys|] == ks[0];
          }
        }
      } else {
        assert r[i] == next[i] == ks[0];
      }
    }
  }

  /**
   * The keys of `combined_services`: the optional ids first, then the
   * not-optional ids not already present, each id once.
   */
  function CombinedServiceIds(optional: seq<Choice>, notOptional: seq<ServiceRow>): (ids: seq<int>)
    ensures Distinct(ids)
    ensures forall x :: x in ids <==> x in ChoiceIds(optional) || x in ServiceIds(notOptional)
  {
    AddKeys(AddKeys([], ChoiceIds(optional)), ServiceIds(notOptional))
  }

  /**
   * `ids` lists the keys of `first` before the keys found only in `second`,
   * each group in the order in which its keys first occur.
   */
  predicate GroupedInOrder(ids: seq<int>, first: seq<int>, second: seq<int>)
  {
    && (forall i :: 0 <= i < |ids| ==> ids[i] in first || ids[i] in second)
    && (forall i, j :: 0 <= i < j < |ids| && ids[j] in first ==>
          ids[i] in first && FirstIndex(first, ids[i]) < FirstIndex(first, ids[j]))
    && (forall i, j :: 0 <= i < j < |ids| && ids[i] !in first ==>
          ids[j] !in first && FirstIndex(second, ids[i]) < FirstIndex(second, ids[j]))
  }

  /**
   * The order of `combined_services`' keys: every chosen optional id comes
   * before every not-optional id that was not chosen, and each group keeps
   * the order in which its ids first occur.
   */
  lemma CombinedServiceIdsOrder(optional: seq<Choice>, notOptional: seq<ServiceRow>)
    ensures GroupedInOrder(CombinedServiceIds(optional, notOptional), ChoiceIds(optional), ServiceIds(notOptional))
  {
    var chosen, mandatory := ChoiceIds(optional), ServiceIds(notOptional);
    assert CombinedServiceIds(optional, notOptional) == AddKeys(AddKeys([], chosen), mandatory);
    AddKeysTwiceOrder(chosen, mandatory);
  }

  /** Keys added in two rounds: those of the first round come first, each round in first-occurrence order. */
  lemma AddKeysTwiceOrder(first: seq<int>, second: seq<int>)
    ensures GroupedInOrder(AddKeys(AddKeys([], first), second), first, second)
  {
    var keys := AddKeys([], first);
    var ids := AddKeys(keys, second);
    forall p | 0 <= p < |ids| ensures (ids[p] in first <==> p < |keys|) && (p < |keys| ==> ids[p] == keys[p]) {
      if p < |keys| {
        assert ids[p] == ids[..|keys|][p];
      }
    }
  }

  /**
   * `int((end_time - start_time).total_seconds() / 3600)`: the duration in
   * whole hours, truncated toward zero.
   */
  function TruncHours(start: Time, end: Time): (h: int)
    ensures start <= end ==> h >= 0 && h * 3600 <= end - start < (h + 1) * 3600
    ensures start > end ==> h <= 0 && (h - 1) * 3600 < end - start <= h * 3600
  {
    var d := end - start;
    if d >= 0 then d / 3600 else -((-d) / 3600)
  }

  /**
   * The index among `n` consecutive write attempts, numbered from `base`, of
   * the first one that fails; `n` when none fails.
   */
  function FirstFault(faults: Faults, base: nat, n: nat): (j: nat)
    ensures j <= n
    ensures forall k :: base <= k < base + j ==> k !in faults
    ensures j < n ==> base + j in faults
    decreases n
  {
    if n == 0 || base in faults then 0 else 1 + FirstFault(faults, base + 1, n - 1)
  }

  /** The service-line rows written for `ids`. */
  function LineRows(rid: int, ids: seq<int>, hours: int): (rows: seq<ServiceLine>)
    ensures |rows| == |ids|
    ensures forall i :: 0 <= i < |ids| ==> rows[i] == ServiceLine(rid, ids[i], hours)
  {
    seq(|ids|, i requires 0 <= i < |ids| => ServiceLine(rid, ids[i], hours))
  }

  /** The journal entries of inserting `rows`, in order. */
  function LineCommits(rows: seq<ServiceLine>): (c: seq<Commit>)
    ensures |c| == |rows|
    ensures forall i :: 0 <= i < |rows| ==> c[i] == LineInserted(rows[i])
  {
    seq(|rows|, i requires 0 <= i < |rows| => LineInserted(rows[i]))
  }

  /** The hall-assignment rows written for `halls`. */
  function AssignmentRows(rid: int, halls: seq<HallRow>): (rows: seq<HallAssignment>)
    ensures |rows| == |halls|
    ensures forall i :: 0 <= i < |halls| ==> rows[i] == HallAssignment(rid, halls[i].id)
  {
    seq(|halls|, i requires 0 <= i < |halls| => HallAssignment(rid, halls[i].id))
  }

  /** The journal entries of inserting `rows`, in order. */
  function AssignCommits(rows: seq<HallAssignment>): (c: seq<Commit>)
    ensures |c| == |rows|
    ensures forall i :: 0 <= i < |rows| ==> c[i] == HallAssigned(rows[i])
  {
    seq(|rows|, i requires 0 <= i < |rows| => HallAssigned(rows[i]))
  }

  /**
   * The loop over `combined_services.keys()`: one `ServiceReservation.create`
   * per id; the first failing write ends the loop and the rows written before
   * it stay. The error carries the service id whose write failed.
   */
  function InsertLines(db: Db, rid: int, ids: seq<int>, hours: int, faults: Faults, base: nat): (r: Outcome<(), int>)
    ensures var j := FirstFault(faults, base, |ids|);
            && (r.result.Ok? <==> j == |ids|)
            && (j < |ids| ==> r.result == Err(ids[j]))
            && r.db == db.(lines := db.lines + LineRows(rid, ids[..j], hours),
                           journal := db.journal + LineCommits(LineRows(rid, ids[..j], hours)))
    decreases |ids|
  {
    if ids == [] then Outcome(Ok(()), db)
    else
      var step := ServiceLineTable.Create(db, rid, ids[0], hours, base !in faults);
      if step.result.Err? then Outcome(Err(ids[0]), step.db)
      else
        var r := InsertLines(step.db, rid, ids[1..], hours, faults, base + 1);
        LinesStep(db, rid, ids, hours, FirstFault(faults, base + 1, |ids| - 1));
        r
  }

  /** Writing the first line and then the next `j` is writing the first `j + 1` lines. */
  lemma LinesStep(db: Db, rid: int, ids: seq<int>, hours: int, j: nat)
    requires j < |ids|
    ensures var row := ServiceLine(rid, ids[0], hours);
            var first := db.(lines := db.lines + [row], journal := db.journal + [LineInserted(row)]);
            var rows := LineRows(rid, ids[1..][..j], hours);
            first.(lines := first.lines + rows, journal := first.journal + LineCommits(rows))
            == db.(lines := db.lines + LineRows(rid, ids[..j + 1], hours),
                   journal := db.journal + LineCommits(LineRows(rid, ids[..j + 1], hours)))
  {
    var row := ServiceLine(rid, ids[0], hours);
    var rows := LineRows(rid, ids[1..][..j], hours);
    LineRowsCons(rid, ids, hours, j);
    LineCommitsCons(row, rows);
    assert db.lines + [row] + rows == db.lines + ([row] + rows);
    assert db.journal + [LineInserted(row)] + LineCommits(rows) == db.journal + ([LineInserted(row)] + LineCommits(rows));
  }

  lemma LineRowsCons(rid: int, ids: seq<int>, hours: int, j: nat)
    requires j < |ids|
    ensures LineRows(rid, ids[..j + 1], hours) == [ServiceLine(rid, ids[0], hours)] + LineRows(rid, ids[1..][..j], hours)
  {
    var rows := LineRows(rid, ids[1..][..j], hours);
    assert forall i :: 0 <= i < j ==> rows[i] == ServiceLine(rid, ids[i + 1], hours);
  }

  lemma LineCommitsCons(row: ServiceLine, rows: seq<ServiceLine>)
    ensures LineCommits([row] + rows) == [LineInserted(row)] + LineCommits(rows)
  {
    var c, d := LineCommits([row] + rows), [LineInserted(row)] + LineCommits(rows);
    forall i | 0 <= i < |c| ensures c[i] == d[i] {
      if i > 0 {
        assert ([row] + rows)[i] == rows[i - 1];
      }
    }
  }

  /**
   * The loop over `halls.keys()`: one `ReservationHall.create` per hall, with
   * the same stop-at-first-failure behaviour. The error carries the hall id.
   */
  function InsertAssignments(db: Db, rid: int, halls: seq<HallRow>, faults: Faults, base: nat): (r: Outcome<(), int>)
    ensures var j := FirstFault(faults, base, |halls|);
            && (r.result.Ok? <==> j == |halls|)
            && (j < |halls| ==> r.result == Err(halls[j].id))
            && r.db == db.(assignments := db.assignments + AssignmentRows(rid, halls[..j]),
                           journal := db.journal + AssignCommits(AssignmentRows(rid, halls[..j])))
    decreases |halls|
  {
    if halls == [] then Outcome(Ok(()), db)
    else
      var step := AssignmentTable.Create(db, rid, halls[0].id, base !in faults);
      if step.result.Err? then Outcome(Err(halls[0].id), step.db)
      else
        var r := InsertAssignments(step.db, rid, halls[1..], faults, base + 1);
        AssignmentsStep(db, rid, halls, FirstFault(faults, base + 1, |halls| - 1));
        r
  }

  /** Writing the first assignment and then the next `j` is writing the first `j + 1`. */
  lemma AssignmentsStep(db: Db, rid: int, halls: seq<HallRow>, j: nat)
    requires j < |halls|
    ensures var row := HallAssignment(rid, halls[0].id);
            var first := db.(assignments := db.assignments + [row], journal := db.journal + [HallAssigned(row)]);
            var rows := AssignmentRows(rid, halls[1..][..j]);
            first.(assignments := first.assignments + rows, journal := first.journal + AssignCommits(rows))
            == db.(assignments := db.assignments + AssignmentRows(rid, halls[..j + 1]),
                   journal := db.journal + AssignCommits(AssignmentRows(rid, halls[..j + 1])))
  {
    var row := HallAssignment(rid, halls[0].id);
    var rows := AssignmentRows(rid, halls[1..][..j]);
    AssignmentRowsCons(rid, halls, j);
    AssignCommitsCons(row, rows);
    assert db.assignments + [row] + rows == db.assignments + ([row] + rows);
    assert db.journal + [HallAssigned(row)] + AssignCommits(rows) == db.journal + ([HallAssigned(row)] + AssignCommits(rows));
  }

  lemma AssignmentRowsCons(rid: int, halls: seq<HallRow>, j: nat)
    requires j < |halls|
    ensures AssignmentRows(rid, halls[..j + 1]) == [HallAssignment(rid, halls[0].id)] + AssignmentRows(rid, halls[1..][..j])
  {
    var rows := AssignmentRows(rid, halls[1..][..j]);
    assert forall i :: 0 <= i < j ==> rows[i] == HallAssignment(rid, halls[i + 1].id);
  }

  lemma AssignCommitsCons(row: HallAssignment, rows: seq<HallAssignment>)
    ensures AssignCommits([row] + rows) == [HallAssigned(row)] + AssignCommits(rows)
  {
    var c, d := AssignCommits([row] + rows), [HallAssigned(row)] + AssignCommits(rows);
    forall i | 0 <= i < |c| ensures c[i] == d[i] {
      if i > 0 {
        assert ([row] + rows)[i] == rows[i - 1];
      }
    }
  }

  /**
   * The body of `create_reservation` once the availability result is known.
   * Write attempt 0 is the reservation row, attempts 1 .. n the service
   * lines and the following ones the hall assignments.
   */
  function Book(db: Db, req: Request, avail: Availability, policy: ReservationTable.PastPolicy,
                check: HallCheck, faults: Faults): (r: Outcome<(), BookingError>)
    ensures var busy := CheckHalls(req.halls, avail, check);
            busy.Some? ==> r == Outcome(Err(HallUnavailable(busy.value)), db)
    ensures r.result.Err? && r.result.error.ReservationRejected? ==> r.db == db
  {
    var busy := CheckHalls(req.halls, avail, check);
    if busy.Some? then Outcome(Err(HallUnavailable(busy.value)), db)
    else
      var created := ReservationTable.Create(db, req.customerId, req.start, req.end, Price(req), policy, 0 !in faults);
      if created.result.Err? then Outcome(Err(ReservationRejected(created.result.error)), created.db)
      else WriteDetails(created.db, created.result.value, req, faults)
  }

  /**
   * The part of `create_reservation` after the reservation row exists: the
   * service lines (write attempts 1 .. n), then the hall assignments.
   */
  function WriteDetails(db: Db, rid: int, req: Request, faults: Faults): (r: Outcome<(), BookingError>)
    ensures r.result.Err? ==> r.result.error.LineWriteFailed? || r.result.error.AssignmentWriteFailed?
    ensures r.db == db.(lines := r.db.lines, assignments := r.db.assignments, journal := r.db.journal)
    ensures db.lines <= r.db.lines && db.assignments <= r.db.assignments && db.journal <= r.db.journal
    ensures r.result.Err? ==>
              |r.db.lines| + |r.db.assignments|
              < |db.lines| + |db.assignments| + |CombinedServiceIds(req.optional, req.notOptional)| + |req.halls|
  {
    var ids := CombinedServiceIds(req.optional, req.notOptional);
    var lines := InsertLines(db, rid, ids, TruncHours(req.start, req.end), faults, 1);
    if lines.result.Err? then Outcome(Err(LineWriteFailed(lines.result.error)), lines.db)
    else
      var placed := InsertAssignments(lines.db, rid, req.halls, faults, 1 + |ids|);
      if placed.result.Err? then Outcome(Err(AssignmentWriteFailed(placed.result.error)), placed.db)
      else Outcome(Ok(()), placed.db)
  }

  /** The price `create_reservation` computes and hands to `Reservation.create`. */
  function Price(req: Request): real
  {
    CalcPrice(req.optional, req.notOptional, req.halls, req.end, req.start)
  }

  /** None of the first `n` write attempts fails. */
  predicate NoFaultBelow(faults: Faults, n: nat)
  {
    forall k :: 0 <= k < n ==> k !in faults
  }

  /** The row `create_reservation` inserts for a request. */
  function NewReservation(req: Request): Reservation
  {
    Reservation(req.customerId, req.start, req.end, Price(req), Created)
  }

  /**
   * The booking succeeds exactly when the hall check passes, the reservation
   * passes the gateway's validation and none of the `1 + |ids| + |halls|`
   * writes fails.
   */
  lemma BookSucceeds(db: Db, req: Request, avail: Availability, policy: ReservationTable.PastPolicy,
                     check: HallCheck, faults: Faults)
    ensures var ids := CombinedServiceIds(req.optional, req.notOptional);
            Book(db, req, avail, policy, check, faults).result.Ok?
            <==> && CheckHalls(req.halls, avail, check) == None
                 && ReservationTable.Validate(req.start, req.end, Price(req), policy) == None
                 && NoFaultBelow(faults, 1 + |ids| + |req.halls|)
  {
    var ids := CombinedServiceIds(req.optional, req.notOptional);
    var n := 1 + |ids| + |req.halls|;
    var created := ReservationTable.Create(db, req.customerId, req.start, req.end, Price(req), policy, 0 !in faults);
    if CheckHalls(req.halls, avail, check) == None && created.result.Ok? {
      WriteDetailsSucceeds(created.db, created.result.value, req, faults);
      assert NoFaultBelow(faults, n) <==> forall k :: 1 <= k < n ==> k !in faults;
    }
  }

  /** The detail writes succeed exactly when none of attempts 1 .. n of the booking fails. */
  lemma WriteDetailsSucceeds(db: Db, rid: int, req: Request, faults: Faults)
    ensures var ids := CombinedServiceIds(req.optional, req.notOptional);
            WriteDetails(db, rid, req, faults).result.Ok?
            <==> forall k :: 1 <= k < 1 + |ids| + |req.halls| ==> k !in faults
  {
    var ids := CombinedServiceIds(req.optional, req.notOptional);
    var n := 1 + |ids| + |req.halls|;
    var j := FirstFault(faults, 1, |ids|);
    if j == |ids| {
      var m := FirstFault(faults, 1 + |ids|, |req.halls|);
      if m == |req.halls| {
        forall k | 1 <= k < n ensures k !in faults {
          if k < 1 + |ids| {
            assert 1 <= k < 1 + j;
          } else {
            assert 1 + |ids| <= k < 1 + |ids| + m;
          }
        }
      } else {
        assert 1 + |ids| + m in faults;
      }
    } else {
      assert 1 + j in faults;
    }
  }

  /**
   * A successful booking commits, in this order, the reservation row, one
   * service line per combined service id carrying the truncated hours, and
   * one assignment per requested hall; nothing else changes.
   */
  lemma BookWrites(db: Db, req: Request, avail: Availability, policy: ReservationTable.PastPolicy,
                   check: HallCheck, faults: Faults)
    requires Book(db, req, avail, policy, check, faults).result.Ok?
    ensures var rid := db.nextReservationId;
            var lines := LineRows(rid, CombinedServiceIds(req.optional, req.notOptional), TruncHours(req.start, req.end));
            var placed := AssignmentRows(rid, req.halls);
            Book(db, req, avail, policy, check, faults).db
            == db.(reservations := db.reservations[rid := NewReservation(req)],
                   nextReservationId := rid + 1,
                   lines := db.lines + lines,
                   assignments := db.assignments + placed,
                   journal := db.journal + [ReservationInserted(rid)] + LineCommits(lines) + AssignCommits(placed))
  {
    var created := ReservationTable.Create(db, req.customerId, req.start, req.end, Price(req), policy, 0 !in faults);
    WriteDetailsWrites(created.db, db.nextReservationId, req, faults);
  }

  /** Successful detail writes append every line, then every assignment, in request order. */
  lemma WriteDetailsWrites(db: Db, rid: int, req: Request, faults: Faults)
    requires WriteDetails(db, rid, req, faults).result.Ok?
    ensures var lines := LineRows(rid, CombinedServiceIds(req.optional, req.notOptional), TruncHours(req.start, req.end));
            var placed := AssignmentRows(rid, req.halls);
            WriteDetails(db, rid, req, faults).db
            == db.(lines := db.lines + lines,
                   assignments := db.assignments + placed,
                   journal := db.journal + LineCommits(lines) + AssignCommits(placed))
  {
    var ids := CombinedServiceIds(req.optional, req.notOptional);
    assert ids[..|ids|] == ids;
    assert req.halls[..|req.halls|] == req.halls;
  }

  /**
   * A write failing after the reservation row has been committed ends the
   * booking with an error, but the reservation stays stored with status
   * CREATED, together with the lines and assignments written before the
   * failure: nothing is rolled back.
   */
  lemma BookLeavesPartialWrites(db: Db, req: Request, avail: Availability, policy: ReservationTable.PastPolicy,
                                check: HallCheck, faults: Faults)
    requires var r := Book(db, req, avail, policy, check, faults);
             r.result.Err? && (r.result.error.LineWriteFailed? || r.result.error.AssignmentWriteFailed?)
    ensures var r := Book(db, req, avail, policy, check, faults);
            var rid := db.nextReservationId;
            && r.db.reservations == db.reservations[rid := NewReservation(req)]
            && r.db.nextReservationId == rid + 1
            && |r.db.lines| + |r.db.assignments| < |db.lines| + |db.assignments|
                                                 + |CombinedServiceIds(req.optional, req.notOptional)| + |req.halls|
            && db.journal + [ReservationInserted(rid)] <= r.db.journal
  {
  }

  /**
   * `create_reservation` against the stored state: the availability result
   * is the dict the hall gateway returns.
   */
  function CreateReservation(db: Db, req: Request, policy: ReservationTable.PastPolicy,
                             check: HallCheck, faults: Faults): (r: Outcome<(), BookingError>)
    ensures check == ListOnly ==> !(r.result.Err? && r.result.error.HallUnavailable?)
    ensures check == AnyResult ==>
              ((r.result.Err? && r.result.error.HallUnavailable?)
               <==> exists i :: 0 <= i < |req.halls|
                               && (req.halls[i].id !in db.halls || Occupied(db, req.halls[i].id, req.start, req.end)))
    ensures r.result.Err? && r.result.error.HallUnavailable? ==> r.db == db
  {
    Book(db, req, AsDict(ReadAvailableInDate(db, req.start, req.end)), policy, check, faults)
  }

  /**
   * The older `create_reservation` returns the exception object instead of
   * raising it, and its reservation gateway has no past-start check. Its
   * hall gateway is not part of this model, so the availability result is a
   * parameter.
   */
  datatype LegacyOutcome = LegacyOutcome(returned: Option<BookingError>, db: Db)

  function CreateReservationLegacy(db: Db, req: Request, avail: Availability, faults: Faults): (r: LegacyOutcome)
    ensures var ids := CombinedServiceIds(req.optional, req.notOptional);
            r.returned == None
            <==> && CheckHalls(req.halls, avail, ListOnly) == None
                 && req.start < req.end && Price(req) > 0.0
                 && NoFaultBelow(faults, 1 + |ids| + |req.halls|)
    ensures avail.AsDict? ==> !(r.returned.Some? && r.returned.value.HallUnavailable?)
  {
    BookSucceeds(db, req, avail, ReservationTable.AllowPastStart, ListOnly, faults);
    var r := Book(db, req, avail, ReservationTable.AllowPastStart, ListOnly, faults);
    LegacyOutcome(if r.result.Ok? then None else Some(r.result.error), r.db)
  }

  /**
   * For a start that is not in the past the two generations agree: the
   * older one returns exactly the error the current one raises, and leaves
   * the same database behind.
   */
  lemma LegacyAgreesForFutureStarts(db: Db, req: Request, now: Time, faults: Faults)
    requires req.start >= now
    ensures var current := CreateReservation(db, req, ReservationTable.RejectPastStart(now), ListOnly, faults);
            var legacy := CreateReservationLegacy(db, req, AsDict(ReadAvailableInDate(db, req.start, req.end)), faults);
            && legacy.db == current.db
            && (legacy.returned == None <==> current.result.Ok?)
            && (current.result.Err? ==> legacy.returned == Some(current.result.error))
  {
  }

  /**
   * A start in the past is what the generations disagree on: with every
   * other check passing and no write failing, the current one rejects the
   * request without writing, the older one books it.
   */
  lemma LegacyBooksPastStarts(db: Db, req: Request, now: Time)
    requires req.start < now && req.start < req.end && Price(req) > 0.0
    ensures CreateReservation(db, req, ReservationTable.RejectPastStart(now), ListOnly, {})
            == Outcome(Err(ReservationRejected(ReservationTable.StartInPast)), db)
    ensures CreateReservationLegacy(db, req, AsDict(ReadAvailableInDate(db, req.start, req.end)), {}).returned == None
  {
  }
}
