/** The attendance ledger: the decision `mark_attendance` takes for one
    employee and one day, stated on the `attendance` table as a sequence. */
module Ledger {
  import opened Common
  import opened Records

  const CheckInType := "check_in"
  const CheckOutType := "check_out"

  const CheckInRecorded := "Check-in recorded successfully"
  const CheckOutRecorded := "Check-out recorded successfully"
  const AlreadyRecorded := "Attendance already recorded for today"
  const MustCheckInFirst := "Must check-in first"

  /** The table after a call, and the reply of that call. */
  datatype Marked = Marked(records: seq<AttendanceRecord>, reply: Reply)

  /** Where a (employee, day) pair stands. */
  datatype DayState = NoRecord | CheckedIn | CheckedOut

  /** The row `SELECT * ... WHERE employee_id = ? AND date = ?` followed by
      `fetchone()` yields: the first matching row, if any. */
  function FindRecord(records: seq<AttendanceRecord>, employeeId: string, date: int): (r: Option<nat>)
    ensures r.Some? ==> r.value < |records| && Matches(records[r.value], employeeId, date)
    ensures r.Some? ==> forall j :: 0 <= j < r.value ==> !Matches(records[j], employeeId, date)
    ensures r.None? <==> forall j :: 0 <= j < |records| ==> !Matches(records[j], employeeId, date)
  {
    if records == [] then None
    else if Matches(records[0], employeeId, date) then Some(0)
    else
      match FindRecord(records[1..], employeeId, date)
      case None =>
        assert forall j :: 1 <= j < |records| ==> records[j] == records[1..][j - 1];
        None
      case Some(i) => Some(i + 1)
  }

  /** The state of `employeeId` on `date`, read from its first record. */
  function StateOf(records: seq<AttendanceRecord>, employeeId: string, date: int): DayState {
    match FindRecord(records, employeeId, date)
    case None => NoRecord
    case Some(i) => if records[i].checkOut.None? then CheckedIn else CheckedOut
  }

  /** The row `INSERT INTO attendance (employee_id, check_in_time, date)` adds;
      `status` takes its column default. */
  function NewRecord(employeeId: string, today: int, now: int): (r: AttendanceRecord)
    ensures Matches(r, employeeId, today) && r.checkIn == Some(now)
    ensures StateOf([r], employeeId, today) == CheckedIn
  {
    AttendanceRecord(employeeId, today, Some(now), None, "present")
  }

  /** `UPDATE attendance SET check_out_time = ? WHERE employee_id = ? AND date = ?`:
      every matching row is checked out at `now`, the others are left as they
      are; no row changes its key or its check-in, so the lookup of the day
      finds the same row, now checked out. */
  function SetCheckOut(records: seq<AttendanceRecord>, employeeId: string, date: int, now: int): (r: seq<AttendanceRecord>)
    ensures |r| == |records|
    ensures forall i :: 0 <= i < |r| ==> DayKey(r[i]) == DayKey(records[i]) && r[i].checkIn == records[i].checkIn
    ensures forall i :: 0 <= i < |r| && !Matches(records[i], employeeId, date) ==> r[i] == records[i]
    ensures forall i :: 0 <= i < |r| && Matches(records[i], employeeId, date) ==> r[i] == records[i].(checkOut := Some(now))
    ensures FindRecord(r, employeeId, date) == FindRecord(records, employeeId, date)
  {
    var r := seq(|records|, i requires 0 <= i < |records| =>
      if Matches(records[i], employeeId, date) then records[i].(checkOut := Some(now)) else records[i]);
    FindRecordStable(records, r, employeeId, date);
    r
  }

  /** One call of `mark_attendance(employee_id, attendance_type)` on day `today`
      at time `now`. Only "check_in" and "check_out" can succeed; a refused
      call leaves the table as it was, and only a check-in adds a row. */
  function Mark(records: seq<AttendanceRecord>, employeeId: string, kind: string, today: int, now: int): (m: Marked)
    ensures m.reply.success ==> kind == CheckInType || kind == CheckOutType
    ensures m.reply.success <==> m.reply.message == CheckInRecorded || m.reply.message == CheckOutRecorded
    ensures !m.reply.success ==> m.records == records
    ensures |m.records| == |records| + (if m.reply.message == CheckInRecorded then 1 else 0)
  {
    match FindRecord(records, employeeId, today)
    case Some(i) =>
      if kind == CheckOutType && records[i].checkOut.None? then
        Marked(SetCheckOut(records, employeeId, today, now), Reply(true, CheckOutRecorded))
      else
        Marked(records, Reply(false, AlreadyRecorded))
    case None =>
      if kind == CheckInType then
        Marked(records + [NewRecord(employeeId, today, now)], Reply(true, CheckInRecorded))
      else
        Marked(records, Reply(false, MustCheckInFirst))
  }

  /** The transition a successful call makes. */
  function Advance(s: DayState): DayState {
    match s
    case NoRecord => CheckedIn
    case CheckedIn => CheckedOut
    case CheckedOut => CheckedOut
  }

  /** The per-day state machine: NO_RECORD --check_in--> CHECKED_IN
      --check_out--> CHECKED_OUT; every other event is refused with the
      message of its state and changes nothing. */
  lemma MarkFollowsStateMachine(records: seq<AttendanceRecord>, employeeId: string, kind: string, today: int, now: int)
    ensures var s := StateOf(records, employeeId, today);
            var m := Mark(records, employeeId, kind, today, now);
            && (m.reply.success <==> (s == NoRecord && kind == CheckInType) || (s == CheckedIn && kind == CheckOutType))
            && (m.reply.success ==> StateOf(m.records, employeeId, today) == Advance(s))
            && (m.reply.success ==> m.reply.message == (if s == NoRecord then CheckInRecorded else CheckOutRecorded))
            && (!m.reply.success ==> m.records == records)
            && (!m.reply.success ==> m.reply.message == (if s == NoRecord then MustCheckInFirst else AlreadyRecorded))
  {
    var m := Mark(records, employeeId, kind, today, now);
    match FindRecord(records, employeeId, today)
    case Some(i) =>
      if kind == CheckOutType && records[i].checkOut.None? {
        FindRecordStable(records, m.records, employeeId, today);
      }
    case None =>
      if kind == CheckInType {
        assert Matches(m.records[|records|], employeeId, today);
        assert forall j :: 0 <= j < |records| ==> m.records[j] == records[j];
      }
  }

  /** With no record for the day, `check_in` inserts exactly one row, stamped
      `now` and not checked out; any other type inserts nothing. */
  lemma CheckInOnOpenDay(records: seq<AttendanceRecord>, employeeId: string, kind: string, today: int, now: int)
    requires forall j :: 0 <= j < |records| ==> !Matches(records[j], employeeId, today)
    ensures var m := Mark(records, employeeId, kind, today, now);
            if kind == CheckInType then
              && m.records == records + [AttendanceRecord(employeeId, today, Some(now), None, "present")]
              && m.reply == Reply(true, CheckInRecorded)
            else
              m == Marked(records, Reply(false, MustCheckInFirst))
  {
  }

  /** With a record for the day, `check_out` succeeds only while that record is
      open, and then stamps `now` on it; every other call leaves the table
      unchanged. */
  lemma CheckOutOnRecordedDay(records: seq<AttendanceRecord>, employeeId: string, kind: string, today: int, now: int, i: nat)
    requires DistinctKeys(records, DayKey)
    requires i < |records| && Matches(records[i], employeeId, today)
    ensures var m := Mark(records, employeeId, kind, today, now);
            if kind == CheckOutType && records[i].checkOut.None? then
              && m.records == records[i := records[i].(checkOut := Some(now))]
              && m.reply == Reply(true, CheckOutRecorded)
            else
              m == Marked(records, Reply(false, AlreadyRecorded))
  {
    OnlyMatch(records, i, employeeId, today);
  }

  /** Under the ledger invariant a matching row is the only one for its day. */
  lemma OnlyMatch(records: seq<AttendanceRecord>, i: nat, employeeId: string, date: int)
    requires DistinctKeys(records, DayKey)
    requires i < |records| && Matches(records[i], employeeId, date)
    ensures forall j :: 0 <= j < |records| && j != i ==> !Matches(records[j], employeeId, date)
    ensures FindRecord(records, employeeId, date) == Some(i)
  {
    assert forall j :: 0 <= j < |records| && j != i ==> DayKey(records[j]) != DayKey(records[i]);
  }

  /** Two sequences that agree on the rows matching (employeeId, date), and
      whose extra rows do not match, give the same first match. */
  lemma FindRecordStable(a: seq<AttendanceRecord>, b: seq<AttendanceRecord>, employeeId: string, date: int)
    requires |a| <= |b|
    requires forall i :: 0 <= i < |a| ==> (Matches(a[i], employeeId, date) <==> Matches(b[i], employeeId, date))
    requires forall i :: |a| <= i < |b| ==> !Matches(b[i], employeeId, date)
    ensures FindRecord(a, employeeId, date) == FindRecord(b, employeeId, date)
  {
    var fa := FindRecord(a, employeeId, date);
    if fa.Some? {
      assert Matches(b[fa.value], employeeId, date);
      assert forall j :: 0 <= j < fa.value ==> !Matches(b[j], employeeId, date);
    } else {
      assert forall j :: 0 <= j < |b| ==> !Matches(b[j], employeeId, date);
    }
  }

  /** The ledger invariant: at most one record per (employee_id, date). */
  lemma {:induction false} MarkPreservesOneRecordPerDay(records: seq<AttendanceRecord>, employeeId: string, kind: string, today: int, now: int)
    requires DistinctKeys(records, DayKey)
    ensures DistinctKeys(Mark(records, employeeId, kind, today, now).records, DayKey)
  {
    var m := Mark(records, employeeId, kind, today, now);
    match FindRecord(records, employeeId, today)
    case Some(i) =>
      assert forall j :: 0 <= j < |records| ==> DayKey(m.records[j]) == DayKey(records[j]);
    case None =>
      if kind == CheckInType {
        var r := m.records;
        forall i, j | 0 <= i < j < |r|
          ensures DayKey(r[i]) != DayKey(r[j])
        {
          if j == |records| {
            assert !Matches(records[i], employeeId, today);
          } else {
            assert r[i] == records[i] && r[j] == records[j];
          }
        }
      }
  }

  /** How a table may evolve: rows are only appended, a row keeps its
      (employee_id, date) and its check-in time, and a checked-out row never
      changes again. */
  predicate Evolves(before: seq<AttendanceRecord>, after: seq<AttendanceRecord>) {
    && |before| <= |after|
    && (forall i :: 0 <= i < |before| ==>
          DayKey(after[i]) == DayKey(before[i]) && after[i].checkIn == before[i].checkIn)
    && (forall i :: 0 <= i < |before| && before[i].checkOut.Some? ==> after[i] == before[i])
  }

  /** One call changes only the rows of its own (employee, day): every other
      row, and every row already checked out, is left as it was, and a row it
      adds is the new record of that day. */
  lemma MarkTouchesOnlyItsDay(records: seq<AttendanceRecord>, employeeId: string, kind: string, today: int, now: int)
    requires DistinctKeys(records, DayKey)
    ensures var m := Mark(records, employeeId, kind, today, now);
            && Evolves(records, m.records)
            && (forall i :: 0 <= i < |records| && !Matches(records[i], employeeId, today) ==> m.records[i] == records[i])
            && |m.records| <= |records| + 1
            && (|m.records| > |records| ==> m.records[|records|] == NewRecord(employeeId, today, now))
  {
    var m := Mark(records, employeeId, kind, today, now);
    match FindRecord(records, employeeId, today)
    case Some(i) =>
      OnlyMatch(records, i, employeeId, today);
    case None =>
  }

  /** Two check-ins on the same day: the first one succeeds, the second is
      refused and changes nothing. */
  lemma SecondCheckInRefused(records: seq<AttendanceRecord>, employeeId: string, today: int, t1: int, t2: int)
    requires StateOf(records, employeeId, today) == NoRecord
    ensures var m1 := Mark(records, employeeId, CheckInType, today, t1);
            var m2 := Mark(m1.records, employeeId, CheckInType, today, t2);
            && m1.reply == Reply(true, CheckInRecorded)
            && m2 == Marked(m1.records, Reply(false, AlreadyRecorded))
  {
    var m1 := Mark(records, employeeId, CheckInType, today, t1);
    MarkFollowsStateMachine(records, employeeId, CheckInType, today, t1);
    MarkFollowsStateMachine(m1.records, employeeId, CheckInType, today, t2);
  }

  /** A call of `mark_attendance`, with the clock readings it takes. */
  datatype Request = Request(employeeId: string, kind: string, today: int, now: int)

  /** The table after a series of calls, one after the other. */
  function Replay(records: seq<AttendanceRecord>, requests: seq<Request>): seq<AttendanceRecord>
    decreases |requests|
  {
    if requests == [] then records
    else
      var q := requests[0];
      Replay(Mark(records, q.employeeId, q.kind, q.today, q.now).records, requests[1..])
  }

  /** Over any series of calls the table keeps at most one record per
      (employee_id, date), and a record never changes once it is checked out. */
  lemma {:induction false} ReplayKeepsLedgerInvariant(records: seq<AttendanceRecord>, requests: seq<Request>)
    requires DistinctKeys(records, DayKey)
    ensures DistinctKeys(Replay(records, requests), DayKey)
    ensures Evolves(records, Replay(records, requests))
    decreases |requests|
  {
    if requests != [] {
      var q := requests[0];
      var next := Mark(records, q.employeeId, q.kind, q.today, q.now).records;
      MarkPreservesOneRecordPerDay(records, q.employeeId, q.kind, q.today, q.now);
      MarkTouchesOnlyItsDay(records, q.employeeId, q.kind, q.today, q.now);
      ReplayKeepsLedgerInvariant(next, requests[1..]);
    }
  }
}
