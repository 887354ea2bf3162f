/** The figures the dashboard and the attendance page show: the daily
    summary of `get_attendance_summary` and the hours/minutes duration of a
    record. */
module Reports {
  import opened Common
  import opened Records

  /** How far back the average looks: rows with `date >= today - 7`. */
  const WindowDays := 7

  datatype AttendanceSummary = AttendanceSummary(
    presentToday: nat,
    totalEmployees: nat,
    absentToday: int,
    avgAttendance: real)

  /** `WHERE date = ? AND check_in_time IS NOT NULL`: every record of
      `today` with a check-in, as often as it occurs, and nothing else. */
  function TodayRows(records: seq<AttendanceRecord>, today: int): (rows: seq<AttendanceRecord>)
    ensures forall x :: multiset(rows)[x] == if x.date == today && x.checkIn.Some? then multiset(records)[x] else 0
  {
    FilterMultiset(records, PresentOn(today));
    Filter(records, PresentOn(today))
  }

  function PresentOn(today: int): AttendanceRecord -> bool {
    (r: AttendanceRecord) => r.date == today && r.checkIn.Some?
  }

  function RecordEmployee(r: AttendanceRecord): string {
    r.employeeId
  }

  /** `WHERE date >= ? AND check_in_time IS NOT NULL` with `today - 7`:
      every record dated on or after `today - 7` with a check-in, as often
      as it occurs, and nothing else. */
  function WindowRows(records: seq<AttendanceRecord>, today: int): (rows: seq<AttendanceRecord>)
    ensures forall x :: multiset(rows)[x] == if x.date >= today - WindowDays && x.checkIn.Some? then multiset(records)[x] else 0
  {
    FilterMultiset(records, InWindow(today));
    Filter(records, InWindow(today))
  }

  function InWindow(today: int): AttendanceRecord -> bool {
    (r: AttendanceRecord) => r.date >= today - WindowDays && r.checkIn.Some?
  }

  predicate DistinctDays(ds: seq<int>) {
    forall i, j :: 0 <= i < j < |ds| ==> ds[i] != ds[j]
  }

  /** The groups of `GROUP BY DATE(date)`: each date of `rows` once. */
  function Days(rows: seq<AttendanceRecord>): (ds: seq<int>)
    ensures DistinctDays(ds)
    ensures forall i :: 0 <= i < |rows| ==> rows[i].date in ds
    ensures forall d :: d in ds ==> exists i :: 0 <= i < |rows| && rows[i].date == d
    ensures |ds| <= |rows|
  {
    if rows == [] then []
    else
      var rest := Days(rows[1..]);
      assert forall i :: 1 <= i < |rows| ==> rows[i] == rows[1..][i - 1];
      if rows[0].date in rest then rest else [rows[0].date] + rest
  }

  /** `COUNT(*) as daily_count` of one group. */
  function DailyCount(rows: seq<AttendanceRecord>, d: int): nat {
    |Filter(rows, (r: AttendanceRecord) => r.date == d)|
  }

  /** The sum of the daily counts of the groups `ds`. */
  function SumCounts(rows: seq<AttendanceRecord>, ds: seq<int>): nat {
    if ds == [] then 0 else DailyCount(rows, ds[0]) + SumCounts(rows, ds[1..])
  }

  /** `AVG(daily_count)` over the groups, or 0 when there is no group
      (`avg_result['avg_attendance'] or 0`); the rounding is not modelled.
      It is the number of check-in rows in the window divided by the number
      of days that have one, so days without a check-in are not counted; it
      is 0 exactly when the window is empty, and otherwise at least 1. */
  function AverageAttendance(records: seq<AttendanceRecord>, today: int): (a: real)
    ensures a == 0.0 <==> WindowRows(records, today) == []
    ensures WindowRows(records, today) != [] ==>
              a == |WindowRows(records, today)| as real / |Days(WindowRows(records, today))| as real
    ensures WindowRows(records, today) != [] ==> a >= 1.0
  {
    var rows := WindowRows(records, today);
    var ds := Days(rows);
    if rows == [] then 0.0
    else
      assert rows[0].date in ds;
      SumCountsCoversRows(rows, ds);
      RatioAtLeastOne(|rows|, |ds|);
      SumCounts(rows, ds) as real / |ds| as real
  }

  /** `get_attendance_summary` on day `today`: present and absent add up to
      the registered employees, and an employee present today puts a day in
      the window, so the average is then at least 1. */
  function Summarize(employees: seq<Employee>, records: seq<AttendanceRecord>, today: int): (s: AttendanceSummary)
    ensures s.presentToday == |TodayRows(records, today)|
    ensures s.avgAttendance == AverageAttendance(records, today)
    ensures s.totalEmployees == |employees|
    ensures s.presentToday + s.absentToday == s.totalEmployees
    ensures s.presentToday <= |records|
    ensures s.presentToday > 0 ==> s.avgAttendance >= 1.0
    ensures s.avgAttendance == 0.0 || s.avgAttendance >= 1.0
  {
    var rows := TodayRows(records, today);
    assert |rows| > 0 ==> rows[0] in records && rows[0] in WindowRows(records, today);
    AttendanceSummary(|rows|, |employees|, |employees| - |rows|, AverageAttendance(records, today))
  }

  lemma {:induction false} SumCountsOfNoRows(ds: seq<int>)
    ensures SumCounts([], ds) == 0
  {
    if ds != [] {
      SumCountsOfNoRows(ds[1..]);
    }
  }

  /** One more row adds one to the sum exactly when its date is a group. */
  lemma {:induction false} SumCountsCons(x: AttendanceRecord, t: seq<AttendanceRecord>, ds: seq<int>)
    requires DistinctDays(ds)
    ensures SumCounts([x] + t, ds) == SumCounts(t, ds) + (if x.date in ds then 1 else 0)
  {
    if ds != [] {
      assert ([x] + t)[0] == x && ([x] + t)[1..] == t;
      assert DistinctDays(ds[1..]);
      SumCountsCons(x, t, ds[1..]);
      assert x.date in ds <==> x.date == ds[0] || x.date in ds[1..];
      assert x.date == ds[0] ==> x.date !in ds[1..];
    }
  }

  /** Summing the daily counts over groups that cover every row, each once,
      counts every row once. */
  lemma {:induction false} SumCountsCoversRows(rows: seq<AttendanceRecord>, ds: seq<int>)
    requires DistinctDays(ds)
    requires forall i :: 0 <= i < |rows| ==> rows[i].date in ds
    ensures SumCounts(rows, ds) == |rows|
  {
    if rows == [] {
      SumCountsOfNoRows(ds);
    } else {
      assert forall i :: 1 <= i < |rows| ==> rows[1..][i - 1] == rows[i];
      SumCountsCoversRows(rows[1..], ds);
      assert rows == [rows[0]] + rows[1..];
      SumCountsCons(rows[0], rows[1..], ds);
    }
  }

  lemma RatioAtLeastOne(n: nat, k: nat)
    requires 0 < k <= n
    ensures n as real / k as real >= 1.0
  {
    var q := n as real / k as real;
    assert q * k as real == n as real;
    assert (q - 1.0) * k as real == (n - k) as real;
    assert q < 1.0 ==> (q - 1.0) * k as real < 0.0;
  }

  /** When every record belongs to a registered employee and the ledger keeps
      one record per employee and day, no more employees are present than
      are registered, so `absent_today` is not negative. */
  lemma AbsentNotNegative(employees: seq<Employee>, records: seq<AttendanceRecord>, today: int)
    requires DistinctKeys(records, DayKey)
    requires forall i :: 0 <= i < |records| ==> records[i].employeeId in EmployeeIds(employees)
    ensures Summarize(employees, records, today).presentToday <= |employees|
    ensures Summarize(employees, records, today).absentToday >= 0
  {
    var rows := TodayRows(records, today);
    TodayRowsHaveDistinctEmployees(records, today);
    TodayEmployeesRegistered(employees, records, today);
    KeySetSize(rows, RecordEmployee);
    KeySetSize(employees, EmployeeKey);
    SubsetSize(KeySet(rows, RecordEmployee), KeySet(employees, EmployeeKey));
  }

  lemma TodayRowsHaveDistinctEmployees(records: seq<AttendanceRecord>, today: int)
    requires DistinctKeys(records, DayKey)
    ensures DistinctKeys(TodayRows(records, today), RecordEmployee)
  {
    var rows := TodayRows(records, today);
    FilterPreservesDistinct(records, PresentOn(today), DayKey);
    assert forall i :: 0 <= i < |rows| ==> rows[i].date == today;
  }

  lemma TodayEmployeesRegistered(employees: seq<Employee>, records: seq<AttendanceRecord>, today: int)
    requires forall i :: 0 <= i < |records| ==> records[i].employeeId in EmployeeIds(employees)
    ensures KeySet(TodayRows(records, today), RecordEmployee) <= KeySet(employees, EmployeeKey)
  {
    var rows := TodayRows(records, today);
    forall k | k in KeySet(rows, RecordEmployee)
      ensures k in KeySet(employees, EmployeeKey)
    {
      var i :| 0 <= i < |rows| && RecordEmployee(rows[i]) == k;
      assert rows[i] in records;
      RegisteredIdIsKey(employees, k);
    }
  }

  lemma RegisteredIdIsKey(employees: seq<Employee>, k: string)
    requires k in EmployeeIds(employees)
    ensures k in KeySet(employees, EmployeeKey)
  {
    var ids := EmployeeIds(employees);
    var e :| 0 <= e < |ids| && ids[e] == k;
    assert EmployeeKey(employees[e]) == k;
  }

  lemma SubsetSize<K>(a: set<K>, b: set<K>)
    requires a <= b
    ensures |a| <= |b|
  {
    assert b == a + (b - a);
  }

  /** Without that, attendance marked for an unregistered id makes
      `absent_today` negative: `mark_attendance` does not look the id up. */
  lemma AbsentNegativeForUnregisteredId(today: int, now: int)
    ensures Summarize([], [AttendanceRecord("E1", today, Some(now), None, "present")], today).absentToday == -1
  {
    var rec := AttendanceRecord("E1", today, Some(now), None, "present");
    assert TodayRows([rec], today) == [rec];
  }

  const MicrosPerSecond := 1_000_000
  const SecondsPerDay := 86400

  /** `(check_out - check_in).seconds`: the seconds part of a `timedelta`,
      which leaves out whole days and sub-second microseconds. What is left
      out is a whole number of days (possibly negative) plus less than a
      second, as `timedelta` normalises a negative stay too. */
  function DurationSeconds(checkIn: int, checkOut: int): (s: nat)
    ensures s < SecondsPerDay
    ensures ((checkOut - checkIn) - s * MicrosPerSecond) % (SecondsPerDay * MicrosPerSecond) < MicrosPerSecond
  {
    var delta := checkOut - checkIn;
    var q := delta / MicrosPerSecond;
    var s := q % SecondsPerDay;
    var days := q / SecondsPerDay;
    assert delta == q * MicrosPerSecond + delta % MicrosPerSecond;
    assert q * MicrosPerSecond == days * SecondsPerDay * MicrosPerSecond + s * MicrosPerSecond;
    DivModUnique(delta - s * MicrosPerSecond, SecondsPerDay * MicrosPerSecond, days, delta % MicrosPerSecond);
    s
  }

  /** A stay of `days` days, `seconds` seconds and `micros` microseconds in
      `timedelta`'s normal form shows exactly `seconds`, whatever the sign
      of `days`. */
  lemma DurationSecondsOfNormalForm(checkIn: int, checkOut: int, days: int, seconds: nat, micros: nat)
    requires seconds < SecondsPerDay && micros < MicrosPerSecond
    requires checkOut - checkIn == (days * SecondsPerDay + seconds) * MicrosPerSecond + micros
    ensures DurationSeconds(checkIn, checkOut) == seconds
  {
    var delta := checkOut - checkIn;
    DivModUnique(delta, MicrosPerSecond, days * SecondsPerDay + seconds, micros);
    DivModUnique(days * SecondsPerDay + seconds, SecondsPerDay, days, seconds);
  }

  /** A check-out one second before the check-in is shown as 23h 59m. */
  lemma NegativeStayWrapsAround()
    ensures SplitDuration(DurationSeconds(1_000_000, 0)) == HoursMinutes(23, 59)
  {
    DurationSecondsOfNormalForm(1_000_000, 0, -1, 86399, 0);
  }

  datatype HoursMinutes = HoursMinutes(hours: nat, minutes: nat)

  /** `hours, remainder = divmod(seconds, 3600)` then
      `minutes, _ = divmod(remainder, 60)`: the largest h:m not past
      `seconds`, with minutes below 60 and, within a day, hours below 24. */
  function SplitDuration(seconds: nat): (hm: HoursMinutes)
    ensures hm.minutes < 60
    ensures hm.hours * 3600 + hm.minutes * 60 <= seconds < hm.hours * 3600 + hm.minutes * 60 + 60
    ensures seconds < SecondsPerDay ==> hm.hours < 24
  {
    var hours := seconds / 3600;
    var remainder := seconds % 3600;
    assert seconds == hours * 3600 + remainder;
    assert remainder == (remainder / 60) * 60 + remainder % 60;
    HoursMinutes(hours, remainder / 60)
  }

  /** Those bounds pin the split down: any h:m that satisfies them is it. */
  lemma SplitDurationUnique(seconds: nat, h: nat, m: nat)
    requires m < 60
    requires h * 3600 + m * 60 <= seconds < h * 3600 + m * 60 + 60
    ensures SplitDuration(seconds) == HoursMinutes(h, m)
  {
    var r := seconds - h * 3600 - m * 60;
    DivModUnique(seconds, 3600, h, m * 60 + r);
    DivModUnique(m * 60 + r, 60, m, r);
  }

  /** Quotient and remainder are the only pair that rebuilds `x`. */
  lemma DivModUnique(x: int, d: int, q: int, r: int)
    requires d > 0 && 0 <= r < d && x == q * d + r
    ensures x / d == q && x % d == r
  {
    var q', r' := x / d, x % d;
    assert (q - q') * d == r' - r;
    assert q - q' >= 1 ==> (q - q') * d >= d;
    assert q - q' <= -1 ==> (q - q') * d <= -d;
  }

  /** The duration shown for a record: only when both times are set, and
      then always below 24 hours. */
  function RecordDuration(r: AttendanceRecord): (d: Option<HoursMinutes>)
    ensures d.Some? <==> r.checkIn.Some? && r.checkOut.Some?
    ensures d.Some? ==> d.value.hours < 24 && d.value.minutes < 60
  {
    if r.checkIn.Some? && r.checkOut.Some? then
      Some(SplitDuration(DurationSeconds(r.checkIn.value, r.checkOut.value)))
    else
      None
  }

  /** For a stay shorter than a day the duration is the elapsed whole minutes,
      written as hours and minutes. */
  lemma RecordDurationOfSameDayStay(r: AttendanceRecord)
    requires r.checkIn.Some? && r.checkOut.Some?
    requires 0 <= r.checkOut.value - r.checkIn.value < SecondsPerDay * MicrosPerSecond
    ensures RecordDuration(r).Some?
    ensures var hm := RecordDuration(r).value;
            hm.hours < 24 && hm.minutes < 60 &&
            hm.hours * 60 + hm.minutes == (r.checkOut.value - r.checkIn.value) / (60 * MicrosPerSecond)
  {
    var delta := r.checkOut.value - r.checkIn.value;
    var s := delta / MicrosPerSecond;
    assert s < SecondsPerDay;
    assert DurationSeconds(r.checkIn.value, r.checkOut.value) == s;
    var hm := SplitDuration(s);
    assert delta / (60 * MicrosPerSecond) == s / 60;
    assert hm.hours * 60 + hm.minutes == s / 60;
  }
}
