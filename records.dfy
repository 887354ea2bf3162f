/** The rows of the two tables, `employees` and `attendance`, as values. */
module Records {
  import opened Common

  /** A row of `employees`. The autoincrement `id` and `created_at` columns are
      not modelled; `encoding` is the stored face encoding. */
  datatype Employee = Employee(
    employeeId: string,
    name: string,
    email: string,
    department: string,
    encoding: seq<real>)

  /** A row of `attendance`. `date` is a day number; `checkIn` and `checkOut`
      are timestamps in microseconds, `None` for SQL NULL. */
  datatype AttendanceRecord = AttendanceRecord(
    employeeId: string,
    date: int,
    checkIn: Option<int>,
    checkOut: Option<int>,
    status: string)

  /** The `{'success': ..., 'message': ...}` dictionaries the operations return. */
  datatype Reply = Reply(success: bool, message: string)

  /** The UNIQUE key of `employees`. */
  function EmployeeKey(e: Employee): string {
    e.employeeId
  }

  /** The key the ledger keeps unique: one record per employee and day. */
  function DayKey(r: AttendanceRecord): (string, int) {
    (r.employeeId, r.date)
  }

  /** The `WHERE employee_id = ? AND date = ?` condition. */
  predicate Matches(r: AttendanceRecord, employeeId: string, date: int) {
    r.employeeId == employeeId && r.date == date
  }

  /** The column `employee_id` of `employees`, in row order. */
  function EmployeeIds(es: seq<Employee>): (ids: seq<string>)
    ensures |ids| == |es|
    ensures forall i :: 0 <= i < |es| ==> ids[i] == es[i].employeeId
  {
    seq(|es|, i requires 0 <= i < |es| => es[i].employeeId)
  }

  /** The three in-memory lists line up with the employee rows: index `i` of
      each comes from row `i`. */
  predicate GalleryOf(encodings: seq<seq<real>>, names: seq<string>, ids: seq<string>, es: seq<Employee>) {
    && |encodings| == |es| && |names| == |es| && |ids| == |es|
    && forall i :: 0 <= i < |es| ==>
         encodings[i] == es[i].encoding && names[i] == es[i].name && ids[i] == es[i].employeeId
  }
}
