/** `DatabaseManager`: the `employees` and `attendance` tables, held in
    memory and updated in place by INSERT, UPDATE and DELETE. */
module Database {
  import opened Common
  import opened Records
  import Ledger

  class DatabaseManager {
    var employees: seq<Employee>
    var attendance: seq<AttendanceRecord>

    /** The UNIQUE constraint on `employee_id`, and the ledger's one record
        per employee and day. */
    ghost predicate Valid()
      reads this
    {
      DistinctKeys(employees, EmployeeKey) && DistinctKeys(attendance, DayKey)
    }

    /** `init_database` on a new database file: both tables exist and are empty. */
    constructor ()
      ensures Valid() && employees == [] && attendance == []
    {
      employees := [];
      attendance := [];
    }

    /** `add_employee`: the INSERT succeeds, adding one row at the end, unless
        the employee id is already taken (the IntegrityError path), in which
        case the table is unchanged. */
    method AddEmployee(employeeId: string, name: string, email: string, department: string, encoding: seq<real>)
      returns (ok: bool)
      requires Valid()
      modifies this
      ensures Valid()
      ensures attendance == old(attendance)
      ensures ok <==> employeeId !in EmployeeIds(old(employees))
      ensures employees == if ok then old(employees) + [Employee(employeeId, name, email, department, encoding)]
                           else old(employees)
    {
      if employeeId in EmployeeIds(employees) {
        ok := false;
      } else {
        var row := Employee(employeeId, name, email, department, encoding);
        assert forall i :: 0 <= i < |employees| ==> EmployeeKey(employees[i]) != EmployeeKey(row);
        employees := employees + [row];
        ok := true;
      }
    }

    /** `get_employee_encodings`: three lists built row by row, index-aligned
        with the `employees` table. */
    method GetEmployeeEncodings() returns (encodings: seq<seq<real>>, names: seq<string>, employeeIds: seq<string>)
      ensures GalleryOf(encodings, names, employeeIds, employees)
    {
      encodings, names, employeeIds := [], [], [];
      for i := 0 to |employees|
        invariant GalleryOf(encodings, names, employeeIds, employees[..i])
      {
        var emp := employees[i];
        encodings := encodings + [emp.encoding];
        names := names + [emp.name];
        employeeIds := employeeIds + [emp.employeeId];
      }
      assert employees[..|employees|] == employees;
    }

    /** `mark_attendance`: look the (employee, today) record up, then UPDATE
        it, INSERT a new one, or refuse, exactly as the ledger specifies. */
    method MarkAttendance(employeeId: string, kind: string, today: int, now: int) returns (reply: Reply)
      requires Valid()
      modifies this
      ensures Valid()
      ensures employees == old(employees)
      ensures Ledger.Marked(attendance, reply) == Ledger.Mark(old(attendance), employeeId, kind, today, now)
    {
      Ledger.MarkPreservesOneRecordPerDay(attendance, employeeId, kind, today, now);
      var existing := Ledger.FindRecord(attendance, employeeId, today);
      if existing.Some? {
        if kind == Ledger.CheckOutType && attendance[existing.value].checkOut.None? {
          attendance := Ledger.SetCheckOut(attendance, employeeId, today, now);
          reply := Reply(true, Ledger.CheckOutRecorded);
        } else {
          reply := Reply(false, Ledger.AlreadyRecorded);
        }
      } else {
        if kind == Ledger.CheckInType {
          attendance := attendance + [Ledger.NewRecord(employeeId, today, now)];
          reply := Reply(true, Ledger.CheckInRecorded);
        } else {
          reply := Reply(false, Ledger.MustCheckInFirst);
        }
      }
    }
  }
}
