/** The Flask routes whose logic belongs to the core: deleting an employee,
    submitting the enrollment form, marking attendance, and the durations of
    the attendance page. Request parsing, templates and redirects are not
    modelled; each route takes the values it reads and returns what it
    reports. */
module Routes {
  import opened Common
  import opened Records
  import opened Validation
  import opened Recognition
  import Ledger
  import Reports

  /** A JSON reply with its HTTP status. */
  datatype Response = Response(success: bool, message: string, status: nat)

  const Deleted := "Employee deleted successfully."
  const NotFound := "Employee not found."

  function RecordNotOf(employeeId: string): AttendanceRecord -> bool {
    (r: AttendanceRecord) => r.employeeId != employeeId
  }

  function EmployeeNotOf(employeeId: string): Employee -> bool {
    (e: Employee) => e.employeeId != employeeId
  }

  /** `delete_employee`: DELETE the employee's attendance rows, then the
      employee row; success (and a gallery reload) only if an employee row
      went. The attendance rows go even when there is no such employee. */
  method DeleteEmployee(sys: FaceRecognitionSystem, employeeId: string) returns (response: Response)
    requires sys.Valid()
    modifies sys, sys.db
    ensures sys.Valid()
    ensures sys.db.attendance == Filter(old(sys.db.attendance), RecordNotOf(employeeId))
    ensures sys.db.employees == Filter(old(sys.db.employees), EmployeeNotOf(employeeId))
    ensures forall i :: 0 <= i < |sys.db.attendance| ==> sys.db.attendance[i].employeeId != employeeId
    ensures forall i :: 0 <= i < |old(sys.db.attendance)| && old(sys.db.attendance)[i].employeeId != employeeId ==>
              old(sys.db.attendance)[i] in sys.db.attendance
    ensures forall i :: 0 <= i < |old(sys.db.employees)| && old(sys.db.employees)[i].employeeId != employeeId ==>
              old(sys.db.employees)[i] in sys.db.employees
    ensures response.success <==> employeeId in EmployeeIds(old(sys.db.employees))
    ensures response == if response.success then Response(true, Deleted, 200) else Response(false, NotFound, 404)
    ensures employeeId !in sys.knownIds
  {
    var db := sys.db;
    FilterPreservesDistinct(db.attendance, RecordNotOf(employeeId), DayKey);
    FilterPreservesDistinct(db.employees, EmployeeNotOf(employeeId), EmployeeKey);
    RemovesRowIffRegistered(db.employees, employeeId);
    db.attendance := Filter(db.attendance, RecordNotOf(employeeId));
    var before := |db.employees|;
    db.employees := Filter(db.employees, EmployeeNotOf(employeeId));
    var rowcount := before - |db.employees|;
    if rowcount > 0 {
      sys.LoadKnownFaces();
      response := Response(true, Deleted, 200);
    } else {
      response := Response(false, NotFound, 404);
    }
    assert forall i :: 0 <= i < |sys.knownIds| ==> sys.knownIds[i] == db.employees[i].employeeId;
  }

  /** The employee DELETE removes a row exactly when the id is registered. */
  lemma RemovesRowIffRegistered(employees: seq<Employee>, employeeId: string)
    ensures |Filter(employees, EmployeeNotOf(employeeId))| < |employees| <==> employeeId in EmployeeIds(employees)
    ensures employeeId !in EmployeeIds(employees) ==> Filter(employees, EmployeeNotOf(employeeId)) == employees
  {
    FilterKeepsAll(employees, EmployeeNotOf(employeeId));
    var ids := EmployeeIds(employees);
    if employeeId in ids {
      var e :| 0 <= e < |ids| && ids[e] == employeeId;
      assert !EmployeeNotOf(employeeId)(employees[e]);
    }
  }

  /** The POST branch of the `add_employee` route: the form checks in order,
      then `add_new_employee` on the stripped fields and the saved photo. */
  method SubmitEnrollment(sys: FaceRecognitionSystem, form: Form, image: ImageFile) returns (reply: Reply)
    requires sys.Valid()
    modifies sys, sys.db
    ensures sys.Valid()
    ensures sys.db.attendance == old(sys.db.attendance)
    ensures ValidateForm(form).Failure? ==>
              reply == Reply(false, FormMessage(ValidateForm(form).error)) && sys.db.employees == old(sys.db.employees)
    ensures reply.success <==>
              && ValidateForm(form).Success?
              && CheckImage(image).Success?
              && Strip(form.employeeId) !in EmployeeIds(old(sys.db.employees))
    ensures sys.db.employees ==
              if reply.success
              then old(sys.db.employees) + [Employee(Strip(form.employeeId), Strip(form.name), Strip(form.email),
                                                     Strip(form.department), CheckImage(image).value)]
              else old(sys.db.employees)
    ensures ValidateForm(form).Success? && CheckImage(image).Failure? ==>
              reply.message == ImageMessage(CheckImage(image).error)
    ensures ValidateForm(form).Success? && CheckImage(image).Success? ==>
              reply.message == if reply.success then EmployeeAdded else EmployeeIdTaken
  {
    match ValidateForm(form)
    case Failure(e) =>
      reply := Reply(false, FormMessage(e));
    case Success(f) =>
      reply := sys.AddNewEmployee(f.employeeId, f.name, f.email, f.department, image);
  }

  /** The `mark_attendance` route: the type defaults to "check_in". */
  method MarkAttendanceRoute(sys: FaceRecognitionSystem, employeeId: string, kind: Option<string>, today: int, now: int)
    returns (reply: Reply)
    requires sys.Valid()
    modifies sys.db
    ensures sys.Valid()
    ensures sys.db.employees == old(sys.db.employees)
    ensures Ledger.Marked(sys.db.attendance, reply) ==
            Ledger.Mark(old(sys.db.attendance), employeeId, kind.GetOr(Ledger.CheckInType), today, now)
  {
    reply := sys.db.MarkAttendance(employeeId, kind.GetOr(Ledger.CheckInType), today, now);
  }

  /** The loop of the `attendance` route: one duration per record, present
      only when both times are set. */
  method RecordDurations(records: seq<AttendanceRecord>) returns (durations: seq<Option<Reports.HoursMinutes>>)
    ensures |durations| == |records|
    ensures forall i :: 0 <= i < |records| ==>
              (durations[i].Some? <==> records[i].checkIn.Some? && records[i].checkOut.Some?)
    ensures forall i :: 0 <= i < |records| && durations[i].Some? ==>
              durations[i].value.minutes < 60 && durations[i].value.hours < 24
    ensures forall i :: 0 <= i < |records| ==> durations[i] == Reports.RecordDuration(records[i])
  {
    durations := [];
    for i := 0 to |records|
      invariant |durations| == i
      invariant forall j :: 0 <= j < i ==> durations[j] == Reports.RecordDuration(records[j])
    {
      durations := durations + [Reports.RecordDuration(records[i])];
    }
  }
}
