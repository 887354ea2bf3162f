/** `FaceRecognitionSystem`: the in-memory gallery of known faces, kept in
    step with the `employees` table, enrollment of a new employee, and the
    match loop over the faces found in a frame. */
module Recognition {
  import opened Common
  import opened Records
  import opened Validation
  import opened Database
  import Matcher

  const EmployeeAdded := "Employee added successfully"
  const EmployeeIdTaken := "Employee ID already exists"

  class FaceRecognitionSystem {
    const db: DatabaseManager
    var knownEncodings: seq<seq<real>>
    var knownNames: seq<string>
    var knownIds: seq<string>

    /** The three lists mirror the `employees` table row by row. */
    ghost predicate Valid()
      reads this, db
    {
      db.Valid() && GalleryOf(knownEncodings, knownNames, knownIds, db.employees)
    }

    /** `__init__`: attach to the database and load the known faces. */
    constructor (db: DatabaseManager)
      requires db.Valid()
      ensures Valid() && this.db == db
      ensures db.employees == old(db.employees) && db.attendance == old(db.attendance)
    {
      this.db := db;
      knownEncodings, knownNames, knownIds := [], [], [];
      new;
      LoadKnownFaces();
    }

    /** `load_known_faces`: replace all three lists with a fresh read of the
        table. */
    method LoadKnownFaces()
      requires db.Valid()
      modifies this
      ensures Valid()
    {
      var encodings, names, employeeIds := db.GetEmployeeEncodings();
      knownEncodings := encodings;
      knownNames := names;
      knownIds := employeeIds;
    }

    /** `add_new_employee`: the image checks in order, then the INSERT, which
        fails on a taken id; on success the gallery is reloaded. */
    method AddNewEmployee(employeeId: string, name: string, email: string, department: string, image: ImageFile)
      returns (reply: Reply)
      requires Valid()
      modifies this, db
      ensures Valid()
      ensures db.attendance == old(db.attendance)
      ensures reply.success <==> CheckImage(image).Success? && employeeId !in EmployeeIds(old(db.employees))
      ensures db.employees == if reply.success
                              then old(db.employees) + [Employee(employeeId, name, email, department, CheckImage(image).value)]
                              else old(db.employees)
      ensures CheckImage(image).Failure? ==> reply.message == ImageMessage(CheckImage(image).error)
      ensures CheckImage(image).Success? ==> reply.message == if reply.success then EmployeeAdded else EmployeeIdTaken
    {
      match CheckImage(image)
      case Failure(e) =>
        reply := Reply(false, ImageMessage(e));
      case Success(encoding) =>
        var ok := db.AddEmployee(employeeId, name, email, department, encoding);
        if ok {
          LoadKnownFaces();
          reply := Reply(true, EmployeeAdded);
        } else {
          reply := Reply(false, EmployeeIdTaken);
        }
    }

    /** The match loop of `recognize_faces`: one name and one id per probe
        face, each decided from that face's distances to the known
        encodings. */
    method RecognizeFaces(probeDistances: seq<seq<real>>) returns (names: seq<string>, employeeIds: seq<Option<string>>)
      requires |knownNames| == |knownEncodings| && |knownIds| == |knownEncodings|
      requires forall p :: 0 <= p < |probeDistances| ==> |probeDistances[p]| == |knownEncodings|
      ensures |names| == |probeDistances| && |employeeIds| == |probeDistances|
      ensures forall p :: 0 <= p < |probeDistances| ==>
                Matcher.Match(names[p], employeeIds[p]) == Matcher.Identify(knownNames, knownIds, probeDistances[p])
      ensures forall p :: 0 <= p < |probeDistances| && employeeIds[p].Some? ==> employeeIds[p].value in knownIds
    {
      names, employeeIds := [], [];
      for p := 0 to |probeDistances|
        invariant |names| == p && |employeeIds| == p
        invariant forall q :: 0 <= q < p ==>
                    Matcher.Match(names[q], employeeIds[q]) == Matcher.Identify(knownNames, knownIds, probeDistances[q])
        invariant forall q :: 0 <= q < p && employeeIds[q].Some? ==> employeeIds[q].value in knownIds
      {
        var distances := probeDistances[p];
        var name := Matcher.UnknownName;
        var employeeId: Option<string> := None;
        if |knownEncodings| > 0 {
          var matches := Matcher.CompareFaces(distances, Matcher.Tolerance);
          if |distances| > 0 {
            var best := Matcher.ArgMin(distances);
            if matches[best] {
              name := knownNames[best];
              employeeId := Some(knownIds[best]);
            }
          }
        }
        Matcher.IdentifyReturnsKnownId(knownNames, knownIds, distances);
        names := names + [name];
        employeeIds := employeeIds + [employeeId];
      }
    }
  }
}
