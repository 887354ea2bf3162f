/** The match decision of `recognize_faces` for one probe encoding, given its
    distances to the known encodings (the distances themselves come from
    `face_recognition.face_distance` and are inputs here). */
module Matcher {
  import opened Common

  /** The `tolerance=0.6` passed to `compare_faces`. */
  const Tolerance: real := 0.6
  const UnknownName := "Unknown"

  /** The name shown and the employee id, `None` for an unmatched face. */
  datatype Match = Match(name: string, employeeId: Option<string>)

  /** `compare_faces`: entry `i` is true when distance `i` is within tolerance.
      A face nearer than a matching face matches too, so the flag at the
      nearest face is set exactly when some flag is. */
  function CompareFaces(distances: seq<real>, tolerance: real): (matches: seq<bool>)
    ensures |matches| == |distances|
    ensures forall i :: 0 <= i < |distances| ==> (matches[i] <==> distances[i] <= tolerance)
    ensures forall i, j :: 0 <= i < |distances| && 0 <= j < |distances| && distances[i] <= distances[j] && matches[j] ==> matches[i]
    ensures |distances| > 0 ==> (matches[ArgMin(distances)] <==> exists j :: 0 <= j < |matches| && matches[j])
  {
    seq(|distances|, i requires 0 <= i < |distances| => distances[i] <= tolerance)
  }

  /** `np.argmin`: the first index of the smallest distance. */
  function ArgMin(distances: seq<real>): (k: nat)
    requires |distances| > 0
    ensures k < |distances|
    ensures forall j :: 0 <= j < |distances| ==> distances[k] <= distances[j]
    ensures forall j :: 0 <= j < k ==> distances[j] > distances[k]
  {
    if |distances| == 1 then 0
    else
      var k := ArgMin(distances[..|distances| - 1]);
      assert forall j :: 0 <= j < |distances| - 1 ==> distances[..|distances| - 1][j] == distances[j];
      if distances[|distances| - 1] < distances[k] then |distances| - 1 else k
  }

  /** The decision for one probe face against the known names and ids, which
      are index-aligned with `distances`. */
  function Identify(names: seq<string>, ids: seq<string>, distances: seq<real>): (r: Match)
    requires |names| == |distances| && |ids| == |distances|
    ensures r.employeeId.Some? <==> exists j :: 0 <= j < |distances| && distances[j] <= Tolerance
    ensures r.employeeId.None? ==> r.name == UnknownName
  {
    if |distances| == 0 then Match(UnknownName, None)
    else
      var matches := CompareFaces(distances, Tolerance);
      var best := ArgMin(distances);
      if matches[best] then Match(names[best], Some(ids[best])) else Match(UnknownName, None)
  }

  /** An accepted match is the known face at the first smallest distance, and
      that distance is within tolerance; its id and name come from the same
      index. */
  lemma IdentifyPicksFirstNearest(names: seq<string>, ids: seq<string>, distances: seq<real>)
    requires |names| == |distances| && |ids| == |distances|
    ensures var r := Identify(names, ids, distances);
            r.employeeId.Some? ==>
              exists k :: && 0 <= k < |distances|
                          && r == Match(names[k], Some(ids[k]))
                          && distances[k] <= Tolerance
                          && (forall j :: 0 <= j < |distances| ==> distances[k] <= distances[j])
                          && (forall j :: 0 <= j < k ==> distances[j] > distances[k])
  {
    if |distances| > 0 {
      var k := ArgMin(distances);
      assert Identify(names, ids, distances).employeeId.Some? ==> Identify(names, ids, distances) == Match(names[k], Some(ids[k]));
    }
  }

  /** A known id is returned only if it is in the gallery. */
  lemma IdentifyReturnsKnownId(names: seq<string>, ids: seq<string>, distances: seq<real>)
    requires |names| == |distances| && |ids| == |distances|
    ensures var r := Identify(names, ids, distances);
            r.employeeId.Some? ==> r.employeeId.value in ids && r.name in names
  {
    IdentifyPicksFirstNearest(names, ids, distances);
  }

  /** A distance exactly at the tolerance is accepted; one above it, at the
      only known face, is not. */
  lemma ToleranceBoundary(name: string, id: string, d: real)
    ensures Identify([name], [id], [Tolerance]) == Match(name, Some(id))
    ensures d > Tolerance ==> Identify([name], [id], [d]) == Match(UnknownName, None)
  {
  }
}
