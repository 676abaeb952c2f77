/** The identification handler, `POST` in app/api/face-scan/route.ts: the
    first stored user, in table order, whose descriptor is within the
    threshold of the probe is returned. The first such user wins, not the
    closest one. */
module FaceScanRoute {
  import opened Outcomes
  import opened Distance
  import opened Records

  /** `allUsers.find(callback)` over the rows from index `i` on, giving the
      index of the user found: stops at the first row the callback accepts,
      and an exception thrown by the callback escapes. */
  function FirstMatchFrom(probe: Option<seq<real>>, rows: seq<User>, i: nat): (r: Try<Option<nat>>)
    requires i <= |rows|
    decreases |rows| - i
    ensures r.Returned? && r.value.Some? ==>
      i <= r.value.value < |rows| && Misses(probe, rows, i, r.value.value) &&
      Within(probe, rows[r.value.value].faceData) == Returned(true)
    ensures r == Returned(None) <==> Misses(probe, rows, i, |rows|)
    ensures r == Threw ==>
      exists k :: i <= k < |rows| && Misses(probe, rows, i, k) && Within(probe, rows[k].faceData) == Threw
  {
    if i == |rows| then Returned(None)
    else
      match Within(probe, rows[i].faceData)
      case Threw => Threw
      case Returned(true) => Returned(Some(i))
      case Returned(false) => FirstMatchFrom(probe, rows, i + 1)
  }

  /** The scan, running the callback (and its distance loop) on one row
      after another. */
  method FindMatch(probe: Option<seq<real>>, rows: seq<User>) returns (r: Try<Option<nat>>)
    ensures r == FirstMatchFrom(probe, rows, 0)
  {
    for i := 0 to |rows|
      invariant FirstMatchFrom(probe, rows, 0) == FirstMatchFrom(probe, rows, i)
    {
      var t := WithinThreshold(probe, rows[i].faceData);
      match t {
        case Threw => return Threw;
        case Returned(true) => return Returned(Some(i));
        case Returned(false) =>
      }
    }
    return Returned(None);
  }

  /** The handler as a function of the rows and the `face_data` field. */
  function Identification(rows: seq<User>, field: FaceField): (r: Response)
    // a missing field is rejected without scanning
    ensures r.BadRequest? <==> field.Missing?
    ensures r.BadRequest? ==> r.message == "No face data provided"
    // not found exactly when no row is within the threshold (nor throws)
    ensures r.NotFound? <==> field.Json? && Misses(field.descriptor, rows, 0, |rows|)
    // a user found is the first row within the threshold
    ensures r.Found? ==>
      field.Json? &&
      exists k :: 0 <= k < |rows| && r.user == rows[k] && Misses(field.descriptor, rows, 0, k) &&
        Within(field.descriptor, rows[k].faceData) == Returned(true)
    // an error comes from the parse or from a row examined before any match
    ensures r == ServerError ==>
      field.Malformed? ||
      (field.Json? &&
       exists k :: 0 <= k < |rows| && Misses(field.descriptor, rows, 0, k) &&
         Within(field.descriptor, rows[k].faceData) == Threw)
    ensures r.BadRequest? || r.Found? || r.NotFound? || r == ServerError
  {
    match field
    case Missing => BadRequest("No face data provided")
    case Malformed => ServerError
    case Json(probe) =>
      match FirstMatchFrom(probe, rows, 0)
      case Threw => ServerError
      case Returned(None) => NotFound
      case Returned(Some(k)) => Found(rows[k])
  }

  /** The handler. It has no `modifies` clause: identification never
      changes the user table. */
  method IdentifyUser(db: UserTable, field: FaceField) returns (response: Response)
    ensures response == Identification(db.rows, field)
  {
    match field {
      case Missing => return BadRequest("No face data provided");
      case Malformed => return ServerError;
      case Json(probe) =>
        var matched := FindMatch(probe, db.rows);
        match matched {
          case Threw => return ServerError;
          case Returned(None) => return NotFound;
          case Returned(Some(k)) => return Found(db.rows[k]);
        }
    }
  }

  /** The scan returns the first row within the threshold when every row
      before it is examined without a match. */
  lemma FirstMatchAt(probe: Option<seq<real>>, rows: seq<User>, i: nat, k: nat)
    requires i <= k < |rows|
    requires Misses(probe, rows, i, k)
    requires Within(probe, rows[k].faceData) == Returned(true)
    ensures FirstMatchFrom(probe, rows, i) == Returned(Some(k))
  {
  }

  /** `find` stops at the first hit: rows appended after the match, however
      close to the probe and even if their length differs, change nothing. */
  lemma LaterRowsIgnored(probe: Option<seq<real>>, rows: seq<User>, extra: seq<User>)
    requires FirstMatchFrom(probe, rows, 0).Returned? && FirstMatchFrom(probe, rows, 0).value.Some?
    ensures FirstMatchFrom(probe, rows + extra, 0) == FirstMatchFrom(probe, rows, 0)
    ensures Identification(rows + extra, Json(probe)) == Identification(rows, Json(probe))
  {
    var k := FirstMatchFrom(probe, rows, 0).value.value;
    var all := rows + extra;
    assert forall j :: 0 <= j < |rows| ==> all[j] == rows[j];
    FirstMatchAt(probe, all, 0, k);
  }

  /** With no users stored, every parsed probe is not found. */
  lemma EmptyTableNotFound(probe: Option<seq<real>>)
    ensures Identification([], Json(probe)) == NotFound
  {
  }

  /** First below the threshold, not closest: the probe [0] lies 0.5 from the
      first user and 0 from the second; the first is returned. */
  lemma FirstWinsOverCloser()
    ensures var first := User("a", "a@x", "p", Some([0.5]), "q");
            var second := User("b", "b@x", "p", Some([0.0]), "q");
            SquaredDistance([0.0], [0.0]) < SquaredDistance([0.0], [0.5]) &&
            Identification([first, second], Json(Some([0.0]))) == Found(first)
  {
    var first := User("a", "a@x", "p", Some([0.5]), "q");
    var second := User("b", "b@x", "p", Some([0.0]), "q");
    var probe: seq<real> := [0.0];
    assert PartialSum(probe, [0.5], 0) == 0.0;
    assert SquaredDistance(probe, [0.5]) == 0.25;
    assert PartialSum(probe, [0.0], 0) == 0.0;
    assert SquaredDistance(probe, [0.0]) == 0.0;
    assert Within(Some(probe), first.faceData) == Returned(true);
    FirstMatchAt(Some([0.0]), [first, second], 0, 0);
  }
}
