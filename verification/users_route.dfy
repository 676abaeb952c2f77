/** The registration handler, `POST` in app/api/users/route.ts: a fixed
    sequence of checks with early exits, followed by two uploads and the
    creation of the user row. */
module UsersRoute {
  import opened Outcomes
  import opened Distance
  import opened Records

  /** The form fields the handler reads. `hasImage` is whether the
      `image_capture` field is present. */
  datatype Request = Request(name: string, email: string, faceData: FaceField, hasImage: bool)

  /** The response together with the user rows after the call. */
  datatype Result = Result(response: Response, rows: seq<User>)

  /** What `JSON.parse(face_data)` yields when it does not throw: an absent
      form field reads as `null`, and `JSON.parse(null)` is `null`. */
  function ParsedProbe(f: FaceField): (probe: Option<seq<real>>)
    requires !f.Malformed?
    ensures f.Missing? ==> probe.None?
    ensures probe.Some? ==> f == Json(probe)
  {
    if f.Missing? then None else f.descriptor
  }

  /** `allUsers.some(callback)` over the rows from index `i` on: stops at the
      first row the callback accepts, and an exception thrown by the callback
      escapes. */
  function AnyWithinFrom(probe: Option<seq<real>>, rows: seq<User>, i: nat): (r: Try<bool>)
    requires i <= |rows|
    decreases |rows| - i
    ensures r == Returned(false) <==> Misses(probe, rows, i, |rows|)
    ensures r == Returned(true) ==>
      exists k :: i <= k < |rows| && Misses(probe, rows, i, k) && Within(probe, rows[k].faceData) == Returned(true)
    ensures r == Threw ==>
      exists k :: i <= k < |rows| && Misses(probe, rows, i, k) && Within(probe, rows[k].faceData) == Threw
  {
    if i == |rows| then Returned(false)
    else
      match Within(probe, rows[i].faceData)
      case Threw => Threw
      case Returned(true) => Returned(true)
      case Returned(false) => AnyWithinFrom(probe, rows, i + 1)
  }

  /** The duplicate-face scan, running the callback (and its distance loop)
      on one row after another. */
  method FaceAlreadyRegistered(probe: Option<seq<real>>, rows: seq<User>) returns (r: Try<bool>)
    ensures r == AnyWithinFrom(probe, rows, 0)
  {
    for i := 0 to |rows|
      invariant AnyWithinFrom(probe, rows, 0) == AnyWithinFrom(probe, rows, i)
    {
      var t := WithinThreshold(probe, rows[i].faceData);
      if t != Returned(false) {
        return t;
      }
    }
    return Returned(false);
  }

  /** The handler as a function of the rows before the call, the request and
      the results of the two uploads (`None` when the photo upload, or the
      QR-code generation and upload, fails). */
  function Registration(rows: seq<User>, req: Request, photoUrl: Option<string>, qrUrl: Option<string>): (out: Result)
    // a missing image is rejected before anything else is looked at
    ensures !req.hasImage ==> out == Result(BadRequest("No image file provided"), rows)
    // a registered email is rejected before the face scan, whatever the faces
    ensures req.hasImage && EmailTaken(rows, req.email) ==> out == Result(Conflict(EmailRegistered), rows)
    // a user is created exactly when every check passes and both uploads succeed
    ensures out.response.Created? <==>
      req.hasImage && !EmailTaken(rows, req.email) && !req.faceData.Malformed? &&
      Misses(ParsedProbe(req.faceData), rows, 0, |rows|) && photoUrl.Some? && qrUrl.Some?
    ensures out.response.Created? ==>
      out.response.user == User(req.name, req.email, photoUrl.value, ParsedProbe(req.faceData), qrUrl.value) &&
      out.rows == rows + [out.response.user]
    // every other outcome leaves the rows unchanged
    ensures !out.response.Created? ==> out.rows == rows
    // 400 comes only from a missing image, the email 409 only from a taken email
    ensures out.response.BadRequest? <==> !req.hasImage
    ensures out.response == Conflict(EmailRegistered) <==> req.hasImage && EmailTaken(rows, req.email)
    // a duplicate face gives 409 exactly when the scan meets a row within the
    // threshold before any row that throws
    ensures out.response == Conflict(FaceRegistered) <==>
      req.hasImage && !EmailTaken(rows, req.email) && !req.faceData.Malformed? &&
      exists k :: 0 <= k < |rows| && Misses(ParsedProbe(req.faceData), rows, 0, k) &&
        Within(ParsedProbe(req.faceData), rows[k].faceData) == Returned(true)
    // every exception once the checks are passed gives 500: the parse, a row
    // that throws before any match, or a failed upload after a clean scan
    ensures out.response == ServerError <==>
      req.hasImage && !EmailTaken(rows, req.email) &&
      (req.faceData.Malformed? ||
       (exists k :: 0 <= k < |rows| && Misses(ParsedProbe(req.faceData), rows, 0, k) &&
          Within(ParsedProbe(req.faceData), rows[k].faceData) == Threw) ||
       (Misses(ParsedProbe(req.faceData), rows, 0, |rows|) && (photoUrl.None? || qrUrl.None?)))
    ensures out.response.BadRequest? || out.response.Conflict? || out.response.Created? || out.response == ServerError
  {
    if !req.hasImage then Result(BadRequest("No image file provided"), rows)
    else if EmailTaken(rows, req.email) then Result(Conflict(EmailRegistered), rows)
    else if req.faceData.Malformed? then Result(ServerError, rows)
    else
      var probe := ParsedProbe(req.faceData);
      match AnyWithinFrom(probe, rows, 0)
      case Threw => Result(ServerError, rows)
      case Returned(true) => Result(Conflict(FaceRegistered), rows)
      case Returned(false) =>
        if photoUrl.None? || qrUrl.None? then Result(ServerError, rows)
        else
          var user := User(req.name, req.email, photoUrl.value, probe, qrUrl.value);
          Result(Created(user), rows + [user])
  }

  /** The handler: early returns in the order of the source, then the row is
      appended by `create`. */
  method RegisterUser(db: UserTable, req: Request, photoUrl: Option<string>, qrUrl: Option<string>)
    returns (response: Response)
    modifies db
    ensures Result(response, db.rows) == Registration(old(db.rows), req, photoUrl, qrUrl)
  {
    if !req.hasImage {
      return BadRequest("No image file provided");
    }
    if EmailTaken(db.rows, req.email) {
      return Conflict(EmailRegistered);
    }
    if req.faceData.Malformed? {
      return ServerError;
    }
    var probe := ParsedProbe(req.faceData);
    var registered := FaceAlreadyRegistered(probe, db.rows);
    match registered {
      case Threw => return ServerError;
      case Returned(true) => return Conflict(FaceRegistered);
      case Returned(false) =>
    }
    if photoUrl.None? {
      return ServerError;
    }
    if qrUrl.None? {
      return ServerError;
    }
    var user := db.Create(User(req.name, req.email, photoUrl.value, probe, qrUrl.value));
    return Created(user);
  }

  /** A row the probe is within the threshold of is reported as a duplicate,
      provided no earlier row makes the scan throw. */
  lemma {:induction false} DuplicateDetected(probe: Option<seq<real>>, rows: seq<User>, i: nat, k: nat)
    requires i <= k < |rows|
    requires Within(probe, rows[k].faceData) == Returned(true)
    requires forall j :: i <= j < k ==> Within(probe, rows[j].faceData) != Threw
    ensures AnyWithinFrom(probe, rows, i) == Returned(true)
    decreases k - i
  {
    if i < k && Within(probe, rows[i].faceData) == Returned(false) {
      DuplicateDetected(probe, rows, i + 1, k);
    }
  }

  /** Rows whose descriptor is `null` never count as a duplicate: a table
      holding only such rows never rejects a face. */
  lemma NullRowsNeverDuplicate(probe: Option<seq<real>>, rows: seq<User>)
    requires forall j :: 0 <= j < |rows| ==> rows[j].faceData.None?
    ensures AnyWithinFrom(probe, rows, 0) == Returned(false)
  {
  }

  /** The uploads happen only after every check: a request that is rejected
      is rejected whatever the uploads would have returned. */
  lemma RejectionsPrecedeUploads(rows: seq<User>, req: Request,
                                 photoUrl: Option<string>, qrUrl: Option<string>,
                                 photoUrl': Option<string>, qrUrl': Option<string>)
    requires Registration(rows, req, photoUrl, qrUrl).response.BadRequest? ||
             Registration(rows, req, photoUrl, qrUrl).response.Conflict?
    ensures Registration(rows, req, photoUrl', qrUrl') == Registration(rows, req, photoUrl, qrUrl)
  {
  }

  /** No two users share an email. */
  predicate EmailsUnique(rows: seq<User>)
  {
    forall i, j :: 0 <= i < j < |rows| ==> rows[i].email != rows[j].email
  }

  /** Every two stored descriptors have the same length and lie at least the
      threshold apart. */
  ghost predicate FacesApart(rows: seq<User>)
  {
    forall i, j :: 0 <= i < j < |rows| && rows[i].faceData.Some? && rows[j].faceData.Some? ==>
      |rows[i].faceData.value| == |rows[j].faceData.value| &&
      SquaredDistance(rows[i].faceData.value, rows[j].faceData.value) >= THRESHOLD_SQUARED
  }

  /** Registration keeps emails unique. */
  lemma RegistrationKeepsEmailsUnique(rows: seq<User>, req: Request, photoUrl: Option<string>, qrUrl: Option<string>)
    requires EmailsUnique(rows)
    ensures EmailsUnique(Registration(rows, req, photoUrl, qrUrl).rows)
  {
  }

  /** Registration keeps the stored faces apart: the duplicate-face check
      admits a descriptor only if it has the length of, and lies at least the
      threshold from, every stored one. */
  lemma RegistrationKeepsFacesApart(rows: seq<User>, req: Request, photoUrl: Option<string>, qrUrl: Option<string>)
    requires FacesApart(rows)
    ensures FacesApart(Registration(rows, req, photoUrl, qrUrl).rows)
  {
    var out := Registration(rows, req, photoUrl, qrUrl);
    if out.response.Created? {
      var probe := ParsedProbe(req.faceData);
      forall i, j | 0 <= i < j < |out.rows| && out.rows[i].faceData.Some? && out.rows[j].faceData.Some?
        ensures |out.rows[i].faceData.value| == |out.rows[j].faceData.value|
        ensures SquaredDistance(out.rows[i].faceData.value, out.rows[j].faceData.value) >= THRESHOLD_SQUARED
      {
        assert out.rows[i] == rows[i];
        if j == |rows| {
          assert out.rows[j].faceData == probe;
          assert Within(probe, rows[i].faceData) == Returned(false);
          SquaredDistanceSymmetric(probe.value, rows[i].faceData.value);
        } else {
          assert out.rows[j] == rows[j];
        }
      }
    }
  }
}
