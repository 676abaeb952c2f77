/** Properties that connect the two handlers: the duplicate-face check of
    registration and the scan of identification decide the same way, so a
    face that has just been registered is identified and a near-identical
    face cannot be registered a second time. */
module Enrollment {
  import opened Outcomes
  import opened Distance
  import opened Records
  import opened UsersRoute
  import opened FaceScanRoute

  /** `some` and `find` with the same callback agree: `some` is true exactly
      when `find` finds a user, and one throws exactly when the other does. */
  lemma {:induction false} SomeAgreesWithFind(probe: Option<seq<real>>, rows: seq<User>, i: nat)
    requires i <= |rows|
    ensures AnyWithinFrom(probe, rows, i) ==
      match FirstMatchFrom(probe, rows, i)
      case Threw => Threw
      case Returned(found) => Returned(found.Some?)
    decreases |rows| - i
  {
    if i < |rows| && Within(probe, rows[i].faceData) == Returned(false) {
      SomeAgreesWithFind(probe, rows, i + 1);
    }
  }

  /** A face rejected as a duplicate by registration is one that
      identification would find, and conversely. */
  lemma DuplicateIffIdentified(rows: seq<User>, req: Request, photoUrl: Option<string>, qrUrl: Option<string>)
    requires req.hasImage && !EmailTaken(rows, req.email) && req.faceData.Json?
    ensures Registration(rows, req, photoUrl, qrUrl).response == Conflict(FaceRegistered) <==>
            Identification(rows, req.faceData).Found?
  {
  }

  /** Right after a registration with a descriptor, identifying with the
      same descriptor finds the user just created. */
  lemma RegisteredFaceIsIdentified(rows: seq<User>, req: Request, photoUrl: Option<string>, qrUrl: Option<string>)
    requires req.faceData.Json? && req.faceData.descriptor.Some?
    requires Registration(rows, req, photoUrl, qrUrl).response.Created?
    ensures Identification(Registration(rows, req, photoUrl, qrUrl).rows, req.faceData) ==
            Found(Registration(rows, req, photoUrl, qrUrl).response.user)
  {
    var out := Registration(rows, req, photoUrl, qrUrl);
    var probe := req.faceData.descriptor;
    var user := out.response.user;
    assert forall j :: 0 <= j < |rows| ==> out.rows[j] == rows[j];
    assert Misses(probe, out.rows, 0, |rows|);
    FirstMatchAt(probe, out.rows, 0, |rows|);
  }

  /** Registering `v1`, then trying to register any `v2` of the same length
      whose squared distance to `v1` is below the threshold (under a fresh
      email), is rejected as a duplicate face and leaves the rows as the
      first registration left them. */
  lemma NearDuplicateRejected(rows: seq<User>, req: Request, photoUrl: Option<string>, qrUrl: Option<string>,
                              req': Request, photoUrl': Option<string>, qrUrl': Option<string>)
    requires req.faceData.Json? && req.faceData.descriptor.Some?
    requires Registration(rows, req, photoUrl, qrUrl).response.Created?
    requires req'.hasImage && !EmailTaken(Registration(rows, req, photoUrl, qrUrl).rows, req'.email)
    requires req'.faceData.Json? && req'.faceData.descriptor.Some?
    requires |req'.faceData.descriptor.value| == |req.faceData.descriptor.value|
    requires SquaredDistance(req.faceData.descriptor.value, req'.faceData.descriptor.value) < THRESHOLD_SQUARED
    ensures var after := Registration(rows, req, photoUrl, qrUrl).rows;
            Registration(after, req', photoUrl', qrUrl') == Result(Conflict(FaceRegistered), after)
  {
    var out := Registration(rows, req, photoUrl, qrUrl);
    var v1 := req.faceData.descriptor.value;
    var v2 := req'.faceData.descriptor.value;
    var after := out.rows;
    assert forall j :: 0 <= j < |rows| ==> after[j] == rows[j];
    // every earlier row was null or had the length of v1, so none throws for v2
    forall j | 0 <= j < |rows| ensures Within(Some(v2), after[j].faceData) != Threw {
      assert Within(Some(v1), rows[j].faceData) == Returned(false);
    }
    SquaredDistanceSymmetric(v1, v2);
    assert Within(Some(v2), after[|rows|].faceData) == Returned(true);
    DuplicateDetected(Some(v2), after, 0, |rows|);
  }
}
