/** The user records, the request inputs and the HTTP responses shared by
    the two route handlers, and the user table they read and append to. */
module Records {
  import opened Outcomes
  import opened Distance

  /** A user row as the handlers see it. The row id that the database adds
      is not modelled. */
  datatype User = User(
    name: string,
    email: string,
    imageCapture: string,     // URL of the uploaded photo
    faceData: Option<seq<real>>,  // stored descriptor, or null
    qrCode: string)           // URL of the uploaded QR-code image

  /** The `face_data` request field, as far as the handlers depend on it:
      absent (for the face-scan route: any falsy value), text that
      `JSON.parse` rejects, or text that parses to `null` or to an array of
      numbers. */
  datatype FaceField = Missing | Malformed | Json(descriptor: Option<seq<real>>)

  datatype ConflictReason = EmailRegistered | FaceRegistered

  /** The responses the two handlers produce. */
  datatype Response =
    | BadRequest(message: string)
    | Conflict(reason: ConflictReason)
    | Created(user: User)
    | Found(user: User)
    | NotFound
    | ServerError

  /** The HTTP status code of each response. */
  function Status(r: Response): (code: int)
    ensures code in {200, 400, 404, 409, 500}
    // the two success responses are exactly those with status 200
    ensures code == 200 <==> r.Created? || r.Found?
  {
    match r
    case BadRequest(_) => 400
    case Conflict(_) => 409
    case Created(_) => 200
    case Found(_) => 200
    case NotFound => 404
    case ServerError => 500
  }

  /** The `message` field of each response body. */
  function Message(r: Response): (m: string)
    ensures !r.BadRequest? ==> m != ""
  {
    match r
    case BadRequest(m) => m
    case Conflict(EmailRegistered) => "Email already registered"
    case Conflict(FaceRegistered) => "Face data already registered"
    case Created(_) => "User created successfully"
    case Found(_) => "User found"
    case NotFound => "User not found"
    case ServerError => "Internal Server Error"
  }

  /** Some stored user has this email (`db.user.findUnique({ where: { email } })`
      finds a row). */
  predicate EmailTaken(rows: seq<User>, email: string): (taken: bool)
    ensures taken <==> email in (set u | u in rows :: u.email)
  {
    exists i :: 0 <= i < |rows| && rows[i].email == email
  }

  /** A client tells every response apart from its status and message,
      except for the user a 200 carries and the text of a 400: in
      particular the two 409 responses differ in their message. */
  lemma ResponsesDistinguishable(r1: Response, r2: Response)
    requires !r1.Created? && !r1.Found? && !r1.BadRequest?
    requires Status(r1) == Status(r2) && Message(r1) == Message(r2)
    ensures r1 == r2
  {
  }

  /** No user in `rows[lo..hi]` matches the probe, and none makes the
      distance computation throw. */
  ghost predicate Misses(probe: Option<seq<real>>, rows: seq<User>, lo: nat, hi: nat)
    requires lo <= hi <= |rows|
  {
    forall j :: lo <= j < hi ==> Within(probe, rows[j].faceData) == Returned(false)
  }

  /** The user table (`db.user`): the rows in insertion order. */
  class UserTable {
    var rows: seq<User>

    constructor (initial: seq<User>)
      ensures rows == initial
    {
      rows := initial;
    }

    /** `create`: appends the new row and returns it. */
    method Create(u: User) returns (created: User)
      modifies this
      ensures created == u
      ensures rows == old(rows) + [u]
    {
      rows := rows + [u];
      created := u;
    }
  }
}
