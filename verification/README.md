# Face matching in the registration and face-scan routes

This project models the face-matching rule of a face-registration web
application. Two Next.js route handlers carry it:

- `POST /api/users` (app/api/users/route.ts) registers a user. It rejects a
  request without an image (400), then an email that is already registered
  (409), then a face within the similarity threshold of any stored face
  (409). It then uploads the photo and a QR-code image and creates the user
  row (200). Any exception becomes 500.
- `POST /api/face-scan` (app/api/face-scan/route.ts) identifies a user. It
  rejects a missing `face_data` (400), then scans the stored users in table
  order and returns the first one whose descriptor lies strictly closer than
  0.6 to the probe (200), or 404 when none does. Any exception becomes 500.

Both files define the same `calculateEuclideanDistance` and
`SIMILARITY_THRESHOLD = 0.6`. They are modelled once, in module `Distance`.

Modules:

- `Outcomes`: `Option` for JavaScript `null`, and `Try` for code that may throw.
- `Distance`: the squared distance as a specification function, the
  accumulating loop proved against it, the threshold test used as the scan
  callback, and the properties of the distance.
- `Records`: user rows, the `face_data` field, the responses with their
  status codes and messages, and the user table (a class whose only update is
  `create`, which appends a row).
- `UsersRoute`: the `some` scan and the registration handler, as a function
  and as a method with early returns that appends to the table.
- `FaceScanRoute`: the `find` scan and the identification handler, as a
  function and as a method that has no `modifies` clause.
- `Enrollment`: lemmas that link the two handlers.

Modelling choices:

- Descriptors are `seq<real>`, and `Math.pow(x, 2)` is `x * x`. `Math.sqrt` is
  not computed. The routes only test `sqrt(sum) < 0.6`, and for any `d >= 0`
  with `d * d == sum` this holds exactly when `sum < 0.36`
  (`Distance.SquareRootThreshold`, `Distance.WithinMeansCloserThanThreshold`).
  So the model compares the squared distance with 0.36.
- A thrown exception is `Threw`. A stored descriptor that is `null` is
  skipped. A probe that parsed to `null` makes the distance throw once a
  non-null stored descriptor is reached, because `null.length` cannot be read.
- The two upload results are parameters: a URL, or `None` when
  `uploadFileToCloudinary` returns `null` or QR-code generation fails.
- Identification returns the first user below the threshold, not the
  closest: a closer user later in the table is not preferred
  (`FaceScanRoute.FirstWinsOverCloser`). An empty table gives 404 for any
  parsed probe, whatever its length.

## Model

| member | source | states |
|---|---|---|
| `Distance.PartialSum` | app/api/users/route.ts:14-17 | the accumulator `sum` after any number of iterations is non-negative |
| `Distance.SquaredEuclideanDistance` | app/api/users/route.ts:6-19 | throws exactly when the two descriptors differ in length; otherwise the loop returns the sum over all components of the squared differences |
| `Distance.SquaredDistanceSymmetric` | app/api/face-scan/route.ts:12-16 | the distance of `a` to `b` equals the distance of `b` to `a` |
| `Distance.SquaredDistanceZero` | app/api/face-scan/route.ts:4-17 | the distance is zero exactly when the two descriptors are equal |
| `Distance.SquareRootThreshold` | app/api/users/route.ts:61 | for a non-negative square root `d` of `sum`, `d < 0.6` holds exactly when `sum < 0.36`; a distance of exactly 0.6 is not below the threshold |
| `Distance.EuclideanDistanceProperties` | app/api/face-scan/route.ts:4-17 | the Euclidean distance is unique, symmetric, and zero exactly for equal descriptors |
| `Distance.Within` | app/api/users/route.ts:55-61 | the scan callback: a null stored descriptor never matches; it throws exactly on a null probe or a length mismatch with a non-null stored descriptor; a descriptor always matches itself |
| `Distance.WithinThreshold` | app/api/users/route.ts:56-61 | the scan callback, run with the distance loop, yields false for a null stored descriptor, throws on a null probe or a length mismatch, and otherwise tests the distance against the threshold |
| `Distance.WithinMeansCloserThanThreshold` | app/api/face-scan/route.ts:38-43 | the callback accepts a non-null stored descriptor exactly when its Euclidean distance to the probe is below 0.6, and never accepts a null one |
| `Records.Status` | app/api/face-scan/route.ts:21-63 | every response has one of the codes 200, 400, 404, 409 or 500, and 200 exactly for a created or found user |
| `Records.Message` | app/api/users/route.ts:104-113 | every response other than a 400 carries a non-empty message (the 400 messages are stated by the handler contracts) |
| `Records.ResponsesDistinguishable` | app/api/users/route.ts:44-68 | status and message together identify every response that carries no user and is not a 400; the two 409s differ in their message |
| `Records.EmailTaken` | app/api/users/route.ts:39-43 | the email lookup finds a row exactly when the email is among the stored users' emails |
| `UsersRoute.ParsedProbe` | app/api/users/route.ts:28-51 | an absent `face_data` field parses to `null`; a non-null probe is exactly the parsed array |
| `Records.UserTable.Create` | app/api/users/route.ts:94-102 | `create` appends the given row to the table and returns it |
| `UsersRoute.AnyWithinFrom` | app/api/users/route.ts:55-62 | `some` is false exactly when every row is null or farther than the threshold without throwing; true only if some row is within it and every earlier row is a clean miss; throws only if some row throws and every earlier row is a clean miss |
| `UsersRoute.FaceAlreadyRegistered` | app/api/users/route.ts:54-62 | the scan loop over the rows returns what `some` returns |
| `UsersRoute.Registration` | app/api/users/route.ts:23-115 | 400 exactly when the image is missing, and the email 409 exactly when the image is present and the email taken, both before the face scan; the duplicate-face 409 exactly when the scan meets a row within the threshold before any row that throws; a user is created exactly when the face misses every row and both uploads succeed, with the submitted name and email, the parsed descriptor and the two URLs, appended to the rows; 500 exactly when, after the checks pass, the parse fails, a row throws before any match, or an upload fails after a clean scan; every outcome except creation leaves the rows unchanged |
| `UsersRoute.RegisterUser` | app/api/users/route.ts:23-115 | the handler's response and the table afterwards are those `Registration` gives for the table before |
| `UsersRoute.DuplicateDetected` | app/api/users/route.ts:55-69 | a row within the threshold, with no earlier row throwing, makes the face count as registered |
| `UsersRoute.NullRowsNeverDuplicate` | app/api/users/route.ts:56-58 | rows with a null descriptor never count as a duplicate face |
| `UsersRoute.RejectionsPrecedeUploads` | app/api/users/route.ts:31-91 | a 400 or 409 outcome is the same whatever the uploads return, because the uploads come after every check |
| `UsersRoute.RegistrationKeepsEmailsUnique` | app/api/users/route.ts:39-48 | if no two rows share an email, none do after a registration |
| `UsersRoute.RegistrationKeepsFacesApart` | app/api/users/route.ts:55-69 | if every two stored descriptors have equal length and lie at least 0.6 apart, this still holds after a registration |
| `FaceScanRoute.FirstMatchFrom` | app/api/face-scan/route.ts:37-44 | `find` returns the index of a row within the threshold with every earlier row a clean miss; returns nothing exactly when every row is a clean miss; throws only if a row throws and every earlier row is a clean miss |
| `FaceScanRoute.FindMatch` | app/api/face-scan/route.ts:36-44 | the scan loop over the rows returns what `find` returns |
| `FaceScanRoute.Identification` | app/api/face-scan/route.ts:21-63 | 400 with "No face data provided" exactly when the field is missing; 404 exactly when no row is within the threshold; a found user is the first row within the threshold; 500 only on a parse failure or a row that throws before any match |
| `FaceScanRoute.IdentifyUser` | app/api/face-scan/route.ts:21-63 | the handler's response is what `Identification` gives for the current table; it cannot change the table |
| `FaceScanRoute.FirstMatchAt` | app/api/face-scan/route.ts:37-44 | a row within the threshold preceded only by clean misses is the one returned |
| `FaceScanRoute.LaterRowsIgnored` | app/api/face-scan/route.ts:37-50 | once a match is found, rows after it, however close or however malformed, change neither the match nor the response |
| `FaceScanRoute.EmptyTableNotFound` | app/api/face-scan/route.ts:51-55 | an empty table gives 404 for every parsed probe |
| `FaceScanRoute.FirstWinsOverCloser` | app/api/face-scan/route.ts:46-50 | with a user at distance 0.5 stored before a user at distance 0, the first is returned |
| `Enrollment.SomeAgreesWithFind` | app/api/users/route.ts:55-62 | the `some` scan of registration and the `find` scan of identification agree: true exactly when a user is found, and they throw together |
| `Enrollment.DuplicateIffIdentified` | app/api/users/route.ts:64-69 | after the image and email checks pass, registration rejects a face as a duplicate exactly when identification would find a user for it |
| `Enrollment.RegisteredFaceIsIdentified` | app/api/face-scan/route.ts:37-50 | right after a registration with a descriptor, identifying with that descriptor returns the user just created |
| `Enrollment.NearDuplicateRejected` | app/api/users/route.ts:55-69 | after registering a descriptor, registering one of the same length within the threshold of it, under a new email, is rejected with 409 and leaves the table unchanged |

## Left out

- `Distance.SquaredEuclideanDistance`: returns the squared distance and not its square root, because `Math.sqrt` is replaced by the squared comparison justified by `Distance.SquareRootThreshold`.
- IEEE-754 rounding, NaN and infinities of `Math.pow` and `Math.sqrt`: real arithmetic is used instead.
- `JSON.parse` and form or JSON body parsing: the `face_data` field is given already classified as missing, unparsable, `null` or an array of numbers. JSON values of other shapes (numbers, strings, objects) are not modelled.
- A registration without `face_data` parses to `null`. The model then creates a user whose descriptor is null when no stored descriptor is non-null. How the ORM stores a JSON `null` is not modelled.
- Database failures: `findUnique`, `findMany` and `create` are taken to succeed. The row id and timestamps the database adds are not modelled.
- The Cloudinary uploads, QR-code generation and `fetch` of the data URL: each upload is an opaque success with a URL, or a failure.
- The concurrent check-then-create race between two registrations: concurrency is not modelled.
- The QR-code lookup route (app/api/qrcode-scan/route.ts), the React pages and components, face-api.js descriptor extraction, and the database and build configuration are not part of this model.
- The order of the scans: `findMany` has no `orderBy`, so the database decides the order in which users are scanned. The model takes that order to be insertion order, with a new user last. The order decides which user identification returns, and whether a registration gets 409 or 500. `Enrollment.RegisteredFaceIsIdentified` and `Enrollment.NearDuplicateRejected` are proved for insertion order only. Their conclusions do not depend on the order: every other row is a clean miss in the first lemma, and no row throws in the second.
- Email comparison: the model compares emails by exact string equality. `findUnique` compares them under the database's collation.
- Logging with `console.error` is not modelled.
