# Authentication core of the portfolio back end, in Dafny

This project models the authentication routes of the portfolio server
(`server/app.cjs`) as pure transitions over the `users` table:

- the bearer-token guard `authenticateToken`;
- password login `POST /api/auth/login`;
- face login `POST /api/auth/face-login`, with its matcher and `euclideanDistance`;
- face enrolment `POST /api/auth/save-face`;
- password change `PUT /api/change-password`.

Each handler takes the table and the request and returns the new table
together with the status and JSON body that the route sends. JSON Web
Tokens and bcrypt are not re-implemented. They are the `Primitives`
argument, a record of four functions: sign, verify, hash and compare.
Lemmas that need them to behave state that as a predicate over this
record. The predicates are:

- a signed token verifies to the claims it was signed for;
- a signed token is a non-empty string without spaces;
- a hash matches exactly the password it was made from.

The clock reading that `jwt.sign` puts in a token, the bcrypt salt, and
whether each storage statement fails are all explicit arguments too.

Modules:

- `Base`: the `Option` type.
- `Header`: JavaScript's `split(' ')` and how the credential is taken from
  the `Authorization` header.
- `Crypto`: token claims, the `Primitives` record and its soundness
  predicates.
- `Users`: the user row, the username lookup and the three `UPDATE`
  statements.
- `Distance`: the squared euclidean distance.
- `FaceMatch`: the scan that `forEach` performs, and an independent
  definition of the user it should select.
- `Auth`: the guard and the four routes.
- `AuthProperties`: properties that span several requests.

Distances are compared squared. `Math.sqrt` is strictly increasing, so
`sqrt(s) < 0.6` holds exactly when `s < 0.36`. A comparison of two square
roots also orders them the same way as their squares. Rows are scanned in
the order `db.all` returns them, and the model's table order is that
order.

Three behaviours of the code are worth stating plainly:

- The request descriptor is only tested for JavaScript truthiness
  (server/app.cjs:240, 295), and `[]` is truthy, so `save-face` and
  `face-login` both accept an empty descriptor. For an empty query the
  distance loop never runs, every enrolled row is at distance zero, and a
  face login with `[]` logs in the first enrolled user
  (`AuthProperties.EmptyDescriptorLogsInFirstEnrolled`).
- The code reads `desc2[i]` for every index of the query. A stored
  descriptor shorter than the query therefore gives `NaN`, and `NaN < 0.6`
  is false, so such a row is never selected (`FaceMatch.Comparable`). A
  stored descriptor longer than the query is compared on its first
  `|query|` components only.
- A read error in `change-password` is answered with 400 "User not found"
  (server/app.cjs:675), not with a 500.

## Model

| member | source | states |
|---|---|---|
| `Header.Split` | server/app.cjs:201 | `split(' ')` always yields at least one field, and no field contains a space |
| `Header.JoinSplit` | server/app.cjs:201 | joining the fields of a split with the separator gives back the original string |
| `Header.SplitJoin` | server/app.cjs:201 | splitting a join of separator-free fields gives back exactly those fields |
| `Header.BearerToken` | server/app.cjs:200-201 | the credential exists only when a header is present, and it never contains a space |
| `Header.BearerTokenOfFields` | server/app.cjs:200-201 | the credential is the second space-separated field of the header, and it is absent when there is only one field |
| `Header.BearerTokenOfHeader` | server/app.cjs:200-201 | `<scheme> <token>`, with or without more space-separated text after it, yields exactly `<token>`; the scheme word is never checked |
| `Users.ClaimsOf` | server/app.cjs:227 | the token payload `{ id, username }` built from a user row |
| `Users.HasToken` | server/app.cjs:265-268 | the truthiness test `!token` on the stored token: both `null` and `""` count as no token |
| `Users.WellFormed` | server/app.cjs:36-37 | the `PRIMARY KEY` on `id` and `UNIQUE` on `username`: no two rows share an id or a username |
| `Users.FindByUsername` | server/app.cjs:218 | `db.get` returns the first row with that username, and nothing exactly when no row has it |
| `Users.SetToken` | server/app.cjs:230 | `UPDATE users SET token = ? WHERE id = ?`: every row with that id gets the token and keeps all its other fields; every other row is unchanged |
| `Users.SetFace` | server/app.cjs:302-304 | every row with that id gets the new descriptor and token and keeps its other fields; every other row is unchanged |
| `Users.SetPassword` | server/app.cjs:688 | every row with that username gets the new hash and keeps its other fields, tokens included; every other row is unchanged |
| `Users.UpdatesKeepWellFormed` | server/app.cjs:35-43 | the token, face and password updates keep ids and usernames unique, as the primary key and the UNIQUE column demand |
| `Distance.PartialSum` | server/app.cjs:284-287 | the running sum of squared component differences is never negative |
| `Distance.SquaredDistance` | server/app.cjs:283-289 | `euclideanDistance` squared: the sum over the query's indices of squared differences, never negative |
| `Distance.ZeroWhenEqual` | server/app.cjs:283-289 | a stored descriptor that agrees with the query on every compared component is at distance zero, so every descriptor is at distance zero from itself |
| `Distance.OnlyQueryLengthCounts` | server/app.cjs:285-286 | only the query's length is looped over, so components of the stored descriptor past that length never change the distance |
| `Distance.Symmetric` | server/app.cjs:283-289 | between descriptors of equal length the distance does not depend on argument order |
| `FaceMatch.Comparable` | server/app.cjs:254-257 | a row is scored only when it has a stored descriptor at least as long as the query; otherwise the distance is `NaN` and the row is never kept |
| `FaceMatch.Dist` | server/app.cjs:254-255 | the distance from the query to a comparable row's parsed stored descriptor, squared |
| `FaceMatch.UnderThreshold` | server/app.cjs:257 | `distance < 0.6`, squared, and false for a row that is not comparable, as `NaN < 0.6` is |
| `FaceMatch.IncomparableNeverMatched` | server/app.cjs:254-257 | a row without a descriptor, or with one shorter than the query, is never the selected user |
| `FaceMatch.FindMatch` | server/app.cjs:249-261 | the `matchedUser` left by the `forEach`: when present, a row of the table under the threshold |
| `FaceMatch.Scan` | server/app.cjs:249-261 | after the first n rows, the kept candidate is one of them and is comparable and under the threshold |
| `FaceMatch.ScanIsFirstNearest` | server/app.cjs:249-261 | the `forEach` with strict `<` keeps the first row at minimum distance among the rows under 0.6 seen so far, and nothing when there is none |
| `FaceMatch.FirstNearestUnique` | server/app.cjs:257 | ties go to the earliest row, so at most one row is the first nearest |
| `FaceMatch.FindMatchCorrect` | server/app.cjs:249-263 | no user is matched exactly when no row is under the threshold, and row k is matched exactly when it is the first nearest under the threshold |
| `FaceMatch.ScanReadsOnlyDescriptors` | server/app.cjs:244-261 | the matcher only reads descriptors: tables that agree on them produce the same match |
| `Auth.PublicView` | server/app.cjs:232 | the `user` object of a session response: id, username and email, never the hash or the token |
| `Auth.Issue` | server/app.cjs:227 | `jwt.sign` over the row's `{ id, username }` payload at the given issue time |
| `Auth.PasswordAccepted` | server/app.cjs:223 | the opposite of the rejection test: the username names a row and `bcrypt.compareSync` accepts the password against that row's hash |
| `Auth.Guard` | server/app.cjs:199-212 | an absent or empty credential gets 401, one that does not verify gets 403, and a verified one admits exactly the claims it verifies to |
| `Auth.PasswordLogin` | server/app.cjs:215-234 | read error gives 500; unknown user or wrong password gives 401 and no change; success returns a newly signed token and the public user, and stores that token unless the write fails |
| `Auth.FaceLogin` | server/app.cjs:237-281 | missing descriptor gives 400, read error gives 500, 200 exactly when a row is under the threshold; the first nearest row's stored token is returned without any write, and only a row without one gets a new token, which is stored |
| `Auth.SaveFace` | server/app.cjs:292-312 | the guard's rejection ends the request; missing descriptor gives 400; otherwise the caller's descriptor and token are replaced by the new descriptor and a token signed for the caller's claims, or 500 if the write fails |
| `Auth.ChangePassword` | server/app.cjs:670-697 | read error or unknown user gives 400, wrong current password gives 401, failed write gives 500, and none of these changes anything; success replaces only that username's hash with a hash of the new password |
| `AuthProperties.FindByUsernameReadsOnlyNames` | server/app.cjs:218 | the username lookup depends only on the usernames, so updates to hashes or tokens do not move it |
| `AuthProperties.FailedLoginsIndistinguishable` | server/app.cjs:223-225 | an unknown username and a wrong password get the identical 401 response and leave the table unchanged |
| `AuthProperties.PasswordLoginRotatesOnlyCallersToken` | server/app.cjs:227-232 | a successful password login overwrites the caller's token with a new one even if a token was stored, and every other row is untouched |
| `AuthProperties.FaceLoginIdempotent` | server/app.cjs:263-276 | a face login whose descriptor matches a user succeeds, and repeating it with the same descriptor gives the same token and user and writes nothing |
| `AuthProperties.TokenPolicyAsymmetry` | server/app.cjs:227-271 | for a user who already holds a token, face login returns it and leaves the table as it was, while password login for the same user changes the stored token |
| `AuthProperties.SignedTokenPassesGuard` | server/app.cjs:199-212 | `Bearer <signed token>` passes the guard with exactly the signed claims |
| `AuthProperties.PasswordLoginTokenPassesGuard` | server/app.cjs:227-232 | the token a password login returns opens the guard for the user who logged in |
| `AuthProperties.FaceLoginTokenPassesGuard` | server/app.cjs:263-276 | while stored tokens are bound to their rows, the token a face login returns, whether reused or new, opens the guard for the matched user |
| `AuthProperties.PasswordLoginKeepsTokensBound` | server/app.cjs:227-230 | a password login keeps every stored token bound to the claims of its own row |
| `AuthProperties.FaceLoginKeepsTokensBound` | server/app.cjs:265-271 | a face login keeps every stored token bound to the claims of its own row |
| `AuthProperties.ChangePasswordKeepsTokensBound` | server/app.cjs:688 | a password change keeps every stored token bound to the claims of its own row |
| `AuthProperties.SaveFaceKeepsTokensBound` | server/app.cjs:299-304 | enrolment keeps tokens bound as long as the admitted claims name the row correctly, because the new token is signed for the claims taken from the caller's token |
| `AuthProperties.ChangePasswordThenLogin` | server/app.cjs:685-694 | after a successful change, the new password logs in and every other password, including the old one, gets 401 |
| `AuthProperties.ChangePasswordKeepsSessions` | server/app.cjs:688 | a password change leaves tokens, descriptors and claims alone, so existing sessions survive and face login answers exactly as before |
| `AuthProperties.SaveFaceThenFaceLogin` | server/app.cjs:299-309 | after a successful enrolment, presenting the enrolled descriptor is recognised |
| `AuthProperties.EmptyDescriptorLogsInFirstEnrolled` | server/app.cjs:240-276 | a face login with `[]` succeeds as the first row that has a stored descriptor |
| `AuthProperties.GuardRejectsMissingTokens` | server/app.cjs:201-205 | no header, `Bearer`, `Bearer ` and `Bearer  abc` all get 401, because the second field is missing or empty |
| `AuthProperties.TwoUserScenario` | server/app.cjs:249-279 | with two enrolled users the nearer one under the threshold wins even when it comes second, a tie goes to the first, and a far query is not recognised |
| `AuthProperties.ShortDescriptorNeverMatches` | server/app.cjs:254-257 | a stored descriptor shorter than the query is never selected, even when it agrees on every component it has |

## Left out

- Express wiring, CORS, static files, the upload directory and `listen` are left out, because they are not part of the authentication logic.
- Schema creation, migrations and the seeded admin account are left out. The model starts from any table, and `Users.WellFormed` states the key constraints when a property needs them.
- The profile, project, skill, experience and contact routes are outside the authentication core.
- `multer` file uploads are left out.
- Request descriptors are modelled as arrays of numbers or absent. A truthy non-array body value is not modelled. For `true`, `1` or `{}`, `desc1.length` is undefined, so the loop runs zero times and the first enrolled row matches, as for `[]`. A string is walked character by character with numeric coercion.
- The internals of `jsonwebtoken` and `bcryptjs` are not modelled. The secret key, the signature algorithm and the cost factor 10 are inside the `Primitives` functions. Properties assume only the soundness predicates in `Crypto`, so a token signed with a different secret is simply one that does not verify.
- IEEE-754 arithmetic and `Math.sqrt` are replaced by exact reals and squared comparisons. Rounding, infinities and `NaN` inputs in the query itself are not modelled. The `NaN` from a short stored descriptor is modelled as the row being skipped.
- `JSON.parse` and `JSON.stringify` of the stored descriptor are not modelled. A stored descriptor is the sequence it encodes.
- Body fields are strings that are present. A missing or non-string `password` makes `bcrypt.compareSync` throw, which is not modelled.
- The token writes of both logins are not awaited. Only the request's own outcome of a failed write is modelled: the token is still returned and the table keeps its old token. What the process does with an error from a `db.run` that has no callback is not modelled. The sqlite driver may report it as an unhandled `'error'` event, which would end the process. Interleaving with concurrent requests is not modelled either.
- `Crypto.HashesDiscriminate` idealises `bcryptjs`: a password matches only the hash made from it. bcrypt reads only the first 72 UTF-8 bytes of a password, so two passwords that agree on those bytes match the same hash. Lemmas that assume this predicate, such as `AuthProperties.ChangePasswordThenLogin`, hold only for passwords that differ within their first 72 bytes.
- Tokens carry no expiry in the source. The issue time is the `now` argument, and nothing in the model reads it back.
- `Distance.ZeroWhenEqual`: proves only that equal descriptors are at distance zero. The converse, that distance zero means equal, is not stated, because the solver does not close the nonlinear real reasoning it needs.
- `AuthProperties.SaveFaceThenFaceLogin`: states only that the enrolled descriptor is recognised, not which user it is matched to. An earlier row at distance zero from the same descriptor wins the tie.
