/** The authentication routes of the server as pure transitions
    `(table, request) -> (table', response)`: the bearer-token guard
    `authenticateToken`, password login, face login, face enrolment and
    password change. The libraries are the `Primitives` argument; the
    clock reading used as a token's issue time, the bcrypt salt and the
    outcome of each storage statement are arguments too. */
module Auth {
  import opened Base
  import opened Header
  import opened Crypto
  import opened Users
  import opened FaceMatch

  /** The `user` object returned with a session token. */
  datatype PublicUser = PublicUser(id: nat, username: string, email: string)

  /** JSON bodies the routes send. */
  datatype Body =
    | StatusText                                /* res.sendStatus(code) */
    | Error(error: string)                      /* { error } */
    | Message(message: string)                  /* { message } */
    | Session(token: string, user: PublicUser)  /* { token, user } */
    | TokenSaved(message: string, token: string)

  datatype Response = Response(status: nat, body: Body)

  /** The table after a request, and the response sent for it. */
  datatype Step = Step(table: Table, response: Response)

  /** Whether the request's read statement, and its write statement,
      report an error. */
  datatype Faults = Faults(readFails: bool, writeFails: bool)

  /** Every statement of the request succeeds. */
  const NoFaults := Faults(false, false)

  const DatabaseError := Response(500, Error("Database error"))
  const InvalidCredentials := Response(401, Error("Invalid credentials"))
  const DescriptorRequired := Response(400, Error("Descriptor is required"))
  const FaceNotRecognized := Response(401, Error("Face not recognized"))
  const FaceSavedMessage := "Face descriptor and token saved successfully"
  const UserNotFound := Response(400, Message("User not found"))
  const WrongCurrentPassword := Response(401, Message("Current password is incorrect"))
  const PasswordUpdateFailed := Response(500, Message("Failed to update password"))
  const PasswordUpdated := Response(200, Message("Password updated successfully"))

  function PublicView(u: User): PublicUser {
    PublicUser(u.id, u.username, u.email)
  }

  /** A freshly signed token for `u`, issued at time `now`. */
  function Issue(c: Primitives, u: User, now: nat): string {
    c.sign(ClaimsOf(u), now)
  }

  // ---------------------------------------------------------------------
  // authenticateToken

  /** What the guard decides: stop with a bare status, or run the handler
      with the decoded claims attached to the request. */
  datatype GuardResult = Reject(status: nat) | Admit(user: Claims)

  /** The bearer-token guard. The credential is the second space-separated
      field of the header; an absent or empty one gives 401, one that does
      not verify gives 403, and a verified one admits its claims. */
  function Guard(c: Primitives, header: Option<string>): (g: GuardResult)
    ensures g == Reject(401) <==> BearerToken(header).GetOr("") == ""
    ensures g == Reject(403) <==>
      BearerToken(header).GetOr("") != "" && c.verify(BearerToken(header).value).None?
    ensures g.Admit? ==>
      BearerToken(header).GetOr("") != "" && c.verify(BearerToken(header).value) == Some(g.user)
    ensures g.Reject? ==> g.status == 401 || g.status == 403
  {
    match BearerToken(header)
    case None => Reject(401)
    case Some(token) =>
      if token == "" then Reject(401)
      else
        match c.verify(token)
        case None => Reject(403)
        case Some(user) => Admit(user)
  }

  // ---------------------------------------------------------------------
  // POST /api/auth/login

  /** The row the username names exists and the password matches its
      hash. */
  predicate PasswordAccepted(c: Primitives, t: Table, username: string, password: string) {
    match FindByUsername(t, username)
    case None => false
    case Some(i) => c.matches(password, t[i].passwordHash)
  }

  /** Password login. An unknown username and a wrong password get the same
      401 and change nothing; a success always signs a new token for the
      row and overwrites the stored one. The token write is not awaited: if
      it fails, the token is still returned but the table keeps the old
      one. */
  function PasswordLogin(c: Primitives, t: Table, username: string, password: string, now: nat, io: Faults): (s: Step)
    ensures s.response.status == 200 <==> !io.readFails && PasswordAccepted(c, t, username, password)
    ensures s.response.status != 200 ==> s.table == t
    ensures io.readFails ==> s.response == DatabaseError
    ensures !io.readFails && !PasswordAccepted(c, t, username, password) ==> s.response == InvalidCredentials
    ensures s.response.status == 200 ==>
      var u := t[FindByUsername(t, username).value];
      && s.response.body == Session(Issue(c, u, now), PublicView(u))
      && s.table == (if io.writeFails then t else SetToken(t, u.id, Issue(c, u, now)))
    ensures WellFormed(t) ==> WellFormed(s.table)
  {
    if io.readFails then Step(t, DatabaseError)
    else if !PasswordAccepted(c, t, username, password) then Step(t, InvalidCredentials)
    else
      var u := t[FindByUsername(t, username).value];
      var token := Issue(c, u, now);
      var t' := if io.writeFails then t else SetToken(t, u.id, token);
      Step(t', Response(200, Session(token, PublicView(u))))
  }

  // ---------------------------------------------------------------------
  // POST /api/auth/face-login

  /** Face login. A missing descriptor gives 400. Otherwise the matcher
      picks the first nearest user under the threshold, or answers 401.
      The matched user's stored token is returned unchanged if there is
      one; only when there is none is a token signed and stored. */
  function FaceLogin(c: Primitives, t: Table, descriptor: Option<seq<real>>, now: nat, io: Faults): (s: Step)
    ensures descriptor.None? ==> s == Step(t, DescriptorRequired)
    ensures descriptor.Some? && io.readFails ==> s == Step(t, DatabaseError)
    ensures s.response.status == 200 <==>
      descriptor.Some? && !io.readFails && exists j :: 0 <= j < |t| && UnderThreshold(t[j], descriptor.value)
    ensures descriptor.Some? && !io.readFails && (forall j :: 0 <= j < |t| ==> !UnderThreshold(t[j], descriptor.value)) ==>
      s == Step(t, FaceNotRecognized)
    ensures forall k: nat :: descriptor.Some? && !io.readFails && FirstNearest(t, descriptor.value, k) ==>
      && s.response.status == 200
      && s.response.body.Session?
      && s.response.body.user == PublicView(t[k])
      && (HasToken(t[k]) ==> s.response.body.token == t[k].token.value && s.table == t)
      && (!HasToken(t[k]) ==>
            && s.response.body.token == Issue(c, t[k], now)
            && s.table == (if io.writeFails then t else SetToken(t, t[k].id, Issue(c, t[k], now))))
    ensures WellFormed(t) ==> WellFormed(s.table)
  {
    match descriptor
    case None => Step(t, DescriptorRequired)
    case Some(query) =>
      if io.readFails then Step(t, DatabaseError)
      else
        FindMatchCorrect(t, query);
        match FindMatch(t, query)
        case None => Step(t, FaceNotRecognized)
        case Some(k) =>
          var u := t[k];
          if HasToken(u) then Step(t, Response(200, Session(u.token.value, PublicView(u))))
          else
            var token := Issue(c, u, now);
            var t' := if io.writeFails then t else SetToken(t, u.id, token);
            Step(t', Response(200, Session(token, PublicView(u))))
  }

  // ---------------------------------------------------------------------
  // POST /api/auth/save-face (behind authenticateToken)

  /** Face enrolment. The guard runs first and its rejection ends the
      request. A missing descriptor gives 400. Otherwise a token is signed
      for the caller's claims and both the descriptor and the token of the
      row with the caller's id are replaced, whether or not a token was
      stored before. */
  function SaveFace(c: Primitives, t: Table, header: Option<string>, descriptor: Option<seq<real>>, now: nat, io: Faults): (s: Step)
    ensures Guard(c, header).Reject? ==> s == Step(t, Response(Guard(c, header).status, StatusText))
    ensures Guard(c, header).Admit? && descriptor.None? ==> s == Step(t, DescriptorRequired)
    ensures Guard(c, header).Admit? && descriptor.Some? && io.writeFails ==> s == Step(t, DatabaseError)
    ensures Guard(c, header).Admit? && descriptor.Some? && !io.writeFails ==>
      var caller := Guard(c, header).user;
      var token := c.sign(caller, now);
      s == Step(SetFace(t, caller.id, descriptor.value, token), Response(200, TokenSaved(FaceSavedMessage, token)))
    ensures WellFormed(t) ==> WellFormed(s.table)
  {
    match Guard(c, header)
    case Reject(status) => Step(t, Response(status, StatusText))
    case Admit(caller) =>
      match descriptor
      case None => Step(t, DescriptorRequired)
      case Some(d) =>
        var token := c.sign(Claims(caller.id, caller.username), now);
        if io.writeFails then Step(t, DatabaseError)
        else Step(SetFace(t, caller.id, d, token), Response(200, TokenSaved(FaceSavedMessage, token)))
  }

  // ---------------------------------------------------------------------
  // PUT /api/change-password (not behind the guard)

  /** Password change. A failed lookup (including a read error) gives 400,
      a current password that does not match gives 401, a failed write
      gives 500; none of them changes anything. On success only the hash of
      the named row is replaced. */
  function ChangePassword(c: Primitives, t: Table, username: string, current: string, newPassword: string, salt: nat, io: Faults): (s: Step)
    ensures io.readFails || FindByUsername(t, username).None? ==> s == Step(t, UserNotFound)
    ensures !io.readFails && FindByUsername(t, username).Some? ==>
      var u := t[FindByUsername(t, username).value];
      && (!c.matches(current, u.passwordHash) ==> s == Step(t, WrongCurrentPassword))
      && (c.matches(current, u.passwordHash) && io.writeFails ==> s == Step(t, PasswordUpdateFailed))
      && (c.matches(current, u.passwordHash) && !io.writeFails ==>
            s == Step(SetPassword(t, username, c.hash(newPassword, salt)), PasswordUpdated))
    ensures WellFormed(t) ==> WellFormed(s.table)
  {
    if io.readFails then Step(t, UserNotFound)
    else
      match FindByUsername(t, username)
      case None => Step(t, UserNotFound)
      case Some(i) =>
        if !c.matches(current, t[i].passwordHash) then Step(t, WrongCurrentPassword)
        else if io.writeFails then Step(t, PasswordUpdateFailed)
        else Step(SetPassword(t, username, c.hash(newPassword, salt)), PasswordUpdated)
  }
}
