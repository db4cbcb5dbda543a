/** Properties that relate several requests: the different token policies
    of the three routes that issue tokens, the round trip from a login to
    the guard, and the effect of a password change or a face enrolment on
    later logins. */
module AuthProperties {
  import opened Base
  import opened Header
  import opened Crypto
  import opened Users
  import opened Distance
  import opened FaceMatch
  import opened Auth

  // ---------------------------------------------------------------------
  // Helpers about the table

  /** The username lookup only reads usernames. */
  lemma FindByUsernameReadsOnlyNames(t: Table, t': Table, name: string)
    requires |t| == |t'|
    requires forall i :: 0 <= i < |t| ==> t'[i].username == t[i].username
    ensures FindByUsername(t', name) == FindByUsername(t, name)
  {
  }


  /** Each stored token is a single header field that verifies to the
      claims of the row holding it. */
  ghost predicate TokensBound(c: Primitives, t: Table) {
    forall i :: 0 <= i < |t| && HasToken(t[i]) ==>
      ' ' !in t[i].token.value && c.verify(t[i].token.value) == Some(ClaimsOf(t[i]))
  }

  // ---------------------------------------------------------------------
  // Password login

  /** An unknown username and a known username with a wrong password are
      answered identically, and neither changes the table. */
  lemma FailedLoginsIndistinguishable(c: Primitives, t: Table, unknown: string, known: string,
                                       pw1: string, pw2: string, now1: nat, now2: nat, io: Faults)
    requires !io.readFails
    requires FindByUsername(t, unknown).None?
    requires FindByUsername(t, known).Some? && !c.matches(pw2, t[FindByUsername(t, known).value].passwordHash)
    ensures PasswordLogin(c, t, unknown, pw1, now1, io) == Step(t, InvalidCredentials)
    ensures PasswordLogin(c, t, known, pw2, now2, io) == Step(t, InvalidCredentials)
  {
  }

  /** A successful password login rewrites the token of exactly the
      logged-in row, with a freshly signed token, whether or not a token
      was stored; every other row and every other field is unchanged. */
  lemma PasswordLoginRotatesOnlyCallersToken(c: Primitives, t: Table, username: string, password: string, now: nat)
    requires WellFormed(t)
    requires PasswordAccepted(c, t, username, password)
    ensures var s := PasswordLogin(c, t, username, password, now, NoFaults);
            var i := FindByUsername(t, username).value;
            && s.response.status == 200
            && |s.table| == |t|
            && s.table[i] == t[i].(token := Some(Issue(c, t[i], now)))
            && s.response.body.token == Issue(c, t[i], now)
            && forall j :: 0 <= j < |t| && j != i ==> s.table[j] == t[j]
  {
  }

  // ---------------------------------------------------------------------
  // Face login

  /** A second face login with the same descriptor, after a successful
      one, is answered with the same token and user and writes nothing:
      the first login left a token on the matched row, and the second one
      reuses it. */
  lemma FaceLoginIdempotent(c: Primitives, t: Table, query: seq<real>, now1: nat, now2: nat)
    requires TokensArePlain(c)
    requires FindMatch(t, query).Some?
    ensures var s := FaceLogin(c, t, Some(query), now1, NoFaults);
            s.response.status == 200 && FaceLogin(c, s.table, Some(query), now2, NoFaults) == s
  {
    var s := FaceLogin(c, t, Some(query), now1, NoFaults);
    FindMatchCorrect(t, query);
    var k := FindMatch(t, query).value;
    assert |s.table| == |t| && forall i :: 0 <= i < |t| ==> s.table[i].descriptor == t[i].descriptor;
    ScanReadsOnlyDescriptors(t, s.table, query, |t|);
    FindMatchCorrect(s.table, query);
    assert FindMatch(s.table, query) == Some(k);
    assert HasToken(s.table[k]) && s.table[k].token.value == s.response.body.token;
  }

  /** The two login paths differ for a user who already holds a token:
      face login returns that token and writes nothing, while a password
      login for the same user stores a new one. */
  lemma TokenPolicyAsymmetry(c: Primitives, t: Table, query: seq<real>, k: nat, password: string, now: nat)
    requires WellFormed(t)
    requires FirstNearest(t, query, k)
    requires HasToken(t[k])
    requires PasswordAccepted(c, t, t[k].username, password)
    requires Issue(c, t[k], now) != t[k].token.value
    ensures FaceLogin(c, t, Some(query), now, NoFaults) == Step(t, Response(200, Session(t[k].token.value, PublicView(t[k]))))
    ensures PasswordLogin(c, t, t[k].username, password, now, NoFaults).table != t
  {
    FindMatchCorrect(t, query);
    assert FindByUsername(t, t[k].username) == Some(k);
    var s := PasswordLogin(c, t, t[k].username, password, now, NoFaults);
    assert s.table[k].token != t[k].token;
  }

  // ---------------------------------------------------------------------
  // Tokens and the guard

  /** The header `Bearer <token>` for a signed token passes the guard with
      the claims the token was signed for. */
  lemma SignedTokenPassesGuard(c: Primitives, claims: Claims, iat: nat)
    requires TokensVerify(c) && TokensArePlain(c)
    ensures Guard(c, Some("Bearer " + c.sign(claims, iat))) == Admit(claims)
  {
    BearerTokenOfHeader("Bearer", c.sign(claims, iat), "");
  }

  /** Whatever token a successful password login returns opens the guard
      for that user. */
  lemma PasswordLoginTokenPassesGuard(c: Primitives, t: Table, username: string, password: string, now: nat, io: Faults)
    requires TokensVerify(c) && TokensArePlain(c)
    requires PasswordLogin(c, t, username, password, now, io).response.status == 200
    ensures var s := PasswordLogin(c, t, username, password, now, io);
            Guard(c, Some("Bearer " + s.response.body.token)) == Admit(ClaimsOf(t[FindByUsername(t, username).value]))
  {
    SignedTokenPassesGuard(c, ClaimsOf(t[FindByUsername(t, username).value]), now);
  }

  /** While every stored token is bound to its row, the token a successful
      face login returns (stored or new) opens the guard for the matched
      user. */
  lemma FaceLoginTokenPassesGuard(c: Primitives, t: Table, query: seq<real>, k: nat, now: nat, io: Faults)
    requires TokensVerify(c) && TokensArePlain(c)
    requires TokensBound(c, t)
    requires !io.readFails && FirstNearest(t, query, k)
    ensures var s := FaceLogin(c, t, Some(query), now, io);
            Guard(c, Some("Bearer " + s.response.body.token)) == Admit(ClaimsOf(t[k]))
  {
    FindMatchCorrect(t, query);
    if HasToken(t[k]) {
      BearerTokenOfHeader("Bearer", t[k].token.value, "");
    } else {
      SignedTokenPassesGuard(c, ClaimsOf(t[k]), now);
    }
  }

  // ---------------------------------------------------------------------
  // The binding between stored tokens and rows

  /** A password login keeps every stored token bound to its row: the
      token it stores is signed for the claims of the row it is written
      to, since ids are unique. */
  lemma PasswordLoginKeepsTokensBound(c: Primitives, t: Table, username: string, password: string, now: nat, io: Faults)
    requires TokensVerify(c) && TokensArePlain(c)
    requires WellFormed(t) && TokensBound(c, t)
    ensures TokensBound(c, PasswordLogin(c, t, username, password, now, io).table)
  {
  }

  /** A face login keeps every stored token bound to its row: it either
      stores nothing or stores a token signed for the matched row. */
  lemma FaceLoginKeepsTokensBound(c: Primitives, t: Table, descriptor: Option<seq<real>>, now: nat, io: Faults)
    requires TokensVerify(c) && TokensArePlain(c)
    requires WellFormed(t) && TokensBound(c, t)
    ensures TokensBound(c, FaceLogin(c, t, descriptor, now, io).table)
  {
    var s := FaceLogin(c, t, descriptor, now, io);
    if descriptor.Some? && !io.readFails && FindMatch(t, descriptor.value).Some? {
      var k := FindMatch(t, descriptor.value).value;
      FindMatchCorrect(t, descriptor.value);
      assert FirstNearest(t, descriptor.value, k);
      if !HasToken(t[k]) && !io.writeFails {
        var token := Issue(c, t[k], now);
        assert s.table == SetToken(t, t[k].id, token);
        forall i | 0 <= i < |t| && HasToken(s.table[i])
          ensures ' ' !in s.table[i].token.value && c.verify(s.table[i].token.value) == Some(ClaimsOf(s.table[i]))
        {
          if t[i].id == t[k].id {
            assert i == k;
          }
        }
      }
    }
  }

  /** A password change touches neither tokens nor the claims of any row,
      so it keeps every stored token bound. */
  lemma ChangePasswordKeepsTokensBound(c: Primitives, t: Table, username: string, current: string,
                                       newPassword: string, salt: nat, io: Faults)
    requires TokensBound(c, t)
    ensures TokensBound(c, ChangePassword(c, t, username, current, newPassword, salt, io).table)
  {
  }

  /** The claims a guard admitted name the row with that id correctly. */
  predicate ClaimsAgree(t: Table, claims: Claims) {
    forall i :: 0 <= i < |t| && t[i].id == claims.id ==> t[i].username == claims.username
  }

  /** Enrolment keeps the binding as long as the admitted claims agree
      with the table: the new token is signed for the claims taken from the
      caller's token, not for the row it is written to. */
  lemma SaveFaceKeepsTokensBound(c: Primitives, t: Table, header: Option<string>, descriptor: Option<seq<real>>, now: nat, io: Faults)
    requires TokensVerify(c) && TokensArePlain(c)
    requires TokensBound(c, t)
    requires Guard(c, header).Admit? ==> ClaimsAgree(t, Guard(c, header).user)
    ensures TokensBound(c, SaveFace(c, t, header, descriptor, now, io).table)
  {
  }

  // ---------------------------------------------------------------------
  // Password change followed by login

  /** After a successful password change the new password logs in and any
      other password, the old one included, is refused. */
  lemma ChangePasswordThenLogin(c: Primitives, t: Table, username: string, current: string, newPassword: string,
                                other: string, salt: nat, now: nat)
    requires HashesDiscriminate(c)
    requires ChangePassword(c, t, username, current, newPassword, salt, NoFaults).response == PasswordUpdated
    requires other != newPassword
    ensures var t' := ChangePassword(c, t, username, current, newPassword, salt, NoFaults).table;
            && PasswordLogin(c, t', username, newPassword, now, NoFaults).response.status == 200
            && PasswordLogin(c, t', username, other, now, NoFaults) == Step(t', InvalidCredentials)
  {
  }

  /** A password change does not end any session: stored tokens,
      descriptors and claims are untouched, so a face login answers exactly
      as it did before the change. */
  lemma ChangePasswordKeepsSessions(c: Primitives, t: Table, username: string, current: string, newPassword: string,
                                    salt: nat, io: Faults, query: seq<real>, now: nat, io2: Faults)
    ensures var t' := ChangePassword(c, t, username, current, newPassword, salt, io).table;
            && |t'| == |t|
            && (forall i :: 0 <= i < |t| ==>
                  t'[i].token == t[i].token && t'[i].descriptor == t[i].descriptor && ClaimsOf(t'[i]) == ClaimsOf(t[i]))
            && FaceLogin(c, t', Some(query), now, io2).response == FaceLogin(c, t, Some(query), now, io2).response
  {
    var t' := ChangePassword(c, t, username, current, newPassword, salt, io).table;
    ScanReadsOnlyDescriptors(t, t', query, |t|);
    if !io2.readFails {
      FindMatchCorrect(t, query);
      FindMatchCorrect(t', query);
    }
  }

  // ---------------------------------------------------------------------
  // Enrolment followed by face login

  /** After a successful enrolment, presenting the enrolled descriptor is
      recognised: the caller's row is now at distance zero from it. */
  lemma SaveFaceThenFaceLogin(c: Primitives, t: Table, header: Option<string>, d: seq<real>, i: nat, now1: nat, now2: nat)
    requires Guard(c, header).Admit?
    requires i < |t| && t[i].id == Guard(c, header).user.id
    ensures var t' := SaveFace(c, t, header, Some(d), now1, NoFaults).table;
            FaceLogin(c, t', Some(d), now2, NoFaults).response.status == 200
  {
    var t' := SaveFace(c, t, header, Some(d), now1, NoFaults).table;
    assert t'[i].descriptor == Some(d);
    ZeroWhenEqual(d, d);
    assert UnderThreshold(t'[i], d);
  }

  // ---------------------------------------------------------------------
  // Concrete cases

  /** The request descriptor is only tested for truthiness, and `[]` is
      truthy. The loop over an empty query never runs, so every enrolled
      row is at distance zero and the first enrolled row is logged in. */
  lemma EmptyDescriptorLogsInFirstEnrolled(c: Primitives, t: Table, k: nat, now: nat)
    requires k < |t| && t[k].descriptor.Some?
    requires forall j :: 0 <= j < k ==> t[j].descriptor.None?
    ensures var s := FaceLogin(c, t, Some([]), now, NoFaults);
            s.response.status == 200 && s.response.body.Session? && s.response.body.user == PublicView(t[k])
  {
    assert UnderThreshold(t[k], []);
    assert FirstNearest(t, [], k);
  }

  /** Headers the guard answers with 401: none at all, a scheme with no
      second field, and a double space, whose second field is empty. */
  lemma GuardRejectsMissingTokens(c: Primitives)
    ensures Guard(c, None) == Reject(401)
    ensures Guard(c, Some("Bearer")) == Reject(401)
    ensures Guard(c, Some("Bearer ")) == Reject(401)
    ensures Guard(c, Some("Bearer  abc")) == Reject(401)
  {
    BearerTokenOfFields(["Bearer"]);
    BearerTokenOfFields(["Bearer", ""]);
    BearerTokenOfFields(["Bearer", "", "abc"]);
    assert Join(["Bearer"], ' ') == "Bearer";
    assert Join(["Bearer", ""], ' ') == "Bearer ";
    assert Join(["Bearer", "", "abc"], ' ') == "Bearer  abc";
  }

  const Alice := User(1, "alice", "alice@example.com", "h1", Some([0.0, 0.0, 0.0]), None)
  const Bob := User(2, "bob", "bob@example.com", "h2", Some([0.2, 0.2, 0.2]), None)

  /** Two enrolled users close to each other. A query nearer the first is
      matched to it; one under the threshold for both but nearer the second
      is matched to the second, although the first also qualifies; a query
      at the same distance from both goes to the first; one far from both is
      not recognised. */
  lemma TwoUserScenario()
    ensures FindMatch([Alice, Bob], [0.05, 0.05, 0.05]) == Some(0)
    ensures FindMatch([Alice, Bob], [0.15, 0.15, 0.15]) == Some(1)
    ensures FindMatch([Alice, Bob], [0.1, 0.1, 0.1]) == Some(0)
    ensures FindMatch([Alice, Bob], [5.0, 5.0, 5.0]).None?
  {
    var t := [Alice, Bob];
    ThreeComponentDistance([0.05, 0.05, 0.05], [0.0, 0.0, 0.0], 0.0075);
    ThreeComponentDistance([0.05, 0.05, 0.05], [0.2, 0.2, 0.2], 0.0675);
    ThreeComponentDistance([0.15, 0.15, 0.15], [0.0, 0.0, 0.0], 0.0675);
    ThreeComponentDistance([0.15, 0.15, 0.15], [0.2, 0.2, 0.2], 0.0075);
    ThreeComponentDistance([0.1, 0.1, 0.1], [0.0, 0.0, 0.0], 0.03);
    ThreeComponentDistance([0.1, 0.1, 0.1], [0.2, 0.2, 0.2], 0.03);
    ThreeComponentDistance([5.0, 5.0, 5.0], [0.0, 0.0, 0.0], 75.0);
    ThreeComponentDistance([5.0, 5.0, 5.0], [0.2, 0.2, 0.2], 69.12);
    assert SquaredThreshold == 0.36;
    assert Scan(t, [0.05, 0.05, 0.05], 1) == Some(0);
    assert Scan(t, [0.1, 0.1, 0.1], 1) == Some(0);
  }

  /** The squared distance between two three-component descriptors whose
      components are all equal. */
  lemma ThreeComponentDistance(q: seq<real>, d: seq<real>, expected: real)
    requires |q| == 3 && |d| == 3
    requires q[0] == q[1] == q[2] && d[0] == d[1] == d[2]
    requires expected == 3.0 * ((q[0] - d[0]) * (q[0] - d[0]))
    ensures SquaredDistance(q, d) == expected
  {
    var x := (q[0] - d[0]) * (q[0] - d[0]);
    assert PartialSum(q, d, 1) == x;
    assert PartialSum(q, d, 2) == x + x;
  }

  /** A stored descriptor shorter than the query is never a candidate, even
      when it agrees with every component it has. */
  lemma ShortDescriptorNeverMatches()
    ensures FindMatch([Alice.(descriptor := Some([0.0]))], [0.0, 0.0]).None?
  {
  }
}
