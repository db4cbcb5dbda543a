/** The `users` table: one record per account, kept in table (row id)
    order, together with the point lookup and the three single-statement
    updates the authentication handlers issue. */
module Users {
  import opened Base
  import opened Crypto

  /** A row of `users`. `passwordHash` is the bcrypt hash, `descriptor` the
      parsed `face_descriptor` column and `token` the last stored session
      token. */
  datatype User = User(
    id: nat,
    username: string,
    email: string,
    passwordHash: string,
    descriptor: Option<seq<real>>,
    token: Option<string>)

  type Table = seq<User>

  /** The claims a token for `u` carries. */
  function ClaimsOf(u: User): Claims {
    Claims(u.id, u.username)
  }

  /** JavaScript truthiness of the stored token: `null` and `""` both count
      as "no token". */
  predicate HasToken(u: User) {
    u.token.Some? && u.token.value != ""
  }

  /** The store's own guarantees: `id` is the primary key and `username` is
      declared UNIQUE. */
  predicate WellFormed(t: Table) {
    forall i, j :: 0 <= i < j < |t| ==> t[i].id != t[j].id && t[i].username != t[j].username
  }

  /** `SELECT * FROM users WHERE username = ?` read with `db.get`: the
      position of the first row with that username. */
  function FindByUsername(t: Table, name: string): (r: Option<nat>)
    ensures r.Some? ==> r.value < |t| && t[r.value].username == name
    ensures r.Some? ==> forall j :: 0 <= j < r.value ==> t[j].username != name
    ensures r.None? <==> forall j :: 0 <= j < |t| ==> t[j].username != name
  {
    if |t| == 0 then None
    else if t[0].username == name then Some(0)
    else
      match FindByUsername(t[1..], name)
      case None => None
      case Some(i) => Some(i + 1)
  }

  /** `UPDATE users SET token = ? WHERE id = ?`. */
  function SetToken(t: Table, id: nat, token: string): (t': Table)
    ensures |t'| == |t|
    ensures forall i :: 0 <= i < |t| && t[i].id == id ==> t'[i] == t[i].(token := Some(token))
    ensures forall i :: 0 <= i < |t| && t[i].id != id ==> t'[i] == t[i]
  {
    seq(|t|, i requires 0 <= i < |t| =>
      if t[i].id == id then t[i].(token := Some(token)) else t[i])
  }

  /** `UPDATE users SET face_descriptor = ?, token = ? WHERE id = ?`. */
  function SetFace(t: Table, id: nat, descriptor: seq<real>, token: string): (t': Table)
    ensures |t'| == |t|
    ensures forall i :: 0 <= i < |t| && t[i].id == id ==>
      t'[i] == t[i].(descriptor := Some(descriptor), token := Some(token))
    ensures forall i :: 0 <= i < |t| && t[i].id != id ==> t'[i] == t[i]
  {
    seq(|t|, i requires 0 <= i < |t| =>
      if t[i].id == id then t[i].(descriptor := Some(descriptor), token := Some(token)) else t[i])
  }

  /** `UPDATE users SET password = ? WHERE username = ?`. */
  function SetPassword(t: Table, name: string, hash: string): (t': Table)
    ensures |t'| == |t|
    ensures forall i :: 0 <= i < |t| && t[i].username == name ==> t'[i] == t[i].(passwordHash := hash)
    ensures forall i :: 0 <= i < |t| && t[i].username != name ==> t'[i] == t[i]
  {
    seq(|t|, i requires 0 <= i < |t| =>
      if t[i].username == name then t[i].(passwordHash := hash) else t[i])
  }

  /** None of the three updates touches an id or a username, so each keeps
      the table's key constraints. */
  lemma UpdatesKeepWellFormed(t: Table, id: nat, name: string, d: seq<real>, token: string, hash: string)
    requires WellFormed(t)
    ensures WellFormed(SetToken(t, id, token))
    ensures WellFormed(SetFace(t, id, d, token))
    ensures WellFormed(SetPassword(t, name, hash))
  {
  }
}
