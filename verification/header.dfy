/** The `Authorization` header as the guard reads it: the header is cut at
    every single space, exactly as JavaScript's `String.prototype.split(' ')`
    does, and the credential is the second field. The scheme word (the first
    field) is never inspected. */
module Header {
  import opened Base

  /** Position of the first occurrence of `c` in `s`. */
  function IndexOf(s: string, c: char): (r: Option<nat>)
    ensures r.Some? ==> r.value < |s| && s[r.value] == c && c !in s[..r.value]
    ensures r.None? <==> c !in s
  {
    if |s| == 0 then None
    else if s[0] == c then Some(0)
    else
      match IndexOf(s[1..], c)
      case None => None
      case Some(i) =>
        assert s[..i + 1] == [s[0]] + s[1..][..i];
        Some(i + 1)
  }

  /** `s.split(sep)` for a one-character separator: consecutive separators
      produce empty fields, and there is always at least one field. */
  function Split(s: string, sep: char): (fields: seq<string>)
    ensures |fields| >= 1
    ensures forall k :: 0 <= k < |fields| ==> sep !in fields[k]
    decreases |s|
  {
    match IndexOf(s, sep)
    case None => [s]
    case Some(i) => [s[..i]] + Split(s[i + 1..], sep)
  }

  /** `fields.join(sep)`, the inverse of `Split`. */
  function Join(fields: seq<string>, sep: char): string
    requires |fields| >= 1
  {
    if |fields| == 1 then fields[0]
    else fields[0] + [sep] + Join(fields[1..], sep)
  }

  /** Joining the fields of a split gives back the original string. */
  lemma {:induction false} JoinSplit(s: string, sep: char)
    ensures Join(Split(s, sep), sep) == s
    decreases |s|
  {
    match IndexOf(s, sep)
    case None =>
    case Some(i) =>
      JoinSplit(s[i + 1..], sep);
      var rest := Split(s[i + 1..], sep);
      assert Split(s, sep) == [s[..i]] + rest;
      assert ([s[..i]] + rest)[1..] == rest;
      assert s == s[..i] + [sep] + s[i + 1..];
  }

  /** The first separator of `a + [sep] + b` is the one after `a`, when `a`
      has none. */
  lemma {:induction false} IndexOfAfterSeparatorFree(a: string, sep: char, b: string)
    requires sep !in a
    ensures IndexOf(a + [sep] + b, sep) == Some(|a|)
  {
    if |a| > 0 {
      IndexOfAfterSeparatorFree(a[1..], sep, b);
      assert (a + [sep] + b)[1..] == a[1..] + [sep] + b;
    }
  }

  /** Splitting a join of separator-free fields gives back those fields. */
  lemma {:induction false} SplitJoin(fields: seq<string>, sep: char)
    requires |fields| >= 1
    requires forall k :: 0 <= k < |fields| ==> sep !in fields[k]
    ensures Split(Join(fields, sep), sep) == fields
    decreases |fields|
  {
    if |fields| > 1 {
      var s := Join(fields, sep);
      var rest := Join(fields[1..], sep);
      assert s == fields[0] + [sep] + rest;
      IndexOfAfterSeparatorFree(fields[0], sep, rest);
      assert s[..|fields[0]|] == fields[0];
      assert s[|fields[0]| + 1..] == rest;
      SplitJoin(fields[1..], sep);
      assert fields == [fields[0]] + fields[1..];
    }
  }

  /** `authHeader && authHeader.split(' ')[1]`: absent when the header is
      absent or has no second field; the second field otherwise, which may
      be empty. */
  function BearerToken(header: Option<string>): (t: Option<string>)
    ensures t.Some? ==> header.Some? && ' ' !in t.value
  {
    match header
    case None => None
    case Some(h) =>
      var fields := Split(h, ' ');
      if |fields| >= 2 then Some(fields[1]) else None
  }

  /** Every header is the join of space-free fields, and the token read from
      it is the second of those fields if there is one: the extraction is
      completely determined by the header's field structure. */
  lemma BearerTokenOfFields(fields: seq<string>)
    requires |fields| >= 1
    requires forall k :: 0 <= k < |fields| ==> ' ' !in fields[k]
    ensures BearerToken(Some(Join(fields, ' '))) == if |fields| >= 2 then Some(fields[1]) else None
  {
    SplitJoin(fields, ' ');
  }

  /** A header `<scheme> <token>` followed by nothing or by further
      space-separated text yields exactly `<token>`. */
  lemma BearerTokenOfHeader(scheme: string, token: string, rest: string)
    requires ' ' !in scheme && ' ' !in token
    ensures BearerToken(Some(scheme + " " + token)) == Some(token)
    ensures BearerToken(Some(scheme + " " + token + " " + rest)) == Some(token)
  {
    BearerTokenOfFields([scheme, token]);
    assert Join([scheme, token], ' ') == scheme + " " + token;
    var tail := Split(rest, ' ');
    var fields := [scheme, token] + tail;
    JoinSplit(rest, ' ');
    assert fields[2..] == tail;
    assert Join(fields[1..], ' ') == token + " " + rest by {
      assert fields[1..][1..] == tail;
    }
    assert Join(fields, ' ') == scheme + " " + token + " " + rest;
    BearerTokenOfFields(fields);
  }
}
