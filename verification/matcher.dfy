/** The face matcher of `/api/auth/face-login`: a single pass over the
    enrolled users in table order that keeps a candidate when its distance
    is under the threshold and strictly below the best distance so far. */
module FaceMatch {
  import opened Base
  import opened Users
  import opened Distance

  /** A row the matcher can score against `query`. Rows without a
      descriptor are not selected at all; a stored descriptor shorter than
      the query makes the source read `undefined`, the distance becomes NaN
      and `NaN < 0.6` is false, so such a row is never kept either. */
  predicate Comparable(u: User, query: seq<real>) {
    u.descriptor.Some? && |query| <= |u.descriptor.value|
  }

  /** Squared distance from `query` to the row's stored descriptor. */
  function Dist(u: User, query: seq<real>): real
    requires Comparable(u, query)
  {
    SquaredDistance(query, u.descriptor.value)
  }

  /** The row is close enough to be recognised: distance below 0.6. */
  predicate UnderThreshold(u: User, query: seq<real>) {
    Comparable(u, query) && Dist(u, query) < SquaredThreshold
  }

  /** The state of the source's loop after visiting rows `0 .. n-1`: the
      position of `matchedUser`, or `None` while it is still `null` (and
      `lowestDistance` still `Number.MAX_VALUE`). */
  function Scan(t: Table, query: seq<real>, n: nat): (r: Option<nat>)
    requires n <= |t|
    ensures r.Some? ==> r.value < n && UnderThreshold(t[r.value], query)
  {
    if n == 0 then None
    else
      var best := Scan(t, query, n - 1);
      var u := t[n - 1];
      if UnderThreshold(u, query) && (best.None? || Dist(u, query) < Dist(t[best.value], query))
      then Some(n - 1)
      else best
  }

  /** The user the face login selects, as a table position. */
  function FindMatch(t: Table, query: seq<real>): (r: Option<nat>)
    ensures r.Some? ==> r.value < |t| && UnderThreshold(t[r.value], query)
  {
    Scan(t, query, |t|)
  }

  /** A row without a descriptor, or with one shorter than the query, is
      never the user a face login selects, whatever its stored
      components are. */
  lemma IncomparableNeverMatched(t: Table, query: seq<real>, k: nat)
    requires k < |t| && !Comparable(t[k], query)
    ensures FindMatch(t, query) != Some(k)
  {
  }

  /** Reference definition: row `k` is the nearest row under the threshold
      among the first `n`, and no earlier row is equally near. */
  ghost predicate FirstNearestIn(t: Table, query: seq<real>, n: nat, k: nat)
    requires n <= |t|
  {
    && k < n
    && UnderThreshold(t[k], query)
    && (forall j :: 0 <= j < n && UnderThreshold(t[j], query) ==> Dist(t[k], query) <= Dist(t[j], query))
    && (forall j :: 0 <= j < k && UnderThreshold(t[j], query) ==> Dist(t[k], query) < Dist(t[j], query))
  }

  ghost predicate FirstNearest(t: Table, query: seq<real>, k: nat) {
    FirstNearestIn(t, query, |t|, k)
  }

  lemma {:induction false} ScanIsFirstNearest(t: Table, query: seq<real>, n: nat)
    requires n <= |t|
    ensures Scan(t, query, n).Some? ==> FirstNearestIn(t, query, n, Scan(t, query, n).value)
    ensures Scan(t, query, n).None? <==> forall j :: 0 <= j < n ==> !UnderThreshold(t[j], query)
  {
    if n > 0 {
      ScanIsFirstNearest(t, query, n - 1);
    }
  }

  /** At most one row is the first nearest one. */
  lemma FirstNearestUnique(t: Table, query: seq<real>, k1: nat, k2: nat)
    requires FirstNearest(t, query, k1) && FirstNearest(t, query, k2)
    ensures k1 == k2
  {
  }

  /** The scan finds a user exactly when some enrolled user is under the
      threshold, and the user it finds is the first one at minimal
      distance: `FindMatch` and `FirstNearest` agree on every input. */
  lemma FindMatchCorrect(t: Table, query: seq<real>)
    ensures FindMatch(t, query).None? <==> forall j :: 0 <= j < |t| ==> !UnderThreshold(t[j], query)
    ensures forall k: nat :: FindMatch(t, query) == Some(k) <==> FirstNearest(t, query, k)
  {
    ScanIsFirstNearest(t, query, |t|);
    forall k: nat | FirstNearest(t, query, k)
      ensures FindMatch(t, query) == Some(k)
    {
      assert FindMatch(t, query).Some?;
      FirstNearestUnique(t, query, k, FindMatch(t, query).value);
    }
  }

  /** The scan reads nothing but the descriptors: two tables that agree on
      every row's descriptor select the same position. */
  lemma {:induction false} ScanReadsOnlyDescriptors(t: Table, t': Table, query: seq<real>, n: nat)
    requires n <= |t| == |t'|
    requires forall i :: 0 <= i < |t| ==> t[i].descriptor == t'[i].descriptor
    ensures Scan(t, query, n) == Scan(t', query, n)
  {
    if n > 0 {
      ScanReadsOnlyDescriptors(t, t', query, n - 1);
    }
  }
}
