/** Euclidean distance between face descriptors, as `euclideanDistance`
    computes it: the loop runs over the QUERY's components only, so a
    stored descriptor is compared on its first `|query|` components.
    Distances are kept squared; `Math.sqrt` is strictly increasing on
    non-negative numbers, so `sqrt(s) < 0.6` exactly when `s < 0.6 * 0.6`
    and comparing two square roots orders them as their squares. */
module Distance {

  /** The acceptance threshold of the face matcher. */
  const MatchThreshold: real := 0.6

  /** The squared threshold the squared distance is compared with. */
  const SquaredThreshold: real := MatchThreshold * MatchThreshold

  /** The running `sum` after the loop has visited indices `0 .. n-1`. */
  function PartialSum(q: seq<real>, d: seq<real>, n: nat): (s: real)
    requires n <= |q| <= |d|
    ensures s >= 0.0
  {
    if n == 0 then 0.0
    else
      var x := q[n - 1] - d[n - 1];
      assert x * x >= 0.0;
      PartialSum(q, d, n - 1) + x * x
  }

  /** The squared euclidean distance from query `q` to stored descriptor
      `d`, defined when `d` has a component for every index of `q`. */
  function SquaredDistance(q: seq<real>, d: seq<real>): (s: real)
    requires |q| <= |d|
    ensures s >= 0.0
  {
    PartialSum(q, d, |q|)
  }

  lemma {:induction false} PartialSumOfEqual(q: seq<real>, d: seq<real>, n: nat)
    requires n <= |q| <= |d|
    requires forall i :: 0 <= i < n ==> q[i] == d[i]
    ensures PartialSum(q, d, n) == 0.0
  {
    if n > 0 {
      PartialSumOfEqual(q, d, n - 1);
    }
  }

  /** A stored descriptor that agrees with the query on every compared
      component is at distance zero; in particular every descriptor is at
      distance zero from itself. */
  lemma ZeroWhenEqual(q: seq<real>, d: seq<real>)
    requires |q| <= |d|
    requires q == d[..|q|]
    ensures SquaredDistance(q, d) == 0.0
    ensures SquaredDistance(d, d) == 0.0
  {
    assert forall i :: 0 <= i < |q| ==> q[i] == d[..|q|][i];
    PartialSumOfEqual(q, d, |q|);
    PartialSumOfEqual(d, d, |d|);
  }

  lemma {:induction false} PartialSumPrefix(q: seq<real>, d: seq<real>, e: seq<real>, n: nat)
    requires n <= |q| <= |d| && |q| <= |e|
    requires d[..|q|] == e[..|q|]
    ensures PartialSum(q, d, n) == PartialSum(q, e, n)
  {
    if n > 0 {
      PartialSumPrefix(q, d, e, n - 1);
      assert d[n - 1] == d[..|q|][n - 1];
      assert e[n - 1] == e[..|q|][n - 1];
    }
  }

  /** Only the first `|q|` components of the stored descriptor matter:
      anything after them is never read. */
  lemma OnlyQueryLengthCounts(q: seq<real>, d: seq<real>, extra: seq<real>)
    requires |q| <= |d|
    ensures SquaredDistance(q, d + extra) == SquaredDistance(q, d)
    ensures SquaredDistance(q, d) == SquaredDistance(q, d[..|q|])
  {
    assert (d + extra)[..|q|] == d[..|q|];
    PartialSumPrefix(q, d + extra, d, |q|);
    assert d[..|q|][..|q|] == d[..|q|];
    PartialSumPrefix(q, d, d[..|q|], |q|);
  }

  lemma {:induction false} PartialSumSymmetric(q: seq<real>, d: seq<real>, n: nat)
    requires n <= |q| == |d|
    ensures PartialSum(q, d, n) == PartialSum(d, q, n)
  {
    if n > 0 {
      PartialSumSymmetric(q, d, n - 1);
      assert (q[n - 1] - d[n - 1]) * (q[n - 1] - d[n - 1])
          == (d[n - 1] - q[n - 1]) * (d[n - 1] - q[n - 1]);
    }
  }

  /** Between descriptors of equal length the distance is symmetric. */
  lemma Symmetric(q: seq<real>, d: seq<real>)
    requires |q| == |d|
    ensures SquaredDistance(q, d) == SquaredDistance(d, q)
  {
    PartialSumSymmetric(q, d, |q|);
  }
}
