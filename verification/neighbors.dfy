/** The k-nearest-neighbour query that the spatial index answers, stated by its specification
    (the k reference rows closest to a query in Euclidean distance) and realised by a brute-force
    selection. Distances are squared Euclidean distances, which order rows exactly as Euclidean
    distances do. */
module Neighbors {
  import opened NdArrays

  /** Product of two positive reals. */
  function MulPositive(a: real, b: real): (r: real)
    requires a > 0.0 && b > 0.0
    ensures r > 0.0
  {
    a * b
  }

  /** The square of one coordinate difference: zero exactly for equal coordinates. */
  function Square(d: real): (r: real)
    ensures r >= 0.0
    ensures r == 0.0 <==> d == 0.0
  {
    if d > 0.0 then MulPositive(d, d) else if d < 0.0 then MulPositive(-d, -d) else 0.0
  }

  /** Squared Euclidean distance between two rows of one width. */
  function SqDist(a: Row, b: Row): (d: real)
    requires |a| == |b|
    ensures d >= 0.0
  {
    if a == [] then 0.0 else Square(a[0] - b[0]) + SqDist(a[1..], b[1..])
  }

  /** A row is at distance zero from another exactly when the two are equal. */
  lemma {:induction false} SqDistZero(a: Row, b: Row)
    requires |a| == |b|
    ensures SqDist(a, b) == 0.0 <==> a == b
  {
    if a != [] {
      SqDistZero(a[1..], b[1..]);
      assert a == [a[0]] + a[1..] && b == [b[0]] + b[1..];
    }
  }

  /** Every listed index names a row of `ref`. */
  predicate InRange(ref: seq<Row>, idx: seq<nat>) {
    forall j :: 0 <= j < |idx| ==> idx[j] < |ref|
  }

  /** No row is listed twice. */
  predicate Distinct(idx: seq<nat>) {
    forall j, l :: 0 <= j < l < |idx| ==> idx[j] != idx[l]
  }

  /** The listed rows are in non-decreasing distance from `x`. */
  predicate NearestFirst(ref: seq<Row>, x: Row, idx: seq<nat>)
    requires Rectangular(ref, |x|) && InRange(ref, idx)
  {
    forall j, l :: 0 <= j < l < |idx| ==> SqDist(ref[idx[j]], x) <= SqDist(ref[idx[l]], x)
  }

  /** No row left out is strictly closer to `x` than the last row listed. */
  predicate NoneCloser(ref: seq<Row>, x: Row, idx: seq<nat>)
    requires Rectangular(ref, |x|) && InRange(ref, idx)
  {
    idx == [] || forall r :: 0 <= r < |ref| && r !in idx ==>
                   SqDist(ref[idx[|idx| - 1]], x) <= SqDist(ref[r], x)
  }

  /** `idx` lists `k` distinct rows of `ref`, nearest first, and no row left out is strictly
      closer to `x` than the last one listed. Which of several equidistant rows is listed is
      left open. */
  predicate IsKNearest(ref: seq<Row>, x: Row, k: nat, idx: seq<nat>)
    requires Rectangular(ref, |x|)
  {
    |idx| == k && InRange(ref, idx) && Distinct(idx) && NearestFirst(ref, x, idx) &&
    NoneCloser(ref, x, idx)
  }

  /** The closest row of `ref[..n]` to `x` that `excl` does not list, if there is one. */
  function ClosestBelow(ref: seq<Row>, x: Row, excl: seq<nat>, n: nat): (c: Option<nat>)
    requires n <= |ref| && Rectangular(ref, |x|)
    ensures c.None? <==> forall r :: 0 <= r < n ==> r in excl
    ensures c.Some? ==> c.value < n && c.value !in excl
    ensures c.Some? ==> forall r :: 0 <= r < n && r !in excl ==>
                          SqDist(ref[c.value], x) <= SqDist(ref[r], x)
  {
    if n == 0 then None
    else
      var c := ClosestBelow(ref, x, excl, n - 1);
      if n - 1 in excl then c
      else if c.None? || SqDist(ref[n - 1], x) < SqDist(ref[c.value], x) then Some(n - 1)
      else c
  }

  /** A sequence that lists every number below `n` has at least `n` entries. */
  lemma {:induction false} CoverHasLength(s: seq<nat>, n: nat)
    requires forall r :: 0 <= r < n ==> r in s
    ensures n <= |s|
  {
    if n > 0 {
      assert n - 1 in s;
      var q :| 0 <= q < |s| && s[q] == n - 1;
      var t := s[..q] + s[q + 1..];
      forall r | 0 <= r < n - 1 ensures r in t {
        assert r in s;
        var w :| 0 <= w < |s| && s[w] == r;
        if w < q {
          assert t[w] == r;
        } else {
          assert t[w - 1] == r;
        }
      }
      CoverHasLength(t, n - 1);
    }
  }

  /** Brute-force k-nearest selection: the nearest `k - 1` rows, then the closest row not yet
      chosen. */
  function Nearest(ref: seq<Row>, x: Row, k: nat): (idx: seq<nat>)
    requires Rectangular(ref, |x|) && k <= |ref|
    ensures IsKNearest(ref, x, k, idx)
    decreases k
  {
    if k == 0 then []
    else
      var prev := Nearest(ref, x, k - 1);
      var c := ClosestBelow(ref, x, prev, |ref|);
      if c.None? then
        assert false by { CoverHasLength(prev, |ref|); }
        prev
      else
        NearestStep(ref, x, k - 1, prev, c.value);
        prev + [c.value]
  }

  /** Appending the closest row not yet chosen to the `k` nearest gives the `k + 1` nearest. */
  lemma NearestStep(ref: seq<Row>, x: Row, k: nat, prev: seq<nat>, c: nat)
    requires Rectangular(ref, |x|) && IsKNearest(ref, x, k, prev)
    requires c < |ref| && c !in prev
    requires forall r :: 0 <= r < |ref| && r !in prev ==> SqDist(ref[c], x) <= SqDist(ref[r], x)
    ensures IsKNearest(ref, x, k + 1, prev + [c])
  {
    var idx := prev + [c];
    assert InRange(ref, idx);
    forall j, l | 0 <= j < l <= k ensures idx[j] != idx[l] {
      assert idx[j] == prev[j];
      if l < k { assert idx[l] == prev[l]; } else { assert prev[j] in prev; }
    }
    StepNearestFirst(ref, x, prev, c);
    forall r | 0 <= r < |ref| && r !in idx ensures SqDist(ref[idx[k]], x) <= SqDist(ref[r], x) {
      assert r !in prev;
    }
  }

  lemma StepNearestFirst(ref: seq<Row>, x: Row, prev: seq<nat>, c: nat)
    requires Rectangular(ref, |x|) && InRange(ref, prev) && NearestFirst(ref, x, prev)
    requires NoneCloser(ref, x, prev)
    requires c < |ref| && c !in prev
    ensures InRange(ref, prev + [c]) && NearestFirst(ref, x, prev + [c])
  {
    var idx, k := prev + [c], |prev|;
    assert InRange(ref, idx);
    forall j, l | 0 <= j < l <= k ensures SqDist(ref[idx[j]], x) <= SqDist(ref[idx[l]], x) {
      assert idx[j] == prev[j];
      if l < k {
        assert idx[l] == prev[l];
      } else if j < k - 1 {
        assert SqDist(ref[prev[j]], x) <= SqDist(ref[prev[k - 1]], x);
      }
    }
  }

  /** The first row returned is a closest row: no reference row is strictly closer to `x`. */
  lemma FirstIsClosest(ref: seq<Row>, x: Row, k: nat, idx: seq<nat>)
    requires Rectangular(ref, |x|) && IsKNearest(ref, x, k, idx) && k >= 1
    ensures forall r :: 0 <= r < |ref| ==> SqDist(ref[idx[0]], x) <= SqDist(ref[r], x)
  {
    forall r | 0 <= r < |ref| ensures SqDist(ref[idx[0]], x) <= SqDist(ref[r], x) {
      if r in idx {
        var j :| 0 <= j < k && idx[j] == r;
        if j > 0 {
          assert SqDist(ref[idx[0]], x) <= SqDist(ref[idx[j]], x);
        }
      } else {
        assert SqDist(ref[idx[k - 1]], x) <= SqDist(ref[r], x);
        if k > 1 {
          assert SqDist(ref[idx[0]], x) <= SqDist(ref[idx[k - 1]], x);
        }
      }
    }
  }

  /** A row strictly closer to `x` than every other row is the first one returned. */
  lemma UniqueClosestFirst(ref: seq<Row>, x: Row, k: nat, idx: seq<nat>, t: nat)
    requires Rectangular(ref, |x|) && IsKNearest(ref, x, k, idx)
    requires k >= 1 && t < |ref|
    requires forall r :: 0 <= r < |ref| && r != t ==> SqDist(ref[t], x) < SqDist(ref[r], x)
    ensures idx[0] == t
  {
    FirstIsClosest(ref, x, k, idx);
  }

  /** The parameter rows, indices and distances of the neighbours found for each query row
      (`samples[i][j]` is the parameter row of the `j`-th neighbour of query row `i`). */
  datatype Neighbours = Neighbours(samples: seq<seq<Row>>, indices: seq<seq<nat>>,
                                   distances: seq<seq<real>>)

  /** A reference table: features and parameters with one row per simulation. */
  predicate IsReference(ref: seq<Row>, width: nat, params: seq<Row>) {
    Rectangular(ref, width) && |params| == |ref|
  }

  /** Neighbours of every query row: the spatial-index query for `k` neighbours of a
      `qwidth`-column query matrix, followed by the lookup of the parameter rows at the returned
      indices. Asking for more neighbours than there are reference rows makes the index pad its
      answer with the out-of-range index `|ref|`, so the lookup fails, unless there is no query
      row to look up. */
  function Query(ref: seq<Row>, width: nat, params: seq<Row>, queries: seq<Row>, qwidth: nat,
                 k: int): (r: Result<Neighbours>)
    requires IsReference(ref, width, params) && Rectangular(queries, qwidth)
    ensures k < 1 ==> r == Err(NumSamplesNotPositive)
    ensures k >= 1 && qwidth != width ==> r == Err(QueryWidthMismatch)
    ensures k >= 1 && qwidth == width && |queries| > 0 && k > |ref| ==>
              r == Err(TooFewReferenceRows)
    ensures r.Ok? <==> k >= 1 && qwidth == width && (|queries| == 0 || k <= |ref|)
    ensures r.Ok? ==> IsAnswer(ref, width, params, queries, k, r.value)
  {
    if k < 1 then Err(NumSamplesNotPositive)
    else if qwidth != width then Err(QueryWidthMismatch)
    else if |queries| > 0 && k > |ref| then Err(TooFewReferenceRows)
    else
      var indices := seq(|queries|, i requires 0 <= i < |queries| => Nearest(ref, queries[i], k));
      var n := Neighbours(
        seq(|queries|, i requires 0 <= i < |queries| =>
          seq(k, j requires 0 <= j < k => params[indices[i][j]])),
        indices,
        seq(|queries|, i requires 0 <= i < |queries| =>
          seq(k, j requires 0 <= j < k => SqDist(ref[indices[i][j]], queries[i]))));
      Ok(n)
  }

  /** `n` answers the query: one entry per query row, each the `k` nearest reference rows, with
      their parameter rows and distances. */
  predicate IsAnswer(ref: seq<Row>, width: nat, params: seq<Row>, queries: seq<Row>, k: int,
                     n: Neighbours)
    requires IsReference(ref, width, params) && Rectangular(queries, width)
  {
    && k >= 0
    && |n.samples| == |queries| && |n.indices| == |queries| && |n.distances| == |queries|
    && forall i :: 0 <= i < |queries| ==>
         && IsKNearest(ref, queries[i], k, n.indices[i])
         && |n.samples[i]| == k && |n.distances[i]| == k
         && (forall j :: 0 <= j < k ==>
               n.samples[i][j] == params[n.indices[i][j]] &&
               n.distances[i][j] == SqDist(ref[n.indices[i][j]], queries[i]))
  }

  /** Exact self-match: when a query row equals some reference row, the first neighbour
      returned is at distance zero and its features equal the query (it is that row or an
      identical duplicate of it). */
  lemma SelfMatch(ref: seq<Row>, x: Row, k: nat, idx: seq<nat>, t: nat)
    requires Rectangular(ref, |x|) && IsKNearest(ref, x, k, idx)
    requires k >= 1 && t < |ref| && ref[t] == x
    ensures SqDist(ref[idx[0]], x) == 0.0 && ref[idx[0]] == x
  {
    SqDistZero(x, x);
    if t in idx {
      var j :| 0 <= j < k && idx[j] == t;
      if j > 0 {
        assert SqDist(ref[idx[0]], x) <= SqDist(ref[idx[j]], x);
      }
    } else {
      if k > 1 {
        assert SqDist(ref[idx[0]], x) <= SqDist(ref[idx[k - 1]], x);
      }
    }
    SqDistZero(ref[idx[0]], x);
  }
}
