/** The reference definition of the subset search's per-observation "keep best" fold: the smallest
    loss over all masks evaluated so far, and the first mask (in evaluation order) attaining it. */
module BestSoFar {

  /** Smallest value of a non-empty sequence of losses. */
  function MinOf(s: seq<real>): (m: real)
    requires |s| > 0
    ensures m in s
    ensures forall j :: 0 <= j < |s| ==> m <= s[j]
  {
    if |s| == 1 then s[0]
    else
      var rest := MinOf(s[1..]);
      if s[0] <= rest then s[0] else rest
  }

  /** Position of the first occurrence of `v` in `s`. */
  function FirstIndexOf(s: seq<real>, v: real): (j: nat)
    requires v in s
    ensures j < |s| && s[j] == v
    ensures forall l :: 0 <= l < j ==> s[l] != v
  {
    if s[0] == v then 0 else 1 + FirstIndexOf(s[1..], v)
  }

  /** Index of the first smallest value: every value is at least as large as it, and every
      value before it is strictly larger. */
  function FirstArgMin(s: seq<real>): (b: nat)
    requires |s| > 0
    ensures b < |s|
    ensures forall j :: 0 <= j < |s| ==> s[b] <= s[j]
    ensures forall j :: 0 <= j < b ==> s[b] < s[j]
  {
    FirstIndexOf(s, MinOf(s))
  }

  /** The two properties of `FirstArgMin` determine it: no other index has both. */
  lemma FirstArgMinUnique(s: seq<real>, b: nat)
    requires b < |s|
    requires forall j :: 0 <= j < |s| ==> s[b] <= s[j]
    requires forall j :: 0 <= j < b ==> s[b] < s[j]
    ensures b == FirstArgMin(s)
  {
  }

  /** Extending the losses by one value keeps the running minimum unless the new value is
      strictly smaller. */
  lemma MinOfExtend(s: seq<real>, x: real)
    requires |s| > 0
    ensures MinOf(s + [x]) == if x < MinOf(s) then x else MinOf(s)
  {
    var t := s + [x];
    var m := MinOf(t);
    assert t[|s|] == x;
    assert forall j :: 0 <= j < |s| ==> t[j] == s[j];
    var w :| 0 <= w < |t| && t[w] == m;
    if w < |s| {
      assert MinOf(s) <= m;
    }
  }

  /** The strict keep-best update: the first minimiser changes to the new position exactly when
      the new value is strictly below the current minimum; on a tie the earlier one is kept. */
  lemma FirstArgMinExtend(s: seq<real>, x: real)
    requires |s| > 0
    ensures FirstArgMin(s + [x]) == if x < MinOf(s) then |s| else FirstArgMin(s)
  {
    var t := s + [x];
    assert forall j :: 0 <= j < |s| ==> t[j] == s[j];
    assert t[|s|] == x;
    MinOfExtend(s, x);
    var b := FirstArgMin(s);
    assert s[b] == MinOf(s) by {
      assert MinOf(s) in s;
    }
    if x < MinOf(s) {
      FirstArgMinUnique(t, |s|);
    } else {
      FirstArgMinUnique(t, b);
    }
  }

  /** Column `i` of a list of per-observation loss vectors: the losses of observation `i`
      under each mask, in evaluation order. */
  function Column(losses: seq<seq<real>>, i: nat): (c: seq<real>)
    requires forall m :: 0 <= m < |losses| ==> i < |losses[m]|
    ensures |c| == |losses|
    ensures forall m :: 0 <= m < |losses| ==> c[m] == losses[m][i]
  {
    seq(|losses|, m requires 0 <= m < |losses| => losses[m][i])
  }

  lemma ColumnExtend(losses: seq<seq<real>>, loss: seq<real>, i: nat)
    requires forall m :: 0 <= m < |losses| ==> i < |losses[m]|
    requires i < |loss|
    ensures Column(losses + [loss], i) == Column(losses, i) + [loss[i]]
  {
    var t := losses + [loss];
    assert forall m :: 0 <= m < |losses| ==> t[m] == losses[m];
  }
}
