/** Feature masks: the enumeration of every non-empty boolean mask over `p` feature columns, in
    the order `itertools.product((False, True), repeat=p)` yields them, and the selection of the
    columns a mask keeps. */
module FeatureMasks {
  import opened NdArrays

  /** A boolean selector over the feature columns. */
  type Mask = seq<bool>

  function Pow2(p: nat): (r: nat)
    ensures r >= 1
  {
    if p == 0 then 1 else 2 * Pow2(p - 1)
  }

  /** The mask keeps at least one column (Python's `any(mask)`). */
  predicate Any(m: Mask) {
    true in m
  }

  function AllFalse(p: nat): (m: Mask)
    ensures |m| == p && !Any(m)
  {
    seq(p, _ => false)
  }

  function AllTrue(p: nat): (m: Mask)
    ensures |m| == p && false !in m
  {
    seq(p, _ => true)
  }

  /** Strict lexicographic order on masks of one length, `False` before `True`. */
  predicate LexLess(a: Mask, b: Mask) {
    |a| == |b| && |a| > 0 &&
    ((!a[0] && b[0]) || (a[0] == b[0] && LexLess(a[1..], b[1..])))
  }

  predicate StrictlyIncreasing(ms: seq<Mask>) {
    forall i, j :: 0 <= i < j < |ms| ==> LexLess(ms[i], ms[j])
  }

  /** Prepends `b` to every mask of `ms`. */
  function Prefix(b: bool, ms: seq<Mask>): (r: seq<Mask>)
    ensures |r| == |ms|
    ensures forall i :: 0 <= i < |ms| ==> r[i] == [b] + ms[i]
  {
    seq(|ms|, i requires 0 <= i < |ms| => [b] + ms[i])
  }

  /** `itertools.product(*[(False, True)] * p)`: the first position varies slowest. */
  function Product(p: nat): (ms: seq<Mask>)
    ensures |ms| == Pow2(p)
    ensures forall i :: 0 <= i < |ms| ==> |ms[i]| == p
  {
    if p == 0 then [[]]
    else
      var prev := Product(p - 1);
      Prefix(false, prev) + Prefix(true, prev)
  }

  /** The comprehension's filter `if any(mask)`, keeping order. */
  function KeepNonEmpty(ms: seq<Mask>): (r: seq<Mask>)
    ensures forall m :: m in r ==> m in ms && Any(m)
  {
    if ms == [] then []
    else (if Any(ms[0]) then [ms[0]] else []) + KeepNonEmpty(ms[1..])
  }

  /** The candidate masks the subset search walks through, in order. */
  function Masks(p: nat): seq<Mask> {
    KeepNonEmpty(Product(p))
  }

  lemma {:induction false} ProductComplete(p: nat, m: Mask)
    ensures m in Product(p) <==> |m| == p
  {
    if m in Product(p) {
      var i :| 0 <= i < |Product(p)| && Product(p)[i] == m;
    } else if p > 0 && |m| == p {
      var prev := Product(p - 1);
      ProductComplete(p - 1, m[1..]);
      var k :| 0 <= k < |prev| && prev[k] == m[1..];
      PrefixMember(m, prev, k);
    }
  }

  /** A mask whose tail is among `prev` is among the next product's masks. */
  lemma PrefixMember(m: Mask, prev: seq<Mask>, k: nat)
    requires |m| > 0 && k < |prev| && prev[k] == m[1..]
    ensures m in Prefix(false, prev) + Prefix(true, prev)
  {
    var lo, hi := Prefix(false, prev), Prefix(true, prev);
    assert m == [m[0]] + m[1..];
    if m[0] {
      assert (lo + hi)[|lo| + k] == hi[k] == m;
    } else {
      assert (lo + hi)[k] == lo[k] == m;
    }
  }

  lemma {:induction false} ProductIncreasing(p: nat)
    ensures StrictlyIncreasing(Product(p))
  {
    if p > 0 {
      var prev := Product(p - 1);
      ProductIncreasing(p - 1);
      var ms := Product(p);
      var h := |prev|;
      forall i, j | 0 <= i < j < |ms| ensures LexLess(ms[i], ms[j]) {
        if j < h || h <= i {
          var i', j' := if j < h then i else i - h, if j < h then j else j - h;
          assert ms[i][1..] == prev[i'] && ms[j][1..] == prev[j'];
        }
      }
    }
  }

  lemma {:induction false} ProductEnds(p: nat)
    ensures Product(p)[0] == AllFalse(p)
    ensures Product(p)[|Product(p)| - 1] == AllTrue(p)
  {
    if p > 0 {
      ProductEnds(p - 1);
      assert [false] + AllFalse(p - 1) == AllFalse(p);
      assert [true] + AllTrue(p - 1) == AllTrue(p);
    }
  }

  lemma {:induction false} KeepNonEmptyAll(ms: seq<Mask>)
    requires forall i :: 0 <= i < |ms| ==> Any(ms[i])
    ensures KeepNonEmpty(ms) == ms
  {
    if ms != [] {
      KeepNonEmptyAll(ms[1..]);
    }
  }

  /** Only the all-False mask, which the product yields first, is dropped. */
  lemma MasksDropFirst(p: nat)
    ensures Masks(p) == Product(p)[1..]
  {
    var ms := Product(p);
    ProductEnds(p);
    ProductIncreasing(p);
    forall i | 1 <= i < |ms| ensures Any(ms[i]) {
      if !Any(ms[i]) {
        NoneIsAllFalse(ms[i]);
        LexLessIrreflexive(ms[0], ms[i]);
      }
    }
    KeepNonEmptyAll(ms[1..]);
    assert ms == [ms[0]] + ms[1..];
  }

  /** The enumeration has exactly `2^p - 1` masks, each of length `p` and non-empty. */
  lemma MasksCount(p: nat)
    ensures |Masks(p)| == Pow2(p) - 1
    ensures forall i :: 0 <= i < |Masks(p)| ==> |Masks(p)[i]| == p && Any(Masks(p)[i])
  {
    MasksDropFirst(p);
    forall i | 0 <= i < |Masks(p)| ensures |Masks(p)[i]| == p && Any(Masks(p)[i]) {
      assert Masks(p)[i] in Masks(p);
    }
  }

  /** The masks come in strictly increasing lexicographic order, so no mask occurs twice. */
  lemma MasksIncreasing(p: nat)
    ensures StrictlyIncreasing(Masks(p))
    ensures forall i, j :: 0 <= i < j < |Masks(p)| ==> Masks(p)[i] != Masks(p)[j]
  {
    MasksDropFirst(p);
    ProductIncreasing(p);
    var ms := Product(p);
    var r := Masks(p);
    forall i, j | 0 <= i < j < |r| ensures LexLess(r[i], r[j]) && r[i] != r[j] {
      assert r[i] == ms[i + 1] && r[j] == ms[j + 1];
      LexLessIrreflexive(r[i], r[j]);
    }
  }

  /** No non-empty mask of length `p` is omitted. */
  lemma MasksComplete(p: nat, m: Mask)
    requires |m| == p && Any(m)
    ensures m in Masks(p)
  {
    MasksDropFirst(p);
    ProductEnds(p);
    var ms := Product(p);
    ProductComplete(p, m);
    var k :| 0 <= k < |ms| && ms[k] == m;
    assert k != 0;
    assert Masks(p)[k - 1] == m;
  }

  /** With at least one feature, the all-True mask (the full feature set) is evaluated last. */
  lemma MasksEndWithAllTrue(p: nat)
    requires p >= 1
    ensures |Masks(p)| >= 1 && Masks(p)[|Masks(p)| - 1] == AllTrue(p)
  {
    MasksDropFirst(p);
    ProductEnds(p);
    assert Pow2(p) >= 2;
  }

  lemma NoneIsAllFalse(m: Mask)
    requires !Any(m)
    ensures m == AllFalse(|m|)
  {
    forall j | 0 <= j < |m| ensures m[j] == AllFalse(|m|)[j] {
      assert m[j] in m;
    }
  }

  lemma {:induction false} LexLessIrreflexive(a: Mask, b: Mask)
    requires LexLess(a, b)
    ensures a != b
  {
    if a == b {
      LexLessIrreflexive(a[1..], b[1..]);
    }
  }

  /** Number of columns a mask keeps. */
  function Count(m: Mask): nat {
    if m == [] then 0 else (if m[0] then 1 else 0) + Count(m[1..])
  }

  /** `row[mask]`: the entries of `row` at the positions the mask keeps, in column order. */
  function Select(row: Row, m: Mask): (r: Row)
    requires |row| == |m|
    ensures |r| == Count(m)
  {
    if row == [] then [] else (if m[0] then [row[0]] else []) + Select(row[1..], m[1..])
  }

  /** A kept column lands in the selection after exactly the kept columns before it: column `j`
      of `row` is entry `Count(m[..j])` of the selection, so kept entries stay in column order. */
  lemma {:induction false} SelectAt(row: Row, m: Mask, j: nat)
    requires |row| == |m| && j < |m| && m[j]
    ensures Count(m[..j]) < Count(m)
    ensures Select(row, m)[Count(m[..j])] == row[j]
  {
    if j == 0 {
      assert m[..0] == [];
    } else {
      SelectAt(row[1..], m[1..], j - 1);
      assert m[1..][..j - 1] == m[..j][1..];
      assert Count(m[..j]) == (if m[0] then 1 else 0) + Count(m[1..][..j - 1]);
    }
  }

  /** Only kept columns are selected: every entry of the selection is the entry of some kept
      column. */
  lemma {:induction false} SelectOnlyKept(row: Row, m: Mask, e: nat)
    requires |row| == |m| && e < Count(m)
    ensures exists j :: 0 <= j < |m| && m[j] && Count(m[..j]) == e && Select(row, m)[e] == row[j]
  {
    if m[0] && e == 0 {
      assert m[..0] == [];
    } else {
      var e' := if m[0] then e - 1 else e;
      SelectOnlyKept(row[1..], m[1..], e');
      var j :| 0 <= j < |m| - 1 && m[1..][j] && Count(m[1..][..j]) == e' &&
               Select(row[1..], m[1..])[e'] == row[1..][j];
      assert m[..j + 1][1..] == m[1..][..j];
      assert Count(m[..j + 1]) == (if m[0] then 1 else 0) + Count(m[1..][..j]);
    }
  }

  /** `rows[:, mask]`. */
  function SelectColumns(rows: seq<Row>, m: Mask): (r: seq<Row>)
    requires Rectangular(rows, |m|)
    ensures |r| == |rows| && Rectangular(r, Count(m))
    ensures forall i :: 0 <= i < |rows| ==> r[i] == Select(rows[i], m)
  {
    seq(|rows|, i requires 0 <= i < |rows| => Select(rows[i], m))
  }

  /** The all-True mask keeps every column unchanged. */
  lemma {:induction false} SelectAll(row: Row)
    ensures Select(row, AllTrue(|row|)) == row
  {
    if row != [] {
      assert AllTrue(|row|)[1..] == AllTrue(|row| - 1);
      SelectAll(row[1..]);
    }
  }

  /** Selection works column by column: selecting from a row equals selecting from any prefix
      and the matching suffix separately, keeping the kept entries in their original order. */
  lemma {:induction false} SelectSplit(row: Row, m: Mask, k: nat)
    requires |row| == |m| && k <= |m|
    ensures Select(row, m) == Select(row[..k], m[..k]) + Select(row[k..], m[k..])
  {
    if k > 0 {
      SelectSplit(row[1..], m[1..], k - 1);
      assert row[1..][..k - 1] == row[..k][1..];
      assert m[1..][..k - 1] == m[..k][1..];
      assert row[1..][k - 1..] == row[k..];
      assert m[1..][k - 1..] == m[k..];
    }
  }
}
