/**
 * A node's samples: the feature matrix `X` (one row per sample) with the
 * parallel label vector `y`, the column view used by the split search,
 * sorting a column (`np.argsort`) and partitioning rows by a threshold
 * (the boolean mask `X[:, idx] < thr`).
 */
module Samples {
  import opened Histogram

  /** Every row has `n` feature values. */
  predicate IsMatrix(X: seq<seq<real>>, n: nat) {
    forall j :: 0 <= j < |X| ==> |X[j]| == n
  }

  /** The samples reaching a node: `n` features per row, labels below `k`. */
  predicate Shaped(X: seq<seq<real>>, y: seq<nat>, n: nat, k: nat) {
    |X| == |y| && IsMatrix(X, n) && LabelsBelow(y, k)
  }

  /** One sample seen through a single feature: its value there and its label. */
  datatype Point = Point(value: real, classId: nat)

  /**
   * Feature column `f` of `X` (`X[:, f]`), each value paired with its
   * sample's label: one point per sample, in sample order, carrying `y`.
   */
  function Column(X: seq<seq<real>>, y: seq<nat>, f: nat): (ps: seq<Point>)
    requires |X| == |y|
    requires forall j :: 0 <= j < |X| ==> f < |X[j]|
    ensures |ps| == |X| && Labels(ps) == y
    ensures forall j :: 0 <= j < |X| ==> ps[j].value == X[j][f]
  {
    seq(|X|, j requires 0 <= j < |X| => Point(X[j][f], y[j]))
  }

  function Labels(ps: seq<Point>): seq<nat> {
    seq(|ps|, j requires 0 <= j < |ps| => ps[j].classId)
  }

  predicate SortedByValue(ps: seq<Point>) {
    forall i, j :: 0 <= i <= j < |ps| ==> ps[i].value <= ps[j].value
  }

  /** Inserts `p` into sorted `s`, before the first point whose value is not below it. */
  function Insert(p: Point, s: seq<Point>): (r: seq<Point>)
    requires SortedByValue(s)
    ensures SortedByValue(r)
    ensures multiset(r) == multiset(s) + multiset{p}
    ensures |r| == |s| + 1 && (r[0] == p || (|s| > 0 && r[0] == s[0]))
  {
    if |s| == 0 then [p]
    else if p.value <= s[0].value then ConsSorted(p, s); [p] + s
    else
      assert s == [s[0]] + s[1..];
      var r' := Insert(p, s[1..]);
      assert s[0].value <= r'[0].value;
      ConsSorted(s[0], r');
      [s[0]] + r'
  }

  /** A point no greater than the head of a sorted sequence can go in front of it. */
  lemma ConsSorted(q: Point, r: seq<Point>)
    requires SortedByValue(r) && (|r| == 0 || q.value <= r[0].value)
    ensures SortedByValue([q] + r)
  {
    forall i, j | 0 <= i <= j < |[q] + r|
      ensures ([q] + r)[i].value <= ([q] + r)[j].value
    {
      if i == 0 && j > 0 {
        assert r[0].value <= r[j - 1].value;
      }
    }
  }

  /**
   * `np.argsort` of a column followed by the gather `X[sorted_indices]`,
   * `y[sorted_indices]`: some reordering of the points by non-decreasing
   * value. How ties are ordered is left open by the source and does not
   * affect the split search.
   */
  function SortByValue(ps: seq<Point>): (r: seq<Point>)
    ensures SortedByValue(r)
    ensures multiset(r) == multiset(ps)
  {
    if |ps| == 0 then []
    else
      assert ps == [ps[0]] + ps[1..];
      Insert(ps[0], SortByValue(ps[1..]))
  }

  // ---------------------------------------------------------------------
  // Keeping the points on one side of a threshold

  datatype Side = Below(t: real) | AtLeast(t: real)

  predicate OnSide(p: Point, side: Side) {
    match side
    case Below(t) => p.value < t
    case AtLeast(t) => !(p.value < t)
  }

  /** The points on one side of a threshold, in their original order. */
  function Keep(ps: seq<Point>, side: Side): seq<Point> {
    if |ps| == 0 then []
    else (if OnSide(ps[0], side) then [ps[0]] else []) + Keep(ps[1..], side)
  }

  /** Keeping one side keeps each point on that side as often as in `ps`, and no other point. */
  lemma {:induction false} KeepCount(ps: seq<Point>, side: Side, p: Point)
    ensures multiset(Keep(ps, side))[p] == if OnSide(p, side) then multiset(ps)[p] else 0
  {
    if |ps| > 0 {
      assert ps == [ps[0]] + ps[1..];
      KeepCount(ps[1..], side, p);
    }
  }

  /** Filtering commutes with reordering. */
  lemma KeepPerm(a: seq<Point>, b: seq<Point>, side: Side)
    requires multiset(a) == multiset(b)
    ensures multiset(Keep(a, side)) == multiset(Keep(b, side))
  {
    forall p ensures multiset(Keep(a, side))[p] == multiset(Keep(b, side))[p] {
      KeepCount(a, side, p);
      KeepCount(b, side, p);
    }
  }

  lemma LabelsConcat(a: seq<Point>, b: seq<Point>)
    ensures Labels(a + b) == Labels(a) + Labels(b)
  {
  }

  /** Taking the point at `j` out of `b` takes it, and its label, out of the multisets. */
  lemma RemoveAt(b: seq<Point>, j: nat)
    requires j < |b|
    ensures multiset(b) == multiset(b[..j] + b[j + 1..]) + multiset{b[j]}
    ensures multiset(Labels(b)) == multiset(Labels(b[..j] + b[j + 1..])) + multiset{b[j].classId}
  {
    assert b == b[..j] + [b[j]] + b[j + 1..];
    LabelsConcat(b[..j] + [b[j]], b[j + 1..]);
    LabelsConcat(b[..j], [b[j]]);
    LabelsConcat(b[..j], b[j + 1..]);
  }

  /** Taking matching points out of two permutations of each other leaves permutations. */
  lemma RemoveMatching(a: seq<Point>, b: seq<Point>, j: nat)
    requires |a| > 0 && j < |b| && b[j] == a[0] && multiset(a) == multiset(b)
    ensures multiset(a[1..]) == multiset(b[..j] + b[j + 1..])
  {
    RemoveAt(b, j);
    assert a == [a[0]] + a[1..];
    var b' := b[..j] + b[j + 1..];
    forall q ensures multiset(a[1..])[q] == multiset(b')[q] {
      assert multiset(a)[q] == multiset(b)[q];
    }
  }

  /** Reordering points reorders their labels. */
  lemma {:induction false} LabelsPerm(a: seq<Point>, b: seq<Point>)
    requires multiset(a) == multiset(b)
    ensures multiset(Labels(a)) == multiset(Labels(b))
    decreases |a|
  {
    if |a| == 0 {
      assert |b| == |multiset(b)| == 0;
    } else {
      assert a[0] in multiset(b);
      var j :| 0 <= j < |b| && b[j] == a[0];
      var b' := b[..j] + b[j + 1..];
      RemoveMatching(a, b, j);
      LabelsPerm(a[1..], b');
      RemoveAt(b, j);
      assert a == [a[0]] + a[1..];
      LabelsConcat([a[0]], a[1..]);
    }
  }

  /** Labels of the points lie below `k` exactly when each point's does. */
  lemma LabelsBelowPoints(ps: seq<Point>, k: nat)
    ensures LabelsBelow(Labels(ps), k) <==> forall j :: 0 <= j < |ps| ==> ps[j].classId < k
  {
    assert forall j :: 0 <= j < |ps| ==> Labels(ps)[j] == ps[j].classId;
  }

  /** In a sorted sequence the points below a threshold form a prefix. */
  lemma {:induction false} SortedKeep(s: seq<Point>, t: real, i: nat)
    requires SortedByValue(s) && i <= |s|
    requires i > 0 ==> s[i - 1].value < t
    requires i < |s| ==> t <= s[i].value
    ensures Keep(s, Below(t)) == s[..i]
    ensures Keep(s, AtLeast(t)) == s[i..]
  {
    if |s| > 0 {
      SortedKeep(s[1..], t, if i == 0 then 0 else i - 1);
      if i > 0 {
        assert s[0].value <= s[i - 1].value;
        assert s[..i] == [s[0]] + s[1..][..i - 1];
      } else {
        assert s[0].value >= t;
      }
    }
  }

  /** Every threshold cuts a sorted sequence at some position. */
  lemma {:induction false} SortedCut(s: seq<Point>, t: real) returns (i: nat)
    requires SortedByValue(s)
    ensures i <= |s| && i == |Keep(s, Below(t))|
    ensures i > 0 ==> s[i - 1].value < t
    ensures i < |s| ==> t <= s[i].value
  {
    if |s| == 0 {
      i := 0;
    } else if s[0].value < t {
      var i' := SortedCut(s[1..], t);
      i := i' + 1;
      if i < |s| {
        assert s[i] == s[1..][i'];
      }
      if i' > 0 {
        assert s[i - 1] == s[1..][i' - 1];
      }
    } else {
      i := 0;
      SortedKeep(s, t, 0);
    }
  }

  // ---------------------------------------------------------------------
  // Partitioning rows by a threshold on one feature

  datatype Partition = Partition(xl: seq<seq<real>>, yl: seq<nat>, xr: seq<seq<real>>, yr: seq<nat>)

  /**
   * `X[indices_left]`, `y[indices_left]`, `X[~indices_left]`,
   * `y[~indices_left]` for `indices_left = X[:, f] < t`.
   */
  function SplitRows(X: seq<seq<real>>, y: seq<nat>, f: nat, t: real): (p: Partition)
    requires |X| == |y|
    requires forall j :: 0 <= j < |X| ==> f < |X[j]|
    ensures |p.xl| == |p.yl| && |p.xr| == |p.yr|
  {
    if |X| == 0 then Partition([], [], [], [])
    else
      var rest := SplitRows(X[1..], y[1..], f, t);
      if X[0][f] < t then Partition([X[0]] + rest.xl, [y[0]] + rest.yl, rest.xr, rest.yr)
      else Partition(rest.xl, rest.yl, [X[0]] + rest.xr, [y[0]] + rest.yr)
  }

  /**
   * Every sample goes to exactly one side: the two label vectors together
   * hold exactly the node's labels, and each row routed left (right) has
   * its feature value below (at or above) the threshold.
   */
  lemma SplitRowsPartition(X: seq<seq<real>>, y: seq<nat>, f: nat, t: real)
    requires |X| == |y|
    requires forall j :: 0 <= j < |X| ==> f < |X[j]|
    ensures var p := SplitRows(X, y, f, t);
      && multiset(p.yl) + multiset(p.yr) == multiset(y)
      && (forall j :: 0 <= j < |p.xl| ==> p.xl[j] in X && p.xl[j][f] < t)
      && (forall j :: 0 <= j < |p.xr| ==> p.xr[j] in X && !(p.xr[j][f] < t))
  {
    SplitRowsLabelsMultiset(X, y, f, t);
    SplitRowsLeft(X, y, f, t);
    SplitRowsRight(X, y, f, t);
  }

  lemma {:induction false} SplitRowsLabelsMultiset(X: seq<seq<real>>, y: seq<nat>, f: nat, t: real)
    requires |X| == |y|
    requires forall j :: 0 <= j < |X| ==> f < |X[j]|
    ensures multiset(SplitRows(X, y, f, t).yl) + multiset(SplitRows(X, y, f, t).yr) == multiset(y)
  {
    if |X| > 0 {
      SplitRowsLabelsMultiset(X[1..], y[1..], f, t);
      assert y == [y[0]] + y[1..];
    }
  }

  lemma SplitRowsLeft(X: seq<seq<real>>, y: seq<nat>, f: nat, t: real)
    requires |X| == |y|
    requires forall j :: 0 <= j < |X| ==> f < |X[j]|
    ensures var xl := SplitRows(X, y, f, t).xl;
      forall j :: 0 <= j < |xl| ==> xl[j] in X && xl[j][f] < t
  {
    var xl := SplitRows(X, y, f, t).xl;
    forall j | 0 <= j < |xl|
      ensures xl[j] in X && xl[j][f] < t
    {
      var i := LeftOrigin(X, y, f, t, j);
    }
  }

  lemma SplitRowsRight(X: seq<seq<real>>, y: seq<nat>, f: nat, t: real)
    requires |X| == |y|
    requires forall j :: 0 <= j < |X| ==> f < |X[j]|
    ensures var xr := SplitRows(X, y, f, t).xr;
      forall j :: 0 <= j < |xr| ==> xr[j] in X && !(xr[j][f] < t)
  {
    var xr := SplitRows(X, y, f, t).xr;
    forall j | 0 <= j < |xr|
      ensures xr[j] in X && !(xr[j][f] < t)
    {
      var i := RightOrigin(X, y, f, t, j);
    }
  }

  /** Row `j` of the left side is row `i` of `X`, whose value is below the threshold. */
  lemma {:induction false} LeftOrigin(X: seq<seq<real>>, y: seq<nat>, f: nat, t: real, j: nat) returns (i: nat)
    requires |X| == |y|
    requires forall r :: 0 <= r < |X| ==> f < |X[r]|
    requires j < |SplitRows(X, y, f, t).xl|
    ensures i < |X| && SplitRows(X, y, f, t).xl[j] == X[i] && X[i][f] < t
  {
    if X[0][f] < t && j == 0 {
      i := 0;
    } else {
      var i' := LeftOrigin(X[1..], y[1..], f, t, if X[0][f] < t then j - 1 else j);
      i := i' + 1;
    }
  }

  /** Row `j` of the right side is row `i` of `X`, whose value is not below the threshold. */
  lemma {:induction false} RightOrigin(X: seq<seq<real>>, y: seq<nat>, f: nat, t: real, j: nat) returns (i: nat)
    requires |X| == |y|
    requires forall r :: 0 <= r < |X| ==> f < |X[r]|
    requires j < |SplitRows(X, y, f, t).xr|
    ensures i < |X| && SplitRows(X, y, f, t).xr[j] == X[i] && !(X[i][f] < t)
  {
    if !(X[0][f] < t) && j == 0 {
      i := 0;
    } else {
      var i' := RightOrigin(X[1..], y[1..], f, t, if X[0][f] < t then j else j - 1);
      i := i' + 1;
    }
  }

  /** The partition's label vectors are the labels of the column kept on each side. */
  lemma {:induction false} SplitRowsLabels(X: seq<seq<real>>, y: seq<nat>, f: nat, t: real)
    requires |X| == |y|
    requires forall j :: 0 <= j < |X| ==> f < |X[j]|
    ensures SplitRows(X, y, f, t).yl == Labels(Keep(Column(X, y, f), Below(t)))
    ensures SplitRows(X, y, f, t).yr == Labels(Keep(Column(X, y, f), AtLeast(t)))
  {
    if |X| > 0 {
      SplitRowsLabels(X[1..], y[1..], f, t);
      var c := Column(X, y, f);
      assert c[1..] == Column(X[1..], y[1..], f);
      LabelsConcat(if OnSide(c[0], Below(t)) then [c[0]] else [], Keep(c[1..], Below(t)));
      LabelsConcat(if OnSide(c[0], AtLeast(t)) then [c[0]] else [], Keep(c[1..], AtLeast(t)));
    }
  }

  /**
   * Sample `j` is routed, with its label, to the side its feature value
   * selects, at position `j'` of that side.
   */
  lemma {:induction false} SplitRowsRoute(X: seq<seq<real>>, y: seq<nat>, f: nat, t: real, j: nat) returns (j': nat)
    requires |X| == |y| && j < |X|
    requires forall r :: 0 <= r < |X| ==> f < |X[r]|
    ensures var p := SplitRows(X, y, f, t);
      if X[j][f] < t then j' < |p.xl| && p.xl[j'] == X[j] && p.yl[j'] == y[j]
      else j' < |p.xr| && p.xr[j'] == X[j] && p.yr[j'] == y[j]
  {
    if j == 0 {
      j' := 0;
    } else {
      var j'' := SplitRowsRoute(X[1..], y[1..], f, t, j - 1);
      assert X[1..][j - 1] == X[j] && y[1..][j - 1] == y[j];
      if (X[0][f] < t) == (X[j][f] < t) {
        j' := j'' + 1;
      } else {
        j' := j'';
      }
    }
  }

  /** When all rows are identical, every sample goes to the same side. */
  lemma {:induction false} SplitRowsOneSide(X: seq<seq<real>>, y: seq<nat>, f: nat, t: real)
    requires |X| == |y|
    requires forall r :: 0 <= r < |X| ==> f < |X[r]|
    requires forall i, j :: 0 <= i < |X| && 0 <= j < |X| ==> X[i] == X[j]
    ensures var p := SplitRows(X, y, f, t);
      if |X| > 0 && X[0][f] < t then |p.yr| == 0 else |p.yl| == 0
  {
    if |X| > 1 {
      assert X[1..][0] == X[0];
      SplitRowsOneSide(X[1..], y[1..], f, t);
    }
  }

  /** Rows routed by the split keep the matrix shape and the label range. */
  lemma SplitRowsShape(X: seq<seq<real>>, y: seq<nat>, n: nat, k: nat, f: nat, t: real)
    requires |X| == |y| && IsMatrix(X, n) && f < n && LabelsBelow(y, k)
    ensures var p := SplitRows(X, y, f, t);
      IsMatrix(p.xl, n) && IsMatrix(p.xr, n) && LabelsBelow(p.yl, k) && LabelsBelow(p.yr, k)
  {
    SplitRowsPartition(X, y, f, t);
    var p := SplitRows(X, y, f, t);
    forall j | 0 <= j < |p.yl| ensures p.yl[j] < k {
      assert p.yl[j] in multiset(y);
    }
    forall j | 0 <= j < |p.yr| ensures p.yr[j] < k {
      assert p.yr[j] in multiset(y);
    }
  }
}
