/**
 * `_best_split`: for every feature, sort the node's samples by that
 * feature, sweep the cut position from left to right while keeping the
 * class counts on either side, and keep the first cut whose weighted
 * impurity is strictly below the best seen so far (initially the node's
 * own impurity). Cuts between equal values are skipped; the threshold of
 * a kept cut is the midpoint of the two values it separates.
 */
module SplitSearch {
  import opened Wrappers
  import opened Histogram
  import opened Impurity
  import opened Samples

  /** A decision rule: samples with `x[feature] < threshold` go left. */
  datatype Split = Split(feature: nat, threshold: real)

  /** The incumbent of the search: its weighted impurity and its split, if any. */
  datatype Candidate = Candidate(gini: real, split: Option<Split>)

  /** Feature column `f` in sorted order (`X_sorted[:, f]` with `y_sorted`). */
  function SortedColumn(X: seq<seq<real>>, y: seq<nat>, n: nat, f: nat): (s: seq<Point>)
    requires |X| == |y| && IsMatrix(X, n) && f < n
    ensures |s| == |X|
  {
    var s := SortByValue(Column(X, y, f));
    assert |s| == |multiset(s)|;
    s
  }

  /** Impurity of the node itself, from its class histogram. */
  function ParentGini(y: seq<nat>, k: nat): real
    requires |y| > 0
  {
    GiniOfCounts(Hist(y, k), |y|)
  }

  /** `(i * gini_left + (m - i) * gini_right) / m` for sides of `i` and `j` samples. */
  function Weighted(i: nat, giniLeft: real, j: nat, giniRight: real, m: nat): real
    requires m > 0
  {
    (i as real * giniLeft + j as real * giniRight) / m as real
  }

  /** A weighted mean of two values lies between their bounds. */
  lemma WeightedBetween(i: nat, a: real, j: nat, b: real, m: nat, lo: real, hi: real)
    requires m > 0 && i + j == m && lo <= a <= hi && lo <= b <= hi
    ensures lo <= Weighted(i, a, j, b, m) <= hi
  {
    var ri, rj, rm := i as real, j as real, m as real;
    var w := ri * a + rj * b;
    assert Weighted(i, a, j, b, m) == w / rm;
    assert rm == ri + rj;
    assert w - rm * lo == ri * (a - lo) + rj * (b - lo);
    assert rm * hi - w == ri * (hi - a) + rj * (hi - b);
    ProductNonnegative(ri, a - lo);
    ProductNonnegative(rj, b - lo);
    ProductNonnegative(ri, hi - a);
    ProductNonnegative(rj, hi - b);
    DivideBetween(w, rm, lo, hi);
  }

  lemma DivideBetween(w: real, d: real, lo: real, hi: real)
    requires d > 0.0 && d * lo <= w <= d * hi
    ensures lo <= w / d <= hi
  {
    assert w / d - lo == (w - d * lo) / d;
    assert hi - w / d == (d * hi - w) / d;
  }

  /**
   * Weighted impurity of cutting the sorted points before position `i`
   * (`gini` at the sweep's step `i`): for labels below `k` it lies between
   * 0 and `1 - 1/k`.
   */
  function CutGini(s: seq<Point>, i: nat, k: nat): (g: real)
    requires 0 < i < |s|
    ensures (forall j :: 0 <= j < |s| ==> s[j].classId < k) ==> k > 0 && 0.0 <= g <= 1.0 - 1.0 / k as real
  {
    var m := |s|;
    var giniLeft := GiniOfCounts(Hist(Labels(s[..i]), k), i);
    var giniRight := GiniOfCounts(Hist(Labels(s[i..]), k), m - i);
    CutRange(s, i, k);
    Weighted(i, giniLeft, m - i, giniRight, m)
  }

  lemma CutRange(s: seq<Point>, i: nat, k: nat)
    requires 0 < i < |s|
    ensures var m := |s|;
      (forall j :: 0 <= j < |s| ==> s[j].classId < k) ==>
        && k > 0
        && var g := Weighted(i, GiniOfCounts(Hist(Labels(s[..i]), k), i), m - i, GiniOfCounts(Hist(Labels(s[i..]), k), m - i), m);
           0.0 <= g <= 1.0 - 1.0 / k as real
  {
    if forall j :: 0 <= j < |s| ==> s[j].classId < k {
      var m := |s|;
      assert s[0].classId < k;
      CutCounts(s, i, k);
      GiniOfCountsRange(Hist(Labels(s[..i]), k), i);
      GiniOfCountsRange(Hist(Labels(s[i..]), k), m - i);
      WeightedBetween(i, GiniOfCounts(Hist(Labels(s[..i]), k), i), m - i, GiniOfCounts(Hist(Labels(s[i..]), k), m - i),
                      m, 0.0, 1.0 - 1.0 / k as real);
    }
  }

  /** A cut that separates two distinct values. */
  predicate IsCut(s: seq<Point>, i: nat) {
    0 < i < |s| && s[i - 1].value != s[i].value
  }

  function Midpoint(s: seq<Point>, i: nat): real
    requires 0 < i < |s|
  {
    (s[i].value + s[i - 1].value) / 2.0
  }

  /** The midpoint of a cut of a sorted column lies strictly between the two values it separates. */
  lemma MidpointBetween(s: seq<Point>, i: nat)
    requires SortedByValue(s) && IsCut(s, i)
    ensures s[i - 1].value < Midpoint(s, i) < s[i].value
  {
    assert s[i - 1].value <= s[i].value;
  }

  /**
   * The incumbent after considering the cut before position `i` of feature
   * `f`: never worse than `best`, no worse than that cut when it separates
   * distinct values, and different from `best` only when it is that cut,
   * strictly better.
   */
  function CutStep(s: seq<Point>, f: nat, k: nat, best: Candidate, i: nat): (r: Candidate)
    requires 0 < i < |s|
    ensures r.gini <= best.gini
    ensures IsCut(s, i) ==> r.gini <= CutGini(s, i, k)
    ensures r != best ==>
      IsCut(s, i) && r.gini < best.gini && r == Candidate(CutGini(s, i, k), Some(Split(f, Midpoint(s, i))))
  {
    if !IsCut(s, i) then best
    else
      var g := CutGini(s, i, k);
      if g < best.gini then Candidate(g, Some(Split(f, Midpoint(s, i)))) else best
  }

  /**
   * The incumbent after the cuts before positions `1 .. i-1`: never worse
   * than `best`, no worse than any of those cuts between distinct values,
   * and either `best` or a split on feature `f`.
   */
  function SweepCuts(s: seq<Point>, f: nat, k: nat, best: Candidate, i: nat): (r: Candidate)
    requires 1 <= i <= |s|
    ensures r.gini <= best.gini
    ensures forall j :: 1 <= j < i && IsCut(s, j) ==> r.gini <= CutGini(s, j, k)
    ensures r == best || (r.split.Some? && r.split.value.feature == f)
  {
    if i == 1 then best else CutStep(s, f, k, SweepCuts(s, f, k, best, i - 1), i - 1)
  }

  /**
   * The class counts either side of a cut before position `i`: the left
   * ones sum to `i`, the right ones to `|s| - i`, and together they are the
   * counts of the whole column, class by class.
   */
  lemma CutCounts(s: seq<Point>, i: nat, k: nat)
    requires i <= |s| && forall j :: 0 <= j < |s| ==> s[j].classId < k
    ensures Sum(Hist(Labels(s[..i]), k)) == i
    ensures Sum(Hist(Labels(s[i..]), k)) == |s| - i
    ensures Add(Hist(Labels(s[..i]), k), Hist(Labels(s[i..]), k)) == Hist(Labels(s), k)
  {
    LabelsBelowPoints(s[..i], k);
    LabelsBelowPoints(s[i..], k);
    HistSum(Labels(s[..i]), k);
    HistSum(Labels(s[i..]), k);
    assert s == s[..i] + s[i..];
    LabelsConcat(s[..i], s[i..]);
    HistOfUnion(Labels(s[..i]), Labels(s[i..]), Labels(s), k);
  }

  /** Every column holds `m` points. */
  predicate AllOfLength(cols: seq<seq<Point>>, m: nat) {
    forall g :: 0 <= g < |cols| ==> |cols[g]| == m
  }

  /** The sorted columns of all `n` features, in feature order. */
  function SortedColumns(X: seq<seq<real>>, y: seq<nat>, n: nat): (cols: seq<seq<Point>>)
    requires |X| == |y| && IsMatrix(X, n)
    ensures |cols| == n && AllOfLength(cols, |X|)
    ensures forall g :: 0 <= g < n ==> cols[g] == SortedColumn(X, y, n, g)
  {
    seq(n, g requires 0 <= g < n => SortedColumn(X, y, n, g))
  }

  /**
   * The incumbent after sweeping the sorted columns of features
   * `0 .. f-1`: never worse than `best`, no worse than any cut between
   * distinct values of any swept column, and either `best` or a split on a
   * swept feature.
   */
  function SweepFeatures(cols: seq<seq<Point>>, m: nat, k: nat, best: Candidate, f: nat): (r: Candidate)
    requires AllOfLength(cols, m) && m > 0 && f <= |cols|
    ensures r.gini <= best.gini
    ensures forall g, j :: 0 <= g < f && IsCut(cols[g], j) ==> r.gini <= CutGini(cols[g], j, k)
    ensures r == best || (r.split.Some? && r.split.value.feature < f)
  {
    if f == 0 then best
    else SweepCuts(cols[f - 1], f - 1, k, SweepFeatures(cols, m, k, best, f - 1), m)
  }

  /**
   * The split `_best_split` returns, as a function of the node's samples:
   * none for at most one sample, and otherwise, if any, one on a feature
   * below `n`.
   */
  function BestSplitOf(X: seq<seq<real>>, y: seq<nat>, n: nat, k: nat): (r: Option<Split>)
    requires |X| == |y| && IsMatrix(X, n)
    ensures r.Some? ==> |y| > 1 && r.value.feature < n
  {
    if |y| <= 1 then None
    else SweepFeatures(SortedColumns(X, y, n), |y|, k, Candidate(ParentGini(y, k), None), n).split
  }

  // ---------------------------------------------------------------------
  // The impurity of an actual partition

  /** The weighted Gini impurity of the two sides of a split, by `gini_index`. */
  function WeightedGini(X: seq<seq<real>>, y: seq<nat>, n: nat, s: Split): real
    requires |X| == |y| > 0 && IsMatrix(X, n) && s.feature < n
  {
    var p := SplitRows(X, y, s.feature, s.threshold);
    Weighted(|p.yl|, GiniIndex(p.yl), |p.yr|, GiniIndex(p.yr), |y|)
  }

  /** Both sides of the split receive at least one sample. */
  predicate Proper(X: seq<seq<real>>, y: seq<nat>, n: nat, s: Split)
    requires |X| == |y| && IsMatrix(X, n) && s.feature < n
  {
    var p := SplitRows(X, y, s.feature, s.threshold);
    |p.yl| > 0 && |p.yr| > 0
  }

  /** Some cut before position `i` of the sorted points `sc` has midpoint `t`. */
  predicate MidpointBefore(sc: seq<Point>, t: real, i: nat)
    requires i <= |sc|
  {
    i > 1 && ((IsCut(sc, i - 1) && t == Midpoint(sc, i - 1)) || MidpointBefore(sc, t, i - 1))
  }

  /** The threshold is the midpoint of two adjacent distinct sorted values. */
  predicate MidpointCut(X: seq<seq<real>>, y: seq<nat>, n: nat, s: Split)
    requires |X| == |y| && IsMatrix(X, n) && s.feature < n
  {
    MidpointBefore(SortedColumn(X, y, n, s.feature), s.threshold, |X|)
  }

  lemma {:induction false} MidpointBeforeIntro(sc: seq<Point>, t: real, c: nat, i: nat)
    requires IsCut(sc, c) && t == Midpoint(sc, c) && c < i <= |sc|
    ensures MidpointBefore(sc, t, i)
  {
    if c < i - 1 {
      MidpointBeforeIntro(sc, t, c, i - 1);
    }
  }

  lemma {:induction false} MidpointBeforeWitness(sc: seq<Point>, t: real, i: nat) returns (c: nat)
    requires i <= |sc| && MidpointBefore(sc, t, i)
    ensures IsCut(sc, c) && t == Midpoint(sc, c) && c < i
  {
    if IsCut(sc, i - 1) && t == Midpoint(sc, i - 1) {
      c := i - 1;
    } else {
      c := MidpointBeforeWitness(sc, t, i - 1);
    }
  }

  lemma SortedColumnLabels(X: seq<seq<real>>, y: seq<nat>, n: nat, k: nat, f: nat)
    requires Shaped(X, y, n, k) && f < n
    ensures multiset(Labels(SortedColumn(X, y, n, f))) == multiset(y)
    ensures forall j :: 0 <= j < |X| ==> SortedColumn(X, y, n, f)[j].classId < k
  {
    var c, s := Column(X, y, f), SortedColumn(X, y, n, f);
    LabelsPerm(s, c);
    forall j | 0 <= j < |s| ensures s[j].classId < k {
      assert Labels(s)[j] in multiset(y);
    }
  }

  /** The two sides of a cut of the sorted column hold the labels of the two sides of the row split. */
  lemma CutSides(X: seq<seq<real>>, y: seq<nat>, n: nat, f: nat, i: nat, t: real)
    requires |X| == |y| && IsMatrix(X, n) && f < n
    requires 0 < i < |X|
    requires SortedColumn(X, y, n, f)[i - 1].value < t <= SortedColumn(X, y, n, f)[i].value
    ensures multiset(Labels(SortedColumn(X, y, n, f)[..i])) == multiset(SplitRows(X, y, f, t).yl)
    ensures multiset(Labels(SortedColumn(X, y, n, f)[i..])) == multiset(SplitRows(X, y, f, t).yr)
  {
    var c, s := Column(X, y, f), SortedColumn(X, y, n, f);
    SortedKeep(s, t, i);
    KeepPerm(s, c, Below(t));
    KeepPerm(s, c, AtLeast(t));
    LabelsPerm(s[..i], Keep(c, Below(t)));
    LabelsPerm(s[i..], Keep(c, AtLeast(t)));
    SplitRowsLabels(X, y, f, t);
  }

  /**
   * A cut of the sorted column at position `i`, by any threshold between
   * the values either side of it, is the split of the rows by that
   * threshold: both sides are non-empty and the sweep's impurity formula
   * on the running counts equals the weighted `gini_index` of the two sides.
   */
  lemma CutIsSplit(X: seq<seq<real>>, y: seq<nat>, n: nat, k: nat, f: nat, i: nat, t: real)
    requires Shaped(X, y, n, k) && f < n
    requires 0 < i < |X|
    requires SortedColumn(X, y, n, f)[i - 1].value < t <= SortedColumn(X, y, n, f)[i].value
    ensures Proper(X, y, n, Split(f, t))
    ensures CutGini(SortedColumn(X, y, n, f), i, k) == WeightedGini(X, y, n, Split(f, t))
  {
    var s := SortedColumn(X, y, n, f);
    var p := SplitRows(X, y, f, t);
    CutSides(X, y, n, f, i, t);
    SplitRowsShape(X, y, n, k, f, t);
    var left, right := Labels(s[..i]), Labels(s[i..]);
    assert |p.yl| == |multiset(p.yl)| == |multiset(left)| == i;
    assert |p.yr| == |multiset(p.yr)| == |multiset(right)| == |X| - i;
    assert Hist(left, k) == Hist(p.yl, k);
    assert Hist(right, k) == Hist(p.yr, k);
    GiniIndexOfHist(p.yl, k);
    GiniIndexOfHist(p.yr, k);
  }

  // ---------------------------------------------------------------------
  // What the search guarantees

  /** The incumbent before any cut: the node's own impurity and no split. */
  function Start(y: seq<nat>, k: nat): Candidate
    requires |y| > 0
  {
    Candidate(ParentGini(y, k), None)
  }

  /** `r` is `best` or the strictly better cut `c` of the sorted column `s` of feature `f`. */
  predicate KeptOrCut(s: seq<Point>, f: nat, k: nat, best: Candidate, c: nat, r: Candidate) {
    r == best || (IsCut(s, c) && r == Candidate(CutGini(s, c, k), Some(Split(f, Midpoint(s, c)))) && r.gini < best.gini)
  }

  /**
   * When sweeping the cuts of one sorted column changes the incumbent, the
   * result is the cut `c` between distinct values, strictly better than
   * `best` and strictly better than every earlier cut between distinct
   * values: ties go to the first cut.
   */
  lemma {:induction false} SweepCutsOrigin(s: seq<Point>, f: nat, k: nat, best: Candidate, i: nat) returns (c: nat)
    requires 1 <= i <= |s|
    ensures var r := SweepCuts(s, f, k, best, i);
      && KeptOrCut(s, f, k, best, c, r)
      && (r != best ==> c < i && forall j :: 1 <= j < c && IsCut(s, j) ==> r.gini < CutGini(s, j, k))
  {
    if i == 1 {
      c := 0;
    } else {
      var c' := SweepCutsOrigin(s, f, k, best, i - 1);
      var prev := SweepCuts(s, f, k, best, i - 1);
      if IsCut(s, i - 1) && CutGini(s, i - 1, k) < prev.gini {
        c := i - 1;
      } else {
        c := c';
      }
    }
  }

  /**
   * The incumbent `r` after sweeping `f` columns is still `best`, or it is
   * the cut `c` of some swept column `g`, strictly better than `best`.
   */
  predicate FromCut(cols: seq<seq<Point>>, k: nat, best: Candidate, f: nat, g: nat, c: nat, r: Candidate)
    requires f <= |cols|
  {
    r == best || (g < f && KeptOrCut(cols[g], g, k, best, c, r))
  }

  /**
   * When sweeping the columns changes the incumbent, the result is the cut
   * `c` of column `g`, strictly better than every cut between distinct
   * values of an earlier column and every earlier such cut of column `g`:
   * ties go to the first feature, then to the first cut.
   */
  lemma {:induction false} SweepFeaturesOrigin(cols: seq<seq<Point>>, m: nat, k: nat, best: Candidate, f: nat)
    returns (g: nat, c: nat)
    requires AllOfLength(cols, m) && m > 0 && f <= |cols|
    ensures var r := SweepFeatures(cols, m, k, best, f);
      && FromCut(cols, k, best, f, g, c, r)
      && (r != best ==>
            && c < m
            && (forall j :: 1 <= j < c && IsCut(cols[g], j) ==> r.gini < CutGini(cols[g], j, k))
            && (forall h, j :: 0 <= h < g && IsCut(cols[h], j) ==> r.gini < CutGini(cols[h], j, k)))
  {
    if f == 0 {
      g, c := 0, 0;
    } else {
      var last := f - 1;
      var g', c' := SweepFeaturesOrigin(cols, m, k, best, last);
      var prev := SweepFeatures(cols, m, k, best, last);
      var cut := SweepCutsOrigin(cols[last], last, k, prev, m);
      if SweepCuts(cols[last], last, k, prev, m) == prev {
        g, c := g', c';
      } else {
        g, c := last, cut;
      }
    }
  }

  /**
   * After all features are swept from the node itself, the incumbent
   * either has no split and the node's impurity, or a proper midpoint
   * split whose weighted impurity it records and which beats the node.
   */
  lemma SweptSound(X: seq<seq<real>>, y: seq<nat>, n: nat, k: nat)
    requires Shaped(X, y, n, k) && |y| > 1
    ensures var r := SweepFeatures(SortedColumns(X, y, n), |y|, k, Start(y, k), n);
      && (r.split.None? ==> r.gini == ParentGini(y, k))
      && (r.split.Some? ==>
            && r.split.value.feature < n
            && Proper(X, y, n, r.split.value)
            && MidpointCut(X, y, n, r.split.value)
            && r.gini == WeightedGini(X, y, n, r.split.value)
            && r.gini < ParentGini(y, k))
  {
    var cols := SortedColumns(X, y, n);
    var g, c := SweepFeaturesOrigin(cols, |y|, k, Start(y, k), n);
    var r := SweepFeatures(cols, |y|, k, Start(y, k), n);
    if r.split.Some? {
      var s := SortedColumn(X, y, n, g);
      assert cols[g] == s;
      assert s[c - 1].value < s[c].value;
      var t := Midpoint(s, c);
      CutIsSplit(X, y, n, k, g, c, t);
      MidpointBeforeIntro(s, t, c, |X|);
    }
  }

  /**
   * A returned split is on an existing feature, its threshold is the
   * midpoint of two adjacent distinct sorted values (so both sides are
   * non-empty), and its weighted impurity is strictly below the node's.
   */
  lemma BestSplitSound(X: seq<seq<real>>, y: seq<nat>, n: nat, k: nat)
    requires Shaped(X, y, n, k)
    ensures var r := BestSplitOf(X, y, n, k);
      r.Some? ==>
        && |y| > 1
        && r.value.feature < n
        && Proper(X, y, n, r.value)
        && MidpointCut(X, y, n, r.value)
        && WeightedGini(X, y, n, r.value) < GiniIndex(y)
  {
    if |y| > 1 {
      SweptSound(X, y, n, k);
      GiniIndexOfHist(y, k);
    }
  }

  /**
   * Every proper split of the rows is a cut between distinct values of its
   * feature's sorted column, at the number of samples it sends left, and
   * the sweep's impurity there is the split's weighted impurity.
   */
  lemma SplitAtCut(X: seq<seq<real>>, y: seq<nat>, n: nat, k: nat, other: Split) returns (i: nat)
    requires Shaped(X, y, n, k) && other.feature < n && Proper(X, y, n, other)
    ensures var sc := SortedColumn(X, y, n, other.feature);
      && IsCut(sc, i)
      && sc[i - 1].value < other.threshold <= sc[i].value
      && i == |SplitRows(X, y, other.feature, other.threshold).yl|
      && CutGini(sc, i, k) == WeightedGini(X, y, n, other)
  {
    var g, t := other.feature, other.threshold;
    var c, sc := Column(X, y, g), SortedColumn(X, y, n, g);
    var p := SplitRows(X, y, g, t);
    SplitRowsPartition(X, y, g, t);
    SplitRowsLabels(X, y, g, t);
    KeepPerm(sc, c, Below(t));
    assert |p.yl| + |p.yr| == |y| by {
      assert |multiset(p.yl)| + |multiset(p.yr)| == |multiset(y)|;
    }
    i := SortedCut(sc, t);
    assert i == |multiset(Keep(sc, Below(t)))| == |multiset(Keep(c, Below(t)))| == |p.yl|;
    CutIsSplit(X, y, n, k, g, i, t);
  }

  /**
   * No split of the node on any feature at any threshold that leaves both
   * sides non-empty has lower weighted impurity than the returned split,
   * or, when none is returned, lower impurity than the node itself.
   */
  lemma BestSplitOptimal(X: seq<seq<real>>, y: seq<nat>, n: nat, k: nat, other: Split)
    requires Shaped(X, y, n, k) && other.feature < n && Proper(X, y, n, other)
    ensures var r := BestSplitOf(X, y, n, k);
      && (r.None? ==> GiniIndex(y) <= WeightedGini(X, y, n, other))
      && (r.Some? ==> r.value.feature < n && WeightedGini(X, y, n, r.value) <= WeightedGini(X, y, n, other))
  {
    var i := SplitAtCut(X, y, n, k, other);
    assert |y| > 1;
    SweptSound(X, y, n, k);
    var cols := SortedColumns(X, y, n);
    assert cols[other.feature] == SortedColumn(X, y, n, other.feature);
    GiniIndexOfHist(y, k);
  }

  /** In a sorted column, the only cut a midpoint threshold falls at is its own. */
  lemma CutOfMidpoint(sc: seq<Point>, c: nat, j: nat)
    requires SortedByValue(sc) && IsCut(sc, c) && 0 < j < |sc|
    requires sc[j - 1].value < Midpoint(sc, c) <= sc[j].value
    ensures j == c
  {
    MidpointBetween(sc, c);
  }

  /**
   * Ties go to the first split found: a proper split on an earlier
   * feature, or on the same feature sending fewer samples left, is
   * strictly worse than the returned split.
   */
  lemma BestSplitFirst(X: seq<seq<real>>, y: seq<nat>, n: nat, k: nat, other: Split)
    requires Shaped(X, y, n, k) && other.feature < n && Proper(X, y, n, other)
    ensures var r := BestSplitOf(X, y, n, k);
      r.Some? &&
      (|| other.feature < r.value.feature
       || (&& other.feature == r.value.feature
           && |SplitRows(X, y, other.feature, other.threshold).yl| < |SplitRows(X, y, r.value.feature, r.value.threshold).yl|))
      ==> WeightedGini(X, y, n, r.value) < WeightedGini(X, y, n, other)
  {
    var r := BestSplitOf(X, y, n, k);
    if r.Some? {
      var s := r.value;
      var cols := SortedColumns(X, y, n);
      var w := SweepFeatures(cols, |y|, k, Start(y, k), n);
      var g, c := SweepFeaturesOrigin(cols, |y|, k, Start(y, k), n);
      assert w.split == r && w != Start(y, k);
      assert g == s.feature && s.threshold == Midpoint(cols[g], c);
      SweptSound(X, y, n, k);
      var i := SplitAtCut(X, y, n, k, other);
      var sc := SortedColumn(X, y, n, g);
      assert cols[g] == sc && cols[other.feature] == SortedColumn(X, y, n, other.feature);
      if other.feature < g {
        assert w.gini < CutGini(cols[other.feature], i, k);
      } else if other.feature == g && i < |SplitRows(X, y, s.feature, s.threshold).yl| {
        var j := SplitAtCut(X, y, n, k, s);
        CutOfMidpoint(sc, c, j);
        assert w.gini < CutGini(sc, i, k);
      }
    }
  }
}
