/**
 * Gini impurity of a set of labels: 0 for no labels, otherwise one minus
 * the sum over the classes present of the squared class proportion.
 * Exact `real` arithmetic stands in for floating point.
 */
module Impurity {
  import opened Histogram

  function Sq(x: real): real {
    x * x
  }

  /** The sum of `(h[c] / m)²` over the entries of `h`. */
  function SumSq(h: seq<nat>, m: nat): real
    requires m > 0
  {
    if |h| == 0 then 0.0 else SumSq(h[..|h| - 1], m) + Sq(h[|h| - 1] as real / m as real)
  }

  /** Gini impurity of a node of `m` samples with class counts `h`. */
  function GiniOfCounts(h: seq<nat>, m: nat): real
    requires m > 0
  {
    1.0 - SumSq(h, m)
  }

  /** One more than the largest label, or 0 when there are no labels. */
  function Bound(ls: seq<nat>): (b: nat)
    ensures LabelsBelow(ls, b)
    ensures |ls| > 0 ==> b > 0 && b - 1 in ls
    ensures |ls| == 0 ==> b == 0
  {
    if |ls| == 0 then 0
    else
      var b' := Bound(ls[..|ls| - 1]);
      assert ls == ls[..|ls| - 1] + [ls[|ls| - 1]];
      if b' <= ls[|ls| - 1] then ls[|ls| - 1] + 1 else b'
  }

  /** The classes below `b` that occur in `ls`, in increasing order. */
  function ClassesBelow(ls: seq<nat>, b: nat): (u: seq<nat>)
    ensures |u| <= b
    ensures forall i, j :: 0 <= i < j < |u| ==> u[i] < u[j]
    ensures forall c :: c in u <==> c < b && c in ls
  {
    if b == 0 then []
    else
      var u' := ClassesBelow(ls, b - 1);
      forall i | 0 <= i < |u'| ensures u'[i] < b - 1 {
        assert u'[i] in u';
      }
      u' + (if b - 1 in ls then [b - 1] else [])
  }

  /** `np.unique`: the distinct labels, in increasing order. */
  function Unique(ls: seq<nat>): (u: seq<nat>)
    ensures forall i, j :: 0 <= i < j < |u| ==> u[i] < u[j]
    ensures forall c :: c in u <==> c in ls
  {
    ClassesBelow(ls, Bound(ls))
  }

  /** The counts of the classes listed in `cs`, in that order. */
  function CountsOf(ls: seq<nat>, cs: seq<nat>): seq<nat> {
    seq(|cs|, j requires 0 <= j < |cs| => Count(ls, cs[j]))
  }

  /**
   * `gini_index`: never negative, and for `u` distinct labels at most
   * `1 - 1/u`, so always below 1.
   */
  function GiniIndex(ls: seq<nat>): (r: real)
    ensures 0.0 <= r
    ensures |ls| > 0 ==> |Unique(ls)| > 0 && r <= 1.0 - 1.0 / |Unique(ls)| as real
  {
    if |ls| == 0 then 0.0
    else
      var h := CountsOf(ls, Unique(ls));
      CountsOfUniqueSum(ls);
      GiniOfCountsRange(h, |ls|);
      GiniOfCounts(h, |ls|)
  }

  // ---------------------------------------------------------------------
  // Summing over the classes present equals summing over a full histogram

  lemma SumSqAppend(h: seq<nat>, x: nat, m: nat)
    requires m > 0
    ensures SumSq(h + [x], m) == SumSq(h, m) + Sq(x as real / m as real)
  {
    assert (h + [x])[..|h|] == h;
  }

  /** A zero count adds nothing to the sum of squared proportions. */
  lemma SumSqAppendZero(h: seq<nat>, m: nat)
    requires m > 0
    ensures SumSq(h + [0], m) == SumSq(h, m)
  {
    SumSqAppend(h, 0, m);
    assert 0 as real / m as real == 0.0;
  }

  lemma CountsOfAppend(ls: seq<nat>, cs: seq<nat>, c: nat)
    ensures CountsOf(ls, cs + [c]) == CountsOf(ls, cs) + [Count(ls, c)]
  {
  }

  lemma HistAppend(ls: seq<nat>, b: nat)
    ensures Hist(ls, b + 1) == Hist(ls, b) + [Count(ls, b)]
  {
  }

  lemma {:induction false} PresentClassesTotal(ls: seq<nat>, b: nat)
    ensures Sum(CountsOf(ls, ClassesBelow(ls, b))) == Sum(Hist(ls, b))
  {
    if b > 0 {
      PresentClassesTotal(ls, b - 1);
      PresentClassesTotalStep(ls, b - 1);
    }
  }

  lemma PresentClassesTotalStep(ls: seq<nat>, c: nat)
    requires Sum(CountsOf(ls, ClassesBelow(ls, c))) == Sum(Hist(ls, c))
    ensures Sum(CountsOf(ls, ClassesBelow(ls, c + 1))) == Sum(Hist(ls, c + 1))
  {
    var cs, x := ClassesBelow(ls, c), Count(ls, c);
    HistAppend(ls, c);
    SumAppend(Hist(ls, c), x);
    if c in ls {
      CountsOfAppend(ls, cs, c);
      SumAppend(CountsOf(ls, cs), x);
    } else {
      assert ClassesBelow(ls, c + 1) == cs;
      assert x == 0;
    }
  }

  /** The counts of the distinct labels add up to the number of labels. */
  lemma CountsOfUniqueSum(ls: seq<nat>)
    ensures Sum(CountsOf(ls, Unique(ls))) == |ls|
  {
    PresentClassesTotal(ls, Bound(ls));
    HistSum(ls, Bound(ls));
  }

  lemma {:induction false} PresentClassesSum(ls: seq<nat>, b: nat)
    requires |ls| > 0
    ensures SumSq(CountsOf(ls, ClassesBelow(ls, b)), |ls|) == SumSq(Hist(ls, b), |ls|)
  {
    if b > 0 {
      var c := b - 1;
      PresentClassesSum(ls, c);
      PresentClassesStep(ls, c);
      assert c + 1 == b;
    } else {
      assert |CountsOf(ls, ClassesBelow(ls, b))| == |Hist(ls, b)| == 0;
    }
  }

  lemma PresentClassesStep(ls: seq<nat>, c: nat)
    requires |ls| > 0
    requires SumSq(CountsOf(ls, ClassesBelow(ls, c)), |ls|) == SumSq(Hist(ls, c), |ls|)
    ensures SumSq(CountsOf(ls, ClassesBelow(ls, c + 1)), |ls|) == SumSq(Hist(ls, c + 1), |ls|)
  {
    var m, cs, x := |ls|, ClassesBelow(ls, c), Count(ls, c);
    HistAppend(ls, c);
    if c in ls {
      SumSqAppend(Hist(ls, c), x, m);
      CountsOfAppend(ls, cs, c);
      SumSqAppend(CountsOf(ls, cs), x, m);
    } else {
      assert ClassesBelow(ls, c + 1) == cs;
      assert x == 0;
      SumSqAppendZero(Hist(ls, c), m);
    }
  }

  lemma {:induction false} AbsentClassesSum(ls: seq<nat>, b: nat, k: nat)
    requires |ls| > 0 && LabelsBelow(ls, b) && b <= k
    ensures SumSq(Hist(ls, b), |ls|) == SumSq(Hist(ls, k), |ls|)
    decreases k
  {
    if b < k {
      AbsentClassesSum(ls, b, k - 1);
      assert k - 1 !in ls;
      HistAppend(ls, k - 1);
      SumSqAppendZero(Hist(ls, k - 1), |ls|);
    }
  }

  /**
   * With dense class ids below `k`, the impurity computed over the classes
   * present equals the one computed over a fixed-length histogram.
   */
  lemma GiniIndexOfHist(ls: seq<nat>, k: nat)
    requires |ls| > 0 && LabelsBelow(ls, k)
    ensures GiniIndex(ls) == GiniOfCounts(Hist(ls, k), |ls|)
  {
    var b := Bound(ls);
    assert b - 1 < k;
    PresentClassesSum(ls, b);
    AbsentClassesSum(ls, b, k);
  }

  // ---------------------------------------------------------------------
  // Range of the impurity

  /** The sum of the class proportions `h[c] / m`. */
  function SumFrac(h: seq<nat>, m: nat): real
    requires m > 0
  {
    if |h| == 0 then 0.0 else SumFrac(h[..|h| - 1], m) + h[|h| - 1] as real / m as real
  }

  lemma AddOver(a: real, b: real, d: real)
    requires d != 0.0
    ensures a / d + b / d == (a + b) / d
  {
  }

  /** The proportions of a histogram of `m` samples add up to `Sum(h) / m`. */
  lemma {:induction false} SumFracOfSum(h: seq<nat>, m: nat)
    requires m > 0
    ensures SumFrac(h, m) == Sum(h) as real / m as real
  {
    if |h| > 0 {
      var init, x := h[..|h| - 1], h[|h| - 1];
      SumFracOfSum(init, m);
      AddOver(Sum(init) as real, x as real, m as real);
    }
  }

  lemma ProductNonnegative(a: real, b: real)
    requires a >= 0.0 && b >= 0.0
    ensures a * b >= 0.0
    ensures a > 0.0 && b > 0.0 ==> a * b > 0.0
  {
  }

  /** A proportion is at least its square, and strictly so when it lies strictly between 0 and 1. */
  lemma SqBelowProportion(x: nat, m: nat)
    requires 0 < m && x <= m
    ensures Sq(x as real / m as real) <= x as real / m as real
    ensures 0 < x < m ==> Sq(x as real / m as real) < x as real / m as real
  {
    var p := x as real / m as real;
    assert p * m as real == x as real;
    assert 0.0 <= p <= 1.0;
    assert 0 < x < m ==> 0.0 < p < 1.0;
    ProductNonnegative(p, 1.0 - p);
    assert p - Sq(p) == p * (1.0 - p);
  }

  /**
   * When no count exceeds `m`, the squared proportions add up to at most
   * the proportions, and to strictly less when some count `h[a]` lies
   * strictly between 0 and `m`.
   */
  lemma {:induction false} SumSqBelowFrac(h: seq<nat>, m: nat, a: nat)
    requires m > 0
    requires forall c :: 0 <= c < |h| ==> h[c] <= m
    ensures SumSq(h, m) <= SumFrac(h, m)
    ensures a < |h| && 0 < h[a] < m ==> SumSq(h, m) < SumFrac(h, m)
  {
    if |h| > 0 {
      var init, last := h[..|h| - 1], |h| - 1;
      SumSqBelowFrac(init, m, a);
      SqBelowProportion(h[last], m);
      if a < last {
        assert init[a] == h[a];
      }
    }
  }

  lemma SquareNonnegative(x: real)
    ensures x * x >= 0.0
    ensures x != 0.0 ==> x * x > 0.0
  {
    if x < 0.0 {
      ProductNonnegative(-x, -x);
    } else {
      ProductNonnegative(x, x);
    }
  }

  /** From `n * z >= 0` with `n > 0` follows `z >= 0`. */
  lemma FactorNonnegative(n: real, z: real)
    requires n > 0.0 && n * z >= 0.0
    ensures z >= 0.0
  {
    if z < 0.0 {
      ProductNonnegative(n, -z);
    }
  }

  /** One step of the Cauchy-Schwarz inequality: adding a term `x` to `n` terms. */
  lemma CauchyStep(n: real, q: real, a: real, x: real)
    requires n >= 0.0 && q >= 0.0 && n * q >= a * a && (n == 0.0 ==> a == 0.0)
    ensures (n + 1.0) * (q + x * x) >= (a + x) * (a + x)
    ensures q + x * x >= 0.0
  {
    SquareNonnegative(x);
    SquareNonnegative(a - n * x);
    if n == 0.0 {
      assert (a + x) * (a + x) == x * x;
    } else {
      var z := q + n * x * x - 2.0 * a * x;
      assert n * z == (n * q - a * a) + (a - n * x) * (a - n * x);
      FactorNonnegative(n, z);
      assert (n + 1.0) * (q + x * x) - (a + x) * (a + x) == (n * q - a * a) + z;
    }
  }

  /** `|h|` times the sum of the squared proportions is at least the square of their sum. */
  lemma {:induction false} SumSqAtLeast(h: seq<nat>, m: nat)
    requires m > 0
    ensures SumSq(h, m) >= 0.0
    ensures |h| as real * SumSq(h, m) >= SumFrac(h, m) * SumFrac(h, m)
  {
    if |h| > 0 {
      var init := h[..|h| - 1];
      SumSqAtLeast(init, m);
      CauchyStep(|init| as real, SumSq(init, m), SumFrac(init, m), h[|h| - 1] as real / m as real);
    }
  }

  lemma AtLeastReciprocal(u: real, q: real)
    requires u > 0.0 && u * q >= 1.0
    ensures q >= 1.0 / u
  {
    assert q - 1.0 / u == (u * q - 1.0) / u;
  }

  /**
   * Impurity computed from a histogram of `m` samples lies between 0 and
   * `1 - 1/|h|`.
   */
  lemma GiniOfCountsRange(h: seq<nat>, m: nat)
    requires m > 0 && Sum(h) == m
    ensures |h| > 0
    ensures 0.0 <= GiniOfCounts(h, m) <= 1.0 - 1.0 / |h| as real
  {
    forall c | 0 <= c < |h| ensures h[c] <= m {
      SumAtLeastOne(h, c);
    }
    SumSqBelowFrac(h, m, |h|);
    SumFracOfSum(h, m);
    WholeFraction(m);
    assert SumFrac(h, m) == 1.0;
    SumSqAtLeast(h, m);
    AtLeastReciprocal(|h| as real, SumSq(h, m));
  }

  lemma ReciprocalAntitone(u: nat, k: nat)
    requires 0 < u <= k
    ensures 1.0 / u as real >= 1.0 / k as real
  {
    assert 1.0 / u as real - 1.0 / k as real == (k - u) as real / (u as real * k as real);
    ProductNonnegative(u as real, k as real);
  }

  /** With labels below `k`, `gini_index` is at most `1 - 1/k`. */
  lemma GiniIndexAtMost(ls: seq<nat>, k: nat)
    requires |ls| > 0 && LabelsBelow(ls, k)
    ensures k > 0 && GiniIndex(ls) <= 1.0 - 1.0 / k as real
  {
    assert ls[0] < k;
    assert Bound(ls) - 1 in ls;
    ReciprocalAntitone(|Unique(ls)|, k);
  }

  lemma {:induction false} PureCount(ls: seq<nat>, c: nat)
    requires forall j :: 0 <= j < |ls| ==> ls[j] == c
    ensures Count(ls, c) == |ls|
  {
    if |ls| > 0 {
      assert ls == ls[..|ls| - 1] + [ls[|ls| - 1]];
      PureCount(ls[..|ls| - 1], c);
    }
  }

  /** A strictly increasing sequence spans at least its length minus one. */
  lemma {:induction false} IncreasingSpread(u: seq<nat>)
    requires |u| > 0
    requires forall i, j :: 0 <= i < j < |u| ==> u[i] < u[j]
    ensures u[|u| - 1] >= u[0] + |u| - 1
  {
    if |u| > 1 {
      IncreasingSpread(u[..|u| - 1]);
    }
  }

  lemma UniqueOfPure(ls: seq<nat>)
    requires |ls| > 0
    requires forall i, j :: 0 <= i < |ls| && 0 <= j < |ls| ==> ls[i] == ls[j]
    ensures Unique(ls) == [ls[0]]
  {
    var u, c := Unique(ls), ls[0];
    assert c in u;
    assert forall d :: d in u ==> d == c;
    assert u[0] in u && u[|u| - 1] in u;
    IncreasingSpread(u);
  }

  lemma PureGiniZero(ls: seq<nat>)
    requires |ls| > 0
    requires forall i, j :: 0 <= i < |ls| && 0 <= j < |ls| ==> ls[i] == ls[j]
    ensures GiniIndex(ls) == 0.0
  {
    var m, c := |ls|, ls[0];
    PureCount(ls, c);
    UniqueOfPure(ls);
    assert CountsOf(ls, [c]) == [] + [m];
    SumSqAppend([], m, m);
    WholeFraction(m);
  }

  /** All `m` of `m` samples make the proportion 1, whose square is 1. */
  lemma WholeFraction(m: nat)
    requires m > 0
    ensures m as real / m as real == 1.0
    ensures Sq(m as real / m as real) == 1.0
  {
    var r := m as real;
    assert r / r == 1.0;
  }

  lemma MixedGiniPositive(ls: seq<nat>, i: nat, j: nat)
    requires i < |ls| && j < |ls| && ls[i] != ls[j]
    ensures GiniIndex(ls) > 0.0
  {
    var b := Bound(ls);
    GiniIndexOfHist(ls, b);
    HistSum(ls, b);
    assert ls[i] in ls && ls[j] in ls;
    MixedCountsPositive(Hist(ls, b), |ls|, ls[i], ls[j]);
  }

  /** Counts of `m` samples with two non-zero classes give a strictly positive impurity. */
  lemma MixedCountsPositive(h: seq<nat>, m: nat, a: nat, b: nat)
    requires m > 0 && Sum(h) == m
    requires a < |h| && b < |h| && a != b && h[a] > 0 && h[b] > 0
    ensures GiniOfCounts(h, m) > 0.0
  {
    forall c | 0 <= c < |h| ensures h[c] <= m {
      SumAtLeastOne(h, c);
    }
    SumAtLeastTwo(h, a, b);
    SumSqBelowFrac(h, m, a);
    SumFracOfSum(h, m);
  }

  /** Impurity is zero exactly when there is at most one distinct label. */
  lemma GiniZeroIff(ls: seq<nat>)
    ensures GiniIndex(ls) == 0.0 <==> forall i, j :: 0 <= i < |ls| && 0 <= j < |ls| ==> ls[i] == ls[j]
  {
    if forall i, j :: 0 <= i < |ls| && 0 <= j < |ls| ==> ls[i] == ls[j] {
      if |ls| > 0 {
        PureGiniZero(ls);
      }
    } else {
      var i, j :| 0 <= i < |ls| && 0 <= j < |ls| && ls[i] != ls[j];
      MixedGiniPositive(ls, i, j);
    }
  }
}
