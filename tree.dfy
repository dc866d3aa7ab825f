/**
 * `DecisionTreeNode` and `_grow_tree`: every node records the impurity,
 * size and class histogram of the samples reaching it and the majority
 * class; a node above the depth limit for which the split search finds a
 * split gets the rule and two subtrees grown from the two sides.
 */
module Tree {
  import opened Wrappers
  import opened Histogram
  import opened Impurity
  import opened Samples
  import opened SplitSearch

  /** What a node records about the samples reaching it. */
  datatype NodeInfo = NodeInfo(gini: real, numSamples: nat, numSamplesPerClass: seq<nat>, predictedClass: nat)

  /**
   * A node with no children (whose `feature_index` and `threshold` keep
   * their initial zero), or a node whose rule sends `x` left when
   * `x[featureIndex] < threshold`.
   */
  datatype Node =
    | Leaf(info: NodeInfo)
    | Branch(info: NodeInfo, featureIndex: nat, threshold: real, left: Node, right: Node)

  /**
   * The statistics `_grow_tree` records for a node with labels `y`: `len(y)`
   * samples with a histogram summing to it, their impurity, and as
   * predicted class the first most frequent class, which occurs in `y`.
   */
  function Info(y: seq<nat>, k: nat): (i: NodeInfo)
    requires |y| > 0 && LabelsBelow(y, k)
    ensures InfoConsistent(i, k) && i.numSamples == |y| && i.predictedClass in y
  {
    var h := Hist(y, k);
    HistOccurs(y, k);
    assert y[0] < k && h[y[0]] > 0 by { assert y[0] in y; }
    HistSum(y, k);
    GiniIndexOfHist(y, k);
    NodeInfo(GiniIndex(y), |y|, h, FirstArgMax(h))
  }

  /**
   * `predicted_class` as the source computes it: `np.argmax` over the
   * counts of the classes present at the node, which is a position in
   * `np.unique(y)` rather than a class id.
   */
  function PredictedClassAsWritten(y: seq<nat>): (r: nat)
    requires |y| > 0
    ensures r < |Unique(y)|
  {
    assert y[0] in Unique(y);
    FirstArgMax(CountsOf(y, Unique(y)))
  }

  /**
   * A node whose samples all have the same class `c > 0` predicts class 0
   * as written, a class none of its samples has, where `Info` predicts `c`.
   */
  lemma PredictedClassAsWrittenMislabels(y: seq<nat>, c: nat, k: nat)
    requires |y| > 0 && 0 < c < k
    requires forall j :: 0 <= j < |y| ==> y[j] == c
    ensures PredictedClassAsWritten(y) == 0 && 0 !in y
    ensures Info(y, k).predictedClass == c
  {
    UniqueOfPure(y);
    PureCount(y, c);
    assert CountsOf(y, [c]) == [|y|];
    var h := Hist(y, k);
    forall d | 0 <= d < k && d != c ensures h[d] == 0 {
      assert d !in multiset(y);
    }
    assert h[c] == |y|;
  }

  /**
   * The recorded statistics agree with each other: the histogram has an
   * entry per class and sums to the sample count, the impurity is that of
   * the histogram, and the predicted class is the first most frequent one
   * and occurs among the samples.
   */
  predicate InfoConsistent(i: NodeInfo, k: nat) {
    var h := i.numSamplesPerClass;
    && |h| == k
    && i.numSamples > 0
    && Sum(h) == i.numSamples
    && i.gini == GiniOfCounts(h, i.numSamples)
    && 0.0 <= i.gini
    && i.predictedClass < k
    && h[i.predictedClass] > 0
    && (forall c :: 0 <= c < k ==> h[c] <= h[i.predictedClass])
    && (forall c :: 0 <= c < i.predictedClass ==> h[c] < h[i.predictedClass])
  }

  /**
   * `_grow_tree`: the node for samples `X`, `y` at `depth`, split while
   * `depth < maxDepth` and the split search finds a split.
   */
  function Grow(X: seq<seq<real>>, y: seq<nat>, n: nat, k: nat, maxDepth: nat, depth: nat): (t: Node)
    requires Shaped(X, y, n, k) && |y| > 0
    ensures t.info == Info(y, k)
    decreases maxDepth - depth
  {
    if depth < maxDepth then
      match BestSplitOf(X, y, n, k)
      case None => Leaf(Info(y, k))
      case Some(s) =>
        BestSplitSound(X, y, n, k);
        SplitRowsShape(X, y, n, k, s.feature, s.threshold);
        var p := SplitRows(X, y, s.feature, s.threshold);
        Branch(Info(y, k), s.feature, s.threshold,
               Grow(p.xl, p.yl, n, k, maxDepth, depth + 1),
               Grow(p.xr, p.yr, n, k, maxDepth, depth + 1))
    else
      Leaf(Info(y, k))
  }

  /**
   * One level of `_grow_tree`: when the node is split, its children are
   * grown one level deeper from the two non-empty, well-shaped sides.
   */
  lemma GrowStep(X: seq<seq<real>>, y: seq<nat>, n: nat, k: nat, maxDepth: nat, depth: nat)
    requires Shaped(X, y, n, k) && |y| > 0
    ensures depth < maxDepth && BestSplitOf(X, y, n, k).Some? ==>
      var s := BestSplitOf(X, y, n, k).value;
      var p := SplitRows(X, y, s.feature, s.threshold);
      && Shaped(p.xl, p.yl, n, k) && |p.yl| > 0
      && Shaped(p.xr, p.yr, n, k) && |p.yr| > 0
      && Grow(X, y, n, k, maxDepth, depth) ==
           Branch(Info(y, k), s.feature, s.threshold,
                  Grow(p.xl, p.yl, n, k, maxDepth, depth + 1),
                  Grow(p.xr, p.yr, n, k, maxDepth, depth + 1))
    ensures !(depth < maxDepth && BestSplitOf(X, y, n, k).Some?) ==> Grow(X, y, n, k, maxDepth, depth) == Leaf(Info(y, k))
  {
    if depth < maxDepth && BestSplitOf(X, y, n, k).Some? {
      var s := BestSplitOf(X, y, n, k).value;
      BestSplitSound(X, y, n, k);
      SplitRowsShape(X, y, n, k, s.feature, s.threshold);
    }
  }

  // ---------------------------------------------------------------------
  // Walking the tree

  /** Every rule of the tree reads a feature below `n`. */
  predicate FeaturesBelow(t: Node, n: nat) {
    match t
    case Leaf(_) => true
    case Branch(_, f, _, l, r) => f < n && FeaturesBelow(l, n) && FeaturesBelow(r, n)
  }

  /**
   * The node `_predict` stops at for input `x`: the first node without
   * children. In a well-formed tree its statistics are consistent.
   */
  function Reach(t: Node, x: seq<real>): (i: NodeInfo)
    requires FeaturesBelow(t, |x|)
    ensures forall k :: WellFormed(t, k) ==> InfoConsistent(i, k)
  {
    match t
    case Leaf(info) => info
    case Branch(_, f, thr, l, r) => if x[f] < thr then Reach(l, x) else Reach(r, x)
  }

  /** The class `_predict` returns for input `x`. */
  function Classify(t: Node, x: seq<real>): nat
    requires FeaturesBelow(t, |x|)
  {
    Reach(t, x).predictedClass
  }

  /** The turns the walk for input `x` takes, `true` for left: no more than the tree's height. */
  function Path(t: Node, x: seq<real>): (p: seq<bool>)
    requires FeaturesBelow(t, |x|)
    ensures |p| <= Height(t)
  {
    match t
    case Leaf(_) => []
    case Branch(_, f, thr, l, r) => if x[f] < thr then [true] + Path(l, x) else [false] + Path(r, x)
  }

  /** The labels, in sample order, of the training samples whose walk takes the turns `p`. */
  function Routed(t: Node, X: seq<seq<real>>, y: seq<nat>, n: nat, p: seq<bool>): seq<nat>
    requires |X| == |y| && IsMatrix(X, n) && FeaturesBelow(t, n)
  {
    if |X| == 0 then []
    else (if Path(t, X[0]) == p then [y[0]] else []) + Routed(t, X[1..], y[1..], n, p)
  }

  /** The number of splits on the longest path from the node to a leaf. */
  function Height(t: Node): nat {
    match t
    case Leaf(_) => 0
    case Branch(_, _, _, l, r) => 1 + if Height(l) < Height(r) then Height(r) else Height(l)
  }

  // ---------------------------------------------------------------------
  // What the grown tree guarantees

  /**
   * Every node is consistent, and at every split the children's histograms
   * add up to the parent's and their weighted impurity is strictly below
   * the parent's.
   */
  predicate WellFormed(t: Node, k: nat) {
    && InfoConsistent(t.info, k)
    && (t.Branch? ==>
          && WellFormed(t.left, k)
          && WellFormed(t.right, k)
          && |t.left.info.numSamplesPerClass| == |t.right.info.numSamplesPerClass|
          && Add(t.left.info.numSamplesPerClass, t.right.info.numSamplesPerClass) == t.info.numSamplesPerClass
          && t.left.info.numSamples + t.right.info.numSamples == t.info.numSamples
          && t.info.numSamples > 0
          && Weighted(t.left.info.numSamples, t.left.info.gini,
                      t.right.info.numSamples, t.right.info.gini, t.info.numSamples) < t.info.gini)
  }

  lemma {:induction false} GrowWellFormed(X: seq<seq<real>>, y: seq<nat>, n: nat, k: nat, maxDepth: nat, depth: nat)
    requires Shaped(X, y, n, k) && |y| > 0
    ensures WellFormed(Grow(X, y, n, k, maxDepth, depth), k)
    decreases maxDepth - depth
  {
    GrowStep(X, y, n, k, maxDepth, depth);
    if depth < maxDepth && BestSplitOf(X, y, n, k).Some? {
      var s := BestSplitOf(X, y, n, k).value;
      BestSplitSound(X, y, n, k);
      SplitRowsPartition(X, y, s.feature, s.threshold);
      var p := SplitRows(X, y, s.feature, s.threshold);
      GrowWellFormed(p.xl, p.yl, n, k, maxDepth, depth + 1);
      GrowWellFormed(p.xr, p.yr, n, k, maxDepth, depth + 1);
      HistOfUnion(p.yl, p.yr, y, k);
      assert |p.yl| + |p.yr| == |y| by {
        assert |multiset(p.yl)| + |multiset(p.yr)| == |multiset(y)|;
      }
    }
  }

  /** Every rule of the grown tree reads one of the `n` features. */
  lemma {:induction false} GrowFeatures(X: seq<seq<real>>, y: seq<nat>, n: nat, k: nat, maxDepth: nat, depth: nat)
    requires Shaped(X, y, n, k) && |y| > 0
    ensures FeaturesBelow(Grow(X, y, n, k, maxDepth, depth), n)
    decreases maxDepth - depth
  {
    GrowStep(X, y, n, k, maxDepth, depth);
    if depth < maxDepth && BestSplitOf(X, y, n, k).Some? {
      var s := BestSplitOf(X, y, n, k).value;
      var p := SplitRows(X, y, s.feature, s.threshold);
      GrowFeatures(p.xl, p.yl, n, k, maxDepth, depth + 1);
      GrowFeatures(p.xr, p.yr, n, k, maxDepth, depth + 1);
    }
  }

  lemma BranchHeight(info: NodeInfo, f: nat, thr: real, l: Node, r: Node, h: nat)
    requires Height(l) <= h && Height(r) <= h
    ensures Height(Branch(info, f, thr, l, r)) <= h + 1
  {
  }

  /** No node at `depth >= maxDepth` is split: no leaf lies more than `maxDepth - depth` splits down. */
  lemma {:induction false} GrowHeight(X: seq<seq<real>>, y: seq<nat>, n: nat, k: nat, maxDepth: nat, depth: nat)
    requires Shaped(X, y, n, k) && |y| > 0
    ensures Height(Grow(X, y, n, k, maxDepth, depth)) <= if depth < maxDepth then maxDepth - depth else 0
    decreases maxDepth - depth
  {
    GrowStep(X, y, n, k, maxDepth, depth);
    if depth < maxDepth && BestSplitOf(X, y, n, k).Some? {
      var s := BestSplitOf(X, y, n, k).value;
      var p := SplitRows(X, y, s.feature, s.threshold);
      GrowHeight(p.xl, p.yl, n, k, maxDepth, depth + 1);
      GrowHeight(p.xr, p.yr, n, k, maxDepth, depth + 1);
      BranchHeight(Info(y, k), s.feature, s.threshold,
                   Grow(p.xl, p.yl, n, k, maxDepth, depth + 1), Grow(p.xr, p.yr, n, k, maxDepth, depth + 1),
                   maxDepth - depth - 1);
    }
  }

  /**
   * Each training sample, walked down the tree grown from it, reaches a
   * node whose histogram counts its own class.
   */
  lemma {:induction false} GrowReachesOwnClass(X: seq<seq<real>>, y: seq<nat>, n: nat, k: nat, maxDepth: nat, depth: nat, j: nat)
    requires Shaped(X, y, n, k) && j < |y|
    ensures var t := Grow(X, y, n, k, maxDepth, depth);
      && FeaturesBelow(t, |X[j]|)
      && y[j] < |Reach(t, X[j]).numSamplesPerClass|
      && Reach(t, X[j]).numSamplesPerClass[y[j]] > 0
    decreases maxDepth - depth
  {
    var t := Grow(X, y, n, k, maxDepth, depth);
    GrowFeatures(X, y, n, k, maxDepth, depth);
    GrowStep(X, y, n, k, maxDepth, depth);
    if depth < maxDepth && BestSplitOf(X, y, n, k).Some? {
      var s := BestSplitOf(X, y, n, k).value;
      var p := SplitRows(X, y, s.feature, s.threshold);
      var j' := SplitRowsRoute(X, y, s.feature, s.threshold, j);
      if X[j][s.feature] < s.threshold {
        GrowReachesOwnClass(p.xl, p.yl, n, k, maxDepth, depth + 1, j');
        assert Reach(t, X[j]) == Reach(Grow(p.xl, p.yl, n, k, maxDepth, depth + 1), X[j]);
      } else {
        GrowReachesOwnClass(p.xr, p.yr, n, k, maxDepth, depth + 1, j');
        assert Reach(t, X[j]) == Reach(Grow(p.xr, p.yr, n, k, maxDepth, depth + 1), X[j]);
      }
    } else {
      assert Reach(t, X[j]).numSamplesPerClass == Hist(y, k);
      assert y[j] in multiset(y);
    }
  }

  lemma WeightedNonnegative(i: nat, a: real, j: nat, b: real, m: nat)
    requires m > 0 && a >= 0.0 && b >= 0.0
    ensures Weighted(i, a, j, b, m) >= 0.0
  {
    ProductNonnegative(i as real, a);
    ProductNonnegative(j as real, b);
  }

  /** A node whose samples all share one class is never split. */
  lemma PureNodeNotSplit(X: seq<seq<real>>, y: seq<nat>, n: nat, k: nat)
    requires Shaped(X, y, n, k)
    requires forall i, j :: 0 <= i < |y| && 0 <= j < |y| ==> y[i] == y[j]
    ensures BestSplitOf(X, y, n, k) == None
  {
    if BestSplitOf(X, y, n, k).Some? {
      var s := BestSplitOf(X, y, n, k).value;
      BestSplitSound(X, y, n, k);
      PureGiniZero(y);
      var p := SplitRows(X, y, s.feature, s.threshold);
      WeightedNonnegative(|p.yl|, GiniIndex(p.yl), |p.yr|, GiniIndex(p.yr), |y|);
      assert false;
    }
  }

  /** Samples whose feature rows are all identical cannot be split. */
  lemma IdenticalRowsNotSplit(X: seq<seq<real>>, y: seq<nat>, n: nat, k: nat)
    requires Shaped(X, y, n, k)
    requires forall i, j :: 0 <= i < |X| && 0 <= j < |X| ==> X[i] == X[j]
    ensures BestSplitOf(X, y, n, k) == None
  {
    if BestSplitOf(X, y, n, k).Some? {
      var s := BestSplitOf(X, y, n, k).value;
      BestSplitSound(X, y, n, k);
      SplitRowsOneSide(X, y, s.feature, s.threshold);
      assert false;
    }
  }

  /** Grown from samples of a single class or with identical rows, the node is a leaf. */
  lemma UnsplittableLeaf(X: seq<seq<real>>, y: seq<nat>, n: nat, k: nat, maxDepth: nat, depth: nat)
    requires Shaped(X, y, n, k) && |y| > 0
    requires (forall i, j :: 0 <= i < |y| && 0 <= j < |y| ==> y[i] == y[j])
          || (forall i, j :: 0 <= i < |X| && 0 <= j < |X| ==> X[i] == X[j])
    ensures Grow(X, y, n, k, maxDepth, depth).Leaf?
  {
    if forall i, j :: 0 <= i < |y| && 0 <= j < |y| ==> y[i] == y[j] {
      PureNodeNotSplit(X, y, n, k);
    } else {
      IdenticalRowsNotSplit(X, y, n, k);
    }
  }

  /** Every sample walks down a leaf to the empty path. */
  lemma {:induction false} RoutedLeaf(t: Node, X: seq<seq<real>>, y: seq<nat>, n: nat)
    requires t.Leaf? && |X| == |y| && IsMatrix(X, n)
    ensures Routed(t, X, y, n, []) == y
  {
    if |X| > 0 {
      RoutedLeaf(t, X[1..], y[1..], n);
      assert y == [y[0]] + y[1..];
    }
  }

  lemma ConsInjective(b: bool, c: bool, p: seq<bool>, q: seq<bool>)
    ensures ([b] + p == [c] + q) <==> b == c && p == q
  {
    if [b] + p == [c] + q {
      assert ([b] + p)[0] == b && ([c] + q)[0] == c;
      assert ([b] + p)[1..] == p && ([c] + q)[1..] == q;
    }
  }

  /**
   * The samples taking the left (right) turn at a rule and then the turns
   * `q` are the samples the mask sends left (right) that take the turns
   * `q` in the left (right) subtree, in the same order.
   */
  lemma {:induction false} RoutedBranch(t: Node, X: seq<seq<real>>, y: seq<nat>, n: nat, q: seq<bool>)
    requires t.Branch? && |X| == |y| && IsMatrix(X, n) && FeaturesBelow(t, n)
    ensures var p := SplitRows(X, y, t.featureIndex, t.threshold);
      && IsMatrix(p.xl, n) && IsMatrix(p.xr, n)
      && Routed(t, X, y, n, [true] + q) == Routed(t.left, p.xl, p.yl, n, q)
      && Routed(t, X, y, n, [false] + q) == Routed(t.right, p.xr, p.yr, n, q)
  {
    var f, thr := t.featureIndex, t.threshold;
    SplitRowsShape(X, y, n, Bound(y), f, thr);
    if |X| > 0 {
      RoutedBranch(t, X[1..], y[1..], n, q);
      var p, rest := SplitRows(X, y, f, thr), SplitRows(X[1..], y[1..], f, thr);
      if X[0][f] < thr {
        assert p.xl[1..] == rest.xl && p.yl[1..] == rest.yl && p.xr == rest.xr;
        ConsInjective(true, true, Path(t.left, X[0]), q);
        ConsInjective(true, false, Path(t.left, X[0]), q);
      } else {
        assert p.xr[1..] == rest.xr && p.yr[1..] == rest.yr && p.xl == rest.xl;
        ConsInjective(false, false, Path(t.right, X[0]), q);
        ConsInjective(false, true, Path(t.right, X[0]), q);
      }
    }
  }

  /**
   * The node input `x` walks to records exactly the training samples whose
   * walks take the same turns: their number, their class histogram, their
   * impurity and their most frequent class.
   */
  predicate RecordsRouted(t: Node, X: seq<seq<real>>, y: seq<nat>, n: nat, k: nat, x: seq<real>)
    requires |X| == |y| && IsMatrix(X, n) && FeaturesBelow(t, n) && |x| == n
  {
    var ys := Routed(t, X, y, n, Path(t, x));
    |ys| > 0 && LabelsBelow(ys, k) && Reach(t, x) == Info(ys, k)
  }

  /** What the left subtree records for the rows sent left, the rule records for all rows. */
  lemma RecordsLeft(t: Node, X: seq<seq<real>>, y: seq<nat>, n: nat, k: nat, x: seq<real>)
    requires t.Branch? && |X| == |y| && IsMatrix(X, n) && FeaturesBelow(t, n) && |x| == n
    requires x[t.featureIndex] < t.threshold
    requires var p := SplitRows(X, y, t.featureIndex, t.threshold);
      IsMatrix(p.xl, n) && RecordsRouted(t.left, p.xl, p.yl, n, k, x)
    ensures RecordsRouted(t, X, y, n, k, x)
  {
    RoutedBranch(t, X, y, n, Path(t.left, x));
  }

  /** What the right subtree records for the rows sent right, the rule records for all rows. */
  lemma RecordsRight(t: Node, X: seq<seq<real>>, y: seq<nat>, n: nat, k: nat, x: seq<real>)
    requires t.Branch? && |X| == |y| && IsMatrix(X, n) && FeaturesBelow(t, n) && |x| == n
    requires !(x[t.featureIndex] < t.threshold)
    requires var p := SplitRows(X, y, t.featureIndex, t.threshold);
      IsMatrix(p.xr, n) && RecordsRouted(t.right, p.xr, p.yr, n, k, x)
    ensures RecordsRouted(t, X, y, n, k, x)
  {
    RoutedBranch(t, X, y, n, Path(t.right, x));
  }

  /**
   * Every training sample walks to a node that records exactly the
   * training samples whose walks take the same turns.
   */
  lemma {:induction false} GrowRouted(X: seq<seq<real>>, y: seq<nat>, n: nat, k: nat, maxDepth: nat, depth: nat, j: nat)
    requires Shaped(X, y, n, k) && j < |y|
    ensures FeaturesBelow(Grow(X, y, n, k, maxDepth, depth), n)
    ensures RecordsRouted(Grow(X, y, n, k, maxDepth, depth), X, y, n, k, X[j])
    decreases maxDepth - depth
  {
    GrowFeatures(X, y, n, k, maxDepth, depth);
    GrowStep(X, y, n, k, maxDepth, depth);
    var t := Grow(X, y, n, k, maxDepth, depth);
    if depth < maxDepth && BestSplitOf(X, y, n, k).Some? {
      var s := BestSplitOf(X, y, n, k).value;
      var p := SplitRows(X, y, s.feature, s.threshold);
      var j' := SplitRowsRoute(X, y, s.feature, s.threshold, j);
      if X[j][s.feature] < s.threshold {
        GrowRouted(p.xl, p.yl, n, k, maxDepth, depth + 1, j');
        RecordsLeft(t, X, y, n, k, X[j]);
      } else {
        GrowRouted(p.xr, p.yr, n, k, maxDepth, depth + 1, j');
        RecordsRight(t, X, y, n, k, X[j]);
      }
    } else {
      RoutedLeaf(t, X, y, n);
    }
  }

  /**
   * The tree `fit` grows from the root: consistent and split only where a
   * split helps, at most `maxDepth` splits deep, reading only the `n`
   * features, classifying every input by a node with consistent statistics
   * (so a class below `k` that occurs there), and walking every training
   * sample to a node that counts its class and records exactly the
   * training samples that walk to it.
   */
  lemma FittedTree(X: seq<seq<real>>, y: seq<nat>, n: nat, k: nat, maxDepth: nat)
    requires Shaped(X, y, n, k) && |y| > 0
    ensures var t := Grow(X, y, n, k, maxDepth, 0);
      && WellFormed(t, k)
      && Height(t) <= maxDepth
      && FeaturesBelow(t, n)
      && (forall x: seq<real> :: |x| == n ==> InfoConsistent(Reach(t, x), k))
      && (forall j :: 0 <= j < |y| ==>
            y[j] < |Reach(t, X[j]).numSamplesPerClass| && Reach(t, X[j]).numSamplesPerClass[y[j]] > 0)
      && (forall j :: 0 <= j < |y| ==> RecordsRouted(t, X, y, n, k, X[j]))
  {
    var t := Grow(X, y, n, k, maxDepth, 0);
    GrowWellFormed(X, y, n, k, maxDepth, 0);
    GrowHeight(X, y, n, k, maxDepth, 0);
    GrowFeatures(X, y, n, k, maxDepth, 0);
    forall j | 0 <= j < |y|
      ensures y[j] < |Reach(t, X[j]).numSamplesPerClass| && Reach(t, X[j]).numSamplesPerClass[y[j]] > 0
    {
      GrowReachesOwnClass(X, y, n, k, maxDepth, 0, j);
    }
    forall j | 0 <= j < |y| ensures RecordsRouted(t, X, y, n, k, X[j]) {
      GrowRouted(X, y, n, k, maxDepth, 0, j);
    }
  }
}
