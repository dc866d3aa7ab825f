/**
 * `DecisionTreeClassifier`: the imperative split search with its running
 * per-class counts, the recursive tree builder, `fit`, and the
 * tree walk of `_predict` / `predict`.
 */
module Classifier {
  import opened Wrappers
  import opened Histogram
  import opened Impurity
  import opened Samples
  import opened SplitSearch
  import opened Tree

  /**
   * Moving the point before position `i` from the right side of the cut
   * to the left side moves one count of its class from `right` to `left`.
   */
  lemma ShiftCounts(s: seq<Point>, i: nat, k: nat, left: seq<nat>, right: seq<nat>)
    requires 0 < i <= |s| && s[i - 1].classId < k
    requires left == Hist(Labels(s[..i - 1]), k) && right == Hist(Labels(s[i - 1..]), k)
    ensures var c := s[i - 1].classId;
      && c < |left| == |right| == k
      && right[c] > 0
      && left[c := left[c] + 1] == Hist(Labels(s[..i]), k)
      && right[c := right[c] - 1] == Hist(Labels(s[i..]), k)
  {
    var c := s[i - 1].classId;
    assert Labels(s[..i]) == Labels(s[..i - 1]) + [c] by {
      assert s[..i] == s[..i - 1] + [s[i - 1]];
      LabelsConcat(s[..i - 1], [s[i - 1]]);
    }
    assert Labels(s[i - 1..]) == [c] + Labels(s[i..]) by {
      assert s[i - 1..] == [s[i - 1]] + s[i..];
      LabelsConcat([s[i - 1]], s[i..]);
    }
    HistPush(Labels(s[..i - 1]), c, k);
    HistPop(c, Labels(s[i..]), k);
  }

  /**
   * One step of the sweep in the loop's terms: a cut between equal values
   * is skipped, and otherwise the cut's impurity `gini`, computed from the
   * running counts, replaces the incumbent only when strictly lower.
   */
  lemma CountsStep(s: seq<Point>, f: nat, k: nat, best: Candidate, i: nat, left: seq<nat>, right: seq<nat>, gini: real)
    requires 0 < i < |s|
    requires left == Hist(Labels(s[..i]), k) && right == Hist(Labels(s[i..]), k)
    requires gini == Weighted(i, GiniOfCounts(left, i), |s| - i, GiniOfCounts(right, |s| - i), |s|)
    ensures CutStep(s, f, k, best, i) ==
      if s[i].value == s[i - 1].value then best
      else if gini < best.gini then Candidate(gini, Some(Split(f, (s[i].value + s[i - 1].value) / 2.0)))
      else best
  {
  }

  /** The sorted column of a feature holds the node's labels, all below `k`. */
  lemma ColumnCounts(X: seq<seq<real>>, y: seq<nat>, n: nat, k: nat, f: nat)
    requires Shaped(X, y, n, k) && f < n
    ensures var s := SortedColumn(X, y, n, f);
      && (forall j :: 0 <= j < |s| ==> s[j].classId < k)
      && Hist(Labels(s), k) == Hist(y, k)
  {
    SortedColumnLabels(X, y, n, k, f);
  }

  class DecisionTreeClassifier {
    /** The depth below which nodes may still be split. */
    const maxDepth: nat
    /** The fitted tree (`tree_`), absent before `Fit`. */
    var tree: Option<Node>

    constructor(maxDepth: nat)
      ensures this.maxDepth == maxDepth && tree == None
    {
      this.maxDepth := maxDepth;
      tree := None;
    }

    /**
     * `_best_split`: sweeps every feature's sorted column and returns the
     * first strictly best cut between distinct values, or `None` when the
     * node has at most one sample or no cut beats the node's own impurity.
     */
    method BestSplit(X: seq<seq<real>>, y: seq<nat>, n: nat, k: nat) returns (split: Option<Split>)
      requires Shaped(X, y, n, k)
      ensures split == BestSplitOf(X, y, n, k)
    {
      var m := |y|;
      if m <= 1 {
        return None;
      }
      var numParent := Hist(y, k);
      var bestGini := GiniOfCounts(numParent, m);
      split := None;
      ghost var cols := SortedColumns(X, y, n);
      for idx := 0 to n
        invariant Candidate(bestGini, split) == SweepFeatures(cols, m, k, Start(y, k), idx)
      {
        var s := SortedColumn(X, y, n, idx);
        ColumnCounts(X, y, n, k, idx);
        bestGini, split := SweepColumn(s, idx, k, numParent, bestGini, split);
      }
    }

    /**
     * The body of `_best_split`'s loop over features: sweeps the cut through
     * the sorted column `s` of feature `idx`, keeping the class counts left
     * (`num_left`) and right (`num_right`) of the cut in two arrays.
     */
    method SweepColumn(s: seq<Point>, idx: nat, k: nat, numParent: seq<nat>, bestGini: real, split: Option<Split>)
      returns (bestGini': real, split': Option<Split>)
      requires |s| > 1 && forall j :: 0 <= j < |s| ==> s[j].classId < k
      requires numParent == Hist(Labels(s), k)
      ensures Candidate(bestGini', split') == SweepCuts(s, idx, k, Candidate(bestGini, split), |s|)
    {
      var m := |s|;
      bestGini', split' := bestGini, split;
      var numLeft := new nat[k](_ => 0);
      var numRight := new nat[k](c requires 0 <= c < k => numParent[c]);
      assert numRight[..] == numParent;
      assert Labels(s[..0]) == [] && s[0..] == s;
      for i := 1 to m
        invariant numLeft[..] == Hist(Labels(s[..i - 1]), k)
        invariant numRight[..] == Hist(Labels(s[i - 1..]), k)
        invariant Candidate(bestGini', split') == SweepCuts(s, idx, k, Candidate(bestGini, split), i)
      {
        MoveCount(s, i, k, numLeft, numRight);
        var giniLeft := GiniOfCounts(numLeft[..], i);
        var giniRight := GiniOfCounts(numRight[..], m - i);
        var gini := Weighted(i, giniLeft, m - i, giniRight, m);
        CountsStep(s, idx, k, Candidate(bestGini', split'), i, numLeft[..], numRight[..], gini);
        if s[i].value == s[i - 1].value {
          continue;
        }
        if gini < bestGini' {
          bestGini' := gini;
          split' := Some(Split(idx, (s[i].value + s[i - 1].value) / 2.0));
        }
      }
    }

    /**
     * Moves the point before position `i` across the cut: one count of its
     * class goes from `right` (`num_right`) to `left` (`num_left`), so both
     * arrays then hold the counts of the two sides of the cut at `i`.
     */
    static method MoveCount(s: seq<Point>, i: nat, k: nat, left: array<nat>, right: array<nat>)
      requires 0 < i <= |s| && s[i - 1].classId < k && left != right
      requires left[..] == Hist(Labels(s[..i - 1]), k) && right[..] == Hist(Labels(s[i - 1..]), k)
      modifies left, right
      ensures left[..] == Hist(Labels(s[..i]), k) && right[..] == Hist(Labels(s[i..]), k)
    {
      var c := s[i - 1].classId;
      ShiftCounts(s, i, k, left[..], right[..]);
      left[c] := left[c] + 1;
      right[c] := right[c] - 1;
    }

    /**
     * `_grow_tree`: records the node's statistics, then, while
     * `depth < maxDepth` and a split is found, sets its rule and grows its
     * two children from the samples on either side.
     */
    method GrowTree(X: seq<seq<real>>, y: seq<nat>, n: nat, k: nat, depth: nat) returns (node: Node)
      requires Shaped(X, y, n, k) && |y| > 0
      ensures node == Grow(X, y, n, k, maxDepth, depth)
      decreases maxDepth - depth
    {
      GrowStep(X, y, n, k, maxDepth, depth);
      node := Leaf(Info(y, k));
      if depth < maxDepth {
        var split := BestSplit(X, y, n, k);
        if split.Some? {
          var idx, thr := split.value.feature, split.value.threshold;
          var p := SplitRows(X, y, idx, thr);
          var left := GrowTree(p.xl, p.yl, n, k, depth + 1);
          var right := GrowTree(p.xr, p.yr, n, k, depth + 1);
          node := Branch(node.info, idx, thr, left, right);
        }
      }
    }

    /**
     * `fit`: grows the tree from the root at depth 0. The features are the
     * columns of `X` and the classes the ids below one more than the
     * largest label.
     */
    method Fit(X: seq<seq<real>>, y: seq<nat>)
      requires |X| == |y| > 0 && IsMatrix(X, |X[0]|)
      modifies this
      ensures tree == Some(Grow(X, y, |X[0]|, Bound(y), maxDepth, 0))
    {
      var t := GrowTree(X, y, |X[0]|, Bound(y), 0);
      tree := Some(t);
    }

    /**
     * `_predict`: walks from the root, going left when the input's value of
     * the node's feature is below its threshold, until a node without
     * children, and returns that node's predicted class.
     */
    method PredictOne(inputs: seq<real>) returns (c: nat)
      requires tree.Some? && FeaturesBelow(tree.value, |inputs|)
      ensures c == Classify(tree.value, inputs)
    {
      var node := tree.value;
      while node.Branch?
        invariant FeaturesBelow(node, |inputs|)
        invariant Classify(node, inputs) == Classify(tree.value, inputs)
        decreases node
      {
        if inputs[node.featureIndex] < node.threshold {
          node := node.left;
        } else {
          node := node.right;
        }
      }
      c := node.info.predictedClass;
    }

    /** `predict`: one prediction per input row, in order. */
    method Predict(X: seq<seq<real>>) returns (r: seq<nat>)
      requires tree.Some? && forall j :: 0 <= j < |X| ==> FeaturesBelow(tree.value, |X[j]|)
      ensures |r| == |X|
      ensures forall j :: 0 <= j < |X| ==> r[j] == Classify(tree.value, X[j])
    {
      r := [];
      for j := 0 to |X|
        invariant |r| == j
        invariant forall i :: 0 <= i < j ==> r[i] == Classify(tree.value, X[i])
      {
        var c := PredictOne(X[j]);
        r := r + [c];
      }
    }
  }
}
