# Decision tree classifier (CART, Gini impurity)

This project models the classifier in `custom-machine-learning-model6.py`. It is a
binary decision tree grown greedily, one node at a time:

- A node's **impurity** is the Gini index of the labels that reach it: one minus the sum of
  the squared class proportions, and 0 for no labels.
- The **split search** (`_best_split`) goes through the features one at a time:
  - It sorts the node's samples by that feature.
  - It moves a cut from left to right, keeping a count per class on each side of the cut.
  - It keeps the first cut whose weighted impurity is strictly lower than anything seen so
    far. The starting value is the node's own impurity.
  - It skips cuts between two equal values. A kept cut's threshold is the midpoint of the two
    values it separates.
- The **tree builder** (`_grow_tree`) records each node's impurity, size, class histogram and
  majority class. While `depth < max_depth` and the search finds a split, it sends each
  sample left when `x[feature] < threshold` and grows the two children one level deeper.
- **Prediction** (`_predict`, `predict`) walks each input row from the root down to a node
  without children and returns that node's class.

Modules, in dependency order:

| file | module | contents |
|---|---|---|
| `wrappers.dfy` | `Wrappers` | `Option` |
| `histogram.dfy` | `Histogram` | per-class counts (`np.sum(y == c)`), their sum, how one label more or less changes them, and the first arg-max (`np.argmax`) |
| `impurity.dfy` | `Impurity` | `np.unique`, `gini_index`, its range `0 .. 1 - 1/u` for `u` distinct classes, and when it is zero |
| `samples.dfy` | `Samples` | a feature column; sorting it (`np.argsort`); routing rows by a threshold (the boolean mask) |
| `split_search.dfy` | `SplitSearch` | the split search as a specification fold, its soundness, its optimality among all splits, and its tie-break |
| `tree.dfy` | `Tree` | the node datatype, `_grow_tree` as a function, walking the tree, the training samples routed to each node, and the grown tree's guarantees |
| `classifier.dfy` | `Classifier` | the `DecisionTreeClassifier` class: the imperative split search over two count arrays, the recursive builder, `fit`, `_predict` and `predict` |

Modelling conventions:

- Class labels are dense ids `0..k-1`. Every histogram has one entry per class, and `fit`
  takes `k` to be one more than the largest label. The source sizes its per-node count lists
  by the number of distinct labels at the node. The two agree whenever a node's labels are
  exactly `0..u-1`; see "## Left out" and "## Findings".
- Impurities and thresholds are exact `real`s.
- `np.argsort` is modelled by a fixed sort of `(value, label)` points by value (an insertion
  sort).
- The imperative code is proved equal to the specification functions:
  - `BestSplit` and `SweepColumn` keep `num_left` / `num_right` in arrays.
  - `GrowTree` recurses.
  - `PredictOne` is a `while` loop.
  - `Predict` is a `for` loop.

  Every property is then proved about those functions.

## Model

| member | source | states |
|---|---|---|
| Histogram.FirstArgMax | custom-machine-learning-model6.py:78 | `np.argmax`: the returned index holds a maximal count and every earlier index a strictly smaller one |
| Histogram.HistOccurs | custom-machine-learning-model6.py:77 | a class's count (`np.sum(y == c)`) is positive exactly when the class occurs among the labels |
| Histogram.HistSum | custom-machine-learning-model6.py:77-82 | a node's class histogram sums to its number of samples |
| Histogram.HistPush | custom-machine-learning-model6.py:56 | counting one more label of class `c` adds one to entry `c` and leaves every other entry unchanged (`num_left[c] += 1`) |
| Histogram.HistPop | custom-machine-learning-model6.py:57 | counting one label of class `c` less takes one from entry `c`, which was positive, and leaves every other entry unchanged (`num_right[c] -= 1`) |
| Histogram.HistOfUnion | custom-machine-learning-model6.py:90-92 | the histogram of a union of two label sequences is the class-wise sum of their histograms |
| Impurity.Unique | custom-machine-learning-model6.py:25 | `np.unique`: strictly increasing, and holds exactly the labels that occur |
| Impurity.Bound | custom-machine-learning-model6.py:99-101 | the class count `fit` uses: every label lies below it, and for non-empty labels its predecessor occurs |
| Impurity.GiniIndex | custom-machine-learning-model6.py:20-25 | `gini_index` is never negative, and for non-empty labels with `u` distinct classes it is at most `1 - 1/u`, so always below 1 |
| Impurity.GiniIndexOfHist | custom-machine-learning-model6.py:20-25 | for non-empty labels below `k`, the sum over the distinct classes present equals the impurity of the length-`k` histogram, so absent classes add nothing |
| Impurity.GiniOfCountsRange | custom-machine-learning-model6.py:42 | the impurity computed from a histogram of `h` classes whose counts sum to the sample count (the parent's `best_gini`, each side's impurity) lies between 0 and `1 - 1/h` |
| Impurity.GiniIndexAtMost | custom-machine-learning-model6.py:20-25 | with labels below `k`, the Gini index is at most `1 - 1/k` |
| Impurity.PureGiniZero | custom-machine-learning-model6.py:22-25 | labels that all share one class have impurity 0 |
| Impurity.MixedGiniPositive | custom-machine-learning-model6.py:22-25 | labels with two different classes have impurity strictly above 0 |
| Impurity.GiniZeroIff | custom-machine-learning-model6.py:20-25 | the impurity is 0 exactly when all labels are equal (including no labels) |
| Impurity.UniqueOfPure | custom-machine-learning-model6.py:25 | `np.unique` of labels that all share one class is that single class |
| Samples.Column | custom-machine-learning-model6.py:48-49 | the column of feature `f` has one point per sample, in sample order, holding that sample's value of `f` and its label, so its labels are `y` |
| Samples.SortByValue | custom-machine-learning-model6.py:48-49 | the sorted column is ordered by value and is a permutation of the column |
| Samples.LabelsPerm | custom-machine-learning-model6.py:49 | reordering the samples (`y[sorted_indices]`) reorders their labels: same multiset |
| Samples.KeepCount | custom-machine-learning-model6.py:90-92 | selecting one side of a threshold keeps each point on that side exactly as often as it occurs, and no point of the other side |
| Samples.SplitRows | custom-machine-learning-model6.py:90-92 | each side's row matrix and label vector have the same length |
| Samples.SplitRowsPartition | custom-machine-learning-model6.py:90-92 | every sample goes to exactly one side: the labels of the two sides together are the node's labels; every row on the left is a row of `X` below the threshold and every row on the right one that is not |
| Samples.SplitRowsRoute | custom-machine-learning-model6.py:90-92 | sample `j` is found, with its own label, on the side its feature value selects |
| Samples.SplitRowsShape | custom-machine-learning-model6.py:90-92 | both sides keep `n` features per row and labels below `k` |
| Samples.SplitRowsOneSide | custom-machine-learning-model6.py:90-92 | when all rows are identical, one side of any split is empty |
| Samples.SortedCut | custom-machine-learning-model6.py:48-49 | any threshold falls between two adjacent positions of the sorted column, at the number of values below it |
| SplitSearch.WeightedBetween | custom-machine-learning-model6.py:64 | the weighted impurity `(i * gini_left + (m - i) * gini_right) / m` lies between any common bounds of the two sides' impurities |
| SplitSearch.CutGini | custom-machine-learning-model6.py:58-64 | the `gini` the sweep computes at a cut, for labels below `k`, lies between 0 and `1 - 1/k` |
| SplitSearch.MidpointBetween | custom-machine-learning-model6.py:67-72 | the threshold of a kept cut lies strictly between the two distinct sorted values it separates |
| SplitSearch.CutCounts | custom-machine-learning-model6.py:52-57 | at cut `i`, the left counts sum to `i` and the right counts to `m - i`, and class by class they add up to the parent's counts |
| SplitSearch.CutStep | custom-machine-learning-model6.py:66-72 | one step of the sweep never raises the best impurity, leaves it no higher than the cut when that cut separates distinct values, and changes the incumbent only to that cut, with its midpoint threshold, when it is strictly better |
| SplitSearch.SweepCuts | custom-machine-learning-model6.py:54-72 | sweeping a column's cuts never raises the best impurity, leaves it no higher than every cut between distinct values, and yields the incumbent or a split on that column's feature |
| SplitSearch.SortedColumns | custom-machine-learning-model6.py:46-49 | one sorted column per feature, each with one point per sample |
| SplitSearch.SweepFeatures | custom-machine-learning-model6.py:46-72 | sweeping the features in order never raises the best impurity, leaves it no higher than every cut between distinct values of every swept feature, and yields the incumbent or a split on a swept feature |
| SplitSearch.BestSplitOf | custom-machine-learning-model6.py:32-73 | a returned split needs more than one sample and uses a feature below `n` |
| SplitSearch.CutIsSplit | custom-machine-learning-model6.py:58-64 | the impurity the sweep computes from the running counts at a cut equals the weighted `gini_index` of the two sides that the row split by any threshold at that cut produces, and both sides are non-empty |
| SplitSearch.SweepCutsOrigin | custom-machine-learning-model6.py:54-72 | when sweeping a column changes the incumbent, the result is one cut between distinct values, strictly better than the starting incumbent and than every earlier cut between distinct values of the column: ties go to the first cut |
| SplitSearch.SweepFeaturesOrigin | custom-machine-learning-model6.py:46-72 | when sweeping the features changes the incumbent, the result is one cut of one swept feature, strictly better than every cut between distinct values of an earlier feature and every earlier such cut of its own feature: ties go to the first feature, then to the first cut |
| SplitSearch.SweptSound | custom-machine-learning-model6.py:42-73 | with no split the best impurity is the node's own. With a split, its feature is below `n`, both sides are non-empty, its threshold is a midpoint of adjacent distinct values, and its recorded impurity is the split's weighted impurity, strictly below the node's |
| SplitSearch.BestSplitSound | custom-machine-learning-model6.py:32-73 | a returned split needs more than one sample, uses a feature below `n`, leaves both sides non-empty, has a midpoint threshold, and has weighted impurity strictly below the node's `gini_index` |
| SplitSearch.SplitAtCut | custom-machine-learning-model6.py:48-64 | every split that leaves both sides non-empty is a cut between distinct values of its feature's sorted column, at the number of samples it sends left, with the same weighted impurity |
| SplitSearch.BestSplitOptimal | custom-machine-learning-model6.py:32-73 | no split on any feature at any threshold that leaves both sides non-empty has lower weighted impurity than the returned split, or than the node itself when none is returned |
| SplitSearch.BestSplitFirst | custom-machine-learning-model6.py:66-72 | ties go to the first split found: any split on an earlier feature, or on the same feature sending fewer samples left, has strictly higher weighted impurity than the returned split |
| Classifier.ShiftCounts | custom-machine-learning-model6.py:55-57 | moving the next sorted sample across the cut adds one to its class on the left and takes one from a positive count on the right, which gives the histograms of the new sides |
| Classifier.ColumnCounts | custom-machine-learning-model6.py:49-53 | a sorted column holds the node's labels (all below `k`), so `num_right` starts as the parent's counts |
| Classifier.DecisionTreeClassifier.constructor | custom-machine-learning-model6.py:29-30 | stores `max_depth`; no tree is fitted yet |
| Classifier.DecisionTreeClassifier.BestSplit | custom-machine-learning-model6.py:32-73 | `_best_split` with its loop over features returns exactly the split of the specification fold (sound, optimal and first among ties by the lemmas above), and `None` for at most one sample |
| Classifier.DecisionTreeClassifier.SweepColumn | custom-machine-learning-model6.py:51-72 | the sweep over one sorted column, keeping `num_left` / `num_right` in arrays that equal the histograms of the two sides at every step, ends with the incumbent of the specification sweep |
| Classifier.DecisionTreeClassifier.MoveCount | custom-machine-learning-model6.py:55-57 | the two array updates leave `num_left` and `num_right` equal to the histograms of the two sides of the next cut |
| Classifier.DecisionTreeClassifier.GrowTree | custom-machine-learning-model6.py:75-97 | the recursive builder returns exactly the tree `Grow` specifies |
| Classifier.DecisionTreeClassifier.Fit | custom-machine-learning-model6.py:99-101 | `fit` stores the tree grown from the root at depth 0 over the columns of `X` and the classes of `y` |
| Classifier.DecisionTreeClassifier.PredictOne | custom-machine-learning-model6.py:103-111 | the walk goes left exactly when the input's value is below the node's threshold and returns the class of the node without children that it reaches |
| Classifier.DecisionTreeClassifier.Predict | custom-machine-learning-model6.py:113-115 | one prediction per input row, in input order, each the class the tree walk gives for that row |
| Tree.Info | custom-machine-learning-model6.py:77-84 | a node records `len(y)` samples and a histogram of one entry per class summing to it, its impurity is that of the histogram and non-negative, and its predicted class is the first most frequent class and occurs in `y` |
| Tree.Grow | custom-machine-learning-model6.py:75-97 | every grown node records the statistics of the samples reaching it |
| Tree.GrowStep | custom-machine-learning-model6.py:86-97 | a node below the depth limit with a split found becomes a rule whose children are grown from the two non-empty sides one level deeper; otherwise it has no children |
| Tree.GrowWellFormed | custom-machine-learning-model6.py:75-97 | every grown node is consistent. At every split, the children's histograms add up to the parent's, their sizes add up to its size, and their weighted impurity is strictly below its impurity |
| Tree.GrowFeatures | custom-machine-learning-model6.py:88-94 | every rule of the grown tree reads one of the `n` features |
| Tree.GrowHeight | custom-machine-learning-model6.py:87 | no node at `depth >= max_depth` is split, so no leaf lies more than `max_depth - depth` splits below the node |
| Tree.Reach | custom-machine-learning-model6.py:105-111 | the node the walk stops at in a well-formed tree has consistent statistics, so its predicted class is a class below `k` that occurs there |
| Tree.RoutedLeaf | custom-machine-learning-model6.py:90-97 | at a node without children every training sample reaching it is recorded there, in order |
| Tree.RoutedBranch | custom-machine-learning-model6.py:90-96 | the training samples whose walk turns left (right) at a rule and then follows turns `q` are exactly the samples the mask sends left (right) whose walk in that subtree follows `q`, in the same order |
| Tree.GrowRouted | custom-machine-learning-model6.py:77-96 | the node each training sample walks to records exactly the training samples whose walks take the same turns: their number, histogram, impurity and most frequent class |
| Tree.GrowReachesOwnClass | custom-machine-learning-model6.py:90-96 | each training sample, walked down the tree grown from it, reaches a node that counts its own class |
| Tree.PureNodeNotSplit | custom-machine-learning-model6.py:42-72 | a node whose samples all share one class is never split |
| Tree.IdenticalRowsNotSplit | custom-machine-learning-model6.py:67-68 | samples whose feature rows are all identical are never split |
| Tree.UnsplittableLeaf | custom-machine-learning-model6.py:86-97 | a node grown from single-class samples or from identical rows has no children |
| Tree.FittedTree | custom-machine-learning-model6.py:99-115 | the fitted tree is well formed and at most `max_depth` splits deep. It reads only existing features, classifies every input through a consistent node, walks every training sample to a node counting its class, and each such node records exactly the training samples that walk to it |
| Tree.PredictedClassAsWritten | custom-machine-learning-model6.py:77-78 | the source's `predicted_class` is an index into the node's distinct classes |
| Tree.PredictedClassAsWrittenMislabels | custom-machine-learning-model6.py:77-78 | for a node whose samples are all of one class `c > 0`, the source's `predicted_class` is 0, a class absent from the node, while `Info` predicts `c` |

## Left out

- The `__main__` driver (lines 119-130) is I/O and is not modelled. The model does not claim the
  driver's XOR example learns XOR. On XOR every distinct-value cut at the root has weighted
  impurity 0.5, which is not strictly below the root's 0.5, so the root stays a leaf and all four
  predictions are class 0. This is not proved as a concrete run either.
- Floating point: impurities, weighted impurities and midpoint thresholds are exact reals, so
  rounding in the comparisons `gini < best_gini` and `x < threshold` is not modelled.
- `max_depth=None`: in Python 3, `depth < None` raises `TypeError`. `max_depth` is modelled as a
  natural number.
- Per-node list sizes: the source sizes `num_parent`, `num_left`, `num_right` and
  `num_samples_per_class` by the number `u` of distinct labels at the node. It indexes the first
  three by label value. When a node's labels are not exactly `0..u-1`, `_best_split` can go
  wrong in two ways. It raises `IndexError` when a label `>= u` is among the first `m - 1` sorted
  samples. Otherwise, when the only such label sorts last, it computes wrong impurities, possibly
  negative, without raising. An example is `X = [[0], [1], [2]]`, `y = [1, 1, 2]`: at the cut
  before position 2, `num_right` is `[2, -1]`, the right side's impurity is `-4` and the weighted
  impurity `-4/3`. The model uses histograms of all `k` classes, which is what the source
  computes whenever the node's labels are dense. It models neither the crash nor the wrong
  impurities. The wrong predicted class in the same situation is under "## Findings".
- `Samples.SortByValue`: `np.argsort` is not stable, and any sorting permutation is allowed. The
  model fixes one sort by value. It does not prove that every sorting permutation yields the same
  split. Lemmas `BestSplitSound` and `BestSplitOptimal` are stated without reference to the order.
- Node mutation: `_grow_tree` creates a node and then sets `feature_index`, `threshold`, `left`
  and `right`. The model builds the `Branch` value once the children exist. A leaf's unused
  `feature_index = 0` and `threshold = 0` are not stored.
- Classifier.DecisionTreeClassifier.SweepColumn: the body of the loop over features runs as its
  own method, called once per feature. The running counts are arrays. The node's rows and labels
  are immutable sequences.
- Classifier.DecisionTreeClassifier.Fit: requires non-empty `y` and rows of equal length. On
  empty `y` the source fails in `np.argmax` of an empty list. The number of features is the
  length of the first row.
- Classifier.DecisionTreeClassifier.PredictOne: requires a fitted tree, and inputs long enough
  for every feature the tree reads. The source does not check these. Without a fitted tree it
  fails with an `AttributeError`. With a short input it fails with an `IndexError` only when the
  path actually taken reads a missing feature; a short input whose walk avoids those rules is
  classified normally.
- Classifier.DecisionTreeClassifier.maxDepth: a constant set by the constructor. The source
  stores it as an attribute that nothing in the class changes, so reassigning it from outside
  between calls is not modelled.

## Findings

| source | as written | input that shows it | evidently intended | confidence | as-written member | corrected member |
|---|---|---|---|---|---|---|
| custom-machine-learning-model6.py:77-78 | `predicted_class` is the arg-max position among the counts of the classes present at the node, not a class id | `X = [[0], [1], [1]]`, `y = [0, 1, 1]`, `max_depth = 1`: the root splits at 0.5. The right child holds two samples of class 1 and records `predicted_class = 0`, so `predict([[1]])` returns 0 | predict the most frequent class id at the node | high for the arithmetic, not executed | Tree.PredictedClassAsWrittenMislabels | Tree.Info |
