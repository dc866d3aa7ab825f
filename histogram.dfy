/**
 * Per-class sample counts. Class labels are dense ids `0..k-1`; a histogram
 * is a sequence of length `k` whose entry `c` counts the labels equal to `c`.
 */
module Histogram {

  /** Every label is a class id below `k`. */
  predicate LabelsBelow(ls: seq<nat>, k: nat) {
    forall j :: 0 <= j < |ls| ==> ls[j] < k
  }

  /** Number of labels equal to `c` (`np.sum(y == c)`). */
  function Count(ls: seq<nat>, c: nat): nat {
    multiset(ls)[c]
  }

  /** The fixed-length class histogram of `ls` over classes `0..k-1`. */
  function Hist(ls: seq<nat>, k: nat): (h: seq<nat>)
    ensures |h| == k
  {
    seq(k, c requires 0 <= c < k => Count(ls, c))
  }

  /** A class's count is positive exactly when the class occurs. */
  lemma HistOccurs(ls: seq<nat>, k: nat)
    ensures forall c :: 0 <= c < k ==> (Hist(ls, k)[c] > 0 <==> c in ls)
  {
    forall c | 0 <= c < k
      ensures Hist(ls, k)[c] > 0 <==> c in ls
    {
      assert Hist(ls, k)[c] == multiset(ls)[c];
    }
  }

  function Sum(h: seq<nat>): nat {
    if |h| == 0 then 0 else Sum(h[..|h| - 1]) + h[|h| - 1]
  }

  lemma SumAppend(h: seq<nat>, x: nat)
    ensures Sum(h + [x]) == Sum(h) + x
  {
    assert (h + [x])[..|h|] == h;
  }

  /** Pointwise sum of two histograms of the same length. */
  function Add(a: seq<nat>, b: seq<nat>): (r: seq<nat>)
    requires |a| == |b|
  {
    seq(|a|, c requires 0 <= c < |a| => a[c] + b[c])
  }

  /** `np.argmax`: the first index at which the maximum count is attained. */
  function FirstArgMax(h: seq<nat>): (r: nat)
    requires |h| > 0
    ensures r < |h|
    ensures forall c :: 0 <= c < |h| ==> h[c] <= h[r]
    ensures forall c :: 0 <= c < r ==> h[c] < h[r]
  {
    if |h| == 1 then 0
    else
      var r' := FirstArgMax(h[..|h| - 1]);
      if h[r'] < h[|h| - 1] then |h| - 1 else r'
  }

  lemma {:induction false} SumIncrement(h: seq<nat>, x: nat)
    requires x < |h|
    ensures Sum(h[x := h[x] + 1]) == Sum(h) + 1
  {
    var h' := h[x := h[x] + 1];
    if x == |h| - 1 {
      assert h'[..|h'| - 1] == h[..|h| - 1];
    } else {
      assert h'[..|h'| - 1] == h[..|h| - 1][x := h[x] + 1];
      SumIncrement(h[..|h| - 1], x);
    }
  }

  /** The histogram of `k` classes sums to the number of labels. */
  lemma {:induction false} HistSum(ls: seq<nat>, k: nat)
    requires LabelsBelow(ls, k)
    ensures Sum(Hist(ls, k)) == |ls|
  {
    if ls == [] {
      ZeroSum(Hist(ls, k));
    } else {
      var init, x := ls[..|ls| - 1], ls[|ls| - 1];
      assert ls == init + [x];
      HistSum(init, k);
      assert Hist(ls, k) == Hist(init, k)[x := Hist(init, k)[x] + 1];
      SumIncrement(Hist(init, k), x);
    }
  }

  /** Appending a label adds one to its class's count. */
  lemma HistPush(ls: seq<nat>, x: nat, k: nat)
    requires x < k
    ensures Hist(ls + [x], k) == Hist(ls, k)[x := Hist(ls, k)[x] + 1]
  {
    assert multiset(ls + [x]) == multiset(ls) + multiset{x};
  }

  /** Removing the first label takes one from its class's count, which was positive. */
  lemma HistPop(x: nat, ls: seq<nat>, k: nat)
    requires x < k
    ensures Hist([x] + ls, k)[x] > 0
    ensures Hist(ls, k) == Hist([x] + ls, k)[x := Hist([x] + ls, k)[x] - 1]
  {
    assert multiset([x] + ls) == multiset{x} + multiset(ls);
  }

  lemma {:induction false} ZeroSum(h: seq<nat>)
    requires forall c :: 0 <= c < |h| ==> h[c] == 0
    ensures Sum(h) == 0
  {
    if |h| > 0 {
      ZeroSum(h[..|h| - 1]);
    }
  }

  /** Counts are additive when two label sequences are merged. */
  lemma HistOfUnion(a: seq<nat>, b: seq<nat>, ls: seq<nat>, k: nat)
    requires multiset(ls) == multiset(a) + multiset(b)
    ensures Hist(ls, k) == Add(Hist(a, k), Hist(b, k))
  {
  }

  /** The sum of two distinct entries never exceeds the total. */
  lemma {:induction false} SumAtLeastTwo(h: seq<nat>, a: nat, b: nat)
    requires a < |h| && b < |h| && a != b
    ensures h[a] + h[b] <= Sum(h)
  {
    var last := |h| - 1;
    if a == last {
      SumAtLeastOne(h[..last], b);
    } else if b == last {
      SumAtLeastOne(h[..last], a);
    } else {
      SumAtLeastTwo(h[..last], a, b);
    }
  }

  lemma {:induction false} SumAtLeastOne(h: seq<nat>, a: nat)
    requires a < |h|
    ensures h[a] <= Sum(h)
  {
    if a < |h| - 1 {
      SumAtLeastOne(h[..|h| - 1], a);
    }
  }
}
