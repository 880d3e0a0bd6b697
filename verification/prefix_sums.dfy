/** The abstract contract every Fenwick tree of the library refines: a sequence
    of non-negative integers with prefix sums, point updates and the search for
    the longest prefix whose sum does not exceed a value.

    Positions are 1-based as in the library: element i of the tree is s[i - 1]. */
module PrefixSums {

  /** s[a] + ... + s[b - 1]. */
  function Sum(s: seq<nat>, a: nat, b: nat): nat
    requires a <= b <= |s|
    decreases b - a
  {
    if a == b then 0 else Sum(s, a, b - 1) + s[b - 1]
  }

  /** Sum of the first i elements. */
  function Prefix(s: seq<nat>, i: nat): nat
    requires i <= |s|
  {
    Sum(s, 0, i)
  }

  lemma {:induction false} SumSplit(s: seq<nat>, a: nat, m: nat, b: nat)
    requires a <= m <= b <= |s|
    ensures Sum(s, a, b) == Sum(s, a, m) + Sum(s, m, b)
    decreases b - m
  {
    if m < b {
      SumSplit(s, a, m, b - 1);
    }
  }

  /** A range sum is the difference of two prefix sums. */
  lemma RangeIsPrefixDifference(s: seq<nat>, a: nat, b: nat)
    requires a <= b <= |s|
    ensures Sum(s, a, b) == Prefix(s, b) - Prefix(s, a)
  {
    SumSplit(s, 0, a, b);
  }

  /** Elements appended after b (or dropped after b) leave the sums up to b alone. */
  lemma {:induction false} SumPrefixOf(s: seq<nat>, t: seq<nat>, a: nat, b: nat)
    requires a <= b <= |s| <= |t| && s == t[..|s|]
    ensures Sum(s, a, b) == Sum(t, a, b)
    decreases b - a
  {
    if a < b {
      SumPrefixOf(s, t, a, b - 1);
      assert s[b - 1] == t[b - 1];
    }
  }

  lemma PrefixMonotone(s: seq<nat>, i: nat, j: nat)
    requires i <= j <= |s|
    ensures Prefix(s, i) <= Prefix(s, j)
  {
    SumSplit(s, 0, i, j);
  }

  /** Every element at most `bound`. */
  predicate Bounded(s: seq<nat>, bound: nat)
  {
    forall k :: 0 <= k < |s| ==> s[k] <= bound
  }

  lemma {:induction false} SumBound(s: seq<nat>, a: nat, b: nat, bound: nat)
    requires a <= b <= |s| && Bounded(s, bound)
    ensures Sum(s, a, b) <= bound * (b - a)
    decreases b - a
  {
    if a < b {
      SumBound(s, a, b - 1, bound);
      assert bound * (b - a) == bound * (b - 1 - a) + bound;
    }
  }

  // ---------------------------------------------------------------------------
  // Point update

  /** The sequence after adding inc to element i (1-based); the library's add
      takes a signed increment and demands that the element stays non-negative. */
  function Update(s: seq<nat>, i: nat, inc: int): (r: seq<nat>)
    requires 1 <= i <= |s| && s[i - 1] + inc >= 0
    ensures |r| == |s|
  {
    s[i - 1 := s[i - 1] + inc]
  }

  /** A range sum changes by inc exactly when the range contains the updated element. */
  lemma {:induction false} SumUpdate(s: seq<nat>, i: nat, inc: int, a: nat, b: nat)
    requires 1 <= i <= |s| && s[i - 1] + inc >= 0 && a <= b <= |s|
    ensures Sum(Update(s, i, inc), a, b) == Sum(s, a, b) + (if a < i <= b then inc else 0)
    decreases b - a
  {
    if a < b {
      SumUpdate(s, i, inc, a, b - 1);
    }
  }

  lemma PrefixUpdate(s: seq<nat>, i: nat, inc: int, k: nat)
    requires 1 <= i <= |s| && s[i - 1] + inc >= 0 && k <= |s|
    ensures Prefix(Update(s, i, inc), k) == Prefix(s, k) + (if i <= k then inc else 0)
  {
    SumUpdate(s, i, inc, 0, k);
  }

  /** An update that keeps the element within the bound keeps the sequence bounded
      and moves the total by inc. */
  lemma UpdateKeepsBounds(s: seq<nat>, i: nat, inc: int, bound: nat)
    requires Bounded(s, bound) && 1 <= i <= |s| && 0 <= s[i - 1] + inc <= bound
    ensures Bounded(Update(s, i, inc), bound)
    ensures Prefix(Update(s, i, inc), |s|) == Prefix(s, |s|) + inc
  {
    PrefixUpdate(s, i, inc, |s|);
  }

  // ---------------------------------------------------------------------------
  // Complement (the sequence compFind searches)

  function Complement(s: seq<nat>, bound: nat): (r: seq<nat>)
    requires Bounded(s, bound)
    ensures |r| == |s|
    ensures forall k :: 0 <= k < |s| ==> r[k] == bound - s[k]
  {
    seq(|s|, k requires 0 <= k < |s| => bound - s[k])
  }

  lemma {:induction false} SumComplement(s: seq<nat>, bound: nat, a: nat, b: nat)
    requires Bounded(s, bound) && a <= b <= |s|
    ensures Sum(Complement(s, bound), a, b) == bound * (b - a) - Sum(s, a, b)
    decreases b - a
  {
    if a < b {
      SumComplement(s, bound, a, b - 1);
      assert bound * (b - a) == bound * (b - 1 - a) + bound;
    }
  }

  // ---------------------------------------------------------------------------
  // Search

  /** p is the largest position whose prefix sum does not exceed val. */
  ghost predicate IsLargest(s: seq<nat>, val: nat, p: nat)
  {
    && p <= |s|
    && Prefix(s, p) <= val
    && forall q :: p < q <= |s| ==> Prefix(s, q) > val
  }

  /** Reference search: scan down from the full length. */
  function Largest(s: seq<nat>, val: nat, from: nat): (p: nat)
    requires from <= |s|
    requires forall q :: from < q <= |s| ==> Prefix(s, q) > val
    ensures IsLargest(s, val, p)
  {
    if from == 0 || Prefix(s, from) <= val then from
    else Largest(s, val, from - 1)
  }

  /** The largest position is unique, so every correct search returns the same answer. */
  lemma LargestUnique(s: seq<nat>, val: nat, p: nat, q: nat)
    requires IsLargest(s, val, p) && IsLargest(s, val, q)
    ensures p == q
  {
  }

  /** If the next position already exceeds val, p is the largest. */
  lemma LargestFromNext(s: seq<nat>, val: nat, p: nat)
    requires p <= |s| && Prefix(s, p) <= val
    requires p == |s| || Prefix(s, p + 1) > val
    ensures IsLargest(s, val, p)
  {
    forall q | p < q <= |s| ensures Prefix(s, q) > val {
      PrefixMonotone(s, p + 1, q);
    }
  }

  // ---------------------------------------------------------------------------
  // Component trees: the operations of any tree meeting the contract

  /** add(i, inc) of a component: i is 1-based; an index past the end changes nothing. */
  function TreeAdd(c: seq<nat>, i: nat, inc: int): (r: seq<nat>)
    requires 1 <= i && (i <= |c| ==> c[i - 1] + inc >= 0)
    ensures |r| == |c|
  {
    if i <= |c| then Update(c, i, inc) else c
  }

  /** find(val) of a component: the largest p with prefix(p) <= val, and val - prefix(p). */
  function TreeFind(c: seq<nat>, val: nat): (r: (nat, nat))
    ensures IsLargest(c, val, r.0) && r.1 == val - Prefix(c, r.0)
  {
    var p := Largest(c, val, |c|);
    (p, val - Prefix(c, p))
  }

  /** compfind(val) of a component whose elements are at most bound: find over bound - c[k]. */
  function TreeCompFind(c: seq<nat>, bound: nat, val: nat): (r: (nat, nat))
    requires Bounded(c, bound)
    ensures IsLargest(Complement(c, bound), val, r.0)
    ensures r.1 == val - Prefix(Complement(c, bound), r.0)
  {
    TreeFind(Complement(c, bound), val)
  }
}
