/** Hybrid: a two-level composition (include/fenwick/hybrid.hpp). The sequence is cut into
    blocks of 2^BOTTOM_HEIGHT elements. A top tree has one leaf per complete block holding
    the block's total; a bottom tree per block (one more for the partial block at the end)
    holds the block's elements except its last, whose value only the top leaf carries.

    The component trees are any Fenwick trees meeting the library's contract (FixedF,
    ByteF, BitF, BitL, ByteL and TypeL each prove it): a component is modelled by the
    sequence it holds, and its add, find and compfind by TreeAdd, TreeFind and TreeCompFind
    of PrefixSums. */
module Hybrid {
  import opened Bits
  import opened PrefixSums

  // ---------------------------------------------------------------------------
  // Blocks

  /** The first element of block i, i * m, where m = 2^BOTTOM_HEIGHT = BOTTOM_ELEMENTS + 1. */
  function BlockStart(m: nat, i: nat): nat
  {
    i * m
  }

  lemma BlockStartNext(m: nat, i: nat)
    ensures BlockStart(m, i + 1) == BlockStart(m, i) + m
  {
  }

  lemma BlockStartMonotone(m: nat, i: nat, j: nat)
    requires i <= j
    ensures BlockStart(m, i) <= BlockStart(m, j)
    ensures i < j ==> BlockStart(m, i + 1) <= BlockStart(m, j)
  {
    MulMono(i, j, m);
    if i < j {
      MulMono(i + 1, j, m);
    }
  }

  /** x is m * (x / m) + x % m. */
  lemma DivSplit(m: nat, x: nat)
    requires m > 0
    ensures x == BlockStart(m, x / m) + x % m && x % m < m
  {
  }

  /** idx >> BOTTOM_HEIGHT and idx & BOTTOM_ELEMENTS are the block of idx and its place
      in the block. */
  lemma Split(b: nat, idx: nat)
    ensures Shr(idx, b) == idx / Pow2(b) && And(idx, Pow2(b) - 1) == idx % Pow2(b)
  {
    ShrIsDiv(idx, b);
    AndLowOnes(idx, b);
  }

  /** The block holding position x (0-based) is the one with BlockStart(m, i) <= x <
      BlockStart(m, i + 1). */
  lemma InBlock(m: nat, x: nat, i: nat)
    requires m > 0
    ensures BlockStart(m, i) <= x < BlockStart(m, i + 1) <==> i == x / m
  {
    var q := x / m;
    DivSplit(m, x);
    BlockStartNext(m, i);
    BlockStartNext(m, q);
    if i < q {
      BlockStartMonotone(m, i, q);
    } else if q < i {
      BlockStartMonotone(m, q, i);
    }
  }

  /** The elements bottom tree i holds, as the constructor computes it:
      BOTTOM_ELEMENTS when the block is complete, otherwise size & BOTTOM_ELEMENTS (which
      is size % m). */
  function BottomLen(m: nat, n: nat, i: nat): nat
    requires m > 0
  {
    if BlockStart(m, i) + (m - 1) <= n then m - 1 else n % m
  }

  /** Bottom tree i of the n / m + 1 trees holds the first m - 1 elements of a complete
      block and all n % m elements of the partial block at the end. */
  lemma BottomLenIs(m: nat, n: nat, i: nat)
    requires m > 0 && i <= n / m
    ensures i < n / m ==> BottomLen(m, n, i) == m - 1 && BlockStart(m, i + 1) <= n
    ensures i == n / m ==> BottomLen(m, n, i) == n % m
    ensures BlockStart(m, i) + BottomLen(m, n, i) <= n
  {
    var q := n / m;
    DivSplit(m, n);
    BlockStartNext(m, i);
    BlockStartMonotone(m, i, q);
  }

  // ---------------------------------------------------------------------------
  // The layout

  /** The total of block i. */
  function BlockSum(m: nat, s: seq<nat>, i: nat): nat
    requires BlockStart(m, i) + m <= |s|
  {
    Sum(s, BlockStart(m, i), BlockStart(m, i) + m)
  }

  /** The elements of block i that bottom tree i holds. */
  function BottomOf(m: nat, s: seq<nat>, i: nat): seq<nat>
    requires m > 0 && BlockStart(m, i) + BottomLen(m, |s|, i) <= |s|
  {
    s[BlockStart(m, i)..BlockStart(m, i) + BottomLen(m, |s|, i)]
  }

  /** top[i] is the total of block i; bottoms[i] holds block i's elements but its last. */
  ghost predicate Layout(m: nat, s: seq<nat>, top: seq<nat>, bottoms: seq<seq<nat>>)
  {
    && m > 0 && |top| == |s| / m && |bottoms| == |top| + 1
    && (forall i :: 0 <= i < |top| ==>
          BlockStart(m, i) + m <= |s| && top[i] == BlockSum(m, s, i))
    && (forall i :: 0 <= i < |bottoms| ==>
          BlockStart(m, i) + BottomLen(m, |s|, i) <= |s| && bottoms[i] == BottomOf(m, s, i))
  }

  /** BOTTOM_HEIGHT, LEAF_MAXVAL, the size and the components' contents. */
  datatype Hybrid = Hybrid(b: nat, leafMax: nat, size: nat, top: seq<nat>, bottoms: seq<seq<nat>>)

  ghost predicate Valid(h: Hybrid, s: seq<nat>)
  {
    h.size == |s| && Bounded(s, h.leafMax) && Layout(Pow2(h.b), s, h.top, h.bottoms)
  }

  /** A slice's sums are sums of the sequence. */
  lemma {:induction false} SumSlice(s: seq<nat>, a: nat, c: nat, i: nat, j: nat)
    requires a <= c <= |s| && i <= j <= c - a
    ensures Sum(s[a..c], i, j) == Sum(s, a + i, a + j)
    decreases j - i
  {
    if i < j {
      SumSlice(s, a, c, i, j - 1);
    }
  }

  /** The top tree's prefix of k leaves is the prefix of the first k blocks. */
  lemma {:induction false} TopPrefix(m: nat, s: seq<nat>, top: seq<nat>, bottoms: seq<seq<nat>>, k: nat)
    requires Layout(m, s, top, bottoms) && k <= |top|
    ensures BlockStart(m, k) <= |s|
    ensures PrefixSums.Prefix(top, k) == PrefixSums.Prefix(s, BlockStart(m, k))
  {
    if k > 0 {
      TopPrefix(m, s, top, bottoms, k - 1);
      var a := BlockStart(m, k - 1);
      BlockStartNext(m, k - 1);
      assert top[k - 1] == Sum(s, a, a + m);
      SumSplit(s, 0, a, a + m);
    } else {
      assert BlockStart(m, 0) == 0;
    }
  }

  /** prefix(BlockStart(t) + u) is the top prefix of t blocks plus the bottom prefix of u. */
  lemma PositionPrefix(m: nat, s: seq<nat>, top: seq<nat>, bottoms: seq<seq<nat>>, t: nat, u: nat)
    requires Layout(m, s, top, bottoms) && t <= |top| && u <= |bottoms[t]|
    ensures BlockStart(m, t) + u <= |s|
    ensures PrefixSums.Prefix(s, BlockStart(m, t) + u)
         == PrefixSums.Prefix(top, t) + PrefixSums.Prefix(bottoms[t], u)
  {
    var a := BlockStart(m, t);
    var c := a + BottomLen(m, |s|, t);
    assert bottoms[t] == s[a..c];
    TopPrefix(m, s, top, bottoms, t);
    SumSlice(s, a, c, 0, u);
    SumSplit(s, 0, a, a + u);
  }

  // ---------------------------------------------------------------------------
  // prefix

  /** prefix(idx) = top.prefix(idx >> B) + bottom[idx >> B].prefix(idx & BOTTOM_ELEMENTS). */
  method Prefix(h: Hybrid, ghost s: seq<nat>, idx: nat) returns (sum: nat)
    requires Valid(h, s) && idx <= h.size
    ensures sum == PrefixSums.Prefix(s, idx)
  {
    var top := Shr(idx, h.b);
    var bottom := And(idx, Pow2(h.b) - 1);
    Split(h.b, idx);
    PlaceOf(Pow2(h.b), s, h.top, h.bottoms, idx);
    sum := PrefixSums.Prefix(h.top, top) + PrefixSums.Prefix(h.bottoms[top], bottom);
    PositionPrefix(Pow2(h.b), s, h.top, h.bottoms, top, bottom);
  }

  /** Every position 0..size splits into a top prefix and a bottom prefix that exist. */
  lemma PlaceOf(m: nat, s: seq<nat>, top: seq<nat>, bottoms: seq<seq<nat>>, idx: nat)
    requires Layout(m, s, top, bottoms) && idx <= |s|
    ensures idx / m <= |top| && idx % m <= |bottoms[idx / m]|
    ensures idx == BlockStart(m, idx / m) + idx % m
  {
    var n, t := |s|, idx / m;
    DivSplit(m, idx);
    DivSplit(m, n);
    assert t <= n / m by {
      DivMonotone(idx, n, m);
    }
    BottomLenIs(m, n, t);
    if t == n / m {
      assert idx % m <= n % m;
    }
  }

  // ---------------------------------------------------------------------------
  // find and compfind

  /** The top search ends at the block holding the answer, and the bottom search finishes
      it: t * m + u is the largest position whose prefix does not exceed val. */
  lemma LayoutSearch(m: nat, s: seq<nat>, top: seq<nat>, bottoms: seq<seq<nat>>, val: nat,
                     t: nat, rest: nat, u: nat)
    requires Layout(m, s, top, bottoms)
    requires IsLargest(top, val, t) && rest == val - PrefixSums.Prefix(top, t)
    requires t < |bottoms| && IsLargest(bottoms[t], rest, u)
    ensures IsLargest(s, val, BlockStart(m, t) + u)
  {
    var p := BlockStart(m, t) + u;
    PositionPrefix(m, s, top, bottoms, t, u);
    if u < |bottoms[t]| {
      PositionPrefix(m, s, top, bottoms, t, u + 1);
    } else if t < |top| {
      BottomLenIs(m, |s|, t);
      BlockStartNext(m, t);
      TopPrefix(m, s, top, bottoms, t + 1);
    } else {
      DivSplit(m, |s|);
      BottomLenIs(m, |s|, t);
    }
    LargestFromNext(s, val, p);
  }

  /** find(val): the top tree's find, then the find of the bottom tree it ends at, on
      what is left of val; a top tree with no leaves ends at 0. */
  method Find(h: Hybrid, ghost s: seq<nat>, val: nat) returns (p: nat, rest: nat)
    requires Valid(h, s)
    ensures IsLargest(s, val, p)
    ensures rest == val - PrefixSums.Prefix(s, p)
  {
    var top, rest1 := 0, val;
    if |h.top| != 0 {
      var r := TreeFind(h.top, val);
      top, rest1 := r.0, r.1;
    }
    var bottom := 0;
    rest := rest1;
    if top < |h.bottoms| {
      var r := TreeFind(h.bottoms[top], rest1);
      bottom, rest := r.0, r.1;
    }
    p := top * Pow2(h.b) + bottom;
    Compose(Pow2(h.b), s, h.top, h.bottoms, val, top, rest1, bottom, rest, p);
  }

  /** find's two searches compose: the top search picks block t with rest1 left over, the
      bottom search of block t picks u with rest left over, and t * 2^B + u is the answer
      for the whole sequence with the same remainder. */
  lemma Compose(m: nat, s: seq<nat>, top: seq<nat>, bottoms: seq<seq<nat>>, val: nat,
                t: nat, rest1: nat, u: nat, rest: int, p: nat)
    requires Layout(m, s, top, bottoms)
    requires IsLargest(top, val, t) && rest1 == val - PrefixSums.Prefix(top, t)
    requires t < |bottoms| && IsLargest(bottoms[t], rest1, u)
    requires rest == rest1 - PrefixSums.Prefix(bottoms[t], u)
    requires p == BlockStart(m, t) + u
    ensures IsLargest(s, val, p) && rest == val - PrefixSums.Prefix(s, p)
  {
    LayoutSearch(m, s, top, bottoms, val, t, rest1, u);
    PositionPrefix(m, s, top, bottoms, t, u);
  }

  /** The bound of a top leaf: LEAF_MAXVAL * (BOTTOM_ELEMENTS + 1). */
  function TopBound(h: Hybrid): nat
  {
    h.leafMax * Pow2(h.b)
  }

  /** The complemented components again form the layout, over the complemented sequence:
      a block of m elements complements to bound * m minus its total. */
  lemma ComplementLayout(m: nat, s: seq<nat>, top: seq<nat>, bottoms: seq<seq<nat>>, bound: nat,
                         ctop: seq<nat>, cbottoms: seq<seq<nat>>)
    requires Layout(m, s, top, bottoms) && Bounded(s, bound)
    requires Bounded(top, bound * m) && ctop == Complement(top, bound * m)
    requires |cbottoms| == |bottoms|
    requires forall i :: 0 <= i < |bottoms| ==>
      Bounded(bottoms[i], bound) && cbottoms[i] == Complement(bottoms[i], bound)
    ensures Layout(m, Complement(s, bound), ctop, cbottoms)
  {
    var cs := Complement(s, bound);
    forall i | 0 <= i < |top|
      ensures BlockStart(m, i) + m <= |cs| && ctop[i] == BlockSum(m, cs, i)
    {
      SumComplement(s, bound, BlockStart(m, i), BlockStart(m, i) + m);
    }
    forall i | 0 <= i < |bottoms|
      ensures BlockStart(m, i) + BottomLen(m, |cs|, i) <= |cs| && cbottoms[i] == BottomOf(m, cs, i)
    {
    }
  }

  /** Every top leaf is at most LEAF_MAXVAL * 2^B and every bottom element at most
      LEAF_MAXVAL: the bounds the component trees are built with. */
  lemma ComponentBounds(h: Hybrid, s: seq<nat>)
    requires Valid(h, s)
    ensures Bounded(h.top, TopBound(h))
    ensures forall i :: 0 <= i < |h.bottoms| ==> Bounded(h.bottoms[i], h.leafMax)
  {
    var m := Pow2(h.b);
    forall i | 0 <= i < |h.top| ensures h.top[i] <= TopBound(h) {
      SumBound(s, BlockStart(m, i), BlockStart(m, i) + m, h.leafMax);
    }
  }

  /** compfind(val): the same two searches over the complemented components. */
  method CompFind(h: Hybrid, ghost s: seq<nat>, val: nat) returns (p: nat, rest: nat)
    requires Valid(h, s)
    ensures IsLargest(Complement(s, h.leafMax), val, p)
    ensures rest == val - PrefixSums.Prefix(Complement(s, h.leafMax), p)
  {
    ComponentBounds(h, s);
    var top, rest1 := 0, val;
    if |h.top| != 0 {
      var r := TreeCompFind(h.top, TopBound(h), val);
      top, rest1 := r.0, r.1;
    }
    var bottom := 0;
    rest := rest1;
    if top < |h.bottoms| {
      var r := TreeCompFind(h.bottoms[top], h.leafMax, rest1);
      bottom, rest := r.0, r.1;
    }
    p := top * Pow2(h.b) + bottom;
    CompSearch(h, s, val, top, rest1, bottom, rest, p);
  }

  /** The two complemented searches compose as in find. */
  lemma CompSearch(h: Hybrid, s: seq<nat>, val: nat, t: nat, rest1: nat, u: nat, rest: nat, p: nat)
    requires Valid(h, s) && Bounded(h.top, TopBound(h))
    requires forall i :: 0 <= i < |h.bottoms| ==> Bounded(h.bottoms[i], h.leafMax)
    requires IsLargest(Complement(h.top, TopBound(h)), val, t)
    requires rest1 == val - PrefixSums.Prefix(Complement(h.top, TopBound(h)), t)
    requires t < |h.bottoms| && IsLargest(Complement(h.bottoms[t], h.leafMax), rest1, u)
    requires rest == rest1 - PrefixSums.Prefix(Complement(h.bottoms[t], h.leafMax), u)
    requires p == t * Pow2(h.b) + u
    ensures IsLargest(Complement(s, h.leafMax), val, p)
    ensures rest == val - PrefixSums.Prefix(Complement(s, h.leafMax), p)
  {
    var m, cs := Pow2(h.b), Complement(s, h.leafMax);
    var ctop := Complement(h.top, TopBound(h));
    var cbottoms := seq(|h.bottoms|, i requires 0 <= i < |h.bottoms| => Complement(h.bottoms[i], h.leafMax));
    assert Layout(m, cs, ctop, cbottoms) by {
      ComplementLayout(m, s, h.top, h.bottoms, h.leafMax, ctop, cbottoms);
    }
    assert cbottoms[t] == Complement(h.bottoms[t], h.leafMax);
    Compose(m, cs, ctop, cbottoms, val, t, rest1, u, rest, p);
  }

  // ---------------------------------------------------------------------------
  // add

  /** Adding inc at position idx of s changes a slice only when the slice holds idx. */
  lemma SliceUnchanged(s: seq<nat>, idx: nat, inc: int, a: nat, c: nat)
    requires 1 <= idx <= |s| && s[idx - 1] + inc >= 0 && a <= c <= |s| && !(a < idx <= c)
    ensures Update(s, idx, inc)[a..c] == s[a..c]
  {
  }

  lemma SliceUpdated(s: seq<nat>, idx: nat, inc: int, a: nat, c: nat)
    requires 1 <= idx <= |s| && s[idx - 1] + inc >= 0 && a < idx <= c <= |s|
    ensures s[a..c][idx - a - 1] + inc >= 0
    ensures Update(s, idx, inc)[a..c] == Update(s[a..c], idx - a, inc)
  {
  }

  /** Top leaf q + 1 (1-based), where q is the block of element idx, gains inc; as every
      block total, it again sums its block. */
  lemma TopAfterAdd(m: nat, s: seq<nat>, top: seq<nat>, bottoms: seq<seq<nat>>, idx: nat, inc: int)
    requires Layout(m, s, top, bottoms) && 1 <= idx <= |s| && s[idx - 1] + inc >= 0
    ensures (idx - 1) / m < |top| ==> top[(idx - 1) / m] + inc >= 0
    ensures var top' := TreeAdd(top, (idx - 1) / m + 1, inc);
      forall i :: 0 <= i < |top| ==> top'[i] == BlockSum(m, Update(s, idx, inc), i)
  {
    var q, s' := (idx - 1) / m, Update(s, idx, inc);
    if q < |top| {
      var a := BlockStart(m, q);
      assert a <= idx - 1 < a + m by {
        InBlock(m, idx - 1, q);
        BlockStartNext(m, q);
      }
      SumSplit(s, a, idx - 1, a + m);
      SumSplit(s, idx - 1, idx, a + m);
    }
    var top' := TreeAdd(top, q + 1, inc);
    forall i | 0 <= i < |top| ensures top'[i] == BlockSum(m, s', i) {
      LeafAfterAdd(m, s, top, bottoms, idx, inc, i);
    }
  }

  lemma LeafAfterAdd(m: nat, s: seq<nat>, top: seq<nat>, bottoms: seq<seq<nat>>, idx: nat, inc: int,
                     i: nat)
    requires Layout(m, s, top, bottoms) && 1 <= idx <= |s| && s[idx - 1] + inc >= 0 && i < |top|
    requires (idx - 1) / m < |top| ==> top[(idx - 1) / m] + inc >= 0
    ensures TreeAdd(top, (idx - 1) / m + 1, inc)[i] == BlockSum(m, Update(s, idx, inc), i)
  {
    var a, q := BlockStart(m, i), (idx - 1) / m;
    assert top[i] == Sum(s, a, a + m);
    SumUpdate(s, idx, inc, a, a + m);
    assert a < idx <= a + m <==> i == q by {
      InBlock(m, idx - 1, i);
      BlockStartNext(m, i);
    }
  }

  /** When idx is not the last element of its block, bottom tree idx >> B gains inc at
      idx & BOTTOM_ELEMENTS; every other bottom tree keeps its elements. */
  lemma BottomsAfterAdd(m: nat, s: seq<nat>, top: seq<nat>, bottoms: seq<seq<nat>>, idx: nat,
                        inc: int, bottoms': seq<seq<nat>>)
    requires Layout(m, s, top, bottoms) && 1 <= idx <= |s| && s[idx - 1] + inc >= 0
    requires idx % m == 0 ==> bottoms' == bottoms
    requires idx % m != 0 ==>
      (idx / m < |bottoms| && 1 <= idx % m <= |bottoms[idx / m]|
       && bottoms[idx / m][idx % m - 1] + inc >= 0
       && bottoms' == bottoms[idx / m := Update(bottoms[idx / m], idx % m, inc)])
    ensures |bottoms'| == |bottoms|
    ensures forall i :: 0 <= i < |bottoms| ==> bottoms'[i] == BottomOf(m, Update(s, idx, inc), i)
  {
    var s' := Update(s, idx, inc);
    forall i | 0 <= i < |bottoms| ensures bottoms'[i] == BottomOf(m, s', i) {
      BottomAfterAdd(m, s, top, bottoms, idx, inc, bottoms', i);
    }
  }

  lemma BottomAfterAdd(m: nat, s: seq<nat>, top: seq<nat>, bottoms: seq<seq<nat>>, idx: nat,
                       inc: int, bottoms': seq<seq<nat>>, i: nat)
    requires Layout(m, s, top, bottoms) && 1 <= idx <= |s| && s[idx - 1] + inc >= 0
    requires |bottoms'| == |bottoms|
    requires idx % m == 0 ==> bottoms' == bottoms
    requires idx % m != 0 ==>
      (idx / m < |bottoms| && 1 <= idx % m <= |bottoms[idx / m]|
       && bottoms[idx / m][idx % m - 1] + inc >= 0
       && bottoms' == bottoms[idx / m := Update(bottoms[idx / m], idx % m, inc)])
    requires i < |bottoms|
    ensures bottoms[i] == BottomOf(m, s, i)
    ensures bottoms'[i] == BottomOf(m, Update(s, idx, inc), i)
  {
    var a := BlockStart(m, i);
    var c := a + BottomLen(m, |s|, i);
    assert bottoms[i] == s[a..c];
    InsideBottom(m, |s|, i, idx);
    if a < idx <= c {
      SliceUpdated(s, idx, inc, a, c);
    } else {
      SliceUnchanged(s, idx, inc, a, c);
    }
  }

  /** Bottom tree i holds element idx (1-based) exactly when idx is not a multiple of m and
      idx / m is i. */
  lemma InsideBottom(m: nat, n: nat, i: nat, idx: nat)
    requires m > 0 && i <= n / m && 1 <= idx <= n
    ensures BlockStart(m, i) < idx <= BlockStart(m, i) + BottomLen(m, n, i)
        <==> idx % m != 0 && i == idx / m
  {
    BottomLenIs(m, n, i);
    InBlock(m, idx - 1, i);
    BlockStartNext(m, i);
    DivSplit(m, idx);
    DivSplit(m, idx - 1);
    InBlock(m, idx, i);
  }

  /** The components' add preconditions hold, and the top leaf add touches is the one of
      idx's block in both branches. */
  lemma AddPlace(m: nat, s: seq<nat>, top: seq<nat>, bottoms: seq<seq<nat>>, idx: nat, inc: int)
    requires Layout(m, s, top, bottoms) && 1 <= idx <= |s| && s[idx - 1] + inc >= 0
    ensures idx % m == 0 ==> idx / m == (idx - 1) / m + 1
    ensures idx % m != 0 ==> idx / m == (idx - 1) / m
    ensures idx % m != 0 ==>
      (idx / m < |bottoms| && 1 <= idx % m <= |bottoms[idx / m]|
       && bottoms[idx / m][idx % m - 1] == s[idx - 1])
  {
    DivSplit(m, idx);
    DivSplit(m, idx - 1);
    if idx % m == 0 {
      InBlock(m, idx - 1, idx / m - 1);
      BlockStartNext(m, idx / m - 1);
    } else {
      InBlock(m, idx - 1, idx / m);
      BlockStartNext(m, idx / m);
      PlaceOf(m, s, top, bottoms, idx);
      assert bottoms[idx / m] == BottomOf(m, s, idx / m);
    }
  }

  /** add(idx, inc): when idx is a multiple of 2^B the element is the last of its block and
      only top leaf idx >> B changes; otherwise top leaf (idx >> B) + 1 (which does not
      exist for the partial block) and element idx & BOTTOM_ELEMENTS of bottom tree
      idx >> B change. */
  method Add(h: Hybrid, ghost s: seq<nat>, idx: nat, inc: int) returns (h': Hybrid)
    requires Valid(h, s) && 1 <= idx <= h.size && 0 <= s[idx - 1] + inc <= h.leafMax
    ensures h'.b == h.b && h'.leafMax == h.leafMax && h'.size == h.size
    ensures Valid(h', Update(s, idx, inc))
    ensures And(idx, Pow2(h.b) - 1) == 0 ==> h'.bottoms == h.bottoms
    ensures forall i :: 0 <= i < |h.bottoms| && i != Shr(idx, h.b) ==> h'.bottoms[i] == h.bottoms[i]
  {
    var m := Pow2(h.b);
    var top := Shr(idx, h.b);
    var bottom := And(idx, m - 1);
    Split(h.b, idx);
    AddCases(m, s, h.top, h.bottoms, idx, inc, top, bottom);
    if bottom == 0 {
      h' := h.(top := TreeAdd(h.top, top, inc));
    } else {
      var bottomTree := TreeAdd(h.bottoms[top], bottom, inc);
      h' := h.(top := TreeAdd(h.top, top + 1, inc), bottoms := h.bottoms[top := bottomTree]);
    }
    UpdateKeepsBounds(s, idx, inc, h.leafMax);
  }

  /** The two branches of add: an index on a block boundary (bottom == 0) touches only the
      top tree, any other index touches the top tree one block later and its own bottom
      tree; either way the layout holds again for the updated sequence. */
  lemma AddCases(m: nat, s: seq<nat>, top: seq<nat>, bottoms: seq<seq<nat>>, idx: nat, inc: int,
                 t: nat, bi: nat)
    requires Layout(m, s, top, bottoms) && 1 <= idx <= |s| && s[idx - 1] + inc >= 0
    requires t == idx / m && bi == idx % m
    ensures bi == 0 ==> 1 <= t && (t <= |top| ==> top[t - 1] + inc >= 0)
    ensures bi == 0 ==> Layout(m, Update(s, idx, inc), TreeAdd(top, t, inc), bottoms)
    ensures bi != 0 ==> t < |bottoms| && 1 <= bi <= |bottoms[t]| && bottoms[t][bi - 1] + inc >= 0
    ensures bi != 0 ==> (t < |top| ==> top[t] + inc >= 0)
    ensures bi != 0 ==> Layout(m, Update(s, idx, inc), TreeAdd(top, t + 1, inc),
                               bottoms[t := TreeAdd(bottoms[t], bi, inc)])
  {
    var q := (idx - 1) / m;
    AddPlace(m, s, top, bottoms, idx, inc);
    TopAfterAdd(m, s, top, bottoms, idx, inc);
    if bi == 0 {
      assert t == q + 1;
      BottomsAfterAdd(m, s, top, bottoms, idx, inc, bottoms);
      AddLayout(m, s, top, bottoms, idx, inc, TreeAdd(top, t, inc), bottoms);
    } else {
      assert t == q;
      var bottoms' := bottoms[t := TreeAdd(bottoms[t], bi, inc)];
      BottomsAfterAdd(m, s, top, bottoms, idx, inc, bottoms');
      AddLayout(m, s, top, bottoms, idx, inc, TreeAdd(top, t + 1, inc), bottoms');
    }
  }

  lemma AddLayout(m: nat, s: seq<nat>, top: seq<nat>, bottoms: seq<seq<nat>>, idx: nat, inc: int,
                  top': seq<nat>, bottoms': seq<seq<nat>>)
    requires Layout(m, s, top, bottoms) && 1 <= idx <= |s| && s[idx - 1] + inc >= 0
    requires |top'| == |top| && forall i :: 0 <= i < |top| ==> top'[i] == BlockSum(m, Update(s, idx, inc), i)
    requires |bottoms'| == |bottoms|
    requires forall i :: 0 <= i < |bottoms| ==> bottoms'[i] == BottomOf(m, Update(s, idx, inc), i)
    ensures Layout(m, Update(s, idx, inc), top', bottoms')
  {
  }

  // ---------------------------------------------------------------------------
  // The constructor

  /** build_top: size >> B leaves, leaf i - 1 seeded with sequence[i * 2^B - 1], the last
      element of block i - 1. */
  method BuildTop(s: seq<nat>, b: nat) returns (sub: seq<nat>)
    ensures |sub| == |s| / Pow2(b)
    ensures forall i :: 0 <= i < |sub| ==>
      BlockStart(Pow2(b), i) + Pow2(b) <= |s| && sub[i] == s[BlockStart(Pow2(b), i) + Pow2(b) - 1]
  {
    var m := Pow2(b);
    var length := Shr(|s|, b);
    Split(b, |s|);
    sub := [];
    var i := 1;
    while i <= length
      invariant 1 <= i <= length + 1 && |sub| == i - 1
      invariant forall k :: 0 <= k < |sub| ==>
        BlockStart(m, k) + m <= |s| && sub[k] == s[BlockStart(m, k) + m - 1]
    {
      ghost var a := BlockStart(m, i - 1);
      assert i * m == a + m && a + m <= |s| by {
        BottomLenIs(m, |s|, i - 1);
        BlockStartNext(m, i - 1);
      }
      sub := sub + [s[i * m - 1]];
      i := i + 1;
    }
  }

  /** The bottom trees: one per block up to and including the partial one, tree i over the
      BOTTOM_ELEMENTS elements from i * 2^B, or size & BOTTOM_ELEMENTS for the last. */
  method BuildBottoms(s: seq<nat>, b: nat, count: nat) returns (bottoms: seq<seq<nat>>)
    requires count == |s| / Pow2(b) + 1
    ensures |bottoms| == count
    ensures forall i :: 0 <= i < count ==>
      BlockStart(Pow2(b), i) + BottomLen(Pow2(b), |s|, i) <= |s| && bottoms[i] == BottomOf(Pow2(b), s, i)
  {
    var m := Pow2(b);
    bottoms := [];
    var i := 0;
    while i < count
      invariant i <= count && |bottoms| == i
      invariant forall k :: 0 <= k < i ==>
        BlockStart(m, k) + BottomLen(m, |s|, k) <= |s| && bottoms[k] == BottomOf(m, s, k)
    {
      Split(b, |s|);
      var length := if m * i + (m - 1) <= |s| then m - 1 else And(|s|, m - 1);
      BottomLenIs(m, |s|, i);
      assert length == BottomLen(m, |s|, i);
      bottoms := bottoms + [s[m * i..m * i + length]];
      i := i + 1;
    }
  }

  /** Seed plus bottom total: the last element of a block and the prefix of all of its
      bottom tree make the block's total. */
  lemma SeedPlusBottom(m: nat, s: seq<nat>, i: nat, seed: nat, bottom: seq<nat>)
    requires m > 0 && BlockStart(m, i) + m <= |s| && seed == s[BlockStart(m, i) + m - 1]
    requires bottom == s[BlockStart(m, i)..BlockStart(m, i) + m - 1]
    ensures seed + PrefixSums.Prefix(bottom, |bottom|) == BlockSum(m, s, i)
  {
    var a := BlockStart(m, i);
    SumSlice(s, a, a + m - 1, 0, m - 1);
  }

  /** The loop adding every complete block's bottom total to its top leaf. */
  method AddTotals(s: seq<nat>, m: nat, seeds: seq<nat>, bottoms: seq<seq<nat>>) returns (top: seq<nat>)
    requires m > 0 && |seeds| == |s| / m && |bottoms| == |seeds| + 1
    requires forall i :: 0 <= i < |seeds| ==>
      BlockStart(m, i) + m <= |s| && seeds[i] == s[BlockStart(m, i) + m - 1]
    requires forall i :: 0 <= i < |bottoms| ==>
      BlockStart(m, i) + BottomLen(m, |s|, i) <= |s| && bottoms[i] == BottomOf(m, s, i)
    ensures |top| == |seeds|
    ensures forall i :: 0 <= i < |top| ==> BlockStart(m, i) + m <= |s| && top[i] == BlockSum(m, s, i)
  {
    top := seeds;
    var i := 0;
    while i < |top|
      invariant i <= |top| == |seeds|
      invariant forall k :: 0 <= k < i ==> top[k] == BlockSum(m, s, k)
      invariant forall k :: i <= k < |top| ==> top[k] == seeds[k]
    {
      BottomLenIs(m, |s|, i);
      SeedPlusBottom(m, s, i, seeds[i], bottoms[i]);
      top := TreeAdd(top, i + 1, PrefixSums.Prefix(bottoms[i], |bottoms[i]|));
      i := i + 1;
    }
  }

  /** The constructor: the top tree over the blocks' last elements, the bottom trees, then
      every bottom total added to its top leaf. */
  method Build(s: seq<nat>, b: nat, leafMax: nat) returns (h: Hybrid)
    requires Bounded(s, leafMax)
    ensures Valid(h, s) && h.b == b && h.leafMax == leafMax
  {
    var seeds := BuildTop(s, b);
    var bottoms := BuildBottoms(s, b, |seeds| + 1);
    var top := AddTotals(s, Pow2(b), seeds, bottoms);
    h := Hybrid(b, leafMax, |s|, top, bottoms);
  }
}
