/** TypeL: type compression, level-ordered node layout (include/fenwick/typel.hpp).
    Nodes are grouped by height as in ByteL, but a height's nodes are stored as elements of
    one of three arrays, Tree8, Tree16 and Tree64 (numbered 0, 1, 2 here), chosen by
    height + BOUNDSIZE; the heights sharing an array are laid out one after the other and
    Level[h] is the index in its array where height h begins. The memory is modelled as a
    map from (array, index) to the element's value together with the three array lengths,
    which find's guard reads. */
module TypeL {
  import opened Bits
  import opened PrefixSums
  import opened Fenwick
  import opened Levels

  /** BOUNDSIZE = log2(BOUND): at least one bit, and a leaf fits in a 64-bit word. */
  type BoundSize = b: nat | 1 <= b <= 64 witness 1

  // ---------------------------------------------------------------------------
  // Layout

  /** The array prefix, add and find use for height h: Tree64 when
      17 <= h + BOUNDSIZE <= 64, Tree16 when 9 <= h + BOUNDSIZE <= 16, Tree8 otherwise. */
  function ArrayOf(bs: BoundSize, h: nat): (a: nat)
    ensures a < 3
  {
    var x := h + bs;
    if 17 <= x <= 64 then 2 else if 9 <= x <= 16 then 1 else 0
  }

  /** The array the constructor fills height h into: its counter starts at the array of
      height 0 and moves to the next array after heights 8 - BOUNDSIZE and 16 - BOUNDSIZE. */
  function Slot(bs: BoundSize, h: nat): (a: nat)
    ensures a < 3
  {
    var x := h + bs;
    if x <= 8 then 0 else if x <= 16 then 1 else 2
  }

  /** Up to height 64 - BOUNDSIZE both agree. */
  lemma SlotIsArray(bs: BoundSize, h: nat)
    requires h + bs <= 64
    ensures Slot(bs, h) == ArrayOf(bs, h)
  {
  }

  /** The range of an element of array a: 2^8, 2^16 or 2^64. */
  function ElemMod(a: nat): nat
  {
    if a == 0 then 0x100 else if a == 1 then 0x1_0000 else WORD
  }

  /** Levels = lambda(size + 1) + 2: the heights 0..Levels - 2 and one more entry of Level. */
  function LevelCount(n: nat): (r: nat)
    ensures r >= 2 && n < Pow2(r - 1)
  {
    Lambda(n + 1) + 2
  }

  /** Level[i] as the constructor computes it: the previous entry plus the nodes of height
      i - 1, (size + 2^(i-1)) / 2^i, except that it restarts at 0 when height i - 1 was the
      last one of its array (i - 1 == 8 - BOUNDSIZE or i - 1 == 16 - BOUNDSIZE). */
  function LevelStart(bs: BoundSize, n: nat, i: nat): nat
  {
    if i == 0 then 0
    else if i - 1 + bs == 8 || i - 1 + bs == 16 then 0
    else LevelStart(bs, n, i - 1) + CountHeight(n, i - 1)
  }

  /** The heights an array holds come one after the other: a lower height of the same array
      ends before a higher one begins. */
  lemma {:induction false} StartOrder(bs: BoundSize, n: nat, h1: nat, h2: nat)
    requires h1 < h2 && Slot(bs, h1) == Slot(bs, h2)
    ensures LevelStart(bs, n, h1) + CountHeight(n, h1) <= LevelStart(bs, n, h2)
    decreases h2
  {
    assert Slot(bs, h2 - 1) == Slot(bs, h2);
    if h1 < h2 - 1 {
      StartOrder(bs, n, h1, h2 - 1);
    }
  }

  /** typeEnd[a] as the constructor leaves it: the end of the highest height among 0..top
      that it filled into array a, or 0. */
  function TypeEnd(bs: BoundSize, n: nat, top: int, a: nat): nat
    decreases top + 1
  {
    if top < 0 then 0
    else if Slot(bs, top) == a then LevelStart(bs, n, top) + CountHeight(n, top)
    else TypeEnd(bs, n, top - 1, a)
  }

  /** An array's length covers every height placed in it. */
  lemma {:induction false} TypeEndCovers(bs: BoundSize, n: nat, top: int, h: nat)
    requires h <= top
    ensures LevelStart(bs, n, h) + CountHeight(n, h) <= TypeEnd(bs, n, top, Slot(bs, h))
    decreases top
  {
    if h < top {
      if Slot(bs, top) == Slot(bs, h) {
        StartOrder(bs, n, h, top);
      } else {
        TypeEndCovers(bs, n, top - 1, h);
      }
    }
  }

  /** An array none of the heights 0..top is placed in has length 0. */
  lemma {:induction false} TypeEndUnused(bs: BoundSize, n: nat, top: int, a: nat)
    requires forall h: nat :: h <= top ==> Slot(bs, h) != a
    ensures TypeEnd(bs, n, top, a) == 0
    decreases top + 1
  {
    if top >= 0 {
      assert Slot(bs, top) != a;
      TypeEndUnused(bs, n, top - 1, a);
    }
  }

  /** The Level array the constructor builds. */
  function Starts(bs: BoundSize, n: nat): (level: seq<nat>)
    ensures |level| == LevelCount(n)
    ensures forall i :: 0 <= i < |level| ==> level[i] == LevelStart(bs, n, i)
  {
    seq(LevelCount(n), i requires 0 <= i => LevelStart(bs, n, i))
  }

  /** The three array lengths the constructor computes. */
  function TypeEnds(bs: BoundSize, n: nat): (lens: seq<nat>)
    ensures |lens| == 3
    ensures forall a :: 0 <= a < 3 ==> lens[a] == TypeEnd(bs, n, LevelCount(n) - 2, a)
  {
    seq(3, a requires 0 <= a => TypeEnd(bs, n, LevelCount(n) - 2, a))
  }

  lemma TypeEndsAt(bs: BoundSize, n: nat, a: nat)
    requires a < 3
    ensures TypeEnds(bs, n)[a] == TypeEnd(bs, n, LevelCount(n) - 2, a)
  {
  }

  /** The constructor's first loop: Level[0..Levels - 1] and typeEnd[0..2]. */
  method Layout(bs: BoundSize, n: nat) returns (level: seq<nat>, typeEnd: seq<nat>)
    ensures level == Starts(bs, n)
    ensures typeEnd == TypeEnds(bs, n)
  {
    var levels := Lambda(n + 1) + 2;
    typeEnd := [0, 0, 0];
    level := [0];
    var j := if bs <= 8 then 0 else if bs <= 16 then 1 else 2;
    var i := 1;
    while i < levels
      invariant 1 <= i <= levels && LayoutDone(bs, n, i, j, level, typeEnd)
    {
      level, typeEnd, j := LayoutRound(bs, n, i, j, level, typeEnd);
      i := i + 1;
    }
    LayoutComplete(bs, n, level, typeEnd);
  }

  /** Level[0..i - 1] and typeEnd after heights 0..i - 2; the counter j names the array of
      height i - 1. */
  ghost predicate LayoutDone(bs: BoundSize, n: nat, i: nat, j: nat, level: seq<nat>, typeEnd: seq<nat>)
  {
    && i >= 1 && j == Slot(bs, i - 1)
    && |level| == i && (forall g :: 0 <= g < i ==> level[g] == LevelStart(bs, n, g))
    && |typeEnd| == 3 && (forall a :: 0 <= a < 3 ==> typeEnd[a] == TypeEnd(bs, n, i - 2, a))
  }

  lemma LayoutComplete(bs: BoundSize, n: nat, level: seq<nat>, typeEnd: seq<nat>)
    requires LayoutDone(bs, n, LevelCount(n), Slot(bs, LevelCount(n) - 1), level, typeEnd)
    ensures level == Starts(bs, n) && typeEnd == TypeEnds(bs, n)
  {
  }

  /** One round of the loop: Level[i] = (size + 2^(i-1)) / 2^i + Level[i - 1], which is also
      typeEnd[j]; Level[i] restarts at 0 and j moves on after the last height of an array. */
  method LayoutRound(bs: BoundSize, n: nat, i: nat, j: nat, level: seq<nat>, typeEnd: seq<nat>)
    returns (level': seq<nat>, typeEnd': seq<nat>, j': nat)
    requires LayoutDone(bs, n, i, j, level, typeEnd)
    ensures LayoutDone(bs, n, i + 1, j', level', typeEnd')
  {
    var v := (n + Pow2(i - 1)) / Pow2(i) + level[i - 1];
    assert v == LevelStart(bs, n, i - 1) + CountHeight(n, i - 1);
    LayoutStep(bs, n, i, j, typeEnd, typeEnd[j := v], v);
    typeEnd' := typeEnd[j := v];
    if i - 1 + bs == 8 || i - 1 + bs == 16 {
      level' := level + [0];
      j' := j + 1;
    } else {
      level' := level + [v];
      j' := j;
    }
  }

  /** One round of the constructor's loop: Level[i] is the new running count or a restart,
      and the running count becomes the end of height i - 1's array. */
  lemma LayoutStep(bs: BoundSize, n: nat, i: nat, j: nat, typeEnd: seq<nat>, typeEnd': seq<nat>,
                    v: nat)
    requires i >= 1 && j == Slot(bs, i - 1) && |typeEnd| == 3 && typeEnd' == typeEnd[j := v]
    requires v == LevelStart(bs, n, i - 1) + CountHeight(n, i - 1)
    requires forall a :: 0 <= a < 3 ==> typeEnd[a] == TypeEnd(bs, n, i - 2, a)
    ensures LevelStart(bs, n, i) == if i - 1 + bs == 8 || i - 1 + bs == 16 then 0 else v
    ensures i - 1 + bs == 8 || i - 1 + bs == 16 ==> j + 1 == Slot(bs, i)
    ensures !(i - 1 + bs == 8 || i - 1 + bs == 16) ==> j == Slot(bs, i)
    ensures forall a :: 0 <= a < 3 ==> typeEnd'[a] == TypeEnd(bs, n, i - 1, a)
  {
    forall a | 0 <= a < 3 ensures typeEnd'[a] == TypeEnd(bs, n, i - 1, a) {
      assert TypeEnd(bs, n, i - 1, a) == if a == j then v else TypeEnd(bs, n, i - 2, a);
    }
  }

  /** The constructor's switch on Levels + BOUNDSIZE - 1 as written: Tree64 is allocated for
      17..64, Tree16 for 9..64 (the cases fall through) and Tree8 always; an array that is
      not allocated keeps length 0. */
  function AllocAsWritten(bs: BoundSize, levels: nat, typeEnd: seq<nat>): (lens: seq<nat>)
    requires |typeEnd| == 3
    ensures |lens| == 3
  {
    var x := levels + bs - 1;
    [typeEnd[0], if 9 <= x <= 64 then typeEnd[1] else 0, if 17 <= x <= 64 then typeEnd[2] else 0]
  }

  /** Every array is allocated with its typeEnd length. */
  function Alloc(typeEnd: seq<nat>): (lens: seq<nat>)
    requires |typeEnd| == 3
    ensures |lens| == 3
  {
    typeEnd
  }

  /** Every node of 1..n has its element inside the array its height uses. */
  ghost predicate Covered(bs: BoundSize, n: nat, lens: seq<nat>)
  {
    |lens| == 3
    && forall h: nat, i: nat :: NodeAt(h, i) <= n ==> LevelStart(bs, n, h) + i < lens[ArrayOf(bs, h)]
  }

  /** Every element fits in a 64-bit word: BOUNDSIZE + lambda(size) <= 64. */
  predicate TypeFits(bs: BoundSize, n: nat)
  {
    n > 0 ==> bs + Lambda(n) <= 64
  }

  /** With every array allocated at its typeEnd length, every node is inside its array. */
  lemma AllocCovers(bs: BoundSize, n: nat)
    requires TypeFits(bs, n)
    ensures Covered(bs, n, Alloc(TypeEnds(bs, n)))
  {
    var lens := Alloc(TypeEnds(bs, n));
    forall h: nat, i: nat | NodeAt(h, i) <= n ensures LevelStart(bs, n, h) + i < lens[ArrayOf(bs, h)] {
      NodeCovered(bs, n, h, i);
    }
  }

  lemma NodeCovered(bs: BoundSize, n: nat, h: nat, i: nat)
    requires TypeFits(bs, n) && NodeAt(h, i) <= n
    ensures LevelStart(bs, n, h) + i < TypeEnds(bs, n)[ArrayOf(bs, h)]
  {
    var start, count := LevelStart(bs, n, h), CountHeight(n, h);
    var top, a := LevelCount(n) - 2, ArrayOf(bs, h);
    assert i < count by {
      CountBound(n, h, i);
    }
    assert h <= top && Slot(bs, h) == a by {
      NodeHeight(bs, n, h, i);
    }
    assert start + count <= TypeEnd(bs, n, top, a) by {
      TypeEndCovers(bs, n, top, h);
    }
    TypeEndsAt(bs, n, a);
  }

  /** A node of height h exists only below the top height, and its array is its slot. */
  lemma NodeHeight(bs: BoundSize, n: nat, h: nat, i: nat)
    requires TypeFits(bs, n) && NodeAt(h, i) <= n
    ensures h <= LevelCount(n) - 2 && h + bs <= 64 && Slot(bs, h) == ArrayOf(bs, h)
  {
    var j := NodeAt(h, i);
    NodeAtInverse(h, i);
    RhoBelowLambda(j, n);
    Pow2Lt(Lambda(n), Lambda(n + 1) + 1);
  }

  /** The switch allocates every array a height uses as long as Levels + BOUNDSIZE - 1 stays
      within its last case, 64. */
  lemma AllocAsWrittenFits(bs: BoundSize, n: nat)
    requires LevelCount(n) + bs - 1 <= 64
    ensures AllocAsWritten(bs, LevelCount(n), TypeEnds(bs, n)) == Alloc(TypeEnds(bs, n))
  {
    var top, x := LevelCount(n) - 2, LevelCount(n) + bs - 1;
    if x < 17 {
      TypeEndUnused(bs, n, top, 2);
    }
    if x < 9 {
      TypeEndUnused(bs, n, top, 1);
    }
  }

  /** The counts of a one-element tree: Levels = 3, one node of height 0, none of height 1. */
  lemma OneElementCounts(n: nat)
    requires n == 1
    ensures LevelCount(n) == 3 && CountHeight(n, 0) == 1 && CountHeight(n, 1) == 0
  {
    assert Lambda(n + 1) == 1;
    assert Pow2(0) == 1 && Pow2(1) == 2 && Pow2(2) == 4;
  }

  /** With BOUNDSIZE 64, heights 0 and 1 both go to Tree64, which then ends after the nodes
      of height 0 and 1. */
  lemma WideLayout(n: nat)
    requires LevelCount(n) == 3 && CountHeight(n, 0) == 1 && CountHeight(n, 1) == 0
    ensures LevelStart(64, n, 0) == 0 && LevelStart(64, n, 1) == 1
    ensures TypeEnd(64, n, LevelCount(n) - 2, 2) == 1
  {
  }

  /** With BOUND = 2^64 - 1 (BOUNDSIZE 64) and one element, Levels + BOUNDSIZE - 1 = 66
      falls to the default case: Tree64 is never allocated, although node 1 lives at
      Tree64[0], so the constructor writes outside every array. */
  lemma AllocationMissesTree64(n: nat, bs: BoundSize)
    requires n == 1 && bs == 64
    ensures LevelCount(n) + bs - 1 == 66
    ensures TypeEnds(bs, n)[2] == 1
    ensures AllocAsWritten(bs, LevelCount(n), TypeEnds(bs, n))[2] == 0
    ensures ArrayOf(bs, 0) == 2
    ensures !Covered(bs, n, AllocAsWritten(bs, LevelCount(n), TypeEnds(bs, n)))
  {
    OneElementCounts(n);
    Tree64Unallocated(n, bs);
  }

  lemma Tree64Unallocated(n: nat, bs: BoundSize)
    requires bs == 64 && n >= 1
    requires LevelCount(n) == 3 && CountHeight(n, 0) == 1 && CountHeight(n, 1) == 0
    ensures LevelCount(n) + bs - 1 == 66
    ensures TypeEnds(bs, n)[2] == 1
    ensures AllocAsWritten(bs, LevelCount(n), TypeEnds(bs, n))[2] == 0
    ensures ArrayOf(bs, 0) == 2
    ensures !Covered(bs, n, AllocAsWritten(bs, LevelCount(n), TypeEnds(bs, n)))
  {
    WideLayout(n);
    EmptyArrayUncovered(bs, n, AllocAsWritten(bs, LevelCount(n), TypeEnds(bs, n)));
  }

  /** When the array of height 0 has length 0, leaf 1 has nowhere to go. */
  lemma EmptyArrayUncovered(bs: BoundSize, n: nat, lens: seq<nat>)
    requires n >= 1 && |lens| == 3 && lens[ArrayOf(bs, 0)] == 0
    ensures !Covered(bs, n, lens)
  {
    assert NodeAt(0, 0) == 1 by { assert Pow2(0) == 1; }
    assert LevelStart(bs, n, 0) == 0;
  }

  // ---------------------------------------------------------------------------
  // The tree

  /** An element is addressed by its array (0, 1, 2) and its index there. */
  type Key = (nat, nat)

  /** Index i of height h: Level[h] + i in the array of height h. */
  function TypeLAddr(bs: BoundSize, n: nat): (laddr: (nat, nat) -> Key)
  {
    (h: nat, i: nat) => (ArrayOf(bs, h), LevelStart(bs, n, h) + i)
  }

  lemma TypeLDistinct(bs: BoundSize, n: nat)
    requires TypeFits(bs, n)
    ensures LevelDistinct(TypeLAddr(bs, n), n)
  {
    forall h1: nat, i1: nat, h2: nat, i2: nat |
      NodeAt(h1, i1) <= n && NodeAt(h2, i2) <= n && (h1 != h2 || i1 != i2)
      ensures TypeLAddr(bs, n)(h1, i1) != TypeLAddr(bs, n)(h2, i2)
    {
      NodeHeight(bs, n, h1, i1);
      NodeHeight(bs, n, h2, i2);
      if h1 < h2 && ArrayOf(bs, h1) == ArrayOf(bs, h2) {
        CountBound(n, h1, i1);
        StartOrder(bs, n, h1, h2);
      } else if h2 < h1 && ArrayOf(bs, h1) == ArrayOf(bs, h2) {
        CountBound(n, h2, i2);
        StartOrder(bs, n, h2, h1);
      }
    }
  }

  /** A node of height h is stored in an element of 8, 16 or 64 bits. */
  function HeightMod(bs: BoundSize): (hmod: nat -> nat)
  {
    (h: nat) => ElemMod(ArrayOf(bs, h))
  }

  lemma NodesFit(s: seq<nat>, bound: nat, bs: BoundSize)
    requires Bounded(s, bound) && bound < Pow2(bs) && TypeFits(bs, |s|)
    ensures Fits(s, HeightModulus(HeightMod(bs)))
  {
    forall j | 1 <= j <= |s| ensures NodeSum(s, j) < HeightModulus(HeightMod(bs))(j) {
      NodeSumBits(s, bound, bs, j);
      RhoBelowLambda(j, |s|);
      ElemBitsFit(bs, Rho(j));
    }
  }

  /** The element chosen for height h has at least BOUNDSIZE + h bits. */
  lemma ElemBitsFit(bs: BoundSize, h: nat)
    requires h + bs <= 64
    ensures Pow2(bs + h) <= ElemMod(ArrayOf(bs, h))
  {
    var a := ArrayOf(bs, h);
    Pow2Word();
    if a == 0 {
      Pow2Le(bs + h, 8);
    } else if a == 1 {
      Pow2Le(bs + h, 16);
    } else {
      Pow2Le(bs + h, 64);
    }
  }

  /** BOUND, BOUNDSIZE, Size, Levels, the Level array, the lengths of Tree8, Tree16 and
      Tree64, and their elements. */
  datatype Tree = Tree(bound: nat, bs: BoundSize, size: nat, levels: nat, level: seq<nat>,
                       lens: seq<nat>, fields: map<Key, int>)

  ghost predicate Valid(t: Tree, s: seq<nat>)
  {
    && t.bound < Pow2(t.bs) && t.size == |s| && |s| + 1 < WORD && Bounded(s, t.bound)
    && TypeFits(t.bs, |s|) && t.levels == LevelCount(|s|) && t.level == Starts(t.bs, |s|)
    && t.lens == Alloc(TypeEnds(t.bs, |s|))
    && Holds(t.fields, LevelAddr(TypeLAddr(t.bs, |s|)), s)
  }

  /** fillTree's heights over all four calls: l < Levels - 1 and l <= 64 - BOUNDSIZE. */
  function FillHeights(bs: BoundSize, n: nat): nat
  {
    var top := LevelCount(n) - 1;
    if top <= 65 - bs then top else 65 - bs
  }

  lemma FillHeightsCover(bs: BoundSize, n: nat)
    requires TypeFits(bs, n)
    ensures n < Pow2(FillHeights(bs, n))
  {
    if n > 0 && 65 - bs < LevelCount(n) - 1 {
      Pow2Le(Lambda(n) + 1, 65 - bs);
    }
  }

  /** The constructor: Level and typeEnd, the arrays, then fillTree height by height, each
      node summing its leaf and the elements of its children. */
  method Build(s: seq<nat>, bound: nat, bs: BoundSize) returns (t: Tree)
    requires bound < Pow2(bs) && |s| + 1 < WORD && Bounded(s, bound) && TypeFits(bs, |s|)
    ensures Valid(t, s) && t.bound == bound && t.bs == bs
  {
    var n := |s|;
    var level, typeEnd := Layout(bs, n);
    var lens := Alloc(typeEnd);
    TypeLDistinct(bs, n);
    NodesFit(s, bound, bs);
    FillHeightsCover(bs, n);
    var fields := LevelBuild(s, TypeLAddr(bs, n), HeightMod(bs), FillHeights(bs, n));
    t := Tree(bound, bs, n, Lambda(n + 1) + 2, level, lens, fields);
  }

  /** Tree8, Tree16 or Tree64[Level[h] + i]; elements never written read as 0. */
  function ReadAt(t: Tree): (readAt: (nat, nat) -> int)
  {
    (h: nat, i: nat) =>
      if h < |t.level| && (ArrayOf(t.bs, h), t.level[h] + i) in t.fields
      then t.fields[(ArrayOf(t.bs, h), t.level[h] + i)] else 0
  }

  /** Every node's element reads back its node sum. */
  lemma ReadAtNodes(t: Tree, s: seq<nat>)
    requires Valid(t, s)
    ensures forall h: nat, i: nat :: NodeAt(h, i) <= |s| ==> ReadAt(t)(h, i) == NodeSum(s, NodeAt(h, i))
  {
    forall h: nat, i: nat | NodeAt(h, i) <= |s|
      ensures ReadAt(t)(h, i) == NodeSum(s, NodeAt(h, i))
    {
      var j := NodeAt(h, i);
      NodeAtInverse(h, i);
      NodeHeight(t.bs, |s|, h, i);
      NodeKey(t, s, h, i);
      assert LevelAddr(TypeLAddr(t.bs, |s|))(j) in t.fields;
    }
  }

  /** The key of node (h, i) is the one ReadAt looks up. */
  lemma NodeKey(t: Tree, s: seq<nat>, h: nat, i: nat)
    requires t.level == Starts(t.bs, |s|) && h <= LevelCount(|s|) - 2
    requires NodeAt(h, i) > 0 && Rho(NodeAt(h, i)) == h && LevelIndex(NodeAt(h, i)) == i
    ensures h < |t.level|
    ensures LevelAddr(TypeLAddr(t.bs, |s|))(NodeAt(h, i)) == (ArrayOf(t.bs, h), t.level[h] + i)
  {
    LevelAddrAt(TypeLAddr(t.bs, |s|), NodeAt(h, i));
  }

  method Prefix(t: Tree, ghost s: seq<nat>, idx: nat) returns (sum: int)
    requires Valid(t, s) && idx <= t.size
    ensures sum == PrefixSums.Prefix(s, idx)
  {
    ReadAtNodes(t, s);
    LevelReads(ReadAt(t), s);
    sum := PrefixWalk(LevelRead(ReadAt(t)), s, idx);
  }

  /** add(idx, inc): idx is 1-based; an index past the end changes nothing. */
  method Add(t: Tree, ghost s: seq<nat>, idx: nat, inc: int) returns (t': Tree)
    requires Valid(t, s) && 1 <= idx
    requires idx <= |s| ==> 0 <= s[idx - 1] + inc <= t.bound
    ensures t'.size == t.size && t'.bound == t.bound && t'.bs == t.bs
    ensures t'.levels == t.levels && t'.level == t.level && t'.lens == t.lens
    ensures idx <= |s| ==> Valid(t', Update(s, idx, inc))
    ensures idx > |s| ==> t' == t
  {
    var addr := LevelAddr(TypeLAddr(t.bs, t.size));
    TypeLDistinct(t.bs, t.size);
    LevelDistinctNodes(TypeLAddr(t.bs, t.size), t.size);
    var fields := AddWalk(t.fields, addr, t.size, idx, inc);
    t' := t.(fields := fields);
    if idx <= |s| {
      AddKeepsHolds(t.fields, fields, addr, s, idx, inc);
      UpdateKeepsBounds(s, idx, inc, t.bound);
    } else {
      AddBeyond(t.fields, fields, addr, t.size, idx, inc);
    }
  }

  // ---------------------------------------------------------------------------
  // find and compFind with the guard node + 2^h > Size

  /** The exact guard: the candidate node lies past the last element. */
  function SkipAt(t: Tree): (skipAt: (nat, nat) -> bool)
  {
    (h: nat, i: nat) => NodeAt(h, i) > t.size
  }

  /** find(val): the largest p with prefix(p) <= val; val keeps val - prefix(p). */
  method Find(t: Tree, ghost s: seq<nat>, val: nat) returns (p: nat, rest: int)
    requires Valid(t, s)
    ensures IsLargest(s, val, p)
    ensures rest == val - PrefixSums.Prefix(s, p)
  {
    ReadAtNodes(t, s);
    var node;
    node, rest := LevelFind(ReadAt(t), SkipAt(t), s, t.levels - 2, val);
    p := if node < t.size then node else t.size;
  }

  /** compFind reads (BOUND << h) minus the element. */
  function CompAt(t: Tree): (readAt: (nat, nat) -> int)
  {
    (h: nat, i: nat) => t.bound * Pow2(h) - ReadAt(t)(h, i)
  }

  lemma CompAtNodes(t: Tree, s: seq<nat>)
    requires Valid(t, s)
    ensures forall h: nat, i: nat :: NodeAt(h, i) <= |s| ==>
      CompAt(t)(h, i) == NodeSum(Complement(s, t.bound), NodeAt(h, i))
  {
    ReadAtNodes(t, s);
    forall h: nat, i: nat | NodeAt(h, i) <= |s|
      ensures CompAt(t)(h, i) == NodeSum(Complement(s, t.bound), NodeAt(h, i))
    {
      NodeAtInverse(h, i);
      NodeSumComplement(s, t.bound, NodeAt(h, i));
    }
  }

  /** compFind(val): find over BOUND - s[k]. */
  method CompFind(t: Tree, ghost s: seq<nat>, val: nat) returns (p: nat, rest: int)
    requires Valid(t, s)
    ensures IsLargest(Complement(s, t.bound), val, p)
    ensures rest == val - PrefixSums.Prefix(Complement(s, t.bound), p)
  {
    CompAtNodes(t, s);
    var node;
    node, rest := LevelFind(CompAt(t), SkipAt(t), Complement(s, t.bound), t.levels - 2, val);
    p := if node < t.size then node else t.size;
  }

  // ---------------------------------------------------------------------------
  // find and compFind with the guard as written

  /** find's guard as written: the candidate's element Level[h] + i is compared with the
      length of the whole array of height h, which also holds the heights stored after h. */
  function SkipAsWritten(t: Tree): (skipAt: (nat, nat) -> bool)
  {
    (h: nat, i: nat) =>
      h >= |t.level| || |t.lens| != 3 || t.level[h] + i >= t.lens[ArrayOf(t.bs, h)]
  }

  /** The search from height Levels - 2 with that guard, capped at Size. */
  function SearchAsWritten(t: Tree, readAt: (nat, nat) -> int, val: nat): nat
  {
    var node := Descend(LevelRead(readAt), LevelSkip(SkipAsWritten(t)), t.levels - 2, 0, val).0;
    if node < t.size then node else t.size
  }

  /** The guard as written never skips a node of the tree; it only lets through more
      candidates than the exact one. */
  lemma GuardKeepsNodes(t: Tree, s: seq<nat>, h: nat, i: nat)
    requires Valid(t, s) && NodeAt(h, i) <= |s|
    ensures !SkipAsWritten(t)(h, i)
  {
    AllocCovers(t.bs, |s|);
    NodeHeight(t.bs, |s|, h, i);
  }

  /** find(val) as written: a position of the tree, the one the search with the array
      guard ends at. */
  method FindAsWritten(t: Tree, ghost s: seq<nat>, val: nat) returns (p: nat, rest: int)
    requires Valid(t, s)
    ensures p == SearchAsWritten(t, ReadAt(t), val) && p <= |s|
  {
    var node;
    node, rest := LevelSearch(ReadAt(t), SkipAsWritten(t), t.levels - 2, val);
    p := if node < t.size then node else t.size;
  }

  /** compFind(val) as written: the same guard over the complemented reads. */
  method CompFindAsWritten(t: Tree, ghost s: seq<nat>, val: nat) returns (p: nat, rest: int)
    requires Valid(t, s)
    ensures p == SearchAsWritten(t, CompAt(t), val) && p <= |s|
  {
    var node;
    node, rest := LevelSearch(CompAt(t), SkipAsWritten(t), t.levels - 2, val);
    p := if node < t.size then node else t.size;
  }

  /** With BOUND = 1 and the elements 0, 0, 0, 0, 1 the answer to find(0) is 4, but the
      search as written reads node 4's element again for candidate 6 (index 1 of height 1
      is Tree8[4], past height 1's single node) and node 2's element for candidate 7, takes
      both, and returns min(7, Size) = 5. */
  lemma FindOvershoots(t: Tree, s: seq<nat>)
    requires Valid(t, s) && s == [0, 0, 0, 0, 1] && t.bs == 1
    ensures IsLargest(s, 0, 4)
    ensures SearchAsWritten(t, ReadAt(t), 0) == 5
  {
    FiveSums(s);
    FiveElementCounts(|s|);
    FiveLayout(t, s);
    TwoReads(t, s, 4, 2);
    SearchFromLayout(t);
  }

  lemma FiveSums(s: seq<nat>)
    requires s == [0, 0, 0, 0, 1]
    ensures NodeSum(s, 4) == 0 && NodeSum(s, 2) == 0
    ensures IsLargest(s, 0, 4)
  {
    assert Rho(4) == 2 && Rho(2) == 1;
    assert Pow2(2) == 4 && Pow2(1) == 2;
    assert PrefixSums.Prefix(s, 5) == 1;
  }

  /** Five elements: Levels = 4, with 3, 1 and 1 nodes of heights 0, 1 and 2. */
  lemma FiveElementCounts(n: nat)
    requires n == 5
    ensures LevelCount(n) == 4
    ensures CountHeight(n, 0) == 3 && CountHeight(n, 1) == 1 && CountHeight(n, 2) == 1
  {
    assert Lambda(n + 1) == 2;
    assert Pow2(0) == 1 && Pow2(1) == 2 && Pow2(2) == 4 && Pow2(3) == 8;
  }

  /** With BOUNDSIZE 1 and those counts all three heights share Tree8, starting at 0, 3
      and 4, and Tree8 has 5 elements. */
  lemma NarrowLayout(bs: BoundSize, n: nat)
    requires bs == 1 && LevelCount(n) == 4
    requires CountHeight(n, 0) == 3 && CountHeight(n, 1) == 1 && CountHeight(n, 2) == 1
    ensures LevelStart(bs, n, 0) == 0 && LevelStart(bs, n, 1) == 3 && LevelStart(bs, n, 2) == 4
    ensures TypeEnds(bs, n)[0] == 5
    ensures ArrayOf(bs, 0) == 0 && ArrayOf(bs, 1) == 0 && ArrayOf(bs, 2) == 0
  {
  }

  /** Candidates 4, 6 and 7 are index 0 of height 2, index 1 of height 1 and index 3 of
      height 0; nodes 4 and 2 are index 0 of heights 2 and 1. */
  lemma CandidateNodes()
    ensures Rho(4) == 2 && LevelIndex(4) == 0
    ensures Rho(6) == 1 && LevelIndex(6) == 1
    ensures Rho(7) == 0 && LevelIndex(7) == 3
    ensures Rho(2) == 1 && LevelIndex(2) == 0
  {
    assert Pow2(0) == 1 && Pow2(1) == 2 && Pow2(2) == 4 && Pow2(3) == 8;
  }

  /** Taking candidates 4, 6 and 7 in turn ends the search at node 7. */
  lemma ThreeSteps(read: nat -> int, skip: nat -> bool)
    requires read(4) == 0 && read(6) == 0 && read(7) == 0
    requires !skip(4) && !skip(6) && !skip(7)
    ensures Descend(read, skip, 2, 0, 0) == (7, 0)
  {
    assert Pow2(0) == 1 && Pow2(1) == 2 && Pow2(2) == 4;
    DescendUnfold(read, skip, 2, 0, 0, 4);
    DescendUnfold(read, skip, 1, 4, 0, 6);
    DescendUnfold(read, skip, 0, 6, 0, 7);
  }

  lemma FiveLayout(t: Tree, s: seq<nat>)
    requires Valid(t, s) && |s| == 5 && t.bs == 1 && LevelCount(|s|) == 4
    requires CountHeight(|s|, 0) == 3 && CountHeight(|s|, 1) == 1 && CountHeight(|s|, 2) == 1
    ensures t.levels == 4 && t.size == 5 && |t.lens| == 3 && t.lens[0] == 5
    ensures |t.level| == 4 && t.level[0] == 0 && t.level[1] == 3 && t.level[2] == 4
  {
    NarrowLayout(t.bs, |s|);
  }

  /** The elements of nodes j1 and j2 read back their node sums. */
  lemma TwoReads(t: Tree, s: seq<nat>, j1: nat, j2: nat)
    requires Valid(t, s) && 1 <= j1 <= |s| && 1 <= j2 <= |s|
    ensures ReadAt(t)(Rho(j1), LevelIndex(j1)) == NodeSum(s, j1)
    ensures ReadAt(t)(Rho(j2), LevelIndex(j2)) == NodeSum(s, j2)
  {
    ReadAtNodes(t, s);
    LevelIndexInverse(j1);
    LevelIndexInverse(j2);
  }

  /** The search as written over the Tree8 layout 0, 3, 4 of five elements whose nodes 4
      and 2 hold 0. */
  lemma SearchFromLayout(t: Tree)
    requires t.bs == 1 && t.levels == 4 && t.size == 5 && |t.lens| == 3 && t.lens[0] == 5
    requires |t.level| == 4 && t.level[0] == 0 && t.level[1] == 3 && t.level[2] == 4
    requires ReadAt(t)(Rho(4), LevelIndex(4)) == 0 && ReadAt(t)(Rho(2), LevelIndex(2)) == 0
    ensures SearchAsWritten(t, ReadAt(t), 0) == 5
  {
    CandidateNodes();
    var readAt, skipAt := ReadAt(t), SkipAsWritten(t);
    assert ArrayOf(t.bs, 0) == 0 && ArrayOf(t.bs, 1) == 0 && ArrayOf(t.bs, 2) == 0;
    assert readAt(1, 1) == readAt(2, 0);
    assert readAt(0, 3) == readAt(1, 0);
    assert !skipAt(2, 0) && !skipAt(1, 1) && !skipAt(0, 3);
    ThreeSteps(LevelRead(readAt), LevelSkip(skipAt));
  }
}
