/** The level-ordered node layout shared by BitL, ByteL and TypeL.

    Node j of height h = rho(j) is the node with index j >> (h + 1) on level h,
    so level h holds the nodes (2i + 1) * 2^h, i = 0, 1, ..., in increasing
    order. A variant describes its layout by `laddr(h, i)`, the address of the
    field of index i on level h; this module turns that into the per-node
    address the classical walks use, proves that the layout gives distinct
    nodes distinct fields, and models the level-by-level build and the
    index-tracking search the three variants share. */
module Levels {
  import opened Bits
  import opened PrefixSums
  import opened Fenwick

  /** The node with index i on level h: (2i + 1) * 2^h. */
  function NodeAt(h: nat, i: nat): (j: nat)
    ensures j >= Pow2(h)
  {
    (2 * i + 1) * Pow2(h)
  }

  /** The index of node j on the level of its height: j >> (rho(j) + 1). */
  function LevelIndex(j: nat): nat
    requires j > 0
  {
    j / Pow2(Rho(j) + 1)
  }

  /** (2i + 1) * p divided by 2p. */
  lemma OddDivMod(i: nat, p: nat)
    requires p > 0
    ensures ((2 * i + 1) * p) / (2 * p) == i && ((2 * i + 1) * p) % (2 * p) == p
  {
    assert (2 * i + 1) * p == (2 * p) * i + p;
    ModUnique((2 * i + 1) * p, 2 * p, i, p);
  }

  lemma OddSplit(j: nat, p: nat)
    requires p > 0 && j % (2 * p) == p
    ensures j == (2 * (j / (2 * p)) + 1) * p
  {
    var q := j / (2 * p);
    assert j == (2 * p) * q + p;
  }

  /** NodeAt(h, i) has height h and index i. */
  lemma NodeAtInverse(h: nat, i: nat)
    ensures Rho(NodeAt(h, i)) == h
    ensures LevelIndex(NodeAt(h, i)) == i
  {
    OddDivMod(i, Pow2(h));
    assert Pow2(h + 1) == 2 * Pow2(h);
    RhoChar(NodeAt(h, i), h);
  }

  /** Every node is the node of its index on its level. */
  lemma LevelIndexInverse(j: nat)
    requires j > 0
    ensures NodeAt(Rho(j), LevelIndex(j)) == j
  {
    var h := Rho(j);
    RhoChar(j, h);
    assert Pow2(h + 1) == 2 * Pow2(h);
    OddSplit(j, Pow2(h));
  }

  /** Nodes of one level are ordered by index and 2^(h+1) apart. */
  lemma NodeAtOrder(h: nat, t: nat, u: nat)
    ensures u <= t ==> NodeAt(h, u) <= NodeAt(h, t)
    ensures u > t ==> NodeAt(h, u) >= NodeAt(h, t) + Pow2(h + 1)
  {
    assert Pow2(h + 1) == 2 * Pow2(h);
    OddOrder(Pow2(h), t, u);
  }

  lemma OddOrder(p: nat, t: nat, u: nat)
    ensures u <= t ==> (2 * u + 1) * p <= (2 * t + 1) * p
    ensures u > t ==> (2 * u + 1) * p >= (2 * t + 1) * p + 2 * p
  {
    if u <= t {
      assert (2 * t + 1) * p == (2 * u + 1) * p + (2 * p) * (t - u);
    } else {
      assert (2 * u + 1) * p == (2 * t + 1) * p + (2 * p) * (u - t);
      MulBounds(2 * p, u - t);
    }
  }

  // ---------------------------------------------------------------------------
  // Level sizes

  /** Number of nodes of height h among 1..n: (n + 2^h) / 2^(h+1). */
  function CountHeight(n: nat, h: nat): nat
  {
    (n + Pow2(h)) / Pow2(h + 1)
  }

  /** Reference count: the nodes j of 1..n with rho(j) == h, one by one. */
  function CountRho(n: nat, h: nat): nat
  {
    if n == 0 then 0 else CountRho(n - 1, h) + (if Rho(n) == h then 1 else 0)
  }

  /** Index i exists on level h of a tree of n nodes exactly when its node is at most n. */
  lemma CountBound(n: nat, h: nat, i: nat)
    ensures i < CountHeight(n, h) <==> NodeAt(h, i) <= n
  {
    assert Pow2(h + 1) == 2 * Pow2(h);
    CountBoundArith(n, Pow2(h), i);
  }

  lemma CountBoundArith(n: nat, p: nat, i: nat)
    requires p > 0
    ensures i < (n + p) / (2 * p) <==> (2 * i + 1) * p <= n
  {
    var P := 2 * p;
    var q := (n + p) / P;
    var r := (n + p) % P;
    assert n + p == P * q + r && r < P;
    assert (2 * i + 1) * p + p == P * (i + 1);
    if i < q {
      MulBounds(P, q - (i + 1));
      assert P * q == P * (i + 1) + P * (q - (i + 1));
    } else {
      MulBounds(P, i + 1 - q);
      assert P * (i + 1) == P * q + P * (i + 1 - q);
    }
  }

  /** The closed form counts the nodes of height h. */
  lemma {:induction false} CountHeightIsCount(n: nat, h: nat)
    ensures CountHeight(n, h) == CountRho(n, h)
  {
    assert Pow2(h + 1) == 2 * Pow2(h);
    if n == 0 {
      ModUnique(Pow2(h), 2 * Pow2(h), 0, Pow2(h));
    } else {
      CountHeightIsCount(n - 1, h);
      RhoChar(n, h);
      CountStepArith(n, Pow2(h));
    }
  }

  /** Adding n to the range adds one to the closed form exactly when n % 2p == p. */
  lemma CountStepArith(n: nat, p: nat)
    requires n > 0 && p > 0
    ensures (n + p) / (2 * p) == (n - 1 + p) / (2 * p) + (if n % (2 * p) == p then 1 else 0)
  {
    var P := 2 * p;
    var x := n - 1 + p;
    var q := x / P;
    var r := x % P;
    assert x == P * q + r;
    if r == P - 1 {
      CountStepWrap(n, p, q);
    } else {
      CountStepInside(n, p, q, r);
    }
  }

  lemma CountStepWrap(n: nat, p: nat, q: nat)
    requires n > 0 && p > 0 && n - 1 + p == 2 * p * q + 2 * p - 1
    ensures (n + p) / (2 * p) == q + 1 && (n - 1 + p) / (2 * p) == q && n % (2 * p) == p
  {
    ModUnique(n + p, 2 * p, q + 1, 0);
    ModUnique(n - 1 + p, 2 * p, q, 2 * p - 1);
    ModUnique(n, 2 * p, q, p);
  }

  lemma CountStepInside(n: nat, p: nat, q: nat, r: nat)
    requires n > 0 && p > 0 && r < 2 * p - 1 && n - 1 + p == 2 * p * q + r
    ensures (n + p) / (2 * p) == q && (n - 1 + p) / (2 * p) == q && n % (2 * p) != p
  {
    ModUnique(n + p, 2 * p, q, r + 1);
    ModUnique(n - 1 + p, 2 * p, q, r);
    if r + 1 >= p {
      ModUnique(n, 2 * p, q, r + 1 - p);
    } else {
      assert q >= 1;
      assert n == 2 * p * (q - 1) + (p + r + 1);
      ModUnique(n, 2 * p, q - 1, p + r + 1);
    }
  }

  // ---------------------------------------------------------------------------
  // From level addresses to node addresses

  /** The per-node address of a level layout. */
  function LevelAddr<K>(laddr: (nat, nat) -> K): (addr: nat -> K)
  {
    (j: nat) => if j == 0 then laddr(0, 0) else laddr(Rho(j), LevelIndex(j))
  }

  lemma LevelAddrAt<K>(laddr: (nat, nat) -> K, j: nat)
    requires j > 0
    ensures LevelAddr(laddr)(j) == laddr(Rho(j), LevelIndex(j))
  {
  }

  /** The layout gives distinct (height, index) pairs of a tree of n nodes distinct fields. */
  ghost predicate LevelDistinct<K>(laddr: (nat, nat) -> K, n: nat)
  {
    forall h1: nat, i1: nat, h2: nat, i2: nat ::
      NodeAt(h1, i1) <= n && NodeAt(h2, i2) <= n && (h1 != h2 || i1 != i2) ==>
        laddr(h1, i1) != laddr(h2, i2)
  }

  lemma LevelDistinctNodes<K>(laddr: (nat, nat) -> K, n: nat)
    requires LevelDistinct(laddr, n)
    ensures Distinct(LevelAddr(laddr), n)
  {
    forall j, k | 1 <= j < k <= n ensures LevelAddr(laddr)(j) != LevelAddr(laddr)(k) {
      LevelIndexInverse(j);
      LevelIndexInverse(k);
    }
  }

  /** The modulus of node j's field when fields at height h hold values modulo hmod(h). */
  function HeightModulus(hmod: nat -> nat): (modulus: nat -> nat)
  {
    (j: nat) => FieldModulus(hmod, j)
  }

  function FieldModulus(hmod: nat -> nat, j: nat): nat
  {
    if j == 0 then 1 else hmod(Rho(j))
  }

  /** The value a level layout reads for node j. */
  function LevelRead(readAt: (nat, nat) -> int): (read: nat -> int)
  {
    (j: nat) => if j == 0 then 0 else readAt(Rho(j), LevelIndex(j))
  }

  /** The guard of a level layout applied to node j. */
  function LevelSkip(skipAt: (nat, nat) -> bool): (skip: nat -> bool)
  {
    (j: nat) => j != 0 && skipAt(Rho(j), LevelIndex(j))
  }

  /** Correct values per level give correct values per node. */
  lemma LevelReads(readAt: (nat, nat) -> int, s: seq<nat>)
    requires forall h: nat, i: nat :: NodeAt(h, i) <= |s| ==> readAt(h, i) == NodeSum(s, NodeAt(h, i))
    ensures Reads(LevelRead(readAt), s)
  {
    forall j | 1 <= j <= |s| ensures LevelRead(readAt)(j) == NodeSum(s, j) {
      LevelIndexInverse(j);
    }
  }

  /** A guard that rejects exactly the indices past the level's last node is exact. */
  lemma LevelSkipExact(skipAt: (nat, nat) -> bool, n: nat)
    requires forall h: nat, i: nat :: skipAt(h, i) <==> NodeAt(h, i) > n
    ensures ExactSkip(LevelSkip(skipAt), n)
  {
    forall j: nat ensures LevelSkip(skipAt)(j) <==> j > n {
      if j > 0 { LevelIndexInverse(j); }
    }
  }

  // ---------------------------------------------------------------------------
  // Build

  /** Node j's field has been written with its node sum. */
  ghost predicate Done<K>(store: map<K, int>, laddr: (nat, nat) -> K, s: seq<nat>, j: nat)
    requires 1 <= j <= |s|
  {
    laddr(Rho(j), LevelIndex(j)) in store && store[laddr(Rho(j), LevelIndex(j))] == NodeSum(s, j)
  }

  /** Every node below height l, and the first t nodes of height l, are done. */
  ghost predicate DoneUpTo<K>(store: map<K, int>, laddr: (nat, nat) -> K, s: seq<nat>, l: nat, t: nat)
  {
    forall j {:trigger Done(store, laddr, s, j)} ::
      1 <= j <= |s| && (Rho(j) < l || (Rho(j) == l && LevelIndex(j) < t)) ==> Done(store, laddr, s, j)
  }

  /** The child of height j < l of the node NodeAt(l, t) is the node 2^j before it. */
  lemma ChildOf(l: nat, t: nat, j: nat)
    requires j < l
    ensures Pow2(j + 1) <= NodeAt(l, t)
    ensures Rho(NodeAt(l, t) - Pow2(j)) == j
    ensures LowBit(NodeAt(l, t) - Pow2(j)) == Pow2(j)
    ensures LevelIndex(NodeAt(l, t) - Pow2(j)) == (NodeAt(l, t) - 1) / Pow2(j + 1)
  {
    var node := NodeAt(l, t);
    var x := node - Pow2(j + 1);
    ChildBelow(l, t, j);
    assert Pow2(j + 1) == 2 * Pow2(j);
    RhoOfSum(x, Pow2(j), j + 1);
    RhoOfPow2(j);
    MultipleDiv(x, Pow2(j));
  }

  /** Below the node lies a multiple of 2^(j+1). */
  lemma ChildBelow(l: nat, t: nat, j: nat)
    requires j < l
    ensures Pow2(j + 1) <= NodeAt(l, t)
    ensures var x := NodeAt(l, t) - Pow2(j + 1);
      (x == 0 || Rho(x) >= j + 1) && x % Pow2(j + 1) == 0
  {
    var node := NodeAt(l, t);
    Pow2Le(j + 1, l);
    NodeAtInverse(l, t);
    RhoAddPow2(node, j + 1);
    var x := node - Pow2(j + 1);
    if x > 0 {
      RhoDivides(x, j + 1);
    }
  }

  /** x a multiple of 2p: x + p and x + 2p - 1 have the same quotient by 2p as x. */
  lemma MultipleDiv(x: nat, p: nat)
    requires p > 0 && x % (2 * p) == 0
    ensures (x + p) / (2 * p) == x / (2 * p)
    ensures (x + 2 * p - 1) / (2 * p) == x / (2 * p)
  {
    var q := x / (2 * p);
    assert x == (2 * p) * q;
    ModUnique(x + p, 2 * p, q, p);
    ModUnique(x + 2 * p - 1, 2 * p, q, 2 * p - 1);
  }

  /** The inner loop of the build: the leaf plus the fields of the node's children,
      each read modulo its field. */
  method NodeValue<K>(s: seq<nat>, laddr: (nat, nat) -> K, hmod: nat -> nat, store: map<K, int>,
                      node: nat, l: nat, ghost t: nat) returns (value: int)
    requires Fits(s, HeightModulus(hmod))
    requires node == NodeAt(l, t) <= |s|
    requires DoneUpTo(store, laddr, s, l, 0)
    ensures value == NodeSum(s, node)
  {
    var idx := node - 1;
    value := s[idx];
    var j := 0;
    while j < l
      invariant j <= l && idx == (node - 1) / Pow2(j)
      invariant Pow2(j) <= node && value == Sum(s, node - Pow2(j), node)
    {
      idx, value := AddChild(s, laddr, hmod, store, node, l, t, j, idx, value);
      j := j + 1;
    }
    NodeAtInverse(l, t);
  }

  /** One step of NodeValue: move the index one level down and add the field of the
      child of height j. */
  method AddChild<K>(s: seq<nat>, laddr: (nat, nat) -> K, hmod: nat -> nat, store: map<K, int>,
                     node: nat, l: nat, ghost t: nat, j: nat, idx: nat, value: int)
    returns (idx': nat, value': int)
    requires Fits(s, HeightModulus(hmod)) && DoneUpTo(store, laddr, s, l, 0)
    requires node == NodeAt(l, t) <= |s| && j < l
    requires Pow2(j) <= node && idx == (node - 1) / Pow2(j) && value == Sum(s, node - Pow2(j), node)
    ensures Pow2(j + 1) <= node
    ensures idx' == (node - 1) / Pow2(j + 1) && value' == Sum(s, node - Pow2(j + 1), node)
  {
    NodeValueStep(s, l, t, j, idx);
    idx' := idx / 2;
    var child := ChildField(s, laddr, hmod, store, node, j, idx');
    SumGrow(s, node, Pow2(j), Pow2(j + 1), value, child);
    value' := value + child;
  }

  /** The child read at step j of NodeValue is the node 2^j before it, and it
      extends the summed range from 2^j to 2^(j+1) elements. */
  lemma NodeValueStep(s: seq<nat>, l: nat, t: nat, j: nat, idx: nat)
    requires j < l && NodeAt(l, t) <= |s| && idx == (NodeAt(l, t) - 1) / Pow2(j)
    ensures Pow2(j + 1) <= NodeAt(l, t)
    ensures idx / 2 == (NodeAt(l, t) - 1) / Pow2(j + 1)
    ensures Rho(NodeAt(l, t) - Pow2(j)) == j && LowBit(NodeAt(l, t) - Pow2(j)) == Pow2(j)
    ensures LevelIndex(NodeAt(l, t) - Pow2(j)) == idx / 2
    ensures Pow2(j) <= Pow2(j + 1)
  {
    var node := NodeAt(l, t);
    DivPow2Add(node - 1, j, 1);
    ChildOf(l, t, j);
  }

  lemma SumGrow(s: seq<nat>, node: nat, w: nat, w2: nat, value: int, child: int)
    requires w <= w2 <= node <= |s|
    requires value == Sum(s, node - w, node) && child == Sum(s, node - w2, node - w)
    ensures value + child == Sum(s, node - w2, node)
  {
    SumSplit(s, node - w2, node - w, node);
  }

  /** The field of a completed child, read modulo its field. */
  function ChildField<K>(s: seq<nat>, laddr: (nat, nat) -> K, hmod: nat -> nat, store: map<K, int>,
                         node: nat, j: nat, idx: nat): (v: int)
    requires Fits(s, HeightModulus(hmod))
    requires Pow2(j + 1) <= node <= |s| && Rho(node - Pow2(j)) == j
    requires LowBit(node - Pow2(j)) == Pow2(j) && LevelIndex(node - Pow2(j)) == idx
    requires DoneUpTo(store, laddr, s, j + 1, 0)
    ensures v == Sum(s, node - Pow2(j + 1), node - Pow2(j))
  {
    var c := node - Pow2(j);
    assert Done(store, laddr, s, c);
    var f := store[laddr(j, idx)];
    assert f == NodeSum(s, c) && f < FieldModulus(hmod, c);
    ModUnique(f, hmod(j), 0, f);
    f % hmod(j)
  }

  /** The build of the nodes of one height l, left to right. */
  method BuildHeight<K>(s: seq<nat>, laddr: (nat, nat) -> K, hmod: nat -> nat, store0: map<K, int>,
                        l: nat) returns (store: map<K, int>)
    requires LevelDistinct(laddr, |s|) && Fits(s, HeightModulus(hmod))
    requires DoneUpTo(store0, laddr, s, l, 0)
    ensures DoneUpTo(store, laddr, s, l + 1, 0)
  {
    store := store0;
    var node := Pow2(l);
    var t: nat := 0;
    while node <= |s|
      invariant node == NodeAt(l, t)
      invariant DoneUpTo(store, laddr, s, l, t)
      decreases |s| - node
    {
      DoneLower(store, laddr, s, l, t);
      var value := NodeValue(s, laddr, hmod, store, node, l, t);
      WriteStep(s, laddr, hmod, store, l, t, value);
      store := store[laddr(l, t) := value % hmod(l)];
      NodeAtNext(l, t);
      node := node + Pow2(l + 1);
      t := t + 1;
    }
    HeightDone(store, laddr, s, l, t);
  }

  lemma NodeAtNext(l: nat, t: nat)
    ensures NodeAt(l, t + 1) == NodeAt(l, t) + Pow2(l + 1)
  {
    assert Pow2(l + 1) == 2 * Pow2(l);
  }

  lemma DoneLower<K>(store: map<K, int>, laddr: (nat, nat) -> K, s: seq<nat>, l: nat, t: nat)
    requires DoneUpTo(store, laddr, s, l, t)
    ensures DoneUpTo(store, laddr, s, l, 0)
  {
  }

  /** Once the next index of height l is past n, every node up to height l is done. */
  lemma HeightDone<K>(store: map<K, int>, laddr: (nat, nat) -> K, s: seq<nat>, l: nat, t: nat)
    requires DoneUpTo(store, laddr, s, l, t) && NodeAt(l, t) > |s|
    ensures DoneUpTo(store, laddr, s, l + 1, 0)
  {
    forall j | 1 <= j <= |s| && Rho(j) == l ensures LevelIndex(j) < t {
      LevelIndexInverse(j);
      NodeAtOrder(l, t, LevelIndex(j));
    }
  }

  /** Writing node NodeAt(l, t) (value modulo its field) completes it and keeps the others. */
  lemma WriteStep<K>(s: seq<nat>, laddr: (nat, nat) -> K, hmod: nat -> nat, store: map<K, int>,
                     l: nat, t: nat, value: int)
    requires LevelDistinct(laddr, |s|) && Fits(s, HeightModulus(hmod))
    requires NodeAt(l, t) <= |s| && value == NodeSum(s, NodeAt(l, t))
    requires DoneUpTo(store, laddr, s, l, t)
    ensures 0 <= value < hmod(l)
    ensures value % hmod(l) == value
    ensures DoneUpTo(store[laddr(l, t) := value % hmod(l)], laddr, s, l, t + 1)
  {
    var node := NodeAt(l, t);
    NodeAtInverse(l, t);
    assert FieldModulus(hmod, node) == hmod(l);
    ModUnique(value, hmod(l), 0, value);
    var r := store[laddr(l, t) := value];
    forall j | 1 <= j <= |s| && (Rho(j) < l || (Rho(j) == l && LevelIndex(j) < t + 1))
      ensures Done(r, laddr, s, j)
    {
      LevelIndexInverse(j);
      if j != node {
        assert Done(store, laddr, s, j);
        assert laddr(Rho(j), LevelIndex(j)) != laddr(l, t);
      }
    }
  }

  /** Every node of a tree over s below height `levels` is done: the store holds the tree. */
  lemma BuildComplete<K>(store: map<K, int>, laddr: (nat, nat) -> K, s: seq<nat>, levels: nat)
    requires DoneUpTo(store, laddr, s, levels, 0) && |s| < Pow2(levels)
    ensures Holds(store, LevelAddr(laddr), s)
  {
    forall j | 1 <= j <= |s|
      ensures LevelAddr(laddr)(j) in store && store[LevelAddr(laddr)(j)] == NodeSum(s, j)
    {
      RhoPow2Le(j);
      Pow2Lt(Rho(j), levels);
      assert Done(store, laddr, s, j);
      LevelAddrAt(laddr, j);
    }
  }

  /** The level-ordered construction: heights 0, 1, ..., levels - 1; at height l the
      nodes 2^l, 3 * 2^l, ... each sum their leaf and the fields of their children. */
  method LevelBuild<K>(s: seq<nat>, laddr: (nat, nat) -> K, hmod: nat -> nat, levels: nat)
    returns (store: map<K, int>)
    requires LevelDistinct(laddr, |s|) && Fits(s, HeightModulus(hmod)) && |s| < Pow2(levels)
    ensures Holds(store, LevelAddr(laddr), s)
  {
    store := map[];
    var l := 0;
    while l < levels
      invariant l <= levels
      invariant DoneUpTo(store, laddr, s, l, 0)
    {
      store := BuildHeight(s, laddr, hmod, store, l);
      l := l + 1;
    }
    BuildComplete(store, laddr, s, levels);
  }

  // ---------------------------------------------------------------------------
  // Search

  /** The search of the level layouts: it tracks the index on the current level
      instead of the node, doubling it on the way down and adding one when it
      descends into a node. */
  method LevelSearch(readAt: (nat, nat) -> int, skipAt: (nat, nat) -> bool, top: int, val: nat)
    returns (node: nat, rest: int)
    requires top >= -1
    ensures (node, rest) == Descend(LevelRead(readAt), LevelSkip(skipAt), top, 0, val)
  {
    ghost var read := LevelRead(readAt);
    ghost var skip := LevelSkip(skipAt);
    node, rest := 0, val;
    var idx: nat := 0;
    var h := top;
    while h >= 0
      invariant -1 <= h <= top
      invariant node == idx * Pow2(h + 1)
      invariant node == 0 || Rho(node) > h
      invariant Descend(read, skip, h, node, rest) == Descend(read, skip, top, 0, val)
      decreases h + 1
    {
      ghost var (node0, rest0) := (node, rest);
      var cur := idx;
      idx := idx * 2;
      if !skipAt(h, cur) && rest >= readAt(h, cur) {
        idx := idx + 1;
        rest := rest - readAt(h, cur);
        node := node + Pow2(h);
      }
      SearchStep(readAt, skipAt, read, skip, h, node0, cur, rest0, node, idx, rest);
      h := h - 1;
    }
  }

  /** One step of LevelSearch: the candidate is the node of index idx on level h; the
      step keeps the node at the new index times 2^h and follows Descend. */
  lemma SearchStep(readAt: (nat, nat) -> int, skipAt: (nat, nat) -> bool, read: nat -> int,
                   skip: nat -> bool, h: nat, node: nat, idx: nat, rest: int,
                   node': nat, idx': nat, rest': int)
    requires read == LevelRead(readAt) && skip == LevelSkip(skipAt)
    requires node == idx * Pow2(h + 1) && (node == 0 || Rho(node) > h)
    requires !skipAt(h, idx) && rest >= readAt(h, idx) ==>
      node' == node + Pow2(h) && idx' == idx * 2 + 1 && rest' == rest - readAt(h, idx)
    requires !(!skipAt(h, idx) && rest >= readAt(h, idx)) ==>
      node' == node && idx' == idx * 2 && rest' == rest
    ensures node' == idx' * Pow2(h) && (node' == 0 || Rho(node') > h - 1)
    ensures Descend(read, skip, h, node, rest) == Descend(read, skip, h - 1, node', rest')
  {
    SearchIndex(readAt, skipAt, node, idx, h);
    SearchDescend(read, skip, h, node, rest, node', rest', readAt(h, idx), skipAt(h, idx));
  }

  lemma SearchDescend(read: nat -> int, skip: nat -> bool, h: nat, node: nat, rest: int,
                      node': nat, rest': int, v: int, g: bool)
    requires read(node + Pow2(h)) == v && skip(node + Pow2(h)) == g
    requires !g && rest >= v ==> node' == node + Pow2(h) && rest' == rest - v
    requires !(!g && rest >= v) ==> node' == node && rest' == rest
    ensures Descend(read, skip, h, node, rest) == Descend(read, skip, h - 1, node', rest')
  {
    DescendUnfold(read, skip, h, node, rest, node + Pow2(h));
  }

  /** The candidate of a level search at height h is the node of index idx on level h. */
  lemma SearchIndex(readAt: (nat, nat) -> int, skipAt: (nat, nat) -> bool, node: nat, idx: nat, h: nat)
    requires node == idx * Pow2(h + 1) && (node == 0 || Rho(node) > h)
    ensures node == (2 * idx) * Pow2(h)
    ensures node + Pow2(h) == (2 * idx + 1) * Pow2(h) && Rho(node + Pow2(h)) == h
    ensures LevelRead(readAt)(node + Pow2(h)) == readAt(h, idx)
    ensures LevelSkip(skipAt)(node + Pow2(h)) == skipAt(h, idx)
  {
    assert Pow2(h + 1) == 2 * Pow2(h);
    assert node == (2 * idx) * Pow2(h);
    NodeAtInverse(h, idx);
  }

  /** A level search with the exact guard, started high enough, finds the largest
      position whose prefix sum does not exceed val. */
  method LevelFind(readAt: (nat, nat) -> int, skipAt: (nat, nat) -> bool, ghost s: seq<nat>,
                   top: int, val: nat) returns (p: nat, rest: int)
    requires top >= -1 && |s| < Pow2(top + 1)
    requires forall h: nat, i: nat :: NodeAt(h, i) <= |s| ==> readAt(h, i) == NodeSum(s, NodeAt(h, i))
    requires forall h: nat, i: nat :: skipAt(h, i) <==> NodeAt(h, i) > |s|
    ensures IsLargest(s, val, p)
    ensures rest == val - Prefix(s, p)
  {
    p, rest := LevelSearch(readAt, skipAt, top, val);
    LevelReads(readAt, s);
    LevelSkipExact(skipAt, |s|);
    DescendFinds(LevelRead(readAt), LevelSkip(skipAt), s, top, 0, val, val);
    assert Found(s, val, (p, rest));
  }
}
