/** The classical Fenwick tree, independent of where its nodes are stored.

    Node j (1-based) sums the elements j - 2^rho(j) + 1 .. j. Every variant of
    the library stores these node values somewhere (a word array, packed bytes,
    packed bits, arrays per height) and runs the same four walks over them:

      - prefix: from idx down the clear_rho chain, summing nodes;
      - add:    from idx up the mask_rho chain, adding to nodes;
      - find:   from the highest power of two down, descending into a node
                when its value does not exceed what is left of val;
      - build:  leaves first, then every node of height h adds its left
                neighbour's value, for h = 1, 2, ...

    A variant hands the walks a `read` function (how it reads node j, masks
    included), an address function `addr` (where node j's field lives) and a
    `skip` predicate (its bounds guard); the walks are proved against the
    abstract contract in PrefixSums. */
module Fenwick {
  import opened Bits
  import opened PrefixSums

  /** 2^rho(j): the number of elements node j sums. */
  function LowBit(j: nat): (r: nat)
    requires j > 0
    ensures 1 <= r <= j
  {
    RhoPow2Le(j);
    Pow2(Rho(j))
  }

  /** Node j covers element i (both 1-based). */
  predicate Covers(j: nat, i: nat)
    requires j > 0
  {
    j - LowBit(j) < i <= j
  }

  /** The Fenwick invariant: the value node j holds for the sequence s. */
  function NodeSum(s: seq<nat>, j: nat): nat
    requires 1 <= j <= |s|
  {
    Sum(s, j - LowBit(j), j)
  }

  /** `read` returns the value of every node of a tree over s. */
  ghost predicate Reads(read: nat -> int, s: seq<nat>)
  {
    forall j :: 1 <= j <= |s| ==> read(j) == NodeSum(s, j)
  }

  /** The addresses of the nodes 1..n. */
  ghost function NodeAddrs<K>(addr: nat -> K, n: nat): set<K>
  {
    set j | 1 <= j <= n :: addr(j)
  }

  /** Distinct nodes 1..n have distinct addresses. */
  ghost predicate Distinct<K>(addr: nat -> K, n: nat)
  {
    forall j, k :: 1 <= j < k <= n ==> addr(j) != addr(k)
  }

  /** The field of every node of a tree over s lives at addr(j) and holds its node sum. */
  ghost predicate Holds<K>(store: map<K, int>, addr: nat -> K, s: seq<nat>)
  {
    forall j :: 1 <= j <= |s| ==> addr(j) in store && store[addr(j)] == NodeSum(s, j)
  }

  /** Every node value of s is below the modulus of its field. */
  ghost predicate Fits(s: seq<nat>, modulus: nat -> nat)
  {
    forall j :: 1 <= j <= |s| ==> NodeSum(s, j) < modulus(j)
  }

  /** With every element below 2^bs, node j sums below 2^(bs + rho(j)): the number of
      bits a node of height rho(j) needs. */
  lemma NodeSumBits(s: seq<nat>, bound: nat, bs: nat, j: nat)
    requires Bounded(s, bound) && bound < Pow2(bs) && 1 <= j <= |s|
    ensures NodeSum(s, j) < Pow2(bs + Rho(j))
  {
    SumBound(s, j - LowBit(j), j, bound);
    Pow2Add(bs, Rho(j));
    MulLt(bound, Pow2(bs), LowBit(j));
    assert bound * (j - (j - LowBit(j))) == bound * LowBit(j);
  }

  /** A stored node read modulo a field's modulus gives its node sum back. */
  lemma ReadsMasked<K>(store: map<K, int>, addr: nat -> K, modulus: nat -> nat, s: seq<nat>,
                       read: nat -> int)
    requires Holds(store, addr, s) && Fits(s, modulus)
    requires forall j :: 1 <= j <= |s| ==> read(j) == store[addr(j)] % modulus(j)
    ensures Reads(read, s)
  {
    forall j | 1 <= j <= |s| ensures read(j) == NodeSum(s, j) {
      var v := store[addr(j)];
      assert v == NodeSum(s, j) && v < modulus(j);
      ModUnique(v, modulus(j), 0, v);
    }
  }

  /** Reading node j straight from its field. */
  function FieldRead<K>(store: map<K, int>, addr: nat -> K): (read: nat -> int)
  {
    (j: nat) => if addr(j) in store then store[addr(j)] else 0
  }

  lemma HoldsReads<K>(store: map<K, int>, addr: nat -> K, s: seq<nat>)
    requires Holds(store, addr, s)
    ensures Reads(FieldRead(store, addr), s)
  {
  }

  // ---------------------------------------------------------------------------
  // prefix

  /** prefix(idx): sum the nodes idx, clear_rho(idx), ... down to 0. */
  method PrefixWalk(read: nat -> int, ghost s: seq<nat>, idx: nat) returns (sum: int)
    requires Reads(read, s) && idx <= |s|
    ensures sum == Prefix(s, idx)
  {
    sum := 0;
    var i: nat := idx;
    while i != 0
      invariant i <= idx
      invariant sum + Prefix(s, i) == Prefix(s, idx)
      decreases i
    {
      SumSplit(s, 0, i - LowBit(i), i);
      sum := sum + read(i);
      i := ClearRho(i);
    }
  }

  // ---------------------------------------------------------------------------
  // add

  /** Adding inc to element i changes exactly the nodes that cover i. */
  lemma NodeSumUpdate(s: seq<nat>, i: nat, inc: int, j: nat)
    requires 1 <= i <= |s| && s[i - 1] + inc >= 0 && 1 <= j <= |s|
    ensures NodeSum(Update(s, i, inc), j) == NodeSum(s, j) + (if Covers(j, i) then inc else 0)
  {
    SumUpdate(s, i, inc, j - LowBit(j), j);
  }

  /** The next node of the add chain still covers the element. */
  lemma CoverNext(i: nat, idx: nat)
    requires i > 0 && Covers(i, idx)
    ensures Covers(i + LowBit(i), idx)
  {
    RhoAddSelf(i);
    Pow2Le(Rho(i) + 1, Rho(i + LowBit(i)));
  }

  /** The nodes strictly between two consecutive nodes of the add chain do not cover it. */
  lemma CoverGap(i: nat, idx: nat, j: nat)
    requires i > 0 && Covers(i, idx) && i < j < i + LowBit(i)
    ensures !Covers(j, idx)
  {
    RhoOfSum(i, j - i, Rho(i));
    RhoPow2Le(j - i);
  }

  /** add(idx, inc): add inc to the nodes idx, idx + mask_rho(idx), ... up to n. */
  method AddWalk<K>(store: map<K, int>, addr: nat -> K, n: nat, idx: nat, inc: int)
    returns (r: map<K, int>)
    requires 1 <= idx && n < WORD
    requires forall j :: 1 <= j <= n ==> addr(j) in store
    requires Distinct(addr, n)
    ensures r.Keys == store.Keys
    ensures forall j :: 1 <= j <= n ==>
      r[addr(j)] == store[addr(j)] + (if Covers(j, idx) then inc else 0)
    ensures forall a :: a in store && a !in NodeAddrs(addr, n) ==> r[a] == store[a]
  {
    r := store;
    var i := idx;
    while i <= n
      invariant idx <= i && Covers(i, idx)
      invariant r.Keys == store.Keys
      invariant forall j :: 1 <= j <= n ==>
        r[addr(j)] == store[addr(j)] + (if j < i && Covers(j, idx) then inc else 0)
      invariant forall a :: a in store && a !in NodeAddrs(addr, n) ==> r[a] == store[a]
      decreases n - i
    {
      var next := i + MaskRho(i);
      AddStep(store, r, addr, n, idx, inc, i, next);
      CoverNext(i, idx);
      r := r[addr(i) := r[addr(i)] + inc];
      i := next;
    }
  }

  /** One step of AddWalk keeps its invariant. */
  lemma AddStep<K>(store: map<K, int>, r: map<K, int>, addr: nat -> K, n: nat, idx: nat,
                   inc: int, i: nat, next: nat)
    requires 1 <= i <= n && Covers(i, idx) && next == i + LowBit(i)
    requires Distinct(addr, n) && r.Keys == store.Keys
    requires forall j :: 1 <= j <= n ==> addr(j) in store
    requires forall j :: 1 <= j <= n ==>
      r[addr(j)] == store[addr(j)] + (if j < i && Covers(j, idx) then inc else 0)
    ensures forall j :: 1 <= j <= n ==>
      r[addr(i) := r[addr(i)] + inc][addr(j)]
        == store[addr(j)] + (if j < next && Covers(j, idx) then inc else 0)
  {
    var r' := r[addr(i) := r[addr(i)] + inc];
    forall j | 1 <= j <= n
      ensures r'[addr(j)] == store[addr(j)] + (if j < next && Covers(j, idx) then inc else 0)
    {
      if j != i {
        assert addr(j) != addr(i) by {
          if j < i { assert addr(j) != addr(i); } else { assert addr(i) != addr(j); }
        }
        if i < j < next { CoverGap(i, idx, j); }
      }
    }
  }

  /** After AddWalk with inc on element idx, the store holds the tree of the updated sequence. */
  lemma AddKeepsHolds<K>(store: map<K, int>, r: map<K, int>, addr: nat -> K, s: seq<nat>,
                         idx: nat, inc: int)
    requires Holds(store, addr, s)
    requires 1 <= idx <= |s| && s[idx - 1] + inc >= 0
    requires r.Keys == store.Keys
    requires forall j :: 1 <= j <= |s| ==>
      r[addr(j)] == store[addr(j)] + (if Covers(j, idx) then inc else 0)
    ensures Holds(r, addr, Update(s, idx, inc))
  {
    forall j | 1 <= j <= |s|
      ensures addr(j) in r && r[addr(j)] == NodeSum(Update(s, idx, inc), j)
    {
      NodeSumUpdate(s, idx, inc, j);
    }
  }

  /** An add past the last element changes nothing. */
  lemma AddBeyond<K>(store: map<K, int>, r: map<K, int>, addr: nat -> K, n: nat, idx: nat, inc: int)
    requires idx > n && r.Keys == store.Keys
    requires forall j :: 1 <= j <= n ==> addr(j) in store
    requires forall j :: 1 <= j <= n ==>
      r[addr(j)] == store[addr(j)] + (if Covers(j, idx) then inc else 0)
    requires forall a :: a in store && a !in NodeAddrs(addr, n) ==> r[a] == store[a]
    ensures r == store
  {
    forall a | a in store ensures r[a] == store[a] {
      if a in NodeAddrs(addr, n) {
        var j :| 1 <= j <= n && addr(j) == a;
      }
    }
  }

  // ---------------------------------------------------------------------------
  // find

  /** skip is the exact bounds guard: it rejects exactly the candidates beyond n. */
  ghost predicate ExactSkip(skip: nat -> bool, n: nat)
  {
    forall j: nat :: skip(j) <==> j > n
  }

  /** The search below height h: candidate node + 2^h is taken when the guard lets
      it through and its value does not exceed rest. Returns the final node and
      what is left of val. */
  function Descend(read: nat -> int, skip: nat -> bool, h: int, node: nat, rest: int)
    : (r: (nat, int))
    decreases h + 1
  {
    if h < 0 then (node, rest)
    else
      var j := node + Pow2(h);
      if skip(j) || rest < read(j) then Descend(read, skip, h - 1, node, rest)
      else Descend(read, skip, h - 1, j, rest - read(j))
  }

  /** The exponent a search started from m0 begins at (-1 when m0 is 0). */
  function TopHeight(m0: nat): (h: int)
    requires m0 == 0 || IsPow2(m0)
    ensures h >= -1
    ensures m0 > 0 ==> h >= 0 && Pow2(h) == m0
  {
    if m0 == 0 then -1 else Exponent(m0)
  }

  /** find(val) as the library writes it: m runs over m0, m0/2, ..., 1. */
  method Search(read: nat -> int, skip: nat -> bool, m0: nat, val: nat) returns (node: nat, rest: int)
    requires m0 == 0 || IsPow2(m0)
    ensures (node, rest) == Descend(read, skip, TopHeight(m0), 0, val)
  {
    node, rest := 0, val;
    var m := m0;
    ghost var h := TopHeight(m0);
    while m != 0
      invariant -1 <= h
      invariant m == if h >= 0 then Pow2(h) else 0
      invariant Descend(read, skip, h, node, rest) == Descend(read, skip, TopHeight(m0), 0, val)
      decreases h + 1
    {
      if !skip(node + m) && rest >= read(node + m) {
        rest := rest - read(node + m);
        node := node + m;
      }
      if h == 0 {
        assert m == 1;
      } else {
        assert Pow2(h) == 2 * Pow2(h - 1);
      }
      m := m / 2;
      h := h - 1;
    }
  }

  /** The candidate node + 2^h of a search at height h is a node of height h. */
  lemma CandidateHeight(node: nat, h: nat)
    requires node == 0 || Rho(node) > h
    ensures Rho(node + Pow2(h)) == h
    ensures LowBit(node + Pow2(h)) == Pow2(h)
  {
    Pow2Le(h, h + 1);
    RhoOfSum(node, Pow2(h), h + 1);
    RhoOfPow2(h);
  }

  /** With the exact guard and correct node values, the search below height h ends
      at the largest position whose prefix sum does not exceed val. */
  lemma {:induction false} DescendFinds(read: nat -> int, skip: nat -> bool, s: seq<nat>,
                                        h: int, node: nat, rest: int, val: nat)
    requires ExactSkip(skip, |s|) && Reads(read, s)
    requires SearchState(s, h, node, rest, val)
    ensures Found(s, val, Descend(read, skip, h, node, rest))
    decreases h + 1
  {
    if h < 0 {
      LargestFromNext(s, val, node);
    } else {
      var j := node + Pow2(h);
      var take := !skip(j) && rest >= read(j);
      DescendStep(read, skip, s, h, node, rest, val, j, take);
      DescendUnfold(read, skip, h, node, rest, j);
      if take {
        DescendFinds(read, skip, s, h - 1, j, rest - read(j), val);
      } else {
        DescendFinds(read, skip, s, h - 1, node, rest, val);
      }
    }
  }

  /** A guard that rejects at least every candidate beyond the tree keeps the search
      inside it: with correct node values the search ends at a position whose prefix sum
      does not exceed val, though not necessarily the largest one. */
  lemma {:induction false} DescendSound(read: nat -> int, skip: nat -> bool, s: seq<nat>,
                                        h: int, node: nat, rest: int, val: nat)
    requires Reads(read, s) && forall j: nat :: j > |s| ==> skip(j)
    requires h >= -1 && (node == 0 || Rho(node) > h)
    requires node <= |s| && Prefix(s, node) <= val && rest == val - Prefix(s, node)
    ensures var r := Descend(read, skip, h, node, rest);
      r.0 <= |s| && Prefix(s, r.0) <= val && r.1 == val - Prefix(s, r.0)
    decreases h + 1
  {
    if h >= 0 {
      var j := node + Pow2(h);
      DescendUnfold(read, skip, h, node, rest, j);
      if !skip(j) && rest >= read(j) {
        assert j <= |s|;
        SoundStep(read, s, h, node, rest, val, j);
        DescendSound(read, skip, s, h - 1, j, rest - read(j), val);
      } else {
        DescendSound(read, skip, s, h - 1, node, rest, val);
      }
    }
  }

  /** A search whose guard rejects every candidate from n on, started below n, never
      ends at n or beyond, whatever it reads. */
  lemma {:induction false} DescendAvoids(read: nat -> int, skip: nat -> bool, n: nat,
                                         h: int, node: nat, rest: int)
    requires forall j: nat :: j >= n ==> skip(j)
    requires node < n
    ensures Descend(read, skip, h, node, rest).0 < n
    decreases h + 1
  {
    if h >= 0 {
      var j := node + Pow2(h);
      DescendUnfold(read, skip, h, node, rest, j);
      if !skip(j) && rest >= read(j) {
        DescendAvoids(read, skip, n, h - 1, j, rest - read(j));
      } else {
        DescendAvoids(read, skip, n, h - 1, node, rest);
      }
    }
  }

  lemma SoundStep(read: nat -> int, s: seq<nat>, h: nat, node: nat, rest: int, val: nat, j: nat)
    requires Reads(read, s) && (node == 0 || Rho(node) > h)
    requires j == node + Pow2(h) <= |s| && rest == val - Prefix(s, node) && rest >= read(j)
    ensures Rho(j) == h && Prefix(s, j) <= val && rest - read(j) == val - Prefix(s, j)
  {
    CandidateHeight(node, h);
    assert read(j) == Sum(s, node, j);
    SumSplit(s, 0, node, j);
  }

  lemma DescendUnfold(read: nat -> int, skip: nat -> bool, h: nat, node: nat, rest: int, j: nat)
    requires j == node + Pow2(h)
    ensures Descend(read, skip, h, node, rest)
      == if !skip(j) && rest >= read(j) then Descend(read, skip, h - 1, j, rest - read(j))
         else Descend(read, skip, h - 1, node, rest)
  {
  }

  /** The loop invariant of find at height h. */
  ghost predicate SearchState(s: seq<nat>, h: int, node: nat, rest: int, val: nat)
  {
    && h >= -1 && (node == 0 || Rho(node) > h)
    && node <= |s| && Prefix(s, node) <= val && rest == val - Prefix(s, node)
    && (node + Pow2(h + 1) > |s| || Prefix(s, node + Pow2(h + 1)) > val)
  }

  /** The search result p is the largest position with prefix(p) <= val, and the
      rest is what is left of val. */
  ghost predicate Found(s: seq<nat>, val: nat, r: (nat, int))
  {
    IsLargest(s, val, r.0) && r.1 == val - Prefix(s, r.0)
  }

  /** One step of the search keeps its invariant. */
  lemma DescendStep(read: nat -> int, skip: nat -> bool, s: seq<nat>,
                    h: nat, node: nat, rest: int, val: nat, j: nat, take: bool)
    requires ExactSkip(skip, |s|) && Reads(read, s)
    requires SearchState(s, h, node, rest, val)
    requires j == node + Pow2(h) && take == (!skip(j) && rest >= read(j))
    ensures take ==> SearchState(s, h - 1, j, rest - read(j), val)
    ensures !take ==> SearchState(s, h - 1, node, rest, val)
  {
    CandidateHeight(node, h);
    assert Pow2(h + 1) == 2 * Pow2(h);
    if j <= |s| {
      assert read(j) == Sum(s, node, j);
      SumSplit(s, 0, node, j);
    }
  }

  /** find with the exact guard, started from mask_lambda(n) (or nothing for an empty
      tree): the largest p with prefix(p) <= val, and val - prefix(p) left over. */
  method Find(read: nat -> int, skip: nat -> bool, n: nat, ghost s: seq<nat>, val: nat)
    returns (p: nat, rest: int)
    requires n == |s| && ExactSkip(skip, n) && Reads(read, s) && n < WORD
    ensures IsLargest(s, val, p)
    ensures rest == val - Prefix(s, p)
  {
    var m0 := if n == 0 then 0 else MaskLambda(n);
    if n > 0 { Pow2IsPow2(Lambda(n)); }
    p, rest := Search(read, skip, m0, val);
    DescendFinds(read, skip, s, TopHeight(m0), 0, val, val);
    assert Found(s, val, (p, rest));
  }

  // ---------------------------------------------------------------------------
  // compFind

  /** The value of node j in the complemented tree: BOUND << rho(j) minus the stored one. */
  function CompRead(read: nat -> int, bound: nat): (r: nat -> int)
  {
    (j: nat) => if j == 0 then 0 else bound * Pow2(Rho(j)) - read(j)
  }

  lemma NodeSumComplement(s: seq<nat>, bound: nat, j: nat)
    requires Bounded(s, bound) && 1 <= j <= |s|
    ensures NodeSum(Complement(s, bound), j) == bound * LowBit(j) - NodeSum(s, j)
  {
    SumComplement(s, bound, j - LowBit(j), j);
  }

  /** Reading a tree through CompRead reads the tree of the complemented sequence. */
  lemma ReadsComplement(read: nat -> int, s: seq<nat>, bound: nat)
    requires Reads(read, s) && Bounded(s, bound)
    ensures Reads(CompRead(read, bound), Complement(s, bound))
  {
    forall j | 1 <= j <= |s|
      ensures CompRead(read, bound)(j) == NodeSum(Complement(s, bound), j)
    {
      NodeSumComplement(s, bound, j);
    }
  }

  // ---------------------------------------------------------------------------
  // build

  /** Node j with its lower part summed only up to c elements (c a power of two). */
  function Partial(s: seq<nat>, j: nat, c: nat): nat
    requires 1 <= j <= |s|
  {
    var w := if LowBit(j) <= c then LowBit(j) else c;
    Sum(s, j - w, j)
  }

  lemma NodeAddrsNext<K>(addr: nat -> K, i: nat)
    requires i >= 1
    ensures NodeAddrs(addr, i) == NodeAddrs(addr, i - 1) + {addr(i)}
  {
  }

  /** The classical construction: store every leaf, then for m = 2, 4, ... let
      every multiple idx of m add the field of idx - m/2 (read modulo its field). */
  method ClassicBuild<K>(s: seq<nat>, addr: nat -> K, modulus: nat -> nat) returns (store: map<K, int>)
    requires Distinct(addr, |s|) && Fits(s, modulus)
    ensures store.Keys == NodeAddrs(addr, |s|)
    ensures Holds(store, addr, s)
  {
    var n := |s|;
    store := BuildLeaves(s, addr, modulus);
    var m := 2;
    ghost var k: nat := 1;
    while m <= n
      invariant m == Pow2(k) && k >= 1
      invariant store.Keys == NodeAddrs(addr, n)
      invariant forall j :: 1 <= j <= n ==> store[addr(j)] == Partial(s, j, m / 2)
    {
      store := BuildLevel(s, addr, modulus, store, m, k);
      assert (m * 2) / 2 == m;
      m := m * 2;
      k := k + 1;
    }
    BuildDone(s, addr, store, m, k);
  }

  /** The first loop of the build: every leaf stores its element (modulo its field). */
  method BuildLeaves<K>(s: seq<nat>, addr: nat -> K, modulus: nat -> nat) returns (store: map<K, int>)
    requires Distinct(addr, |s|) && Fits(s, modulus)
    ensures store.Keys == NodeAddrs(addr, |s|)
    ensures forall j :: 1 <= j <= |s| ==> store[addr(j)] == Partial(s, j, 1)
  {
    store := map[];
    var i := 1;
    while i <= |s|
      invariant 1 <= i <= |s| + 1
      invariant store.Keys == NodeAddrs(addr, i - 1)
      invariant forall j :: 1 <= j < i ==> store[addr(j)] == Partial(s, j, 1)
    {
      LeafFits(s, modulus, i);
      NodeAddrsNext(addr, i);
      LeafWrite(s, addr, store, i, s[i - 1] % modulus(i));
      store := store[addr(i) := s[i - 1] % modulus(i)];
      i := i + 1;
    }
  }

  lemma LeafFits(s: seq<nat>, modulus: nat -> nat, i: nat)
    requires Fits(s, modulus) && 1 <= i <= |s|
    ensures s[i - 1] % modulus(i) == s[i - 1] == Partial(s, i, 1)
  {
    assert NodeSum(s, i) == Sum(s, i - LowBit(i), i - 1) + s[i - 1];
    assert Partial(s, i, 1) == Sum(s, i - 1, i) == s[i - 1];
    ModUnique(s[i - 1], modulus(i), 0, s[i - 1]);
  }

  lemma LeafWrite<K>(s: seq<nat>, addr: nat -> K, store: map<K, int>, i: nat, v: int)
    requires 1 <= i <= |s| && Distinct(addr, |s|) && v == Partial(s, i, 1)
    requires store.Keys == NodeAddrs(addr, i - 1)
    requires forall j :: 1 <= j < i ==> store[addr(j)] == Partial(s, j, 1)
    ensures forall j :: 1 <= j <= i ==> store[addr(i) := v][addr(j)] == Partial(s, j, 1)
  {
    forall j | 1 <= j <= i ensures store[addr(i) := v][addr(j)] == Partial(s, j, 1) {
      if j < i { assert addr(j) != addr(i); }
    }
  }

  /** When m exceeds n, every node has been summed in full. */
  lemma BuildDone<K>(s: seq<nat>, addr: nat -> K, store: map<K, int>, m: nat, k: nat)
    requires m == Pow2(k) && k >= 1 && m > |s|
    requires forall j :: 1 <= j <= |s| ==> addr(j) in store && store[addr(j)] == Partial(s, j, m / 2)
    ensures Holds(store, addr, s)
  {
    forall j | 1 <= j <= |s| ensures store[addr(j)] == NodeSum(s, j) {
      RhoPow2Le(j);
      SmallHeight(j, k, j);
    }
  }

  /** A node whose lowest 1-bit lies below k has LowBit at most 2^(k-1). */
  lemma SmallHeight(j: nat, k: nat, d: nat)
    requires j > 0 && k >= 1 && (d == j || d < j) && d < Pow2(k) && Pow2(Rho(j)) <= d
    ensures Rho(j) < k && LowBit(j) <= Pow2(k) / 2
  {
    Pow2Lt(Rho(j), k);
    Pow2Le(Rho(j), k - 1);
  }

  /** One round m of ClassicBuild: every multiple idx of m (idx <= n) adds node idx - m/2. */
  method BuildLevel<K>(s: seq<nat>, addr: nat -> K, modulus: nat -> nat, store0: map<K, int>,
                       m: nat, ghost k: nat) returns (store: map<K, int>)
    requires Distinct(addr, |s|) && Fits(s, modulus)
    requires m == Pow2(k) && k >= 1 && m <= |s|
    requires store0.Keys == NodeAddrs(addr, |s|)
    requires forall j :: 1 <= j <= |s| ==> store0[addr(j)] == Partial(s, j, m / 2)
    ensures store.Keys == NodeAddrs(addr, |s|)
    ensures forall j :: 1 <= j <= |s| ==> store[addr(j)] == Partial(s, j, m)
  {
    var n := |s|;
    store := store0;
    var idx := m;
    LevelStart(s, addr, store0, m, k);
    RhoOfPow2(k);
    while idx <= n
      invariant m <= idx && Rho(idx) >= k
      invariant store.Keys == NodeAddrs(addr, n)
      invariant forall j :: 1 <= j <= n ==> store[addr(j)] == Partial(s, j, Sel(j, idx, m, k))
      decreases n - idx
    {
      ChildFacts(idx, m, k);
      store := BuildStep(s, addr, modulus, store, idx, m, k);
      RhoAddPow2(idx, k);
      idx := idx + m;
    }
    LevelDone(s, addr, store, idx, m, k);
  }

  /** At the start of a round no node has been summed up to m yet. */
  lemma LevelStart<K>(s: seq<nat>, addr: nat -> K, store: map<K, int>, m: nat, k: nat)
    requires m == Pow2(k) && k >= 1
    requires forall j :: 1 <= j <= |s| ==> addr(j) in store && store[addr(j)] == Partial(s, j, m / 2)
    ensures forall j :: 1 <= j <= |s| ==> store[addr(j)] == Partial(s, j, Sel(j, m, m, k))
  {
    forall j | 1 <= j <= |s| ensures Sel(j, m, m, k) == m / 2 {
      if j < m {
        RhoPow2Le(j);
        SmallHeight(j, k, j);
      }
    }
  }

  /** At the end of a round every node is summed up to m. */
  lemma LevelDone<K>(s: seq<nat>, addr: nat -> K, store: map<K, int>, idx: nat, m: nat, k: nat)
    requires m == Pow2(k) && k >= 1 && idx > |s|
    requires forall j :: 1 <= j <= |s| ==> addr(j) in store && store[addr(j)] == Partial(s, j, Sel(j, idx, m, k))
    ensures forall j :: 1 <= j <= |s| ==> store[addr(j)] == Partial(s, j, m)
  {
    forall j | 1 <= j <= |s| ensures store[addr(j)] == Partial(s, j, m) {
      if Rho(j) < k { Pow2Le(Rho(j), k - 1); }
    }
  }

  /** Facts about the pair (idx, idx - m/2) the build combines. */
  lemma ChildFacts(idx: nat, m: nat, k: nat)
    requires m == Pow2(k) && k >= 1 && m <= idx && Rho(idx) >= k
    ensures m / 2 == Pow2(k - 1) && 1 <= idx - m / 2 < idx
    ensures LowBit(idx) >= m
    ensures Rho(idx - m / 2) == k - 1
  {
    assert m == 2 * Pow2(k - 1);
    Pow2Le(k, Rho(idx));
    RhoAddPow2(idx, k);
    assert idx - m / 2 == (idx - m) + Pow2(k - 1);
    Pow2Le(k - 1, k);
    RhoOfSum(idx - m, Pow2(k - 1), k);
    RhoOfPow2(k - 1);
  }

  /** Node idx adds its child idx - m/2; the nodes after idx within the round are
      not multiples of m. */
  method BuildStep<K>(s: seq<nat>, addr: nat -> K, modulus: nat -> nat, store0: map<K, int>,
                      idx: nat, m: nat, ghost k: nat) returns (store: map<K, int>)
    requires Distinct(addr, |s|) && Fits(s, modulus)
    requires m == Pow2(k) && k >= 1 && m / 2 == Pow2(k - 1) && 1 <= idx - m / 2 < idx <= |s|
    requires Rho(idx) >= k && LowBit(idx) >= m && Rho(idx - m / 2) == k - 1
    requires store0.Keys == NodeAddrs(addr, |s|)
    requires forall j :: 1 <= j <= |s| ==>
      store0[addr(j)] == Partial(s, j, Sel(j, idx, m, k))
    ensures store.Keys == NodeAddrs(addr, |s|)
    ensures forall j :: 1 <= j <= |s| ==>
      store[addr(j)] == Partial(s, j, Sel(j, idx + m, m, k))
  {
    var c := idx - m / 2;
    assert addr(c) in NodeAddrs(addr, |s|);
    assert addr(idx) in NodeAddrs(addr, |s|);
    assert Sel(c, idx, m, k) == m / 2 && Sel(idx, idx, m, k) == m / 2;
    assert store0[addr(c)] == Partial(s, c, m / 2);
    assert store0[addr(idx)] == Partial(s, idx, m / 2);
    ChildValue(s, modulus, idx, m, k);
    var child := store0[addr(c)] % modulus(c);
    store := store0[addr(idx) := store0[addr(idx)] + child];
    forall j | 1 <= j <= |s|
      ensures store[addr(j)] == Partial(s, j, Sel(j, idx + m, m, k))
    {
      if j != idx {
        DistinctPair(addr, |s|, j, idx);
        RoundSelection(idx, m, k, j);
      }
    }
  }

  /** The child idx - m/2 is a complete node of height k - 1; adding it completes idx up to m. */
  lemma ChildValue(s: seq<nat>, modulus: nat -> nat, idx: nat, m: nat, k: nat)
    requires Fits(s, modulus)
    requires m == Pow2(k) && k >= 1 && m / 2 == Pow2(k - 1) && 1 <= idx - m / 2 < idx <= |s|
    requires LowBit(idx) >= m && Rho(idx - m / 2) == k - 1
    ensures Partial(s, idx - m / 2, m / 2) == NodeSum(s, idx - m / 2)
    ensures Partial(s, idx - m / 2, m / 2) % modulus(idx - m / 2) == Partial(s, idx - m / 2, m / 2)
    ensures Partial(s, idx, m / 2) + Partial(s, idx - m / 2, m / 2) == Partial(s, idx, m)
  {
    var c := idx - m / 2;
    var v := Partial(s, c, m / 2);
    assert v == NodeSum(s, c) == Sum(s, idx - m, c);
    assert v < modulus(c);
    ModUnique(v, modulus(c), 0, v);
    SumSplit(s, idx - m, c, idx);
  }

  lemma DistinctPair<K>(addr: nat -> K, n: nat, j: nat, i: nat)
    requires Distinct(addr, n) && 1 <= j <= n && 1 <= i <= n && j != i
    ensures addr(j) != addr(i)
  {
    if j < i { assert addr(j) != addr(i); } else { assert addr(i) != addr(j); }
  }

  /** How far node j has been summed while round m of the build is at idx: nodes
      that are multiples of m (rho(j) >= k) before idx are done up to m. */
  function Sel(j: nat, idx: nat, m: nat, k: nat): nat
    requires j >= 1
  {
    if j < idx && Rho(j) >= k then m else m / 2
  }

  /** No node strictly between idx and idx + m is a multiple of m. */
  lemma RoundSelection(idx: nat, m: nat, k: nat, j: nat)
    requires idx >= 1 && j >= 1 && j != idx && m == Pow2(k) && k >= 1 && Rho(idx) >= k
    ensures Sel(j, idx + m, m, k) == Sel(j, idx, m, k)
  {
    if idx < j < idx + m {
      Pow2Le(k, Rho(idx));
      RhoOfSum(idx, j - idx, k);
      RhoPow2Le(j - idx);
      Pow2Lt(Rho(j - idx), k);
    }
  }
}
