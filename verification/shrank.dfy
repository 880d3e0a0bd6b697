/** The shrank Fenwick tree (src/shrank_fenwick_tree.cpp): the earliest bit-compressed
    tree, with 6-bit leaves and a 0-based interface. Node j takes 5 + ffs(j) = 6 + rho(j)
    bits starting at bit get_bitpos(j) = 7 (j - 1) - popcount(j - 1), which is exactly the
    layout of BitF with LEAF_MAXVAL = 63, so the tree is modelled as a BitF tree. Its find
    has no guard against nodes past the end; see FindUnguarded. */
module Shrank {
  import opened Bits
  import opened PrefixSums
  import opened Fenwick
  import BitF

  /** Elements are at most 6 bits wide. */
  const MaxVal: nat := 63

  /** get_bitpos(n) as the source computes it, for n >= 1. */
  function GetBitPos(n: nat): int
    requires n >= 1
  {
    Times(n - 1, 7) - Popcount(n - 1)
  }

  /** The bits of node j: 5 + find_first_set(j). */
  function BitSize(j: nat): nat
    requires j >= 1
  {
    5 + (Rho(j) + 1)
  }

  /** This is the BitF layout with 6-bit leaves: the same field positions and widths. */
  lemma SameLayoutAsBitF(j: nat)
    requires j >= 1
    ensures BitF.LeafBits(MaxVal) == 6
    ensures GetBitPos(j) == BitF.BitAddr(BitF.LeafBits(MaxVal))(j)
    ensures BitSize(j) == BitF.Width(BitF.LeafBits(MaxVal), j)
  {
    assert BitF.LeafBits(MaxVal) == 6;
    BitF.BitPosIsSum(6, j - 1);
  }

  /** bit_count() = get_bitpos(size + 1): the bits of all the fields together. */
  function BitCount(size: nat): int
  {
    GetBitPos(size + 1)
  }

  lemma BitCountIsWidths(size: nat)
    ensures BitCount(size) == BitF.BitPos(6, size)
  {
    BitF.BitPosIsSum(6, size);
  }

  /** Fifteen elements take 8 fields of 6 bits, 4 of 7, 2 of 8 and 1 of 9. */
  lemma BitCountFifteen()
    ensures BitCount(15) == 6 * 8 + 7 * 4 + 8 * 2 + 9
  {
    assert Times(15, 7) == 105;
    assert Popcount(15) == 4;
  }

  /** A tree over s: the BitF tree with LEAF_MAXVAL = 63. */
  ghost predicate Valid(t: BitF.Tree, s: seq<nat>)
  {
    t.maxval == MaxVal && BitF.Valid(t, s)
  }

  /** The constructor, allocating Alloc(size) bytes: every field, and every eight-byte word
      read at a field's first byte, lies inside the array. */
  method Build(s: seq<nat>) returns (t: BitF.Tree, bytes: nat)
    requires |s| < WORD && Bounded(s, MaxVal) && BitF.WordFits(MaxVal, |s|)
    ensures Valid(t, s)
    ensures forall j :: 1 <= j <= |s| ==>
      GetBitPos(j) + BitSize(j) <= 8 * bytes && GetBitPos(j) / 8 + 8 <= bytes
  {
    t := BitF.Build(s, MaxVal);
    bytes := Alloc(|s|);
    forall j | 1 <= j <= |s|
      ensures GetBitPos(j) + BitSize(j) <= 8 * bytes && GetBitPos(j) / 8 + 8 <= bytes
    {
      AllocCovers(|s|, j);
    }
  }

  // ---------------------------------------------------------------------------
  // The allocation

  /** The constructor as written allocates get_bitpos(size) / 8 + 1 bytes. But
      get_bitpos(size) is where the field of node size starts, so the array ends inside
      the last field, and the eight-byte word read at a field's first byte runs further. */
  function AllocAsWritten(size: nat): int
    requires size >= 1
  {
    GetBitPos(size) / 8 + 1
  }

  /** Fifteen elements get 12 bytes (96 bits), but node 15's field covers bits 95..100; one
      element gets a single byte, but its field is read and written as an eight-byte word. */
  lemma AllocationTooShort()
    ensures AllocAsWritten(15) == 12 && GetBitPos(15) == 95 && BitSize(15) == 6
    ensures GetBitPos(15) + BitSize(15) > 8 * AllocAsWritten(15)
    ensures AllocAsWritten(1) == 1 && GetBitPos(1) / 8 + 8 > AllocAsWritten(1)
  {
    assert Times(14, 7) == 98;
    assert Popcount(14) == 3;
  }

  /** The allocation that holds every access: the bytes of all the fields (bit_count(),
      rounded down) plus the eight bytes of the last word read. */
  function Alloc(size: nat): nat
  {
    BitCountIsWidths(size);
    BitCount(size) / 8 + 8
  }

  /** Node j's field lies inside Alloc(size) bytes, and so does the word read at its first
      byte. */
  lemma AllocCovers(size: nat, j: nat)
    requires 1 <= j <= size
    ensures GetBitPos(j) + BitSize(j) <= 8 * Alloc(size)
    ensures GetBitPos(j) / 8 + 8 <= Alloc(size)
  {
    SameLayoutAsBitF(j);
    BitCountIsWidths(size);
    if j < size {
      BitF.BitPosOrder(6, j, size + 1);
    }
  }

  /** get(idx): the sum of the elements 0..idx, that is prefix(idx + 1). */
  method Get(t: BitF.Tree, ghost s: seq<nat>, idx: nat) returns (sum: int)
    requires Valid(t, s) && idx < |s|
    ensures sum == PrefixSums.Prefix(s, idx + 1)
  {
    sum := BitF.Prefix(t, s, idx + 1);
  }

  /** set(idx, inc): adds inc to element idx (0-based); an index past the end changes
      nothing. */
  method Set(t: BitF.Tree, ghost s: seq<nat>, idx: nat, inc: int) returns (t': BitF.Tree)
    requires Valid(t, s)
    requires idx < |s| ==> 0 <= s[idx] + inc <= MaxVal
    ensures idx < |s| ==> Valid(t', s[idx := s[idx] + inc])
    ensures idx >= |s| ==> t' == t
  {
    t' := BitF.Add(t, s, idx + 1, inc);
  }

  /** The first mask of the search: mask_last_set(size). */
  function FirstMask(n: nat): (m0: nat)
    requires n < WORD
    ensures m0 == 0 || IsPow2(m0)
  {
    if n == 0 then 0 else (Pow2IsPow2(Lambda(n)); MaskLambda(n))
  }

  /** size_t result node - 1 (all ones when node is 0). */
  function Before(node: nat): (r: nat)
    requires node < WORD
    ensures r < WORD && After(r) == node
  {
    if node == 0 then WORD - 1 else node - 1
  }

  /** The 1-based position a 0-based size_t result stands for: r + 1, wrapping. */
  function After(r: nat): nat
  {
    if r == WORD - 1 then 0 else r + 1
  }

  /** find(val) as written: no test that node + m is a node of the tree, so a read may
      land past the last node, where `read` returns whatever the memory holds. */
  function FindUnguarded(read: nat -> int, n: nat, val: nat): (r: nat)
    requires n < WORD
  {
    var node := Descend(read, (j: nat) => false, TopHeight(FirstMask(n)), 0, val).0;
    if node < WORD then Before(node) else 0
  }

  /** While every candidate is a node of the tree, the unguarded search is the guarded one. */
  lemma {:induction false} NoGuardNeeded(read: nat -> int, n: nat, h: int, node: nat, rest: int)
    requires h >= -1 && node + Pow2(h + 1) <= n + 1
    ensures Descend(read, (j: nat) => false, h, node, rest)
         == Descend(read, (j: nat) => j > n, h, node, rest)
    decreases h + 1
  {
    if h >= 0 {
      var j := node + Pow2(h);
      assert Pow2(h + 1) == 2 * Pow2(h);
      DescendUnfold(read, (j: nat) => false, h, node, rest, j);
      DescendUnfold(read, (j: nat) => j > n, h, node, rest, j);
      NoGuardNeeded(read, n, h - 1, j, rest - read(j));
      NoGuardNeeded(read, n, h - 1, node, rest);
    }
  }

  /** With size + 1 a power of two (the sizes the tests use) the search never leaves the
      tree, and the unguarded find returns the index before the largest p with
      prefix(p) <= val. */
  lemma FullTreeFinds(read: nat -> int, n: nat, s: seq<nat>, val: nat, k: nat)
    requires n == |s| && n < WORD && Reads(read, s) && n + 1 == Pow2(k)
    ensures IsLargest(s, val, After(FindUnguarded(read, n, val)))
  {
    var top := TopHeight(FirstMask(n));
    FullTop(n, k);
    NoGuardNeeded(read, n, top, 0, val);
    assert SearchState(s, top, 0, val, val);
    DescendFinds(read, (j: nat) => j > n, s, top, 0, val, val);
  }

  /** When size + 1 is a power of two the first mask is (size + 1) / 2: the search covers
      exactly the nodes 1..size. */
  lemma FullTop(n: nat, k: nat)
    requires n < WORD && n + 1 == Pow2(k)
    ensures TopHeight(FirstMask(n)) == k - 1
  {
    if n > 0 {
      var l := Lambda(n);
      LambdaOfFull(n, k, l);
      ExponentOfPow2(l);
      assert TopHeight(FirstMask(n)) == l;
    }
  }

  lemma LambdaOfFull(n: nat, k: nat, l: nat)
    requires Pow2(l) <= n < Pow2(l + 1) && n + 1 == Pow2(k)
    ensures l == k - 1
  {
    Pow2Lt(l, k);
    assert Pow2(k) == 2 * Pow2(k - 1);
    Pow2Lt(k - 1, l + 1);
  }

  /** The source's find on a tree t over s; junk stands for the memory past the last
      node. */
  method FindAsWritten(t: BitF.Tree, ghost s: seq<nat>, junk: nat -> int, val: nat)
    returns (r: nat)
    requires Valid(t, s)
    ensures r == FindUnguarded(TreeRead(t, junk), t.size, val)
    ensures forall k :: t.size + 1 == Pow2(k) ==> IsLargest(s, val, After(r))
  {
    var read := TreeRead(t, junk);
    var node, rest := Search(read, (j: nat) => false, FirstMask(t.size), val);
    r := if node < WORD then Before(node) else 0;
    assert r == FindUnguarded(read, t.size, val);
    forall k | t.size + 1 == Pow2(k) ensures IsLargest(s, val, After(r)) {
      TreeReads(t, s, junk);
      FullTreeFinds(read, t.size, s, val, k);
    }
  }

  /** What the search reads at node j: the node's field inside the tree, junk past it. */
  function TreeRead(t: BitF.Tree, junk: nat -> int): (read: nat -> int)
  {
    (j: nat) => if 1 <= j <= t.size then BitF.MaskedRead(t)(j) else junk(j)
  }

  lemma TreeReads(t: BitF.Tree, s: seq<nat>, junk: nat -> int)
    requires Valid(t, s)
    ensures t.size == |s| < WORD && Reads(TreeRead(t, junk), s)
  {
    BitF.MaskedReads(t, s);
  }

  /** On s = [0, 0], with zero bytes past the tree, find(0) returns 2, an index past the
      end, where the largest p with prefix(p) <= 0 is 2 and the answer is index 1. */
  lemma FindReadsPastEnd()
    ensures Reads((j: nat) => 0, [0, 0])
    ensures IsLargest([0, 0], 0, 2)
    ensures FindUnguarded((j: nat) => 0, 2, 0) == 2
  {
    var s: seq<nat> := [0, 0];
    assert Sum(s, 0, 1) == 0 && Sum(s, 1, 2) == 0 && Sum(s, 0, 2) == 0;
    assert LowBit(1) == 1 && LowBit(2) == 2 by { assert Rho(1) == 0 && Rho(2) == 1; }
    forall j | 1 <= j <= 2 ensures NodeSum(s, j) == 0 {
      assert j == 1 || j == 2;
    }
    assert Lambda(2) == 1;
    assert FirstMask(2) == 2 && Exponent(2) == 1;
    var read, never := (j: nat) => 0, (j: nat) => false;
    assert Pow2(0) == 1 && Pow2(1) == 2;
    assert read(2) == 0 && read(3) == 0 && !never(2) && !never(3);
    assert Descend(read, never, -1, 3, 0) == (3, 0);
    DescendUnfold(read, never, 0, 2, 0, 3);
    DescendUnfold(read, never, 1, 0, 0, 2);
  }

  /** find(val) with the guard node + m <= size the other trees have: the index before the
      largest p with prefix(p) <= val, for every size. */
  method Find(t: BitF.Tree, ghost s: seq<nat>, val: nat) returns (r: nat)
    requires Valid(t, s)
    ensures IsLargest(s, val, After(r))
    ensures r < WORD
  {
    var p, rest := BitF.Find(t, s, val);
    r := Before(p);
  }
}
