/** ByteL: byte compression, level-ordered node layout (include/fenwick/bytel.hpp).
    The nodes of height h live in their own byte array Tree[h], each taking heightsize(h)
    bytes, the least number holding BOUNDSIZE + h bits; node j starts at byte
    (j >> (1 + rho(j))) * heightsize(rho(j)) of Tree[rho(j)]. The memory is modelled as a
    map from (height, byte offset) to the field's value together with the byte length of
    each of the 64 arrays, which find's guard reads. Reads and writes are the masked 64-bit
    word accesses of ByteF (ByteF.WordMasked, Bits.WordAddNoCarry). Unlike the other
    trees, ByteL also grows and shrinks at the end (push, pop). */
module ByteL {
  import opened Bits
  import opened PrefixSums
  import opened Fenwick
  import opened Levels

  /** BOUNDSIZE: at least one bit, and a leaf fits in a 64-bit word. */
  type BoundSize = b: nat | 1 <= b <= 64 witness 1

  /** heightsize(h): the bytes of a node of height h. */
  function HeightSize(bs: BoundSize, h: nat): (k: nat)
    ensures k >= 1 && 8 * (k - 1) < bs + h <= 8 * k
  {
    (h + bs - 1) / 8 + 1
  }

  /** The byte offset of index i within Tree[h]. */
  function Offset(bs: BoundSize, h: nat, i: nat): nat
  {
    i * HeightSize(bs, h)
  }

  /** The fields of one level lie back to back in index order. */
  lemma OffsetOrder(bs: BoundSize, h: nat, i: nat, i': nat)
    ensures i < i' ==> Offset(bs, h, i) + HeightSize(bs, h) <= Offset(bs, h, i')
    ensures Offset(bs, h, i) + HeightSize(bs, h) == Offset(bs, h, i + 1)
  {
    var k := HeightSize(bs, h);
    if i + 1 < i' {
      MulLt(i + 1, i', k);
    }
  }

  /** A field is addressed by its height and its byte offset in that height's array. */
  type Key = (nat, nat)

  function ByteLAddr(bs: BoundSize): (laddr: (nat, nat) -> Key)
  {
    (h: nat, i: nat) => (h, Offset(bs, h, i))
  }

  lemma ByteLDistinct(bs: BoundSize, n: nat)
    ensures LevelDistinct(ByteLAddr(bs), n)
  {
    forall h1: nat, i1: nat, h2: nat, i2: nat |
      NodeAt(h1, i1) <= n && NodeAt(h2, i2) <= n && (h1 != h2 || i1 != i2)
      ensures ByteLAddr(bs)(h1, i1) != ByteLAddr(bs)(h2, i2)
    {
      if h1 == h2 {
        OffsetOrder(bs, h1, i1, i2);
        OffsetOrder(bs, h1, i2, i1);
      }
    }
  }

  /** A field of height h holds its value modulo 2^(8 heightsize(h)). */
  function HeightMod(bs: BoundSize): (hmod: nat -> nat)
  {
    (h: nat) => Pow2(8 * HeightSize(bs, h))
  }

  lemma NodesFit(s: seq<nat>, bound: nat, bs: BoundSize)
    requires Bounded(s, bound) && bound < Pow2(bs)
    ensures Fits(s, HeightModulus(HeightMod(bs)))
  {
    forall j | 1 <= j <= |s| ensures NodeSum(s, j) < HeightModulus(HeightMod(bs))(j) {
      NodeSumBits(s, bound, bs, j);
      Pow2Le(bs + Rho(j), 8 * HeightSize(bs, Rho(j)));
    }
  }

  /** Levels after construction: lambda(size) + 1, or 1 for an empty sequence; enough
      levels for every node. */
  function LevelCount(n: nat): (r: nat)
    ensures r >= 1 && n < Pow2(r)
  {
    if n != 0 then Lambda(n) + 1 else 1
  }

  lemma LevelCountBelow(n: nat)
    requires n < WORD
    ensures LevelCount(n) <= 64
  {
    if n != 0 {
      LambdaBelow64(n);
    }
  }

  /** Tree[h].size() after construction: count(h) * heightsize(h) bytes for h < Levels,
      none above. */
  function BuiltLens(bs: BoundSize, n: nat): (lens: seq<nat>)
    ensures |lens| == 64
  {
    seq(64, h requires 0 <= h < 64 =>
      if h < LevelCount(n) then Offset(bs, h, CountHeight(n, h)) else 0)
  }

  // ---------------------------------------------------------------------------
  // The tree

  /** BOUND, BOUNDSIZE, Levels, Size, the byte lengths of Tree[0..63] and the fields. */
  datatype Tree = Tree(bound: nat, bs: BoundSize, levels: nat, size: nat, lens: seq<nat>,
                       fields: map<Key, int>)

  /** Every field is at most 8 bytes: BOUNDSIZE + lambda(size) <= 64. */
  predicate ByteFits(bs: BoundSize, n: nat)
  {
    n > 0 ==> bs + Lambda(n) <= 64
  }

  /** The field of every node of 1..n lies inside its level's array. */
  ghost predicate Covered(bs: BoundSize, lens: seq<nat>, n: nat)
  {
    forall h: nat, i: nat :: NodeAt(h, i) <= n ==>
      h < |lens| && Offset(bs, h, i) + HeightSize(bs, h) <= lens[h]
  }

  ghost predicate Valid(t: Tree, s: seq<nat>)
  {
    && t.bound < Pow2(t.bs) && t.size == |s| && |s| < WORD && Bounded(s, t.bound)
    && ByteFits(t.bs, |s|) && t.levels <= 64 && |s| < Pow2(t.levels)
    && |t.lens| == 64 && Covered(t.bs, t.lens, |s|)
    && Holds(t.fields, LevelAddr(ByteLAddr(t.bs)), s)
  }

  /** The shape the constructor leaves: Levels = lambda(size) + 1 and arrays of exactly
      count(h) * heightsize(h) bytes. */
  predicate Fresh(t: Tree)
  {
    t.levels == LevelCount(t.size) && t.lens == BuiltLens(t.bs, t.size)
  }

  /** ByteL(): no levels, no elements, empty arrays. */
  function Empty(bound: nat, bs: BoundSize): (t: Tree)
    requires bound < Pow2(bs)
    ensures Valid(t, []) && t.size == 0 && t.levels == 0 && t.fields == map[]
  {
    Tree(bound, bs, 0, 0, seq(64, h => 0), map[])
  }

  /** The constructor's array sizes hold every node's field. */
  lemma BuiltCovers(bs: BoundSize, n: nat)
    requires n < WORD
    ensures Covered(bs, BuiltLens(bs, n), n)
  {
    LevelCountBelow(n);
    forall h: nat, i: nat | NodeAt(h, i) <= n
      ensures h < 64 && Offset(bs, h, i) + HeightSize(bs, h) <= BuiltLens(bs, n)[h]
    {
      Pow2Lt(h, LevelCount(n));
      CountBound(n, h, i);
      var c, k := CountHeight(n, h), HeightSize(bs, h);
      OffsetOrder(bs, h, i, c);
      assert Offset(bs, h, c) == c * k;
    }
  }

  /** The constructor: Levels and the array sizes, then the heights 0..Levels - 1, each
      node summing its leaf and the fields of its children. */
  method Build(s: seq<nat>, bound: nat, bs: BoundSize) returns (t: Tree)
    requires bound < Pow2(bs) && |s| < WORD && Bounded(s, bound) && ByteFits(bs, |s|)
    ensures Valid(t, s) && Fresh(t) && t.bound == bound && t.bs == bs
  {
    var n := |s|;
    ByteLDistinct(bs, n);
    NodesFit(s, bound, bs);
    LevelCountBelow(n);
    BuiltCovers(bs, n);
    var fields := LevelBuild(s, ByteLAddr(bs), HeightMod(bs), LevelCount(n));
    t := Tree(bound, bs, LevelCount(n), n, BuiltLens(bs, n), fields);
  }

  /** byteread(&Tree[h][pos], k): the k bytes at pos; bytes never written read as 0. */
  function ByteRead(fields: map<Key, int>, h: nat, pos: nat, k: nat): int
  {
    (if (h, pos) in fields then fields[(h, pos)] else 0) % Pow2(8 * k)
  }

  /** The read of index i on level h. */
  function ReadAt(t: Tree): (readAt: (nat, nat) -> int)
  {
    (h: nat, i: nat) => ByteRead(t.fields, h, Offset(t.bs, h, i), HeightSize(t.bs, h))
  }

  /** Every node's field reads back its node sum. */
  lemma ReadAtNodes(t: Tree, s: seq<nat>)
    requires Valid(t, s)
    ensures forall h: nat, i: nat :: NodeAt(h, i) <= |s| ==> ReadAt(t)(h, i) == NodeSum(s, NodeAt(h, i))
  {
    NodesFit(s, t.bound, t.bs);
    forall h: nat, i: nat | NodeAt(h, i) <= |s|
      ensures ReadAt(t)(h, i) == NodeSum(s, NodeAt(h, i))
    {
      var j := NodeAt(h, i);
      NodeAtInverse(h, i);
      var key := (h, Offset(t.bs, h, i));
      assert LevelAddr(ByteLAddr(t.bs))(j) == key;
      var v := t.fields[key];
      assert v == NodeSum(s, j) && v < Pow2(8 * HeightSize(t.bs, h));
      ModUnique(v, Pow2(8 * HeightSize(t.bs, h)), 0, v);
    }
  }

  method Prefix(t: Tree, ghost s: seq<nat>, idx: nat) returns (sum: int)
    requires Valid(t, s) && idx <= t.size
    ensures sum == PrefixSums.Prefix(s, idx)
  {
    ReadAtNodes(t, s);
    LevelReads(ReadAt(t), s);
    sum := PrefixWalk(LevelRead(ReadAt(t)), s, idx);
  }

  /** add(idx, inc): idx is 1-based; an index past the end changes nothing. */
  method Add(t: Tree, ghost s: seq<nat>, idx: nat, inc: int) returns (t': Tree)
    requires Valid(t, s) && 1 <= idx
    requires idx <= |s| ==> 0 <= s[idx - 1] + inc <= t.bound
    ensures t'.size == t.size && t'.bound == t.bound && t'.bs == t.bs
    ensures t'.levels == t.levels && t'.lens == t.lens
    ensures idx <= |s| ==> Valid(t', Update(s, idx, inc))
    ensures idx > |s| ==> t' == t
  {
    var addr := LevelAddr(ByteLAddr(t.bs));
    ByteLDistinct(t.bs, t.size);
    LevelDistinctNodes(ByteLAddr(t.bs), t.size);
    var fields := AddWalk(t.fields, addr, t.size, idx, inc);
    t' := t.(fields := fields);
    if idx <= |s| {
      AddKeepsHolds(t.fields, fields, addr, s, idx, inc);
      UpdateKeepsBounds(s, idx, inc, t.bound);
    } else {
      AddBeyond(t.fields, fields, addr, t.size, idx, inc);
    }
  }

  // ---------------------------------------------------------------------------
  // find and compFind with the guard node + 2^h > Size

  /** The exact guard: the candidate node lies past the last element. */
  function SkipAt(t: Tree): (skipAt: (nat, nat) -> bool)
  {
    (h: nat, i: nat) => NodeAt(h, i) > t.size
  }

  /** find(val): the largest p with prefix(p) <= val; val keeps val - prefix(p). */
  method Find(t: Tree, ghost s: seq<nat>, val: nat) returns (p: nat, rest: int)
    requires Valid(t, s)
    ensures IsLargest(s, val, p)
    ensures rest == val - PrefixSums.Prefix(s, p)
  {
    ReadAtNodes(t, s);
    var node;
    node, rest := LevelFind(ReadAt(t), SkipAt(t), s, t.levels - 1, val);
    p := if node < t.size then node else t.size;
  }

  /** compFind reads (BOUND << h) minus the field. */
  function CompAt(t: Tree): (readAt: (nat, nat) -> int)
  {
    (h: nat, i: nat) => t.bound * Pow2(h) - ReadAt(t)(h, i)
  }

  lemma CompAtNodes(t: Tree, s: seq<nat>)
    requires Valid(t, s)
    ensures forall h: nat, i: nat :: NodeAt(h, i) <= |s| ==>
      CompAt(t)(h, i) == NodeSum(Complement(s, t.bound), NodeAt(h, i))
  {
    ReadAtNodes(t, s);
    forall h: nat, i: nat | NodeAt(h, i) <= |s|
      ensures CompAt(t)(h, i) == NodeSum(Complement(s, t.bound), NodeAt(h, i))
    {
      NodeAtInverse(h, i);
      NodeSumComplement(s, t.bound, NodeAt(h, i));
    }
  }

  /** compFind(val): find over BOUND - s[k]. */
  method CompFind(t: Tree, ghost s: seq<nat>, val: nat) returns (p: nat, rest: int)
    requires Valid(t, s)
    ensures IsLargest(Complement(s, t.bound), val, p)
    ensures rest == val - PrefixSums.Prefix(Complement(s, t.bound), p)
  {
    CompAtNodes(t, s);
    var node;
    node, rest := LevelFind(CompAt(t), SkipAt(t), Complement(s, t.bound), t.levels - 1, val);
    p := if node < t.size then node else t.size;
  }

  // ---------------------------------------------------------------------------
  // find and compFind as written

  /** find's guard as written: index i of level h is skipped when its field would end at
      or past the end of Tree[h]. */
  function SkipAsWritten(t: Tree): (skipAt: (nat, nat) -> bool)
  {
    (h: nat, i: nat) =>
      h >= |t.lens| || Offset(t.bs, h, i) + HeightSize(t.bs, h) >= t.lens[h]
  }

  /** The search from height Levels - 1 with that guard, capped at Size. */
  function SearchAsWritten(t: Tree, readAt: (nat, nat) -> int, val: nat): nat
  {
    var node := Descend(LevelRead(readAt), LevelSkip(SkipAsWritten(t)), t.levels - 1, 0, val).0;
    if node < t.size then node else t.size
  }

  /** On a freshly built tree the guard skips index i of level h < Levels exactly when the
      next index is past the end, so it also skips the last node of every level. */
  lemma FreshGuard(t: Tree, s: seq<nat>, h: nat, i: nat)
    requires Valid(t, s) && Fresh(t)
    ensures h < t.levels ==> (SkipAsWritten(t)(h, i) <==> NodeAt(h, i + 1) > |s|)
    ensures h >= t.levels ==> SkipAsWritten(t)(h, i)
  {
    var n := |s|;
    LevelCountBelow(n);
    if h < t.levels {
      var c, k := CountHeight(n, h), HeightSize(t.bs, h);
      assert t.lens[h] == c * k;
      OffsetOrder(t.bs, h, i, c);
      assert Offset(t.bs, h, i) + k == (i + 1) * k;
      CountBound(n, h, i + 1);
      if i + 1 < c {
        MulLt(i + 1, c, k);
      } else if c < i + 1 {
        MulLt(c, i + 1, k);
      }
    }
  }

  /** On a freshly built tree the guard rejects Size and every node past it. */
  lemma FreshSkipsEnd(t: Tree, s: seq<nat>)
    requires Valid(t, s) && Fresh(t)
    ensures forall j: nat :: j >= |s| && j > 0 ==> LevelSkip(SkipAsWritten(t))(j)
  {
    forall j: nat | j >= |s| && j > 0 ensures LevelSkip(SkipAsWritten(t))(j) {
      var h, i := Rho(j), LevelIndex(j);
      LevelIndexInverse(j);
      NodeAtNext(h, i);
      FreshGuard(t, s, h, i);
    }
  }

  /** Whatever it reads, the as-written search on a freshly built non-empty tree never
      returns Size, although Size is the answer whenever val >= prefix(Size). */
  lemma FindNeverReturnsSize(t: Tree, s: seq<nat>, readAt: (nat, nat) -> int, val: nat)
    requires Valid(t, s) && Fresh(t) && |s| >= 1
    ensures SearchAsWritten(t, readAt, val) < |s|
    ensures IsLargest(s, PrefixSums.Prefix(s, |s|), |s|)
  {
    FreshSkipsEnd(t, s);
    DescendAvoids(LevelRead(readAt), LevelSkip(SkipAsWritten(t)), |s|, t.levels - 1, 0, val);
  }

  /** On a freshly built tree the as-written search stays inside the tree: it ends at a
      position whose prefix sum does not exceed val. */
  lemma FreshSearchSound(t: Tree, s: seq<nat>, c: seq<nat>, readAt: (nat, nat) -> int, val: nat)
    requires Valid(t, s) && Fresh(t) && |c| == |s|
    requires forall h: nat, i: nat :: NodeAt(h, i) <= |c| ==> readAt(h, i) == NodeSum(c, NodeAt(h, i))
    ensures var r := Descend(LevelRead(readAt), LevelSkip(SkipAsWritten(t)), t.levels - 1, 0, val);
      r.0 <= |c| && PrefixSums.Prefix(c, r.0) <= val && r.1 == val - PrefixSums.Prefix(c, r.0)
  {
    FreshSkipsEnd(t, s);
    SearchSound(LevelSkip(SkipAsWritten(t)), readAt, c, t.levels - 1, val);
  }

  lemma SearchSound(skip: nat -> bool, readAt: (nat, nat) -> int, c: seq<nat>, top: int, val: nat)
    requires top >= -1 && forall j: nat :: j > |c| ==> skip(j)
    requires forall h: nat, i: nat :: NodeAt(h, i) <= |c| ==> readAt(h, i) == NodeSum(c, NodeAt(h, i))
    ensures var r := Descend(LevelRead(readAt), skip, top, 0, val);
      r.0 <= |c| && PrefixSums.Prefix(c, r.0) <= val && r.1 == val - PrefixSums.Prefix(c, r.0)
  {
    LevelReads(readAt, c);
    DescendSound(LevelRead(readAt), skip, c, top, 0, val, val);
  }

  /** find(val) as written. On a freshly built tree the result is a position whose prefix
      sum fits in val, but never Size. */
  method FindAsWritten(t: Tree, ghost s: seq<nat>, val: nat) returns (p: nat, rest: int)
    requires Valid(t, s)
    ensures p == SearchAsWritten(t, ReadAt(t), val)
    ensures Fresh(t) ==> p <= |s| && PrefixSums.Prefix(s, p) <= val
                         && rest == val - PrefixSums.Prefix(s, p)
    ensures Fresh(t) && |s| >= 1 ==> p < |s|
  {
    var node;
    node, rest := LevelSearch(ReadAt(t), SkipAsWritten(t), t.levels - 1, val);
    p := if node < t.size then node else t.size;
    if Fresh(t) {
      ReadAtNodes(t, s);
      FreshSearchSound(t, s, s, ReadAt(t), val);
      if |s| >= 1 {
        FindNeverReturnsSize(t, s, ReadAt(t), val);
      }
    }
  }

  /** compFind(val) as written: the same guard over the complemented reads. */
  method CompFindAsWritten(t: Tree, ghost s: seq<nat>, val: nat) returns (p: nat, rest: int)
    requires Valid(t, s)
    ensures p == SearchAsWritten(t, CompAt(t), val)
    ensures Fresh(t) ==> p <= |s| && PrefixSums.Prefix(Complement(s, t.bound), p) <= val
                         && rest == val - PrefixSums.Prefix(Complement(s, t.bound), p)
    ensures Fresh(t) && |s| >= 1 ==> p < |s|
  {
    var node;
    node, rest := LevelSearch(CompAt(t), SkipAsWritten(t), t.levels - 1, val);
    p := if node < t.size then node else t.size;
    if Fresh(t) {
      CompAtNodes(t, s);
      FreshSearchSound(t, s, Complement(s, t.bound), CompAt(t), val);
      if |s| >= 1 {
        FindNeverReturnsSize(t, s, CompAt(t), val);
      }
    }
  }

  // ---------------------------------------------------------------------------
  // push and pop

  /** Tree[h] resized to len bytes; the other arrays keep their lengths. */
  ghost predicate Resized(lens: seq<nat>, lens': seq<nat>, h: nat, len: nat)
  {
    && |lens'| == |lens| && h < |lens|
    && forall g :: 0 <= g < |lens| ==> lens'[g] == if g == h then len else lens[g]
  }

  /** The height of the last node of a tree that fits in a word names one of the 64
      arrays. */
  lemma LastHeight(n: nat)
    requires 0 < n < WORD
    ensures Rho(n) < 64
  {
    RhoBelowLambda(n, n);
    LambdaBelow64(n);
  }

  /** push(val): Size grows by one and Levels becomes lambda(Size) + 1; Tree[rho(Size)] is
      resized to end 8 bytes after the new node's field, which gets val plus the fields of
      the node's children, read from the heights below at level indices 2k, 4k + 1,
      8k + 3, ... where k is the new node's index. */
  method Push(t: Tree, ghost s: seq<nat>, val: nat) returns (t': Tree)
    requires Valid(t, s) && |s| + 1 < WORD && val <= t.bound && ByteFits(t.bs, |s| + 1)
    ensures Valid(t', s + [val])
    ensures t'.bound == t.bound && t'.bs == t.bs && t'.levels == Lambda(|s| + 1) + 1
    ensures Resized(t.lens, t'.lens, Rho(|s| + 1), Offset(t.bs, Rho(|s| + 1), LevelIndex(|s| + 1)) + 8)
    ensures t'.fields.Keys == t.fields.Keys + {(Rho(|s| + 1), Offset(t.bs, Rho(|s| + 1), LevelIndex(|s| + 1)))}
  {
    ghost var s' := s + [val];
    var n := t.size + 1;
    var levels := Lambda(n) + 1;
    var height := Rho(n);
    var idx := LevelIndex(n);
    var hisize := HeightSize(t.bs, height);
    var highpos := Offset(t.bs, height, idx);
    LastHeight(n);
    var lens := t.lens[height := highpos + 8];
    var value := val % Pow2(8 * hisize);
    PushStart(t, s, val, height, hisize, value);
    LevelIndexInverse(n);
    value := ChildSums(t, s, val, value, idx, height);
    t' := Tree(t.bound, t.bs, levels, n, lens, t.fields[(height, highpos) := value]);
    PushKeeps(t, s, val, t', height, idx);
  }

  /** push's loop: starting from start, which holds val, add the fields of the children of the new node
      NodeAt(height, k), from height - 1 down to 0; the total is the new node's sum. */
  method ChildSums(t: Tree, ghost s: seq<nat>, ghost val: nat, start: int, k: nat, height: nat)
    returns (value: int)
    requires Valid(t, s) && start == val
    requires |s| + 1 == NodeAt(height, k) && height == Rho(|s| + 1)
    requires Pow2(height) <= |s| + 1
    ensures value == NodeSum(s + [val], |s| + 1)
  {
    ghost var s', n := s + [val], |s| + 1;
    value := start;
    var idx := k * 2;
    ChainStart(k);
    var lo: nat := height;
    while lo > 0
      invariant lo <= height && idx == Chain(k, height - lo)
      invariant SumsAbove(s', height, lo, val, value)
    {
      idx, value := PushStep(t, s, val, k, height, lo - 1, idx, value);
      lo := lo - 1;
    }
    PushTotal(s', n, height, val, value);
  }

  /** Before the child of height lo - 1 is added, value holds val plus the elements under
      the children of heights lo .. height - 1, those from n - 2^height to n - 2^lo. */
  ghost predicate SumsAbove(s': seq<nat>, height: nat, lo: nat, val: nat, value: int)
  {
    Pow2(lo) <= Pow2(height) <= |s'|
    && value == val + Sum(s', |s'| - Pow2(height), |s'| - Pow2(lo))
  }

  /** One round of push's loop: add the field of the child of height h and move to the
      level index of the next child down. */
  method PushStep(t: Tree, ghost s: seq<nat>, ghost val: nat, ghost k: nat, ghost height: nat,
                  h: nat, idx: nat, value: int) returns (idx': nat, value': int)
    requires Valid(t, s) && |s| + 1 == NodeAt(height, k) && h < height
    requires idx == Chain(k, height - 1 - h)
    requires SumsAbove(s + [val], height, h + 1, val, value)
    ensures idx' == Chain(k, height - h)
    ensures SumsAbove(s + [val], height, h, val, value')
  {
    var losize := HeightSize(t.bs, h);
    var lowpos := Offset(t.bs, h, idx);
    var inc := ByteRead(t.fields, h, lowpos, losize);
    PushChild(t, s, val, k, height, h, idx, inc, value);
    ChainStep(k, height - h);
    value' := value + inc;
    idx' := (idx * 2) + 1;
  }

  /** The first write stores val whole. */
  lemma PushStart(t: Tree, s: seq<nat>, val: nat, height: nat, hisize: nat, value: int)
    requires t.bound < Pow2(t.bs) && val <= t.bound && hisize == HeightSize(t.bs, height)
    requires value == val % Pow2(8 * hisize)
    ensures value == val
  {
    Pow2Le(t.bs, 8 * hisize);
    ModUnique(val, Pow2(8 * hisize), 0, val);
  }

  /** The level indices push reads, d heights below the new node of index k: 2k, 4k + 1,
      8k + 3, ..., that is (2k + 1) 2^d - 1. */
  function Chain(k: nat, d: nat): nat
  {
    MulBounds(Pow2(d), 2 * k + 1);
    (2 * k + 1) * Pow2(d) - 1
  }

  /** The first child read is at index 2k. */
  lemma ChainStart(k: nat)
    ensures Chain(k, 0) == 2 * k
  {
  }

  /** Each step down doubles the index and adds one. */
  lemma ChainStep(k: nat, d: nat)
    requires d > 0
    ensures Chain(k, d) == 2 * Chain(k, d - 1) + 1
  {
    ChainArith(2 * k + 1, Pow2(d - 1), Pow2(d));
  }

  lemma ChainArith(a: nat, q: nat, q2: nat)
    requires a >= 1 && q >= 1 && q2 == 2 * q
    ensures a * q >= 1 && a * q2 - 1 == 2 * (a * q - 1) + 1
  {
    MulBounds(q, a);
  }

  /** The child of height h: its field lies at index idx of level h and holds the elements
      n - 2^(h+1) .. n - 2^h - 1. */
  lemma PushChild(t: Tree, s: seq<nat>, val: nat, k: nat, height: nat, h: nat, idx: nat,
                  inc: int, value: int)
    requires Valid(t, s) && |s| + 1 == NodeAt(height, k) && h < height
    requires idx == Chain(k, height - 1 - h)
    requires inc == ByteRead(t.fields, h, Offset(t.bs, h, idx), HeightSize(t.bs, h))
    requires Pow2(h + 1) <= Pow2(height) <= |s| + 1
    requires value == val + Sum(s + [val], |s| + 1 - Pow2(height), |s| + 1 - Pow2(h + 1))
    ensures Pow2(h) <= Pow2(h + 1)
    ensures value + inc == val + Sum(s + [val], |s| + 1 - Pow2(height), |s| + 1 - Pow2(h))
  {
    var n := |s| + 1;
    var c := n - Pow2(h);
    assert Pow2(h + 1) == 2 * Pow2(h);
    assert 1 <= c <= |s| && Rho(c) == h && LowBit(c) == Pow2(h) && LevelIndex(c) == idx by {
      ChildOf(height, k, h);
      PushIndex(k, height, h + 1);
    }
    assert inc == NodeSum(s, c) by {
      ChildRead(t, s, h, idx, c, inc);
    }
    ChildSum(s, val, height, h, c, inc, value);
  }

  /** The field read at index idx of level h is the sum of node c, the node there. */
  lemma ChildRead(t: Tree, s: seq<nat>, h: nat, idx: nat, c: nat, inc: int)
    requires Valid(t, s) && 1 <= c <= |s| && Rho(c) == h && LevelIndex(c) == idx
    requires inc == ByteRead(t.fields, h, Offset(t.bs, h, idx), HeightSize(t.bs, h))
    ensures inc == NodeSum(s, c)
  {
    LevelIndexInverse(c);
    ReadAtNodes(t, s);
    assert inc == ReadAt(t)(h, idx);
  }

  lemma ChildSum(s: seq<nat>, val: nat, height: nat, h: nat, c: nat, inc: int, value: int)
    requires h < height && Pow2(h + 1) == 2 * Pow2(h) && Pow2(h + 1) <= Pow2(height) <= |s| + 1
    requires c == |s| + 1 - Pow2(h) && 1 <= c <= |s| && LowBit(c) == Pow2(h)
    requires inc == NodeSum(s, c)
    requires value == val + Sum(s + [val], |s| + 1 - Pow2(height), |s| + 1 - Pow2(h + 1))
    ensures value + inc == val + Sum(s + [val], |s| + 1 - Pow2(height), |s| + 1 - Pow2(h))
  {
    var n, s' := |s| + 1, s + [val];
    SumPrefixOf(s, s', n - Pow2(h + 1), n - Pow2(h));
    SumSplit(s', n - Pow2(height), n - Pow2(h + 1), n - Pow2(h));
  }

  /** Below node NodeAt(height, k), the child of height k' - 1 has level index
      Chain(k, height - k'). */
  lemma PushIndex(k: nat, height: nat, k': nat)
    requires 0 < k' <= height
    ensures (NodeAt(height, k) - 1) / Pow2(k') == Chain(k, height - k')
  {
    Pow2Add(height - k', k');
    IndexArith(2 * k + 1, Pow2(height - k'), Pow2(k'), NodeAt(height, k));
  }

  lemma IndexArith(a: nat, q: nat, p: nat, node: nat)
    requires a >= 1 && q >= 1 && p >= 1 && node == a * (q * p)
    ensures node >= 1 && (node - 1) / p == a * q - 1
  {
    var m := a * q;
    MulBounds(q, a);
    assert node == m * p;
    MulBounds(p, m);
    ModUnique(node - 1, p, m - 1, p - 1);
  }

  /** After the last child, the field holds the node's sum. */
  lemma PushTotal(s': seq<nat>, n: nat, height: nat, val: nat, value: int)
    requires n == |s'| && n > 0 && height == Rho(n) && s'[n - 1] == val
    requires Pow2(height) <= n
    requires value == val + Sum(s', n - Pow2(height), n - Pow2(0))
    ensures value == NodeSum(s', n)
  {
  }

  /** The new field and the resized array keep the tree valid for s + [val]. */
  lemma PushKeeps(t: Tree, s: seq<nat>, val: nat, t': Tree, height: nat, k: nat)
    requires Valid(t, s) && |s| + 1 < WORD && val <= t.bound && ByteFits(t.bs, |s| + 1)
    requires height == Rho(|s| + 1) < 64 && k == LevelIndex(|s| + 1)
    requires t' == Tree(t.bound, t.bs, Lambda(|s| + 1) + 1, |s| + 1,
                        t.lens[height := Offset(t.bs, height, k) + 8],
                        t.fields[(height, Offset(t.bs, height, k)) := NodeSum(s + [val], |s| + 1)])
    ensures Valid(t', s + [val])
    ensures Resized(t.lens, t'.lens, height, Offset(t.bs, height, k) + 8)
    ensures t'.fields.Keys == t.fields.Keys + {(height, Offset(t.bs, height, k))}
  {
    var n, s' := |s| + 1, s + [val];
    LambdaBelow64(n);
    assert Bounded(s', t.bound);
    PushCovered(t, s, height, k);
    PushHolds(t, s, val, t'.fields);
  }

  lemma PushCovered(t: Tree, s: seq<nat>, height: nat, k: nat)
    requires Valid(t, s) && |s| + 1 < WORD && ByteFits(t.bs, |s| + 1)
    requires height == Rho(|s| + 1) < 64 && k == LevelIndex(|s| + 1)
    ensures Covered(t.bs, t.lens[height := Offset(t.bs, height, k) + 8], |s| + 1)
  {
    var n := |s| + 1;
    var lens := t.lens[height := Offset(t.bs, height, k) + 8];
    LevelIndexInverse(n);
    RhoBelowLambda(n, n);
    assert HeightSize(t.bs, height) <= 8;
    forall h: nat, i: nat | NodeAt(h, i) <= n
      ensures h < |lens| && Offset(t.bs, h, i) + HeightSize(t.bs, h) <= lens[h]
    {
      PushCoveredAt(t.bs, t.lens, lens, n, height, k, h, i);
    }
  }

  lemma PushCoveredAt(bs: BoundSize, lens: seq<nat>, lens': seq<nat>, n: nat, height: nat,
                      k: nat, h: nat, i: nat)
    requires |lens| == 64 && height < 64 && n >= 1 && Covered(bs, lens, n - 1)
    requires n == NodeAt(height, k) && HeightSize(bs, height) <= 8
    requires lens' == lens[height := Offset(bs, height, k) + 8] && NodeAt(h, i) <= n
    ensures h < |lens'| && Offset(bs, h, i) + HeightSize(bs, h) <= lens'[h]
  {
    NodeAtInverse(h, i);
    NodeAtInverse(height, k);
    if h == height {
      NodeAtOrder(height, k, i);
      OffsetOrder(bs, h, i, k);
    } else {
      assert NodeAt(h, i) != n;
    }
  }

  lemma PushHolds(t: Tree, s: seq<nat>, val: nat, fields: map<Key, int>)
    requires Valid(t, s)
    requires fields == t.fields[LevelAddr(ByteLAddr(t.bs))(|s| + 1) := NodeSum(s + [val], |s| + 1)]
    ensures Holds(fields, LevelAddr(ByteLAddr(t.bs)), s + [val])
  {
    var n, s', addr := |s| + 1, s + [val], LevelAddr(ByteLAddr(t.bs));
    ByteLDistinct(t.bs, n);
    LevelDistinctNodes(ByteLAddr(t.bs), n);
    forall j | 1 <= j <= n ensures addr(j) in fields && fields[addr(j)] == NodeSum(s', j) {
      if j < n {
        assert addr(j) != addr(n);
        SumPrefixOf(s, s', j - LowBit(j), j);
      }
    }
  }

  /** pop(): Tree[rho(Size)] is cut back to the start of node Size's field, which drops
      exactly that field, and Size shrinks by one; Levels stays. */
  method Pop(t: Tree, ghost s: seq<nat>) returns (t': Tree)
    requires Valid(t, s) && |s| >= 1
    ensures Valid(t', s[..|s| - 1])
    ensures t'.bound == t.bound && t'.bs == t.bs && t'.levels == t.levels
    ensures Resized(t.lens, t'.lens, Rho(|s|), Offset(t.bs, Rho(|s|), LevelIndex(|s|)))
  {
    var height := Rho(t.size);
    var pos := Offset(t.bs, height, LevelIndex(t.size));
    LastHeight(t.size);
    t' := t.(size := t.size - 1, lens := t.lens[height := pos],
             fields := t.fields - {(height, pos)});
    PopKeeps(t, s, t', height, LevelIndex(t.size));
  }

  lemma PopKeeps(t: Tree, s: seq<nat>, t': Tree, height: nat, k: nat)
    requires Valid(t, s) && |s| >= 1
    requires height == Rho(|s|) < 64 && k == LevelIndex(|s|)
    requires t' == t.(size := |s| - 1, lens := t.lens[height := Offset(t.bs, height, k)],
                      fields := t.fields - {(height, Offset(t.bs, height, k))})
    ensures Valid(t', s[..|s| - 1])
    ensures Resized(t.lens, t'.lens, height, Offset(t.bs, height, k))
  {
    PopShape(t, s);
    PopCovered(t, s, height, k);
    PopHolds(t, s, t'.fields);
  }

  /** The scalar parts of Valid survive dropping the last element. */
  lemma PopShape(t: Tree, s: seq<nat>)
    requires Valid(t, s) && |s| >= 1
    ensures Bounded(s[..|s| - 1], t.bound) && ByteFits(t.bs, |s| - 1)
    ensures |s| - 1 < Pow2(t.levels)
  {
    var n := |s|;
    if n > 1 {
      Pow2Lt(Lambda(n - 1), Lambda(n) + 1);
    }
  }

  lemma PopCovered(t: Tree, s: seq<nat>, height: nat, k: nat)
    requires Valid(t, s) && |s| >= 1
    requires height == Rho(|s|) < 64 && k == LevelIndex(|s|)
    ensures Covered(t.bs, t.lens[height := Offset(t.bs, height, k)], |s| - 1)
  {
    var n := |s|;
    var lens := t.lens[height := Offset(t.bs, height, k)];
    LevelIndexInverse(n);
    forall h: nat, i: nat | NodeAt(h, i) <= n - 1
      ensures h < |lens| && Offset(t.bs, h, i) + HeightSize(t.bs, h) <= lens[h]
    {
      if h == height {
        NodeAtOrder(height, i, k);
        OffsetOrder(t.bs, h, i, k);
      }
    }
  }

  lemma PopHolds(t: Tree, s: seq<nat>, fields: map<Key, int>)
    requires Valid(t, s) && |s| >= 1
    requires fields == t.fields - {LevelAddr(ByteLAddr(t.bs))(|s|)}
    ensures Holds(fields, LevelAddr(ByteLAddr(t.bs)), s[..|s| - 1])
  {
    var n, s', addr := |s|, s[..|s| - 1], LevelAddr(ByteLAddr(t.bs));
    ByteLDistinct(t.bs, n);
    LevelDistinctNodes(ByteLAddr(t.bs), n);
    forall j | 1 <= j <= n - 1 ensures addr(j) in fields && fields[addr(j)] == NodeSum(s', j) {
      assert addr(j) != addr(n);
      SumPrefixOf(s', s, j - LowBit(j), j);
    }
  }

  // ---------------------------------------------------------------------------
  // The as-written guard after push

  /** What five pushes of 1 into ByteL() with BOUNDSIZE 1 leave: Size 5, Levels 3 and
      arrays of 10, 8 and 8 bytes, since push resizes Tree[h] to highpos + 8. The arrays
      then hold bytes for nodes 6 (Tree[1][1]) and 7 (Tree[0][3]), which lie past Size and
      were never written. */
  ghost predicate PushedShape(t: Tree)
  {
    && t.bs == 1 && t.size == 5 && t.levels == 3 && |t.lens| == 64
    && t.lens[0] == 10 && t.lens[1] == 8 && t.lens[2] == 8
    && (1, 1) !in t.fields && (0, 3) !in t.fields
  }

  /** Heights and level indices of the nodes 1..7. */
  lemma SmallNodes()
    ensures Rho(1) == 0 && Rho(2) == 1 && Rho(3) == 0 && Rho(4) == 2 && Rho(5) == 0
    ensures Rho(6) == 1 && Rho(7) == 0
    ensures LevelIndex(1) == 0 && LevelIndex(2) == 0 && LevelIndex(3) == 1 && LevelIndex(4) == 0
    ensures LevelIndex(5) == 2 && LevelIndex(6) == 1 && LevelIndex(7) == 3
  {
    assert Rho(2) == 1 + Rho(1);
    assert Rho(4) == 1 + Rho(2);
    assert Rho(6) == 1 + Rho(3);
    assert Pow2(1) == 2 && Pow2(2) == 4 && Pow2(3) == 8;
  }

  /** With BOUNDSIZE 1 every height below 8 takes one byte, so index i sits at byte i. */
  lemma OneByteFields(h: nat, i: nat)
    requires h < 8
    ensures HeightSize(1, h) == 1 && Offset(1, h, i) == i
  {
  }

  /** Node j of the shape reads index i of height h, which passes the guard. */
  lemma ShapeNode(t: Tree, j: nat, h: nat, i: nat)
    requires PushedShape(t) && 0 < j < 8 && h < 3 && Rho(j) == h && LevelIndex(j) == i
    requires i + 1 < t.lens[h]
    ensures LevelRead(ReadAt(t))(j) == ReadAt(t)(h, i)
    ensures !LevelSkip(SkipAsWritten(t))(j)
  {
    OneByteFields(h, i);
  }

  /** A field never written reads 0. */
  lemma ShapeUnwritten(t: Tree, h: nat, i: nat)
    requires PushedShape(t) && h < 8 && (h, i) !in t.fields
    ensures ReadAt(t)(h, i) == 0
  {
    OneByteFields(h, i);
    assert ReadAt(t)(h, i) == 0 % Pow2(8);
  }

  /** Node 4 reads its field; the phantom nodes 6 and 7 read 0; all three pass the guard. */
  lemma ShapeReads(t: Tree)
    requires PushedShape(t)
    ensures LevelRead(ReadAt(t))(4) == ReadAt(t)(2, 0) && !LevelSkip(SkipAsWritten(t))(4)
    ensures LevelRead(ReadAt(t))(6) == 0 && !LevelSkip(SkipAsWritten(t))(6)
    ensures LevelRead(ReadAt(t))(7) == 0 && !LevelSkip(SkipAsWritten(t))(7)
  {
    SmallNodes();
    ShapeNode(t, 4, 2, 0);
    ShapeNode(t, 6, 1, 1);
    ShapeUnwritten(t, 1, 1);
    ShapeNode(t, 7, 0, 3);
    ShapeUnwritten(t, 0, 3);
  }

  /** On that shape, with node 4 reading 4, find(4) takes node 4 and then the phantom
      nodes 6 and 7, which read 0 and pass the guard, and returns min(7, Size) = 5. */
  lemma PhantomSearch(t: Tree)
    requires PushedShape(t) && ReadAt(t)(2, 0) == 4
    ensures SearchAsWritten(t, ReadAt(t), 4) == 5
  {
    var read, skip := LevelRead(ReadAt(t)), LevelSkip(SkipAsWritten(t));
    ShapeReads(t);
    PhantomDescend(read, skip);
  }

  /** From the root with 4 to spend: node 4 takes all of it, then 6 and 7 cost nothing. */
  lemma PhantomDescend(read: nat -> int, skip: nat -> bool)
    requires read(4) == 4 && !skip(4) && read(6) == 0 && !skip(6) && read(7) == 0 && !skip(7)
    ensures Descend(read, skip, 2, 0, 4).0 == 7
  {
    assert Pow2(0) == 1 && Pow2(1) == 2 && Pow2(2) == 4;
    DescendUnfold(read, skip, 0, 6, 0, 7);
    DescendUnfold(read, skip, 1, 4, 0, 6);
    DescendUnfold(read, skip, 2, 0, 4, 4);
  }

  /** The prefix sums of five ones. */
  lemma FivePrefixes()
    ensures PrefixSums.Prefix([1, 1, 1, 1, 1], 4) == 4 && PrefixSums.Prefix([1, 1, 1, 1, 1], 5) == 5
    ensures NodeSum([1, 1, 1, 1, 1], 4) == 4
  {
    var s: seq<nat> := [1, 1, 1, 1, 1];
    SumOnes(s, 4);
    SumOnes(s, 5);
    LowBitFour();
  }

  lemma LowBitFour()
    ensures LowBit(4) == 4
  {
    assert Rho(4) == 2 by { SmallNodes(); }
    assert Pow2(2) == 4;
  }

  /** The first b elements all 1 sum to b. */
  lemma {:induction false} SumOnes(s: seq<nat>, b: nat)
    requires b <= |s| && forall i :: 0 <= i < b ==> s[i] == 1
    ensures Sum(s, 0, b) == b
  {
    if b > 0 {
      SumOnes(s, b - 1);
    }
  }

  /** Over five ones the largest p with prefix(p) <= 4 is 4, not 5. */
  lemma FiveOnes()
    ensures NodeSum([1, 1, 1, 1, 1], 4) == 4
    ensures IsLargest([1, 1, 1, 1, 1], 4, 4) && !IsLargest([1, 1, 1, 1, 1], 4, 5)
  {
    FivePrefixes();
  }

  /** find(4) as written after five pushes of 1: the search returns 5, although 4 is the
      largest position whose prefix sum is at most 4. */
  method PushedFindOvershoots() returns (t: Tree, p: nat)
    ensures Valid(t, [1, 1, 1, 1, 1]) && PushedShape(t)
    ensures p == SearchAsWritten(t, ReadAt(t), 4) && p == 5
    ensures IsLargest([1, 1, 1, 1, 1], 4, 4) && !IsLargest([1, 1, 1, 1, 1], 4, p)
  {
    ghost var s;
    t, s := FivePushes();
    var rest;
    p, rest := FindAsWritten(t, s, 4);
    NodeFourReads(t);
    PhantomSearch(t);
    FiveOnes();
  }

  /** Over five ones node 4 holds 4. */
  lemma NodeFourReads(t: Tree)
    requires Valid(t, [1, 1, 1, 1, 1])
    ensures ReadAt(t)(2, 0) == 4
  {
    ReadAtNodes(t, [1, 1, 1, 1, 1]);
    assert NodeAt(2, 0) == 4 by { assert Pow2(2) == 4; }
    FiveOnes();
  }

  /** What push leaves when node n arrives, as its contract states it: Size n, Levels
      lambda(n) + 1, the array of height rho(n) resized to 8 bytes past the new field, and
      that field added. */
  ghost predicate PushedOne(t: Tree, t': Tree, n: nat)
    requires n > 0
  {
    && t'.bs == t.bs && t'.size == n && t'.levels == Lambda(n) + 1
    && Resized(t.lens, t'.lens, Rho(n), Offset(t.bs, Rho(n), LevelIndex(n)) + 8)
    && t'.fields.Keys == t.fields.Keys + {(Rho(n), Offset(t.bs, Rho(n), LevelIndex(n)))}
  }

  /** The first three array lengths and the keys after a push that put the new node at
      byte i of Tree[h], with BOUNDSIZE 1. */
  ghost predicate Stepped(t: Tree, t': Tree, h: nat, i: nat)
  {
    && |t.lens| == 64 && t'.bs == 1 && |t'.lens| == 64
    && t'.lens[0] == (if h == 0 then i + 8 else t.lens[0])
    && t'.lens[1] == (if h == 1 then i + 8 else t.lens[1])
    && t'.lens[2] == (if h == 2 then i + 8 else t.lens[2])
    && t'.fields.Keys == t.fields.Keys + {(h, i)}
  }

  /** One push on a tree with BOUNDSIZE 1, with the new node's height h and level index i
      known: Tree[h] becomes i + 8 bytes long and the key (h, i) is added. */
  lemma StepShape(t: Tree, t': Tree, n: nat, h: nat, i: nat)
    requires t.bs == 1 && |t.lens| == 64 && n > 0 && h < 3 && Rho(n) == h && LevelIndex(n) == i
    requires PushedOne(t, t', n)
    ensures Stepped(t, t', h, i)
  {
    OneByteFields(h, i);
  }

  /** Nodes 1..5 arriving in turn on an empty tree with BOUNDSIZE 1 leave PushedShape. */
  lemma FiveShapes(t0: Tree, t1: Tree, t2: Tree, t3: Tree, t4: Tree, t5: Tree,
                   n1: nat, n2: nat, n3: nat, n4: nat, n5: nat)
    requires t0.bs == 1 && t0.fields == map[] && |t0.lens| == 64
    requires n1 == 1 && n2 == 2 && n3 == 3 && n4 == 4 && n5 == 5
    requires PushedOne(t0, t1, n1) && PushedOne(t1, t2, n2) && PushedOne(t2, t3, n3)
    requires PushedOne(t3, t4, n4) && PushedOne(t4, t5, n5)
    ensures PushedShape(t5)
  {
    SmallNodes();
    StepShape(t0, t1, 1, 0, 0);
    StepShape(t1, t2, 2, 1, 0);
    StepShape(t2, t3, 3, 0, 1);
    StepShape(t3, t4, 4, 2, 0);
    StepShape(t4, t5, 5, 0, 2);
    assert Lambda(5) == 2;
    ShapeFromSteps(t0, t1, t2, t3, t4, t5);
  }

  lemma ShapeFromSteps(t0: Tree, t1: Tree, t2: Tree, t3: Tree, t4: Tree, t5: Tree)
    requires t0.fields == map[] && t5.size == 5 && t5.levels == 3
    requires Stepped(t0, t1, 0, 0) && Stepped(t1, t2, 1, 0) && Stepped(t2, t3, 0, 1)
    requires Stepped(t3, t4, 2, 0) && Stepped(t4, t5, 0, 2)
    ensures PushedShape(t5)
  {
    assert t5.fields.Keys == {(0, 0), (1, 0), (0, 1), (2, 0), (0, 2)};
  }

  /** ByteL(1, 1) followed by push(1) five times: the tree of five ones, in that shape. */
  method FivePushes() returns (t: Tree, ghost s: seq<nat>)
    ensures s == [1, 1, 1, 1, 1] && Valid(t, s) && PushedShape(t)
  {
    var t0 := Empty(1, 1);
    ghost var s0: seq<nat> := [];
    SmallHeights(1);
    var t1 := Push(t0, s0, 1);
    ghost var s1 := s0 + [1];
    SmallHeights(2);
    var t2 := Push(t1, s1, 1);
    ghost var s2 := s1 + [1];
    SmallHeights(3);
    var t3 := Push(t2, s2, 1);
    ghost var s3 := s2 + [1];
    SmallHeights(4);
    var t4 := Push(t3, s3, 1);
    ghost var s4 := s3 + [1];
    SmallHeights(5);
    t := Push(t4, s4, 1);
    s := s4 + [1];
    FiveShapes(t0, t1, t2, t3, t4, t, |s0| + 1, |s1| + 1, |s2| + 1, |s3| + 1, |s4| + 1);
    AppendOnes(s0, s1, s2, s3, s4, s);
  }

  lemma AppendOnes(s0: seq<nat>, s1: seq<nat>, s2: seq<nat>, s3: seq<nat>, s4: seq<nat>,
                   s5: seq<nat>)
    requires s0 == [] && s1 == s0 + [1] && s2 == s1 + [1] && s3 == s2 + [1]
    requires s4 == s3 + [1] && s5 == s4 + [1]
    ensures s5 == [1, 1, 1, 1, 1]
  {
  }

  /** Nodes below 8 have height and highest bit below 3. */
  lemma SmallHeights(n: nat)
    requires 1 <= n < 8
    ensures Lambda(n) < 3 && Rho(n) < 3
  {
    assert Pow2(3) == 8;
    RhoBelowLambda(n, n);
  }
}
