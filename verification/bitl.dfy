/** BitL: bit compression, level-ordered node layout (include/fenwick/bitl.hpp).
    Fields of height h are bs + h bits wide (bs = BOUNDSIZE) and the levels are laid
    one after the other in one bit string: level h starts at bit Level[h] and holds its
    CountHeight(size, h) fields end to end. As in BitF, the memory is a map from the bit
    offset of each field to the field's value. */
module BitL {
  import opened Bits
  import opened PrefixSums
  import opened Fenwick
  import opened Levels
  import BitF

  /** Levels: the heights 0..lambda(size) plus one entry for the end of the last level. */
  function LevelCount(n: nat): (r: nat)
    ensures r >= 1
    ensures n > 0 ==> r == Lambda(n) + 2
  {
    if n != 0 then Lambda(n) + 2 else 1
  }

  /** Level[h]: the bit where level h starts, after the fields of every lower level. */
  function LevelStart(bs: nat, n: nat, h: nat): int
  {
    if h == 0 then 0 else LevelStart(bs, n, h - 1) + Times(CountHeight(n, h - 1), bs + h - 1)
  }

  /** The bit offset of the field of index i on level h. */
  function FieldPos(bs: nat, n: nat, h: nat, i: nat): int
  {
    LevelStart(bs, n, h) + (bs + h) * i
  }

  function BitLAddr(bs: nat, n: nat): (laddr: (nat, nat) -> int)
  {
    (h: nat, i: nat) => FieldPos(bs, n, h, i)
  }

  /** Fields of height h hold values below 2^(bs + h). */
  function HeightMod(bs: nat): (hmod: nat -> nat)
  {
    (h: nat) => Pow2(bs + h)
  }

  // ---------------------------------------------------------------------------
  // Layout

  lemma {:induction false} LevelStartMonotone(bs: nat, n: nat, g: nat, h: nat)
    requires g <= h
    ensures LevelStart(bs, n, g) <= LevelStart(bs, n, h)
    decreases h
  {
    if g < h {
      LevelStartMonotone(bs, n, g, h - 1);
      var c, w := CountHeight(n, h - 1), bs + h - 1;
      assert LevelStart(bs, n, h) == LevelStart(bs, n, h - 1) + Times(c, w);
      TimesIsMul(c, w);
      MulNonneg(c, w);
    }
  }

  /** The field of every node of level h lies inside level h: it starts at Level[h] or
      later and ends by Level[h + 1]. */
  lemma FieldInLevel(bs: nat, n: nat, h: nat, i: nat)
    requires bs >= 1 && NodeAt(h, i) <= n
    ensures LevelStart(bs, n, h) <= FieldPos(bs, n, h, i)
    ensures FieldPos(bs, n, h, i) + (bs + h) <= LevelStart(bs, n, h + 1)
  {
    CountBound(n, h, i);
    var c, w := CountHeight(n, h), bs + h;
    assert LevelStart(bs, n, h + 1) == LevelStart(bs, n, h) + Times(c, w);
    TimesIsMul(c, w);
    FieldFits(w, i, c);
  }

  lemma FieldFits(w: nat, i: nat, c: nat)
    requires i < c
    ensures w * i + w <= c * w
  {
    if i + 1 < c && w > 0 { MulLt(i + 1, c, w); }
    assert w * i + w == (i + 1) * w;
  }

  /** find's guard `pos >= Level[h + 1]` rejects exactly the indices whose node is past
      the end of the tree. */
  lemma GuardExact(bs: nat, n: nat, h: nat, i: nat)
    requires bs >= 1
    ensures FieldPos(bs, n, h, i) >= LevelStart(bs, n, h + 1) <==> NodeAt(h, i) > n
  {
    CountBound(n, h, i);
    var c, w := CountHeight(n, h), bs + h;
    if i < c {
      FieldInLevel(bs, n, h, i);
    } else {
      assert LevelStart(bs, n, h + 1) == LevelStart(bs, n, h) + Times(c, w);
      TimesIsMul(c, w);
      FieldPast(w, i, c);
    }
  }

  lemma FieldPast(w: nat, i: nat, c: nat)
    requires c <= i
    ensures w * i >= c * w
  {
    if c < i && w > 0 { MulLt(c, i, w); }
  }

  /** Distinct (height, index) pairs of a tree of n nodes get distinct fields. */
  lemma BitLDistinct(bs: nat, n: nat)
    requires bs >= 1
    ensures LevelDistinct(BitLAddr(bs, n), n)
  {
    var laddr := BitLAddr(bs, n);
    forall h1: nat, i1: nat, h2: nat, i2: nat |
      NodeAt(h1, i1) <= n && NodeAt(h2, i2) <= n && (h1 != h2 || i1 != i2)
      ensures laddr(h1, i1) != laddr(h2, i2)
    {
      FieldsApart(bs, n, h1, i1, h2, i2);
    }
  }

  lemma FieldsApart(bs: nat, n: nat, h1: nat, i1: nat, h2: nat, i2: nat)
    requires bs >= 1 && NodeAt(h1, i1) <= n && NodeAt(h2, i2) <= n && (h1 != h2 || i1 != i2)
    ensures FieldPos(bs, n, h1, i1) != FieldPos(bs, n, h2, i2)
  {
    if h1 == h2 {
      var w := bs + h1;
      if i1 < i2 { MulLt(i1, i2, w); } else { MulLt(i2, i1, w); }
    } else if h1 < h2 {
      LowerLevelFirst(bs, n, h1, i1, h2, i2);
    } else {
      LowerLevelFirst(bs, n, h2, i2, h1, i1);
    }
  }

  /** A field of a lower level ends before any field of a higher level starts. */
  lemma LowerLevelFirst(bs: nat, n: nat, h1: nat, i1: nat, h2: nat, i2: nat)
    requires bs >= 1 && NodeAt(h1, i1) <= n && NodeAt(h2, i2) <= n && h1 < h2
    ensures FieldPos(bs, n, h1, i1) + (bs + h1) <= FieldPos(bs, n, h2, i2)
  {
    FieldInLevel(bs, n, h1, i1);
    FieldInLevel(bs, n, h2, i2);
    LevelStartMonotone(bs, n, h1 + 1, h2);
  }

  // ---------------------------------------------------------------------------
  // Total size: the levels take exactly the bits of BitF's layout

  /** The bits of the nodes among 1..n whose height is below H. */
  function BitsBelow(bs: nat, n: nat, H: nat): nat
  {
    if n == 0 then 0 else BitsBelow(bs, n - 1, H) + (if Rho(n) < H then bs + Rho(n) else 0)
  }

  lemma BitsBelowZero(bs: nat, n: nat)
    ensures BitsBelow(bs, n, 0) == 0
  {
  }

  /** Raising the bound by one height adds the nodes of height H. */
  lemma {:induction false} BitsBelowStep(bs: nat, n: nat, H: nat)
    ensures BitsBelow(bs, n, H + 1) == BitsBelow(bs, n, H) + Times(CountRho(n, H), bs + H)
  {
    if n > 0 {
      BitsBelowStep(bs, n - 1, H);
    }
  }

  /** Level[H] is the number of bits of the nodes of height below H. */
  lemma {:induction false} LevelStartIsBits(bs: nat, n: nat, H: nat)
    ensures LevelStart(bs, n, H) == BitsBelow(bs, n, H)
  {
    if H == 0 {
      BitsBelowZero(bs, n);
    } else {
      LevelStartIsBits(bs, n, H - 1);
      BitsBelowStep(bs, n, H - 1);
      CountHeightIsCount(n, H - 1);
    }
  }

  lemma {:induction false} AllBelow(bs: nat, n: nat, H: nat)
    requires forall j :: 1 <= j <= n ==> Rho(j) < H
    ensures BitsBelow(bs, n, H) == BitF.BitPos(bs, n)
  {
    if n > 0 {
      AllBelow(bs, n - 1, H);
    }
  }

  /** Level[Levels - 1], the end of the last level, is get_bitpos(size) of BitF with
      leaves of bs bits: the level order moves the fields but takes no extra bits. */
  lemma TotalBits(bs: nat, n: nat)
    ensures LevelStart(bs, n, LevelCount(n) - 1) == BitF.BitPos(bs, n)
  {
    var H := LevelCount(n) - 1;
    forall j | 1 <= j <= n ensures Rho(j) < H {
      RhoBelowLambda(j, n);
    }
    AllBelow(bs, n, H);
    LevelStartIsBits(bs, n, H);
  }

  // ---------------------------------------------------------------------------
  // The tree

  /** BOUND, BOUNDSIZE, Size and the fields. */
  datatype Tree = Tree(bound: nat, bs: nat, size: nat, fields: map<int, int>)

  /** Every field, shifted by at most 7 bits within its byte, fits in the 64-bit word
      read there: bs + lambda(size) <= 57. */
  predicate WordFits(bs: nat, n: nat)
  {
    n > 0 ==> bs + Lambda(n) + 7 <= 64
  }

  ghost predicate Valid(t: Tree, s: seq<nat>)
  {
    && 1 <= t.bs <= 57 && t.bound < Pow2(t.bs)
    && t.size == |s| && |s| < WORD && Bounded(s, t.bound) && WordFits(t.bs, |s|)
    && Holds(t.fields, LevelAddr(BitLAddr(t.bs, t.size)), s)
  }

  lemma NodesFit(s: seq<nat>, bound: nat, bs: nat)
    requires Bounded(s, bound) && bound < Pow2(bs)
    ensures Fits(s, HeightModulus(HeightMod(bs)))
  {
    forall j | 1 <= j <= |s| ensures NodeSum(s, j) < HeightModulus(HeightMod(bs))(j) {
      NodeSumBits(s, bound, bs, j);
    }
  }

  /** The constructor: Level[] from the level sizes, then the heights 0..Levels - 2, each
      node summing its leaf and the fields of its children. */
  method Build(s: seq<nat>, bound: nat, bs: nat) returns (t: Tree)
    requires 1 <= bs <= 57 && bound < Pow2(bs)
    requires |s| < WORD && Bounded(s, bound) && WordFits(bs, |s|)
    ensures Valid(t, s) && t.bound == bound && t.bs == bs
  {
    var n := |s|;
    BitLDistinct(bs, n);
    NodesFit(s, bound, bs);
    var fields := LevelBuild(s, BitLAddr(bs, n), HeightMod(bs), LevelCount(n) - 1);
    t := Tree(bound, bs, n, fields);
  }

  /** bitextract of the field of index i on level h. */
  function ReadAt(t: Tree): (readAt: (nat, nat) -> int)
  {
    (h: nat, i: nat) =>
      var pos := FieldPos(t.bs, t.size, h, i);
      (if pos in t.fields then t.fields[pos] else 0) % Pow2(t.bs + h)
  }

  /** Every node's field reads back its node sum. */
  lemma ReadAtNodes(t: Tree, s: seq<nat>)
    requires Valid(t, s)
    ensures forall h: nat, i: nat :: NodeAt(h, i) <= |s| ==> ReadAt(t)(h, i) == NodeSum(s, NodeAt(h, i))
  {
    NodesFit(s, t.bound, t.bs);
    forall h: nat, i: nat | NodeAt(h, i) <= |s|
      ensures ReadAt(t)(h, i) == NodeSum(s, NodeAt(h, i))
    {
      var j := NodeAt(h, i);
      NodeAtInverse(h, i);
      var pos := FieldPos(t.bs, t.size, h, i);
      assert LevelAddr(BitLAddr(t.bs, t.size))(j) == pos;
      var v := t.fields[pos];
      assert v == NodeSum(s, j) && v < Pow2(t.bs + h);
      ModUnique(v, Pow2(t.bs + h), 0, v);
    }
  }

  method Prefix(t: Tree, ghost s: seq<nat>, idx: nat) returns (sum: int)
    requires Valid(t, s) && idx <= t.size
    ensures sum == PrefixSums.Prefix(s, idx)
  {
    ReadAtNodes(t, s);
    LevelReads(ReadAt(t), s);
    sum := PrefixWalk(LevelRead(ReadAt(t)), s, idx);
  }

  /** add(idx, inc): idx is 1-based; an index past the end changes nothing. */
  method Add(t: Tree, ghost s: seq<nat>, idx: nat, inc: int) returns (t': Tree)
    requires Valid(t, s) && 1 <= idx
    requires idx <= |s| ==> 0 <= s[idx - 1] + inc <= t.bound
    ensures t'.size == t.size && t'.bound == t.bound && t'.bs == t.bs
    ensures idx <= |s| ==> Valid(t', Update(s, idx, inc))
    ensures idx > |s| ==> t' == t
  {
    var addr := LevelAddr(BitLAddr(t.bs, t.size));
    BitLDistinct(t.bs, t.size);
    LevelDistinctNodes(BitLAddr(t.bs, t.size), t.size);
    var fields := AddWalk(t.fields, addr, t.size, idx, inc);
    t' := t.(fields := fields);
    if idx <= |s| {
      AddKeepsHolds(t.fields, fields, addr, s, idx, inc);
      UpdateKeepsBounds(s, idx, inc, t.bound);
    } else {
      AddBeyond(t.fields, fields, addr, t.size, idx, inc);
    }
  }

  /** find's guard: the position is at or past the start of the next level. */
  function SkipAt(t: Tree): (skipAt: (nat, nat) -> bool)
  {
    (h: nat, i: nat) => FieldPos(t.bs, t.size, h, i) >= LevelStart(t.bs, t.size, h + 1)
  }

  lemma SkipAtExact(t: Tree, s: seq<nat>)
    requires Valid(t, s)
    ensures forall h: nat, i: nat :: SkipAt(t)(h, i) <==> NodeAt(h, i) > |s|
  {
    forall h: nat, i: nat ensures SkipAt(t)(h, i) <==> NodeAt(h, i) > |s| {
      GuardExact(t.bs, t.size, h, i);
    }
  }

  /** The search starts at height Levels - 2. */
  function TopHeight(n: nat): (top: int)
    ensures top >= -1 && n < Pow2(top + 1)
  {
    LevelCount(n) - 2
  }

  /** find(val): the largest p with prefix(p) <= val, capped at Size; val keeps
      val - prefix(p). */
  method Find(t: Tree, ghost s: seq<nat>, val: nat) returns (p: nat, rest: int)
    requires Valid(t, s)
    ensures IsLargest(s, val, p)
    ensures rest == val - PrefixSums.Prefix(s, p)
  {
    ReadAtNodes(t, s);
    SkipAtExact(t, s);
    var node;
    node, rest := LevelFind(ReadAt(t), SkipAt(t), s, TopHeight(t.size), val);
    p := if node < t.size then node else t.size;
  }

  /** compFind reads (BOUND << h) minus the field. */
  function CompAt(t: Tree): (readAt: (nat, nat) -> int)
  {
    (h: nat, i: nat) => t.bound * Pow2(h) - ReadAt(t)(h, i)
  }

  lemma CompAtNodes(t: Tree, s: seq<nat>)
    requires Valid(t, s)
    ensures forall h: nat, i: nat :: NodeAt(h, i) <= |s| ==>
      CompAt(t)(h, i) == NodeSum(Complement(s, t.bound), NodeAt(h, i))
  {
    ReadAtNodes(t, s);
    forall h: nat, i: nat | NodeAt(h, i) <= |s|
      ensures CompAt(t)(h, i) == NodeSum(Complement(s, t.bound), NodeAt(h, i))
    {
      NodeAtInverse(h, i);
      NodeSumComplement(s, t.bound, NodeAt(h, i));
    }
  }

  /** compFind(val): find over BOUND - s[k]. */
  method CompFind(t: Tree, ghost s: seq<nat>, val: nat) returns (p: nat, rest: int)
    requires Valid(t, s)
    ensures IsLargest(Complement(s, t.bound), val, p)
    ensures rest == val - PrefixSums.Prefix(Complement(s, t.bound), p)
  {
    CompAtNodes(t, s);
    SkipAtExact(t, s);
    var node;
    node, rest := LevelFind(CompAt(t), SkipAt(t), Complement(s, t.bound), TopHeight(t.size), val);
    p := if node < t.size then node else t.size;
  }

  /** The field of a node of level h starts within 7 bits of its byte and ends inside
      the word read there, so bitextract and `+= inc << shift` act on that field alone
      (BitF.WordExtract, BitF.WordAdd). */
  lemma FieldInWord(t: Tree, s: seq<nat>, h: nat, i: nat)
    requires Valid(t, s) && NodeAt(h, i) <= |s|
    ensures FieldPos(t.bs, t.size, h, i) % 8 + (t.bs + h) <= 64
  {
    NodeAtInverse(h, i);
    RhoBelowLambda(NodeAt(h, i), |s|);
  }
}
