/** ByteF: byte compression, classical node layout (include/fenwick/bytef.hpp).
    Leaves are bs = BOUNDSIZE bits wide; node j takes the least whole number of bytes
    that holds bs + rho(j) bits, and its field starts at byte pos(j - 1) of one byte
    array. Every access reads or writes the 64-bit word starting at that byte and masks
    it to the field, so the memory is modelled as a map from the byte offset of each
    field to the field's value, and the lemmas at the end show why the word accesses
    touch no other field. */
module ByteF {
  import opened Bits
  import opened PrefixSums
  import opened Fenwick

  /** bytesize(j): the bytes of node j, the least number holding bs + rho(j) bits. */
  function ByteSize(bs: nat, j: nat): (k: nat)
    requires bs >= 1 && j >= 1
    ensures 8 * (k - 1) < bs + Rho(j) <= 8 * k
  {
    (Rho(j) + bs - 1) / 8 + 1
  }

  /** SMALL: the bytes of a leaf, the least number holding bs bits. */
  function Small(bs: nat): (k: nat)
    requires 1 <= bs <= 64
    ensures 8 * (k - 1) < bs <= 8 * k
  {
    (bs - 1) / 8 + 1
  }

  /** NEXTBYTE = ((bs - 1) | 7) + 1 rounds bs up to whole bytes. */
  function NextByte(bs: nat): (r: nat)
    requires 1 <= bs <= 64
    ensures r == 8 * Small(bs)
  {
    OrLowOnes(bs - 1, 3);
    assert Pow2(3) == 8;
    Or(bs - 1, 7) + 1
  }

  /** MEDIUM: one more than the spare bits in a leaf's bytes; from height MEDIUM up a node
      needs one byte more than a leaf. */
  function Medium(bs: nat): (r: nat)
    requires 1 <= bs <= 64
    ensures 1 <= r <= 8
    ensures r == 8 * Small(bs) - bs + 1
  {
    NextByte(bs) - bs + 1
  }

  /** LARGE: from height LARGE up a node needs two bytes more than a leaf. */
  function Large(bs: nat): nat
    requires 1 <= bs <= 64
  {
    Medium(bs) + 8
  }

  /** MULTIPLIER = 8 - SMALL - 1, as a signed number: for bs > 56 the unsigned constant
      wraps to 2^64 - 1, which PosWord below shows gives the same positions. */
  function Multiplier(bs: nat): (r: int)
    requires 1 <= bs <= 64
    ensures -1 <= r <= 6
  {
    8 - Small(bs) - 1
  }

  /** holes(i) in the default configuration: 8 spare bytes every 2^14 nodes. */
  function Holes(i: nat): nat
  {
    8 * Shr(i, 14)
  }

  /** pos(i) as the source computes it: the byte where the field of node i + 1 starts. */
  function PosFormula(bs: nat, i: nat): int
    requires 1 <= bs <= 64
  {
    Times(i, Small(bs)) + Shr(i, Medium(bs)) + Times(Shr(i, Large(bs)), Multiplier(bs)) + Holes(i)
  }

  /** The bytes between the fields of nodes i and i + 1, which depend on rho(i) only:
      a leaf's bytes, one more from height MEDIUM, up to a word from height LARGE, and
      the hole every 2^14 nodes. */
  function Gap(bs: nat, r: nat): int
    requires 1 <= bs <= 64
  {
    Small(bs) + (if r >= Medium(bs) then 1 else 0)
    + (if r >= Large(bs) then Multiplier(bs) else 0) + (if r >= 14 then 8 else 0)
  }

  /** The layout as the fields laid end to end: node i + 1 starts after the gaps of the
      nodes 1..i. */
  function Pos(bs: nat, i: nat): int
    requires 1 <= bs <= 64
  {
    if i == 0 then 0 else Pos(bs, i - 1) + Gap(bs, Rho(i))
  }

  /** Each shift in the formula steps up at i exactly when rho(i) reaches its amount. */
  lemma PosFormulaStep(bs: nat, i: nat)
    requires 1 <= bs <= 64 && i >= 1
    ensures PosFormula(bs, i) == PosFormula(bs, i - 1) + Gap(bs, Rho(i))
  {
    var r, small, mult := Rho(i), Small(bs), Multiplier(bs);
    var M, L := Medium(bs), Large(bs);
    var a0, a1 := Shr(i - 1, M), Shr(i, M);
    var b0, b1 := Shr(i - 1, L), Shr(i, L);
    var h0, h1 := Shr(i - 1, 14), Shr(i, 14);
    assert a1 == a0 + (if r >= M then 1 else 0) by { ShrStep(i, M); }
    assert b1 == b0 + (if r >= L then 1 else 0) by { ShrStep(i, L); }
    assert h1 == h0 + (if r >= 14 then 1 else 0) by { ShrStep(i, 14); }
    assert Times(b1, mult) == Times(b0, mult) + (if r >= L then mult else 0);
    assert Times(i, small) == Times(i - 1, small) + small;
    assert PosFormula(bs, i) == Times(i, small) + a1 + Times(b1, mult) + 8 * h1;
    assert PosFormula(bs, i - 1) == Times(i - 1, small) + a0 + Times(b0, mult) + 8 * h0;
  }

  /** The source's closed formula is the running sum of the gaps. */
  lemma {:induction false} PosFormulaIsPos(bs: nat, i: nat)
    requires 1 <= bs <= 64
    ensures PosFormula(bs, i) == Pos(bs, i)
  {
    if i > 0 {
      var g := Gap(bs, Rho(i));
      PosFormulaIsPos(bs, i - 1);
      PosFormulaStep(bs, i);
      calc {
        PosFormula(bs, i);
        PosFormula(bs, i - 1) + g;
        Pos(bs, i - 1) + g;
      }
    } else {
      ShrIsDiv(0, Medium(bs));
      ShrIsDiv(0, Large(bs));
      ShrIsDiv(0, 14);
    }
  }

  /** The gap is never empty, and it holds the whole field of node i whenever that field
      fits in a word. */
  lemma GapFits(bs: nat, r: nat)
    requires 1 <= bs <= 64
    ensures Gap(bs, r) >= 1
    ensures r + bs <= 64 ==> Gap(bs, r) >= (r + bs - 1) / 8 + 1
  {
  }

  lemma {:induction false} PosIncreasing(bs: nat, i: nat, j: nat)
    requires 1 <= bs <= 64 && i < j
    ensures Pos(bs, i) < Pos(bs, j)
    decreases j
  {
    GapFits(bs, Rho(j));
    if i < j - 1 {
      PosIncreasing(bs, i, j - 1);
    }
  }

  /** The field of node j ends where the field of node j + 1 starts, or before. */
  lemma FieldEnd(bs: nat, j: nat)
    requires 1 <= bs <= 64 && j >= 1 && bs + Rho(j) <= 64
    ensures Pos(bs, j - 1) + ByteSize(bs, j) <= Pos(bs, j)
  {
    GapFits(bs, Rho(j));
  }

  /** The layout of a tree of n nodes: fields start at nonnegative offsets, come in node
      order without overlapping, and the 64-bit word read at any field lies inside the
      pos(n) + 8 bytes the constructor allocates. */
  lemma Layout(bs: nat, n: nat, j: nat, k: nat)
    requires 1 <= bs <= 64 && 1 <= j <= n && bs + Lambda(n) <= 64
    ensures 0 <= Pos(bs, j - 1)
    ensures Pos(bs, j - 1) + ByteSize(bs, j) <= Pos(bs, n)
    ensures j < k <= n ==> Pos(bs, j - 1) + ByteSize(bs, j) <= Pos(bs, k - 1)
  {
    RhoBelowLambda(j, n);
    FieldEnd(bs, j);
    if j > 1 {
      PosIncreasing(bs, 0, j - 1);
    }
    if j < n {
      PosIncreasing(bs, j, n);
    }
    if j < k <= n && j < k - 1 {
      PosIncreasing(bs, j, k - 1);
    }
  }

  /** The field address of node j. */
  function ByteAddr(bs: nat): (addr: nat -> int)
    requires 1 <= bs <= 64
  {
    (j: nat) => if j == 0 then 0 else Pos(bs, j - 1)
  }

  lemma ByteDistinct(bs: nat, n: nat)
    requires 1 <= bs <= 64
    ensures Distinct(ByteAddr(bs), n)
  {
    forall j, k | 1 <= j < k <= n ensures ByteAddr(bs)(j) != ByteAddr(bs)(k) {
      PosIncreasing(bs, j - 1, k - 1);
    }
  }

  /** The field of node j holds its value modulo 2^(8 bytesize(j)). */
  function FieldModulus(bs: nat, j: nat): (m: nat)
    requires 1 <= bs <= 64
  {
    if j == 0 then 1 else Pow2(8 * ByteSize(bs, j))
  }

  function ByteModulus(bs: nat): (modulus: nat -> nat)
    requires 1 <= bs <= 64
  {
    (j: nat) => FieldModulus(bs, j)
  }

  /** With elements of at most bs bits, every node fits in its field. */
  lemma NodesFit(s: seq<nat>, bound: nat, bs: nat)
    requires 1 <= bs <= 64 && Bounded(s, bound) && bound < Pow2(bs)
    ensures Fits(s, ByteModulus(bs))
  {
    forall j | 1 <= j <= |s| ensures NodeSum(s, j) < ByteModulus(bs)(j) {
      NodeSumBits(s, bound, bs, j);
      Pow2Le(bs + Rho(j), 8 * ByteSize(bs, j));
    }
  }

  /** BOUND, BOUNDSIZE, Size and the fields. */
  datatype Tree = Tree(bound: nat, bs: nat, size: nat, fields: map<int, int>)

  /** The tree represents s: the fields of all nodes fit in a word (bs + lambda(Size) <= 64,
      which the 8-entry BYTE_MASK table needs) and hold the node sums. */
  ghost predicate Valid(t: Tree, s: seq<nat>)
  {
    && 1 <= t.bs <= 64 && t.bound < Pow2(t.bs)
    && t.size == |s| && |s| < WORD && Bounded(s, t.bound)
    && (|s| > 0 ==> t.bs + Lambda(|s|) <= 64)
    && Holds(t.fields, ByteAddr(t.bs), s)
  }

  /** The constructor: leaves first (each stored modulo its field), then the rounds of the
      classical build. Every field lies inside the pos(size) + 8 bytes allocated. */
  method Build(s: seq<nat>, bound: nat, bs: nat) returns (t: Tree)
    requires 1 <= bs <= 64 && bound < Pow2(bs)
    requires |s| < WORD && Bounded(s, bound) && (|s| > 0 ==> bs + Lambda(|s|) <= 64)
    ensures Valid(t, s) && t.bound == bound && t.bs == bs
    ensures t.fields.Keys == NodeAddrs(ByteAddr(bs), |s|)
  {
    ByteDistinct(bs, |s|);
    NodesFit(s, bound, bs);
    var fields := ClassicBuild(s, ByteAddr(bs), ByteModulus(bs));
    t := Tree(bound, bs, |s|, fields);
  }

  /** The masked read of node j: the 64-bit word at its field, and BYTE_MASK[bytesize(j)]. */
  function MaskedRead(t: Tree): (read: nat -> int)
    requires 1 <= t.bs <= 64
  {
    (j: nat) => FieldRead(t.fields, ByteAddr(t.bs))(j) % FieldModulus(t.bs, j)
  }

  lemma MaskedReads(t: Tree, s: seq<nat>)
    requires Valid(t, s)
    ensures Reads(MaskedRead(t), s)
  {
    NodesFit(s, t.bound, t.bs);
    var addr, modulus := ByteAddr(t.bs), ByteModulus(t.bs);
    forall j | 1 <= j <= |s| ensures MaskedRead(t)(j) == t.fields[addr(j)] % modulus(j) {
      assert addr(j) in t.fields;
      assert FieldRead(t.fields, addr)(j) == t.fields[addr(j)];
      assert modulus(j) == FieldModulus(t.bs, j);
    }
    ReadsMasked(t.fields, ByteAddr(t.bs), ByteModulus(t.bs), s, MaskedRead(t));
  }

  method Prefix(t: Tree, ghost s: seq<nat>, idx: nat) returns (sum: int)
    requires Valid(t, s) && idx <= t.size
    ensures sum == PrefixSums.Prefix(s, idx)
  {
    MaskedReads(t, s);
    sum := PrefixWalk(MaskedRead(t), s, idx);
  }

  /** add(idx, inc): idx is 1-based; an index past the end changes nothing. The new
      element must stay within [0, BOUND]. */
  method Add(t: Tree, ghost s: seq<nat>, idx: nat, inc: int) returns (t': Tree)
    requires Valid(t, s) && 1 <= idx
    requires idx <= |s| ==> 0 <= s[idx - 1] + inc <= t.bound
    ensures t'.size == t.size && t'.bound == t.bound && t'.bs == t.bs
    ensures t'.fields.Keys == t.fields.Keys
    ensures idx <= |s| ==> Valid(t', Update(s, idx, inc))
    ensures idx > |s| ==> t' == t
  {
    ByteDistinct(t.bs, t.size);
    var fields := AddWalk(t.fields, ByteAddr(t.bs), t.size, idx, inc);
    t' := t.(fields := fields);
    if idx <= |s| {
      AddKeepsHolds(t.fields, fields, ByteAddr(t.bs), s, idx, inc);
      UpdateKeepsBounds(s, idx, inc, t.bound);
    } else {
      AddBeyond(t.fields, fields, ByteAddr(t.bs), t.size, idx, inc);
    }
  }

  /** find(val): the largest p with prefix(p) <= val; val keeps val - prefix(p). The guard
      node + m - 1 >= Size skips exactly the nodes past the end. */
  method Find(t: Tree, ghost s: seq<nat>, val: nat) returns (p: nat, rest: int)
    requires Valid(t, s)
    ensures IsLargest(s, val, p)
    ensures rest == val - PrefixSums.Prefix(s, p)
  {
    MaskedReads(t, s);
    p, rest := Fenwick.Find(MaskedRead(t), (j: nat) => j > t.size, t.size, s, val);
  }

  /** compFind(val): find over BOUND - s[k], reading node j as (BOUND << rho(j)) minus its
      masked field. */
  method CompFind(t: Tree, ghost s: seq<nat>, val: nat) returns (p: nat, rest: int)
    requires Valid(t, s)
    ensures IsLargest(Complement(s, t.bound), val, p)
    ensures rest == val - PrefixSums.Prefix(Complement(s, t.bound), p)
  {
    MaskedReads(t, s);
    ReadsComplement(MaskedRead(t), s, t.bound);
    p, rest := Fenwick.Find(CompRead(MaskedRead(t), t.bound),
                            (j: nat) => j > t.size, t.size, Complement(s, t.bound), val);
  }

  /** Reading the 64-bit word at a field and masking it with BYTE_MASK[k] yields the field,
      whatever the following fields hold in the word's upper bytes. */
  lemma WordMasked(w: nat, k: nat, field: nat, above: nat)
    requires k <= 8 && w == field + Pow2(8 * k) * above && field < Pow2(8 * k)
    ensures And(w, ByteMask(k)) == field
  {
    ByteMaskIsLowOnes(k);
    AndLowOnes(w, 8 * k);
    ModUnique(w, Pow2(8 * k), above, field);
  }

  /** pos as computed in size_t: the unsigned MULTIPLIER and every sum are taken modulo
      2^64. */
  function PosWord(bs: nat, i: nat): nat
    requires 1 <= bs <= 64
  {
    (Times(i, Small(bs)) + Shr(i, Medium(bs)) + Times(Shr(i, Large(bs)), (7 - Small(bs)) % WORD)
     + Holes(i)) % WORD
  }

  /** For any node index the byte array could be addressed with, the size_t computation of
      pos agrees with the exact one, also when MULTIPLIER wraps around. */
  lemma PosWordIsPos(bs: nat, i: nat)
    requires 1 <= bs <= 64 && 32 * i < WORD
    ensures PosWord(bs, i) == PosFormula(bs, i)
  {
    var small, a, b, h := Small(bs), Shr(i, Medium(bs)), Shr(i, Large(bs)), Shr(i, 14);
    var m := (7 - small) % WORD;
    ShrAntitone(i, Medium(bs), Large(bs));
    ShrAntitone(i, 0, 14);
    TimesIsMul(i, small);
    TimesIsMul(b, 7 - small);
    TimesIsMul(b, m);
    PosRange(i, small, a, b, h);
    if small <= 7 {
      ModUnique(7 - small, WORD, 0, 7 - small);
    } else {
      ModUnique(WORD - 1, WORD, 0, WORD - 1);
    }
    assert PosFormula(bs, i) == i * small + a + h * 8 + b * (7 - small);
    assert PosWord(bs, i) == (i * small + a + h * 8 + b * m) % WORD;
    WrapSum(i * small + a + h * 8, b, 7 - small, m);
  }

  /** A multiplier congruent to mult modulo 2^64 gives the same sum modulo 2^64. */
  lemma WrapSum(rest: nat, b: nat, mult: int, m: nat)
    requires m == mult || m == mult + WORD
    requires 0 <= rest + b * mult < WORD
    ensures (rest + b * m) % WORD == rest + b * mult
  {
    if m == mult {
      ModUnique(rest + b * m, WORD, 0, rest + b * mult);
    } else {
      assert rest + b * m == rest + b * mult + WORD * b;
      ModUnique(rest + b * m, WORD, b, rest + b * mult);
    }
  }

  lemma PosRange(i: nat, small: nat, a: nat, b: nat, h: nat)
    requires 1 <= small <= 8 && b <= a <= i && h <= i
    ensures 0 <= i * small + a + b * (7 - small) + h * 8 <= 23 * i
    ensures i * small >= 0
  {
    assert i * 8 == i * small + i * (8 - small);
    MulBounds(i, 8 - small);
    if small <= 7 {
      assert b * (7 - small) <= i * (7 - small) <= 6 * i by {
        assert i * (7 - small) - b * (7 - small) == (i - b) * (7 - small);
        MulBounds(i - b, 7 - small);
      }
    }
  }
}
