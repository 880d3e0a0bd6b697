/** BitF: bit compression, classical node layout (include/fenwick/bitf.hpp).
    Leaves are L = log2(LEAF_MAXVAL) bits wide and node j takes exactly L + rho(j) bits,
    laid end to end: its field starts at bit get_bitpos(j - 1) of one byte array. Every
    access reads or writes the 64-bit word at byte get_bitpos / 8 and shifts by
    get_bitpos % 8, so the memory is modelled as a map from the bit offset of each field
    to the field's value; the lemmas at the end show what the word accesses do. */
module BitF {
  import opened Bits
  import opened PrefixSums
  import opened Fenwick

  /** LEAF_BITSIZE. */
  function LeafBits(maxval: nat): (L: nat)
    ensures L >= 1 && maxval < Pow2(L)
  {
    Log2(maxval)
  }

  /** The bits of node j. */
  function Width(L: nat, j: nat): nat
    requires j >= 1
  {
    L + Rho(j)
  }

  /** get_bitpos(n) as the source computes it. */
  function BitPosFormula(L: nat, n: nat): int
  {
    Times(n, L + 1) - Popcount(n)
  }

  /** The fields laid end to end: node n + 1 starts after the fields of nodes 1..n. */
  function BitPos(L: nat, n: nat): nat
  {
    if n == 0 then 0 else BitPos(L, n - 1) + Width(L, n)
  }

  /** The source's closed formula is the running sum of the widths: each step adds L + 1
      bits and the popcount takes back the 1 - rho(n) bits it gains. */
  lemma {:induction false} BitPosIsSum(L: nat, n: nat)
    ensures BitPosFormula(L, n) == BitPos(L, n)
  {
    if n > 0 {
      BitPosIsSum(L, n - 1);
      PopcountSucc(n - 1);
    }
  }

  /** Fields of distinct nodes are disjoint and in node order. */
  lemma {:induction false} BitPosOrder(L: nat, j: nat, k: nat)
    requires 1 <= j < k
    ensures BitPos(L, j - 1) + Width(L, j) <= BitPos(L, k - 1)
    decreases k
  {
    if j < k - 1 {
      BitPosOrder(L, j, k - 1);
    }
  }

  function BitAddr(L: nat): (addr: nat -> nat)
  {
    (j: nat) => if j == 0 then 0 else BitPos(L, j - 1)
  }

  lemma BitDistinct(L: nat, n: nat)
    requires L >= 1
    ensures Distinct(BitAddr(L), n)
  {
    forall j, k | 1 <= j < k <= n ensures BitAddr(L)(j) != BitAddr(L)(k) {
      BitPosOrder(L, j, k);
    }
  }

  function FieldModulus(L: nat, j: nat): nat
  {
    if j == 0 then 1 else Pow2(Width(L, j))
  }

  function BitModulus(L: nat): (modulus: nat -> nat)
  {
    (j: nat) => FieldModulus(L, j)
  }

  lemma NodesFit(s: seq<nat>, maxval: nat)
    requires Bounded(s, maxval)
    ensures Fits(s, BitModulus(LeafBits(maxval)))
  {
    var L := LeafBits(maxval);
    forall j | 1 <= j <= |s| ensures NodeSum(s, j) < BitModulus(L)(j) {
      NodeSumBits(s, maxval, L, j);
    }
  }

  /** LEAF_MAXVAL, size and the fields. */
  datatype Tree = Tree(maxval: nat, size: nat, fields: map<nat, int>)

  /** The field of every node, shifted by at most 7 bits within its byte, fits in the
      64-bit word read there: L + lambda(size) <= 57. */
  predicate WordFits(maxval: nat, n: nat)
  {
    n > 0 ==> LeafBits(maxval) + Lambda(n) + 7 <= 64
  }

  ghost predicate Valid(t: Tree, s: seq<nat>)
  {
    && t.size == |s| && |s| < WORD && Bounded(s, t.maxval) && WordFits(t.maxval, |s|)
    && Holds(t.fields, BitAddr(LeafBits(t.maxval)), s)
  }

  /** The constructor: leaves first, then the rounds of the classical build. */
  method Build(s: seq<nat>, maxval: nat) returns (t: Tree)
    requires |s| < WORD && Bounded(s, maxval) && WordFits(maxval, |s|)
    ensures Valid(t, s) && t.maxval == maxval
    ensures t.fields.Keys == NodeAddrs(BitAddr(LeafBits(maxval)), |s|)
  {
    var L := LeafBits(maxval);
    BitDistinct(L, |s|);
    NodesFit(s, maxval);
    var fields := ClassicBuild(s, BitAddr(L), BitModulus(L));
    t := Tree(maxval, |s|, fields);
  }

  /** The read of node j: the word at its field, shifted and masked to L + rho(j) bits. */
  function MaskedRead(t: Tree): (read: nat -> int)
  {
    var L := LeafBits(t.maxval);
    (j: nat) => FieldRead(t.fields, BitAddr(L))(j) % FieldModulus(L, j)
  }

  lemma MaskedReads(t: Tree, s: seq<nat>)
    requires Valid(t, s)
    ensures Reads(MaskedRead(t), s)
  {
    var L := LeafBits(t.maxval);
    NodesFit(s, t.maxval);
    var addr, modulus := BitAddr(L), BitModulus(L);
    forall j | 1 <= j <= |s| ensures MaskedRead(t)(j) == t.fields[addr(j)] % modulus(j) {
      assert addr(j) in t.fields;
      assert FieldRead(t.fields, addr)(j) == t.fields[addr(j)];
      assert modulus(j) == FieldModulus(L, j);
    }
    ReadsMasked(t.fields, addr, modulus, s, MaskedRead(t));
  }

  method Prefix(t: Tree, ghost s: seq<nat>, idx: nat) returns (sum: int)
    requires Valid(t, s) && idx <= t.size
    ensures sum == PrefixSums.Prefix(s, idx)
  {
    MaskedReads(t, s);
    sum := PrefixWalk(MaskedRead(t), s, idx);
  }

  /** add(idx, inc): idx is 1-based; an index past the end changes nothing. */
  method Add(t: Tree, ghost s: seq<nat>, idx: nat, inc: int) returns (t': Tree)
    requires Valid(t, s) && 1 <= idx
    requires idx <= |s| ==> 0 <= s[idx - 1] + inc <= t.maxval
    ensures t'.size == t.size && t'.maxval == t.maxval
    ensures t'.fields.Keys == t.fields.Keys
    ensures idx <= |s| ==> Valid(t', Update(s, idx, inc))
    ensures idx > |s| ==> t' == t
  {
    var addr := BitAddr(LeafBits(t.maxval));
    BitDistinct(LeafBits(t.maxval), t.size);
    var fields := AddWalk(t.fields, addr, t.size, idx, inc);
    t' := t.(fields := fields);
    if idx <= |s| {
      AddKeepsHolds(t.fields, fields, addr, s, idx, inc);
      UpdateKeepsBounds(s, idx, inc, t.maxval);
    } else {
      AddBeyond(t.fields, fields, addr, t.size, idx, inc);
    }
  }

  /** find(val): the largest p with prefix(p) <= val; val keeps val - prefix(p). */
  method Find(t: Tree, ghost s: seq<nat>, val: nat) returns (p: nat, rest: int)
    requires Valid(t, s)
    ensures IsLargest(s, val, p)
    ensures rest == val - PrefixSums.Prefix(s, p)
  {
    MaskedReads(t, s);
    p, rest := Fenwick.Find(MaskedRead(t), (j: nat) => j > t.size, t.size, s, val);
  }

  /** compfind(val): find over LEAF_MAXVAL - s[k], reading node j as
      (LEAF_MAXVAL << rho(j)) minus its field. */
  method CompFind(t: Tree, ghost s: seq<nat>, val: nat) returns (p: nat, rest: int)
    requires Valid(t, s)
    ensures IsLargest(Complement(s, t.maxval), val, p)
    ensures rest == val - PrefixSums.Prefix(Complement(s, t.maxval), p)
  {
    MaskedReads(t, s);
    ReadsComplement(MaskedRead(t), s, t.maxval);
    p, rest := Fenwick.Find(CompRead(MaskedRead(t), t.maxval),
                            (j: nat) => j > t.size, t.size, Complement(s, t.maxval), val);
  }

  /** Node j's field starts bit get_bitpos(j - 1) % 8 into the word read at its byte, and
      ends inside that word. */
  lemma FieldInWord(maxval: nat, n: nat, j: nat)
    requires 1 <= j <= n && WordFits(maxval, n)
    ensures BitPos(LeafBits(maxval), j - 1) % 8 + Width(LeafBits(maxval), j) <= 64
  {
    RhoBelowLambda(j, n);
  }

  /** The word w read at a field holds `low` bits below it (shift of them) and other fields
      above it; shifting right by shift and masking with compact_bitmask(width, 0) yields the
      field. */
  lemma WordExtract(w: nat, shift: nat, width: nat, low: nat, field: nat, above: nat)
    requires shift < 64 && 0 < width <= 64
    requires low < Pow2(shift) && field < Pow2(width)
    requires w == low + Pow2(shift) * (field + Pow2(width) * above)
    ensures And(Shr(w, shift), CompactBitmask(width, 0)) == field
  {
    var x := Shr(w, shift);
    assert x % Pow2(width) == field by {
      var p, q := Pow2(shift), Pow2(width);
      ExtractArith(w, p, q, low, field, above);
      ShrIsDiv(w, shift);
    }
    var ones := Pow2(width) - 1;
    assert And(x, ones) == field by { AndLowOnes(x, width); }
    assert CompactBitmask(width, 0) == ones by { CompactLowOnes(width); }
  }

  lemma ExtractArith(w: nat, p: nat, q: nat, low: nat, field: nat, above: nat)
    requires p >= 1 && q >= 1 && low < p && field < q
    requires w == low + p * (field + q * above)
    ensures w / p == field + q * above && (w / p) % q == field
  {
    var m: nat := field + q * above;
    ModUnique(w, p, m, low);
    ModUnique(m, q, above, field);
  }

  /** add's `*element += inc << shift`, with p == 2^shift the weight of the field's lowest bit
      and q == 2^width, p * q == 2^k: the word changes the field by inc and leaves the bits
      below and above it alone, as long as the new field value fits. */
  lemma WordAdd(p: nat, q: nat, k: nat, w: nat, low: nat, field: nat, above: nat, inc: int)
    requires k <= 64 && Pow2(k) == p * q
    requires low < p && field < q && 0 <= field + inc < q
    requires w == low + p * (field + q * above) && w < WORD
    ensures (w + (inc * p) % WORD) % WORD == low + p * ((field + inc) + q * above)
  {
    var pq := p * q;
    var lf := low + p * field;
    assert w == lf + pq * above && 0 <= lf && 0 <= lf + inc * p < pq
      && (lf + inc * p) + pq * above == low + p * ((field + inc) + q * above) by {
      AddArith(p, q, pq, low, field, above, inc);
    }
    WordAddNoCarry(k, w, lf, above, inc * p);
  }

  lemma AddArith(p: nat, q: nat, pq: nat, low: nat, field: nat, above: nat, inc: int)
    requires pq == p * q && low < p && field < q && 0 <= field + inc < q
    ensures 0 <= low + p * field
    ensures low + p * (field + q * above) == (low + p * field) + pq * above
    ensures 0 <= low + p * field + inc * p < pq
    ensures (low + p * field + inc * p) + pq * above == low + p * ((field + inc) + q * above)
  {
    var f: nat := field + inc;
    assert p * f + p <= pq by {
      if f + 1 < q { MulLt(f + 1, q, p); }
      assert (f + 1) * p == p * f + p;
    }
    assert p * field + inc * p == p * f;
  }
}
