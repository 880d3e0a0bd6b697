/** FixedF: no compression, classical node layout. Node j is a full 64-bit word
    in slot pos(j) of one array, where pos leaves three unused slots in every
    16384 to spread the nodes over the cache (include/fenwick/fixedf.hpp). */
module FixedF {
  import opened Bits
  import opened PrefixSums
  import opened Fenwick

  /** The slot of node j. */
  function Pos(j: nat): nat
  {
    j + (j * 3) / 16384
  }

  /** Pos is strictly increasing, so distinct nodes get distinct slots. */
  lemma PosIncreasing(i: nat, j: nat)
    requires i < j
    ensures Pos(i) < Pos(j)
  {
    DivMonotone(i * 3, j * 3, 16384);
  }

  function PosAddr(): (addr: nat -> nat)
  {
    (j: nat) => Pos(j)
  }

  lemma PosDistinct(n: nat)
    ensures Distinct(PosAddr(), n)
  {
    forall j, k | 1 <= j < k <= n ensures PosAddr()(j) != PosAddr()(k) {
      PosIncreasing(j, k);
    }
  }

  /** BOUND, Size and the array of words, as a map from slot to word. */
  datatype Tree = Tree(bound: nat, size: nat, slots: map<nat, int>)

  /** The tree represents s: every node's slot holds its node sum, and the total fits
      in a 64-bit word, so no word ever wraps around. */
  ghost predicate Valid(t: Tree, s: seq<nat>)
  {
    && t.size == |s| && |s| < WORD
    && Bounded(s, t.bound) && PrefixSums.Prefix(s, |s|) < WORD
    && Holds(t.slots, PosAddr(), s)
  }

  /** Every node sum is at most the total. */
  lemma NodeSumBelowTotal(s: seq<nat>, j: nat)
    requires 1 <= j <= |s|
    ensures NodeSum(s, j) <= PrefixSums.Prefix(s, |s|)
  {
    RangeIsPrefixDifference(s, j - LowBit(j), j);
    PrefixMonotone(s, j, |s|);
  }

  lemma WordFits(s: seq<nat>)
    requires PrefixSums.Prefix(s, |s|) < WORD
    ensures Fits(s, (j: nat) => WORD)
  {
    forall j | 1 <= j <= |s| ensures NodeSum(s, j) < WORD {
      NodeSumBelowTotal(s, j);
    }
  }

  /** The constructor: Tree has pos(size) + 1 slots; leaves first, then the rounds
      m = 2, 4, ... of the classical build. */
  method Build(s: seq<nat>, bound: nat) returns (t: Tree)
    requires |s| < WORD && Bounded(s, bound) && PrefixSums.Prefix(s, |s|) < WORD
    ensures Valid(t, s)
    ensures forall k :: k in t.slots ==> k < Pos(|s|) + 1
  {
    PosDistinct(|s|);
    WordFits(s);
    var slots := ClassicBuild(s, PosAddr(), (j: nat) => WORD);
    t := Tree(bound, |s|, slots);
    forall k | k in t.slots ensures k < Pos(|s|) + 1 {
      var j :| 1 <= j <= |s| && Pos(j) == k;
      if j < |s| { PosIncreasing(j, |s|); }
    }
  }

  method Prefix(t: Tree, ghost s: seq<nat>, idx: nat) returns (sum: int)
    requires Valid(t, s) && idx <= t.size
    ensures sum == PrefixSums.Prefix(s, idx)
  {
    HoldsReads(t.slots, PosAddr(), s);
    sum := PrefixWalk(FieldRead(t.slots, PosAddr()), s, idx);
  }

  /** add(idx, inc): idx is 1-based; an index past the end changes nothing. The new
      element must stay within [0, BOUND] and the total within a word. */
  method Add(t: Tree, ghost s: seq<nat>, idx: nat, inc: int) returns (t': Tree)
    requires Valid(t, s) && 1 <= idx
    requires idx <= |s| ==> 0 <= s[idx - 1] + inc <= t.bound && PrefixSums.Prefix(s, |s|) + inc < WORD
    ensures t'.size == t.size && t'.bound == t.bound
    ensures idx <= |s| ==> Valid(t', Update(s, idx, inc))
    ensures idx > |s| ==> t' == t
  {
    var slots := AddWalk(t.slots, PosAddr(), t.size, idx, inc);
    t' := t.(slots := slots);
    if idx <= |s| {
      AddKeepsHolds(t.slots, slots, PosAddr(), s, idx, inc);
      UpdateKeepsBounds(s, idx, inc, t.bound);
    } else {
      AddBeyond(t.slots, slots, PosAddr(), t.size, idx, inc);
    }
  }

  /** find(val): the largest p with prefix(p) <= val; val keeps val - prefix(p). */
  method Find(t: Tree, ghost s: seq<nat>, val: nat) returns (p: nat, rest: int)
    requires Valid(t, s)
    ensures IsLargest(s, val, p)
    ensures rest == val - PrefixSums.Prefix(s, p)
  {
    HoldsReads(t.slots, PosAddr(), s);
    p, rest := Fenwick.Find(FieldRead(t.slots, PosAddr()), (j: nat) => j > t.size, t.size, s, val);
  }

  /** compFind(val): find over the complemented sequence BOUND - s[k], reading node j
      as (BOUND << rho(j)) minus its slot. */
  method CompFind(t: Tree, ghost s: seq<nat>, val: nat) returns (p: nat, rest: int)
    requires Valid(t, s)
    ensures IsLargest(Complement(s, t.bound), val, p)
    ensures rest == val - PrefixSums.Prefix(Complement(s, t.bound), p)
  {
    HoldsReads(t.slots, PosAddr(), s);
    ReadsComplement(FieldRead(t.slots, PosAddr()), s, t.bound);
    p, rest := Fenwick.Find(CompRead(FieldRead(t.slots, PosAddr()), t.bound),
                            (j: nat) => j > t.size, t.size, Complement(s, t.bound), val);
  }
}
