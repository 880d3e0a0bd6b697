/** Stride: a rank/select bitvector (include/rankselect/stride.hpp). The bitvector is a
    sequence of 64-bit words. A Fenwick tree with LEAF_MAXVAL = 64 * WORDS has one leaf
    per stride of WORDS consecutive words, holding the stride's number of 1-bits: rank
    adds a tree prefix to a linear count inside a stride, and select finds the stride
    with the tree's find and scans it word by word.

    The tree is any Fenwick tree meeting the library's contract, modelled by the
    sequence it holds and operated on through TreeAdd, TreeFind and TreeCompFind. */
module Stride {
  import opened Bits
  import opened PrefixSums

  /** What select and selectZero return when there is no such bit. */
  const SIZE_MAX: nat := WORD - 1

  // ---------------------------------------------------------------------------
  // The bitvector

  predicate Words(bv: seq<nat>)
  {
    forall k :: 0 <= k < |bv| ==> bv[k] < WORD
  }

  /** Bit p of the bitvector: bit p % 64 of word p / 64. */
  function BitAt(bv: seq<nat>, p: nat): nat
    requires p < 64 * |bv|
  {
    Bit(bv[p / 64], p % 64)
  }

  /** Number of positions a <= q < b whose bit equals `bit`. */
  function Count(bv: seq<nat>, a: nat, b: nat, bit: nat): nat
    requires a <= b <= 64 * |bv|
    decreases b - a
  {
    if a == b then 0 else Count(bv, a, b - 1, bit) + (if BitAt(bv, b - 1) == bit then 1 else 0)
  }

  lemma {:induction false} CountSplit(bv: seq<nat>, a: nat, m: nat, b: nat, bit: nat)
    requires a <= m <= b <= 64 * |bv|
    ensures Count(bv, a, b, bit) == Count(bv, a, m, bit) + Count(bv, m, b, bit)
    decreases b - m
  {
    if m < b {
      CountSplit(bv, a, m, b - 1, bit);
    }
  }

  /** Every position holds a 0 or a 1, so the zeros and the ones of a range fill it. */
  lemma {:induction false} CountPartition(bv: seq<nat>, a: nat, b: nat)
    requires a <= b <= 64 * |bv|
    ensures Count(bv, a, b, 1) + Count(bv, a, b, 0) == b - a
    decreases b - a
  {
    if a < b {
      CountPartition(bv, a, b - 1);
      BitBinary(bv[(b - 1) / 64], (b - 1) % 64);
    }
  }

  /** A set bit below q makes the count of ones below q larger than below p: two set
      bits with the same rank are the same bit, so select's answer is unique. */
  lemma CountStrict(bv: seq<nat>, p: nat, q: nat, bit: nat)
    requires p < q <= 64 * |bv| && BitAt(bv, p) == bit
    ensures Count(bv, 0, p, bit) < Count(bv, 0, q, bit)
  {
    CountSplit(bv, 0, p, q, bit);
    CountSplit(bv, p, p + 1, q, bit);
  }

  /** The popcounts of the words: the sequence the strides sum. */
  function Pops(bv: seq<nat>): (r: seq<nat>)
    ensures |r| == |bv|
    ensures forall k :: 0 <= k < |bv| ==> r[k] == Popcount(bv[k])
  {
    seq(|bv|, k requires 0 <= k < |bv| => Popcount(bv[k]))
  }

  lemma PopsBounded(bv: seq<nat>)
    requires Words(bv)
    ensures Bounded(Pops(bv), 64)
  {
    Pow2Word();
    forall k | 0 <= k < |bv| ensures Popcount(bv[k]) <= 64 {
      PopcountBound(bv[k], 64);
    }
  }

  /** The ones below p are the popcounts of the whole words below p plus the ones of
      word p / 64 below bit p % 64. */
  lemma {:induction false} OnesBelow(bv: seq<nat>, p: nat)
    requires Words(bv) && p <= 64 * |bv|
    ensures p / 64 <= |bv|
    ensures Count(bv, 0, p, 1) == Prefix(Pops(bv), p / 64)
      + (if p / 64 < |bv| then RankBelow(bv[p / 64], p % 64) else 0)
  {
    if p > 0 {
      OnesBelow(bv, p - 1);
      OnesStep(bv, p - 1);
    } else if |bv| > 0 {
      assert RankBelow(bv[0], 0) == 0;
    }
  }

  /** One position further: the bit at q joins the count of its word, and the last bit
      of a word completes it. */
  lemma OnesStep(bv: seq<nat>, q: nat)
    requires Words(bv) && q < 64 * |bv|
    ensures (q + 1) / 64 <= |bv|
    ensures Prefix(Pops(bv), (q + 1) / 64)
      + (if (q + 1) / 64 < |bv| then RankBelow(bv[(q + 1) / 64], (q + 1) % 64) else 0)
      == Prefix(Pops(bv), q / 64) + RankBelow(bv[q / 64], q % 64) + (if BitAt(bv, q) == 1 then 1 else 0)
  {
    var k, j := q / 64, q % 64;
    assert k < |bv|;
    var x := bv[k];
    assert BitAt(bv, q) == Bit(x, j);
    assert (if Bit(x, j) == 1 then 1 else 0) == Bit(x, j) by { BitBinary(x, j); }
    RankBelowNext(x, j);
    if j == 63 {
      assert (q + 1) / 64 == k + 1 && (q + 1) % 64 == 0;
      assert RankBelow(x, 64) == Popcount(x) by {
        Pow2Word();
        RankBelowAll(x, 64);
      }
      if k + 1 < |bv| {
        assert RankBelow(bv[k + 1], 0) == 0;
      }
    } else {
      assert (q + 1) / 64 == k && (q + 1) % 64 == j + 1;
    }
  }

  /** The ones below word k are the popcounts of words 0 .. k - 1. */
  lemma OnesBelowWord(bv: seq<nat>, k: nat)
    requires Words(bv) && k <= |bv|
    ensures Count(bv, 0, 64 * k, 1) == Prefix(Pops(bv), k)
  {
    OnesBelow(bv, 64 * k);
    assert (64 * k) / 64 == k && (64 * k) % 64 == 0;
    if k < |bv| {
      assert RankBelow(bv[k], 0) == 0;
    }
  }

  // ---------------------------------------------------------------------------
  // Strides

  /** x lies in stride i exactly when x / w == i. */
  lemma InStride(w: nat, x: nat, i: nat)
    requires w > 0
    ensures i * w <= x < i * w + w <==> x / w == i
  {
    var q := x / w;
    assert q * w <= x < q * w + w;
    if i < q {
      MulMono(i + 1, q, w);
      MulNext(i, w);
    } else if q < i {
      MulMono(q + 1, i, w);
      MulNext(q, w);
    }
  }

  /** x / (64 * w), the stride of bit x, is the stride of word x / 64. */
  lemma DivDiv(x: nat, w: nat)
    requires w > 0
    ensures x / (w * 64) == (x / 64) / w && x / (64 * w) == (x / 64) / w
  {
    var q, r2 := (x / 64) / w, (x / 64) % w;
    assert x / 64 == q * w + r2;
    assert x == (w * 64) * q + (64 * r2 + x % 64);
    assert 64 * r2 + x % 64 < w * 64;
    ModUnique(x, w * 64, q, 64 * r2 + x % 64);
  }

  /** Strides 0 .. n / w start inside the n words; stride n / w + 1 starts past them. */
  lemma StrideCount(w: nat, n: nat, k: nat)
    requires w > 0
    ensures k <= n / w ==> k * w <= n
    ensures (n / w + 1) * w > n
  {
    InStride(w, n, n / w);
    MulNext(n / w, w);
    if k <= n / w {
      MulMono(k, n / w, w);
    }
  }

  /** First word of stride i, clipped to the n words. */
  function Cut(w: nat, n: nat, i: nat): nat
  {
    if i * w <= n then i * w else n
  }

  /** The total of p over stride i of the first n words: p[i*w .. i*w + w) clipped to n. */
  function StrideSum(p: seq<nat>, w: nat, n: nat, i: nat): nat
    requires n <= |p|
  {
    MulNext(i, w);
    Sum(p, Cut(w, n, i), Cut(w, n, i + 1))
  }

  /** A word counts towards the stride that holds it. */
  lemma StrideHolds(p: seq<nat>, w: nat, n: nat, i: nat, k: nat)
    requires n <= |p| && w > 0 && k < n && k / w == i
    ensures Cut(w, n, i) <= k < Cut(w, n, i + 1)
    ensures p[k] <= StrideSum(p, w, n, i)
  {
    InStride(w, k, i);
    MulNext(i, w);
    var a, e := Cut(w, n, i), Cut(w, n, i + 1);
    SumSplit(p, a, k, e);
    SumSplit(p, k, k + 1, e);
  }

  /** A stride of w words of popcounts holds at most 64 * w ones (LEAF_MAXVAL). */
  lemma StrideBound(bv: seq<nat>, w: nat, i: nat)
    requires Words(bv)
    ensures StrideSum(Pops(bv), w, |bv|, i) <= 64 * w
  {
    MulNext(i, w);
    PopsBounded(bv);
    SumBound(Pops(bv), Cut(w, |bv|, i), Cut(w, |bv|, i + 1), 64);
  }

  // ---------------------------------------------------------------------------
  // The structure

  /** words is WORDS, bits the bitvector and tree the leaves of the Fenwick tree. */
  datatype Stride = Stride(words: nat, bits: seq<nat>, tree: seq<nat>)

  /** build_fenwick's layout, kept by every update: length / WORDS + 1 leaves, leaf i
      the number of ones in stride i. */
  predicate Valid(st: Stride)
  {
    && st.words > 0
    && Words(st.bits)
    && |st.tree| == |st.bits| / st.words + 1
    && forall i :: 0 <= i < |st.tree| ==> LeafCounts(st, i)
  }

  /** Leaf i holds the number of ones of stride i. */
  predicate LeafCounts(st: Stride, i: nat)
    requires i < |st.tree|
  {
    st.tree[i] == StrideSum(Pops(st.bits), st.words, |st.bits|, i)
  }

  /** Total number of ones of the bitvector. */
  function Ones(st: Stride): nat
  {
    Count(st.bits, 0, 64 * |st.bits|, 1)
  }

  /** Total number of zeros of the bitvector. */
  function Zeros(st: Stride): nat
  {
    Count(st.bits, 0, 64 * |st.bits|, 0)
  }

  /** Every leaf is at most LEAF_MAXVAL, as the tree's bound demands. */
  lemma LeavesBounded(st: Stride)
    requires Valid(st)
    ensures Bounded(st.tree, 64 * st.words)
  {
    forall i | 0 <= i < |st.tree| ensures st.tree[i] <= 64 * st.words {
      assert LeafCounts(st, i);
      StrideBound(st.bits, st.words, i);
    }
  }

  /** A tree prefix of k leaves counts the popcounts of the words of the first k strides. */
  lemma {:induction false} TreePrefix(st: Stride, k: nat)
    requires Valid(st) && k <= |st.tree|
    ensures Prefix(st.tree, k) == Prefix(Pops(st.bits), Cut(st.words, |st.bits|, k))
  {
    if k > 0 {
      TreePrefix(st, k - 1);
      assert LeafCounts(st, k - 1);
      var w, n := st.words, |st.bits|;
      MulNext(k - 1, w);
      SumSplit(Pops(st.bits), 0, Cut(w, n, k - 1), Cut(w, n, k));
    }
  }

  /** The whole tree counts every one of the bitvector. */
  lemma TreeTotal(st: Stride)
    requires Valid(st)
    ensures Prefix(st.tree, |st.tree|) == Ones(st)
    ensures Cut(st.words, |st.bits|, |st.tree|) == |st.bits|
  {
    StrideCount(st.words, |st.bits|, 0);
    TreePrefix(st, |st.tree|);
    OnesBelowWord(st.bits, |st.bits|);
  }

  // ---------------------------------------------------------------------------
  // Rank

  /** rank(pos): the tree prefix counts the strides before the one holding pos, the
      loop the whole words of that stride before word pos / 64, and the mask
      (1 << pos % 64) - 1 the bits of word pos / 64 below pos. */
  method Rank(st: Stride, pos: nat) returns (r: nat)
    requires Valid(st) && pos < 64 * |st.bits|
    ensures r == Count(st.bits, 0, pos, 1)
  {
    var w := st.words;
    DivNonneg(pos, 64 * w);
    var idx := pos / (64 * w);
    var k := pos / 64;
    RankStart(st, pos, idx);
    var value := Prefix(st.tree, idx);
    var i := idx * w;
    while i < k
      invariant i <= k
      invariant value == Prefix(Pops(st.bits), i)
    {
      value := value + Popcount(st.bits[i]);
      i := i + 1;
    }
    r := value + Popcount(And(st.bits[k], Pow2(pos % 64) - 1));
    RankWord(st.bits, pos);
  }

  /** The stride idx of pos has a leaf, starts no later than word pos / 64, and the
      leaves before it count the words before it. */
  lemma RankStart(st: Stride, pos: nat, idx: nat)
    requires Valid(st) && pos < 64 * |st.bits| && idx == pos / (64 * st.words)
    ensures idx < |st.tree| && idx * st.words <= pos / 64
    ensures Prefix(st.tree, idx) == Prefix(Pops(st.bits), idx * st.words)
  {
    var w, k := st.words, pos / 64;
    assert idx * w <= k && idx < |st.tree| by {
      DivDiv(pos, w);
      InStride(w, k, idx);
      DivMonotone(k, |st.bits|, w);
    }
    assert Cut(w, |st.bits|, idx) == idx * w;
    TreePrefix(st, idx);
  }

  /** The words before pos / 64 and the masked word pos / 64 hold the ones below pos. */
  lemma RankWord(bv: seq<nat>, pos: nat)
    requires Words(bv) && pos < 64 * |bv|
    ensures Prefix(Pops(bv), pos / 64) + Popcount(And(bv[pos / 64], Pow2(pos % 64) - 1))
      == Count(bv, 0, pos, 1)
  {
    var k, b := pos / 64, pos % 64;
    assert And(bv[k], Pow2(b) - 1) == bv[k] % Pow2(b) by {
      AndLowOnes(bv[k], b);
    }
    assert Count(bv, 0, pos, 1) == Prefix(Pops(bv), k) + RankBelow(bv[k], b) by {
      OnesBelow(bv, pos);
    }
  }

  /** rank(from, to) = rank(to) - rank(from) in 64-bit arithmetic: the ones of [from, to),
      or the two's complement of the ones of [to, from) when to < from. Positions are
      size_t values, below 2^64. */
  method RankRange(st: Stride, from: nat, to: nat) returns (r: nat)
    requires Valid(st) && from < 64 * |st.bits| && to < 64 * |st.bits|
    requires from < WORD && to < WORD
    ensures from <= to ==> r == Count(st.bits, from, to, 1)
    ensures to < from ==> r == (WORD - Count(st.bits, to, from, 1)) % WORD
  {
    var high := Rank(st, to);
    var low := Rank(st, from);
    r := (high - low) % WORD;
    if from <= to {
      CountSplit(st.bits, 0, from, to, 1);
      CountPartition(st.bits, from, to);
      ModSmall(high - low);
    } else {
      CountSplit(st.bits, 0, to, from, 1);
      CountPartition(st.bits, to, from);
      ModNeg(Count(st.bits, to, from, 1));
    }
  }

  /** rankZero(pos) = pos - rank(pos): the zeros below pos. */
  method RankZero(st: Stride, pos: nat) returns (r: nat)
    requires Valid(st) && pos < 64 * |st.bits|
    ensures r == Count(st.bits, 0, pos, 0)
  {
    var ones := Rank(st, pos);
    CountPartition(st.bits, 0, pos);
    r := pos - ones;
  }

  /** rankZero(from, to) = (to - from) - rank(from, to) in 64-bit arithmetic. */
  method RankZeroRange(st: Stride, from: nat, to: nat) returns (r: nat)
    requires Valid(st) && from < 64 * |st.bits| && to < 64 * |st.bits|
    requires from < WORD && to < WORD
    ensures from <= to ==> r == Count(st.bits, from, to, 0)
    ensures to < from ==> r == (WORD - Count(st.bits, to, from, 0)) % WORD
  {
    var ones := RankRange(st, from, to);
    r := ((to - from) - ones) % WORD;
    if from <= to {
      CountPartition(st.bits, from, to);
      ModSmall((to - from) - ones);
    } else {
      CountPartition(st.bits, to, from);
      WrapSub(from - to, Count(st.bits, to, from, 0), Count(st.bits, to, from, 1), ones);
    }
  }

  /** -c in 64-bit arithmetic. */
  lemma ModNeg(c: int)
    requires 0 <= c < WORD
    ensures (-c) % WORD == (WORD - c) % WORD
  {
    if c > 0 {
      assert -c == WORD * -1 + (WORD - c);
    }
  }

  /** -(z + o) - (-o) is -z in 64-bit arithmetic. */
  lemma WrapSub(d: int, z: int, o: int, ones: int)
    requires 0 <= z && 0 <= o && d == z + o && d < WORD && ones == (WORD - o) % WORD
    ensures (-d - ones) % WORD == (WORD - z) % WORD
  {
    if o == 0 {
      assert ones == 0;
      ModNeg(z);
    } else {
      assert ones == WORD - o;
      if z > 0 {
        assert -d - ones == WORD * -2 + (WORD - z);
      } else {
        assert -d - ones == WORD * -1;
      }
    }
  }

  // ---------------------------------------------------------------------------
  // Select

  /** The loop of select and selectZero: scan the words of stride idx of ws for the
      1-bit that has `rank` 1-bits before it inside the stride. */
  method Scan(ws: seq<nat>, w: nat, idx: nat, rank: nat) returns (p: nat)
    requires w > 0 && Words(ws)
    ensures rank < StrideSum(Pops(ws), w, |ws|, idx) ==>
      && p < 64 * |ws| && BitAt(ws, p) == 1
      && Count(ws, 0, p, 1) == Prefix(Pops(ws), Cut(w, |ws|, idx)) + rank
    ensures StrideSum(Pops(ws), w, |ws|, idx) <= rank ==> p == SIZE_MAX
  {
    ghost var P := Pops(ws);
    MulNext(idx, w);
    var left: nat := rank;
    var i: nat := idx * w;
    while i < idx * w + w
      invariant idx * w <= i <= idx * w + w
      invariant idx * w < i ==> i <= |ws|
      invariant i <= |ws| ==> left + Sum(P, idx * w, i) == rank
    {
      if i >= |ws| {
        ScanEnd(ws, w, idx, rank, i, left);
        return SIZE_MAX;
      }
      var chunk := Popcount(ws[i]);
      if left < chunk {
        SelectBelow64(ws[i], left);
        p := i * 64 + Select64(ws[i], left);
        ScanFound(ws, w, idx, rank, i, left, p);
        return;
      }
      left := left - chunk;
      i := i + 1;
    }
    ScanEnd(ws, w, idx, rank, i, left);
    return SIZE_MAX;
  }

  /** A scan that runs out of words or off the end of the stride has passed every 1-bit
      of the stride. */
  lemma ScanEnd(ws: seq<nat>, w: nat, idx: nat, rank: nat, i: nat, left: nat)
    requires w > 0 && idx * w <= i <= idx * w + w
    requires idx * w < i ==> i <= |ws|
    requires i <= |ws| ==> left + Sum(Pops(ws), idx * w, i) == rank
    requires |ws| <= i || i == idx * w + w
    ensures StrideSum(Pops(ws), w, |ws|, idx) <= rank
  {
    MulNext(idx, w);
    var n := |ws|;
    if n <= i && i == idx * w {
      assert Cut(w, n, idx) == n && Cut(w, n, idx + 1) == n;
    } else {
      assert Cut(w, n, idx) == idx * w && Cut(w, n, idx + 1) == i;
    }
  }

  /** The word where the scan stops holds the bit looked for. */
  lemma ScanFound(ws: seq<nat>, w: nat, idx: nat, rank: nat, i: nat, left: nat, p: nat)
    requires w > 0 && Words(ws) && idx * w <= i < idx * w + w && i < |ws|
    requires left + Sum(Pops(ws), idx * w, i) == rank
    requires left < Popcount(ws[i]) && p == i * 64 + Select64(ws[i], left)
    ensures rank < StrideSum(Pops(ws), w, |ws|, idx)
    ensures p < 64 * |ws| && BitAt(ws, p) == 1
    ensures Count(ws, 0, p, 1) == Prefix(Pops(ws), Cut(w, |ws|, idx)) + rank
  {
    var q := Select64(ws[i], left);
    SelectBelow64(ws[i], left);
    assert p / 64 == i && p % 64 == q;
    OnesBelow(ws, p);
    MulNext(idx, w);
    var P, a, e := Pops(ws), idx * w, Cut(w, |ws|, idx + 1);
    assert Cut(w, |ws|, idx) == a && i + 1 <= e;
    SumSplit(P, 0, a, i);
    SumSplit(P, a, i + 1, e);
  }

  /** What tree.find leaves select to scan: the stride holding the bit of rank `rank`,
      and the rank inside it; past the last one, a stride with nothing to find. */
  lemma SelectPlace(st: Stride, rank: nat, idx: nat, left: nat)
    requires Valid(st) && IsLargest(st.tree, rank, idx) && left == rank - Prefix(st.tree, idx)
    ensures rank < Ones(st) ==>
      && left < StrideSum(Pops(st.bits), st.words, |st.bits|, idx)
      && Prefix(Pops(st.bits), Cut(st.words, |st.bits|, idx)) + left == rank
    ensures Ones(st) <= rank ==> StrideSum(Pops(st.bits), st.words, |st.bits|, idx) <= left
  {
    TreeTotal(st);
    TreePrefix(st, idx);
    var T := |st.tree|;
    if idx == T {
      MulMono(T, T + 1, st.words);
      assert Cut(st.words, |st.bits|, idx + 1) == |st.bits|;
    } else {
      assert LeafCounts(st, idx);
      assert Prefix(st.tree, idx + 1) == Prefix(st.tree, idx) + st.tree[idx];
      PrefixMonotone(st.tree, idx + 1, T);
    }
  }

  /** select(rank): the position of the 1-bit with `rank` ones before it, or SIZE_MAX
      when there are not that many ones. */
  method Select(st: Stride, rank: nat) returns (p: nat)
    requires Valid(st)
    ensures rank < Ones(st) ==>
      p < 64 * |st.bits| && BitAt(st.bits, p) == 1 && Count(st.bits, 0, p, 1) == rank
    ensures Ones(st) <= rank ==> p == SIZE_MAX
  {
    var found := TreeFind(st.tree, rank);
    var idx, left := found.0, found.1;
    SelectPlace(st, rank, idx, left);
    p := Scan(st.bits, st.words, idx, left);
  }

  /** The complemented words ~w that selectZero scans. */
  function NotWords(bv: seq<nat>): (r: seq<nat>)
    requires Words(bv)
    ensures |r| == |bv| && Words(r)
    ensures forall k :: 0 <= k < |bv| ==> r[k] == Not64(bv[k])
  {
    seq(|bv|, k requires 0 <= k < |bv| => Not64(bv[k]))
  }

  lemma NotBit(bv: seq<nat>, q: nat)
    requires Words(bv) && q < 64 * |bv|
    ensures BitAt(NotWords(bv), q) == 1 - BitAt(bv, q)
  {
    Pow2Word();
    BitNot(bv[q / 64], 64, q % 64);
  }

  /** The ones of the complemented words are the zeros of the bitvector. */
  lemma {:induction false} NotCount(bv: seq<nat>, a: nat, b: nat)
    requires Words(bv) && a <= b <= 64 * |bv|
    ensures Count(NotWords(bv), a, b, 1) == Count(bv, a, b, 0)
    decreases b - a
  {
    if a < b {
      NotCount(bv, a, b - 1);
      NotBit(bv, b - 1);
      BitBinary(bv[(b - 1) / 64], (b - 1) % 64);
    }
  }

  /** popcount(~w) = 64 - popcount(w). */
  lemma NotPops(bv: seq<nat>)
    requires Words(bv)
    ensures Bounded(Pops(bv), 64)
    ensures Pops(NotWords(bv)) == Complement(Pops(bv), 64)
  {
    PopsBounded(bv);
    Pow2Word();
    forall k | 0 <= k < |bv| ensures Popcount(Not64(bv[k])) == 64 - Popcount(bv[k]) {
      PopcountNot(bv[k], 64);
    }
  }

  /** The zeros of the bitvector, counted through the complemented words. */
  lemma ZerosTotal(st: Stride)
    requires Valid(st)
    ensures Zeros(st) == Prefix(Pops(NotWords(st.bits)), |st.bits|)
  {
    NotCount(st.bits, 0, 64 * |st.bits|);
    OnesBelowWord(NotWords(st.bits), |st.bits|);
  }

  /** Prefixes of the complemented tree (LEAF_MAXVAL - leaf) count the zeros of the
      strides, except that the last stride also counts the missing words as zeros. */
  lemma CompPrefix(st: Stride, k: nat)
    requires Valid(st) && k <= |st.tree|
    ensures Bounded(st.tree, 64 * st.words)
    ensures k < |st.tree| ==> (k * st.words <= |st.bits|
      && Prefix(Complement(st.tree, 64 * st.words), k) == Prefix(Pops(NotWords(st.bits)), k * st.words))
    ensures k == |st.tree| ==>
      Prefix(Complement(st.tree, 64 * st.words), k) >= Prefix(Pops(NotWords(st.bits)), |st.bits|)
  {
    var w, n := st.words, |st.bits|;
    LeavesBounded(st);
    NotPops(st.bits);
    StrideCount(w, n, k);
    SumComplement(st.tree, 64 * w, 0, k);
    TreePrefix(st, k);
    MulRearrange(64, w, k);
    if k < |st.tree| {
      SumComplement(Pops(st.bits), 64, 0, k * w);
    } else {
      SumComplement(Pops(st.bits), 64, 0, n);
    }
  }

  /** What tree.compFind leaves selectZero to scan. */
  lemma SelectZeroPlace(st: Stride, rank: nat, idx: nat, left: nat)
    requires Valid(st) && Bounded(st.tree, 64 * st.words)
    requires IsLargest(Complement(st.tree, 64 * st.words), rank, idx)
    requires left == rank - Prefix(Complement(st.tree, 64 * st.words), idx)
    ensures rank < Zeros(st) ==>
      && left < StrideSum(Pops(NotWords(st.bits)), st.words, |st.bits|, idx)
      && Prefix(Pops(NotWords(st.bits)), Cut(st.words, |st.bits|, idx)) + left == rank
    ensures Zeros(st) <= rank ==> StrideSum(Pops(NotWords(st.bits)), st.words, |st.bits|, idx) <= left
  {
    var w, n, T := st.words, |st.bits|, |st.tree|;
    var Q := Pops(NotWords(st.bits));
    ZerosTotal(st);
    CompPrefix(st, T);
    StrideCount(w, n, 0);
    MulNext(idx, w);
    if idx == T {
      MulMono(T, T + 1, w);
      assert Cut(w, n, idx) == n && Cut(w, n, idx + 1) == n;
    } else {
      CompPrefix(st, idx);
      assert Cut(w, n, idx) == idx * w;
      if idx + 1 < T {
        CompPrefix(st, idx + 1);
        SumSplit(Q, 0, idx * w, idx * w + w);
        PrefixMonotone(Q, idx * w + w, n);
      } else {
        assert Cut(w, n, idx + 1) == n;
        SumSplit(Q, 0, idx * w, n);
      }
    }
  }

  /** selectZero(rank): the position of the 0-bit with `rank` zeros before it, or
      SIZE_MAX when there are not that many zeros. */
  method SelectZero(st: Stride, rank: nat) returns (p: nat)
    requires Valid(st)
    ensures rank < Zeros(st) ==>
      p < 64 * |st.bits| && BitAt(st.bits, p) == 0 && Count(st.bits, 0, p, 0) == rank
    ensures Zeros(st) <= rank ==> p == SIZE_MAX
  {
    LeavesBounded(st);
    var found := TreeCompFind(st.tree, 64 * st.words, rank);
    var idx, left := found.0, found.1;
    SelectZeroPlace(st, rank, idx, left);
    p := Scan(NotWords(st.bits), st.words, idx, left);
    if rank < Zeros(st) {
      NotCount(st.bits, 0, p);
      NotBit(st.bits, p);
    }
  }

  // ---------------------------------------------------------------------------
  // Updates

  /** Replacing word `index` moves exactly the leaf of its stride, by the change in
      popcount. */
  lemma LeafMoves(p: seq<nat>, p2: seq<nat>, w: nat, index: nat, d: int, j: nat)
    requires w > 0 && index < |p| && p[index] + d >= 0
    requires p2 == PrefixSums.Update(p, index + 1, d)
    ensures StrideSum(p2, w, |p|, j) == StrideSum(p, w, |p|, j) + (if j == index / w then d else 0)
  {
    MulNext(j, w);
    InStride(w, index, j);
    SumUpdate(p, index + 1, d, Cut(w, |p|, j), Cut(w, |p|, j + 1));
  }

  /** The leaf update() adds to exists and can absorb the loss of the old word's ones. */
  lemma UpdateLeaf(st: Stride, index: nat)
    requires Valid(st) && index < |st.bits|
    ensures 0 <= index / st.words < |st.tree|
    ensures st.tree[index / st.words] >= Popcount(st.bits[index])
  {
    DivNonneg(index, st.words);
    DivMonotone(index, |st.bits|, st.words);
    assert LeafCounts(st, index / st.words);
    StrideHolds(Pops(st.bits), st.words, |st.bits|, index / st.words, index);
  }

  lemma UpdateValid(st: Stride, index: nat, word: nat, leaf: nat, t: Stride)
    requires Valid(st) && index < |st.bits| && word < WORD && leaf == index / st.words
    requires leaf < |st.tree| && st.tree[leaf] >= Popcount(st.bits[index])
    requires t == Stride(st.words, st.bits[index := word],
      TreeAdd(st.tree, leaf + 1, Popcount(word) - Popcount(st.bits[index])))
    ensures Valid(t)
  {
    var p, d := Pops(st.bits), Popcount(word) - Popcount(st.bits[index]);
    assert Pops(t.bits) == PrefixSums.Update(p, index + 1, d);
    forall j | 0 <= j < |t.tree| ensures LeafCounts(t, j) {
      assert t.tree[j] == st.tree[j] + (if j == leaf then d else 0);
      assert LeafCounts(st, j);
      assert StrideSum(Pops(t.bits), st.words, |st.bits|, j)
        == StrideSum(p, st.words, |st.bits|, j) + (if j == leaf then d else 0) by {
        LeafMoves(p, Pops(t.bits), st.words, index, d, j);
      }
    }
  }

  /** update(index, word): store the word, move its stride's leaf by the change in
      popcount, and return the word it replaced. */
  function Update(st: Stride, index: nat, word: nat): (r: (Stride, nat))
    requires Valid(st) && index < |st.bits| && word < WORD
    ensures r.1 == st.bits[index]
    ensures Valid(r.0) && r.0.words == st.words && r.0.bits == st.bits[index := word]
  {
    var prev := st.bits[index];
    UpdateLeaf(st, index);
    var t := st.(bits := st.bits[index := word],
      tree := TreeAdd(st.tree, index / st.words + 1, Popcount(word) - Popcount(prev)));
    UpdateValid(st, index, word, index / st.words, t);
    (t, prev)
  }

  /** after is bv with bit `index` made `bit` and every other bit unchanged. */
  predicate Assigned(bv: seq<nat>, after: seq<nat>, index: nat, bit: int)
  {
    && |after| == |bv|
    && forall q :: 0 <= q < 64 * |bv| ==> BitAt(after, q) == if q == index then bit else BitAt(bv, q)
  }

  /** A word whose bits are those of word index / 64 except bit index % 64 assigns that
      bit of the bitvector. */
  lemma WordAssigns(bv: seq<nat>, index: nat, word: nat, bit: int)
    requires index < 64 * |bv|
    requires forall j: nat :: j < 64 ==> Bit(word, j) == if j == index % 64 then bit else Bit(bv[index / 64], j)
    ensures Assigned(bv, bv[index / 64 := word], index, bit)
  {
    var after := bv[index / 64 := word];
    forall q | 0 <= q < 64 * |bv| ensures BitAt(after, q) == if q == index then bit else BitAt(bv, q) {
      if q / 64 == index / 64 {
        assert q == index <==> q % 64 == index % 64;
      }
    }
  }

  /** Setting clear bit b of a 64-bit word adds 2^b: one more 1-bit, no other bit moves. */
  lemma SetBit(prev: nat, b: nat)
    requires prev < WORD && b < 64 && Bit(prev, b) == 0
    ensures prev + Pow2(b) < WORD
    ensures Popcount(prev + Pow2(b)) == Popcount(prev) + 1
    ensures forall j: nat :: j < 64 ==> Bit(prev + Pow2(b), j) == if j == b then 1 else Bit(prev, j)
  {
    assert prev + Pow2(b) < WORD by {
      Pow2Word();
      SetBitBelow(prev, b, 64);
    }
    PopcountSetBit(prev, b);
    forall j: nat | j < 64 ensures Bit(prev + Pow2(b), j) == if j == b then 1 else Bit(prev, j) {
      BitAdd(prev, b, j);
    }
  }

  /** Clearing set bit b subtracts 2^b: one 1-bit fewer, no other bit moves. */
  lemma ClearBit(prev: nat, b: nat)
    requires Bit(prev, b) == 1
    ensures Pow2(b) <= prev
    ensures Popcount(prev - Pow2(b)) + 1 == Popcount(prev)
    ensures forall j: nat :: j < 64 ==> Bit(prev - Pow2(b), j) == if j == b then 0 else Bit(prev, j)
  {
    assert Pow2(b) <= prev && Bit(prev - Pow2(b), b) == 0 by {
      BitSub(prev, b, b);
    }
    PopcountSetBit(prev - Pow2(b), b);
    forall j: nat | j < 64 ensures Bit(prev - Pow2(b), j) == if j == b then 0 else Bit(prev, j) {
      BitSub(prev, b, j);
    }
  }

  /** w | (1 << b) on a 64-bit word. */
  lemma OrBit(prev: nat, b: nat)
    requires prev < WORD && b < 64
    ensures Or(prev, Pow2(b)) < WORD
    ensures Or(prev, Pow2(b)) != prev <==> Bit(prev, b) == 0
    ensures Popcount(Or(prev, Pow2(b))) == Popcount(prev) + (if Bit(prev, b) == 0 then 1 else 0)
    ensures forall j: nat :: j < 64 ==> Bit(Or(prev, Pow2(b)), j) == if j == b then 1 else Bit(prev, j)
  {
    OrPow2(prev, b);
    BitBinary(prev, b);
    if Bit(prev, b) == 0 {
      SetBit(prev, b);
    }
  }

  /** w & ~(1 << b) on a 64-bit word. */
  lemma AndNotBit(prev: nat, b: nat)
    requires prev < WORD && b < 64
    ensures Pow2(b) < WORD
    ensures And(prev, Not64(Pow2(b))) < WORD
    ensures And(prev, Not64(Pow2(b))) != prev <==> Bit(prev, b) == 1
    ensures Popcount(And(prev, Not64(Pow2(b)))) + (if Bit(prev, b) == 1 then 1 else 0) == Popcount(prev)
    ensures forall j: nat :: j < 64 ==> Bit(And(prev, Not64(Pow2(b))), j) == if j == b then 0 else Bit(prev, j)
  {
    assert Pow2(b) < WORD && Not64(Pow2(b)) == Pow2(64) - 1 - Pow2(b) by {
      Pow2Word();
      AndNotPow2(prev, b, 64);
    }
    assert And(prev, Not64(Pow2(b))) == if Bit(prev, b) == 1 then prev - Pow2(b) else prev by {
      AndNotPow2(prev, b, 64);
    }
    BitBinary(prev, b);
    if Bit(prev, b) == 1 {
      ClearBit(prev, b);
    }
  }

  /** w ^ (1 << b) on a 64-bit word. */
  lemma XorBit(prev: nat, b: nat)
    requires prev < WORD && b < 64
    ensures Xor(prev, Pow2(b)) < WORD
    ensures Xor(prev, Pow2(b)) > prev <==> Bit(prev, b) == 0
    ensures Popcount(Xor(prev, Pow2(b))) == Popcount(prev) + (if Bit(prev, b) == 0 then 1 else -1)
    ensures forall j: nat :: j < 64 ==> Bit(Xor(prev, Pow2(b)), j) == if j == b then 1 - Bit(prev, b) else Bit(prev, j)
  {
    XorPow2(prev, b);
    BitBinary(prev, b);
    if Bit(prev, b) == 0 {
      SetBit(prev, b);
    } else {
      ClearBit(prev, b);
    }
  }

  /** set, clear and toggle are update() of word index / 64: their tree index,
      index / (WORDS * 64) + 1, is the leaf of that word's stride, and their increment
      is the change in popcount. */
  lemma BitUpdate(st: Stride, index: nat, word: nat, inc: int)
    requires Valid(st) && index < 64 * |st.bits| && word < WORD
    requires Popcount(word) == Popcount(st.bits[index / 64]) + inc
    ensures 0 <= index / (st.words * 64) < |st.tree|
    ensures st.tree[index / (st.words * 64)] + inc >= 0
    ensures st.(bits := st.bits[index / 64 := word],
      tree := TreeAdd(st.tree, index / (st.words * 64) + 1, inc)) == Update(st, index / 64, word).0
  {
    DivDiv(index, st.words);
    UpdateLeaf(st, index / 64);
  }

  /** set(index): or the bit into its word and add the change (0 or 1) to the stride's
      leaf; returns true when the bit was already set. */
  function Set(st: Stride, index: nat): (r: (Stride, bool))
    requires Valid(st) && index < 64 * |st.bits|
    ensures r.1 <==> BitAt(st.bits, index) == 1
    ensures Valid(r.0) && r.0.words == st.words && Assigned(st.bits, r.0.bits, index, 1)
  {
    var k := index / 64;
    var prev := st.bits[k];
    var word := Or(prev, Pow2(index % 64));
    OrBit(prev, index % 64);
    var changed := word != prev;
    BitUpdate(st, index, word, if changed then 1 else 0);
    var t := st.(bits := st.bits[k := word],
      tree := TreeAdd(st.tree, index / (st.words * 64) + 1, if changed then 1 else 0));
    WordAssigns(st.bits, index, word, 1);
    (t, !changed)
  }

  /** clear(index): and the bit out of its word and subtract the change (0 or 1) from the
      stride's leaf; returns true when the bit was set. */
  function Clear(st: Stride, index: nat): (r: (Stride, bool))
    requires Valid(st) && index < 64 * |st.bits|
    ensures r.1 <==> BitAt(st.bits, index) == 1
    ensures Valid(r.0) && r.0.words == st.words && Assigned(st.bits, r.0.bits, index, 0)
  {
    var k := index / 64;
    var prev := st.bits[k];
    AndNotBit(prev, index % 64);
    var word := And(prev, Not64(Pow2(index % 64)));
    var changed := word != prev;
    BitUpdate(st, index, word, if changed then -1 else 0);
    var t := st.(bits := st.bits[k := word],
      tree := TreeAdd(st.tree, index / (st.words * 64) + 1, if changed then -1 else 0));
    WordAssigns(st.bits, index, word, 0);
    (t, changed)
  }

  /** toggle(index): xor the bit in its word and add 1 or -1 to the stride's leaf as the
      word grew or shrank; returns true when the bit was set. */
  function Toggle(st: Stride, index: nat): (r: (Stride, bool))
    requires Valid(st) && index < 64 * |st.bits|
    ensures r.1 <==> BitAt(st.bits, index) == 1
    ensures Valid(r.0) && r.0.words == st.words
    ensures Assigned(st.bits, r.0.bits, index, 1 - BitAt(st.bits, index))
  {
    var k := index / 64;
    var prev := st.bits[k];
    var word := Xor(prev, Pow2(index % 64));
    XorBit(prev, index % 64);
    BitUpdate(st, index, word, if word > prev then 1 else -1);
    var t := st.(bits := st.bits[k := word],
      tree := TreeAdd(st.tree, index / (st.words * 64) + 1, if word > prev then 1 else -1));
    WordAssigns(st.bits, index, word, 1 - Bit(prev, index % 64));
    (t, !(word > prev))
  }

  // ---------------------------------------------------------------------------
  // Construction

  /** Adding word i to the running count of its stride. */
  lemma BuildStep(p: seq<nat>, w: nat, i: nat, j: nat)
    requires w > 0 && i < |p|
    ensures StrideSum(p, w, i + 1, j) == StrideSum(p, w, i, j) + (if j == i / w then p[i] else 0)
  {
    MulNext(j, w);
    InStride(w, i, j);
  }

  /** build_fenwick: length / WORDS + 1 leaves, zero at first; each word's popcount is
      added to the leaf of its stride. The structure keeps the bitvector. */
  method Build(words: nat, bits: seq<nat>) returns (st: Stride)
    requires words > 0 && Words(bits)
    ensures Valid(st) && st.words == words && st.bits == bits
  {
    var n := |bits|;
    ghost var p := Pops(bits);
    var leaves := seq(n / words + 1, _ => 0);
    var i: nat := 0;
    while i < n
      invariant i <= n && |leaves| == n / words + 1
      invariant forall j :: 0 <= j < |leaves| ==> leaves[j] == StrideSum(p, words, i, j)
    {
      DivNonneg(i, words);
      DivMonotone(i, n, words);
      var leaf: nat := i / words;
      leaves := leaves[leaf := leaves[leaf] + Popcount(bits[i])];
      forall j | 0 <= j < |leaves| ensures leaves[j] == StrideSum(p, words, i + 1, j) {
        BuildStep(p, words, i, j);
      }
      i := i + 1;
    }
    st := Stride(words, bits, leaves);
    assert forall j :: 0 <= j < |st.tree| ==> LeafCounts(st, j);
  }

  // ---------------------------------------------------------------------------
  // Consequences

  /** The bits determine the words. */
  lemma SameBits(bv: seq<nat>, after: seq<nat>)
    requires Words(bv) && Words(after) && |bv| == |after|
    requires forall q :: 0 <= q < 64 * |bv| ==> BitAt(after, q) == BitAt(bv, q)
    ensures bv == after
  {
    Pow2Word();
    forall k | 0 <= k < |bv| ensures bv[k] == after[k] {
      forall j: nat | j < 64 ensures Bit(bv[k], j) == Bit(after[k], j) {
        var q := 64 * k + j;
        assert q / 64 == k && q % 64 == j;
        assert BitAt(after, q) == BitAt(bv, q);
      }
      BitsDetermine(bv[k], after[k], 64);
    }
  }

  /** The bitvector determines the tree: two valid structures over the same words are equal. */
  lemma TreeDetermined(a: Stride, b: Stride)
    requires Valid(a) && Valid(b) && a.words == b.words && a.bits == b.bits
    ensures a == b
  {
    forall i | 0 <= i < |a.tree| ensures a.tree[i] == b.tree[i] {
      assert LeafCounts(a, i) && LeafCounts(b, i);
    }
  }

  /** Toggling a bit twice restores the structure. */
  lemma ToggleTwice(st: Stride, index: nat)
    requires Valid(st) && index < 64 * |st.bits|
    ensures Toggle(Toggle(st, index).0, index).0 == st
  {
    var once := Toggle(st, index).0;
    var twice := Toggle(once, index).0;
    SameBits(st.bits, twice.bits);
    TreeDetermined(st, twice);
  }

  /** Clearing a bit that set() just set restores the structure. */
  lemma SetThenClear(st: Stride, index: nat)
    requires Valid(st) && index < 64 * |st.bits| && BitAt(st.bits, index) == 0
    ensures Clear(Set(st, index).0, index).0 == st
  {
    var twice := Clear(Set(st, index).0, index).0;
    SameBits(st.bits, twice.bits);
    TreeDetermined(st, twice);
  }

  /** A set bit is found again by select at its rank, and by nothing else. */
  lemma SelectOfRank(st: Stride, p: nat, q: nat)
    requires Valid(st) && p < 64 * |st.bits| && q < 64 * |st.bits|
    requires BitAt(st.bits, p) == 1 && BitAt(st.bits, q) == 1
    ensures Count(st.bits, 0, p, 1) < Ones(st)
    ensures Count(st.bits, 0, p, 1) == Count(st.bits, 0, q, 1) <==> p == q
  {
    CountStrict(st.bits, p, 64 * |st.bits|, 1);
    if p < q {
      CountStrict(st.bits, p, q, 1);
    } else if q < p {
      CountStrict(st.bits, q, p, 1);
    }
  }
}
