# Compressed Fenwick trees, modelled in Dafny

This project models the core of a C++ library of compressed Fenwick trees (binary indexed
trees) and proves that every variant keeps the one contract the library promises for a
sequence `s` of non-negative integers bounded by `BOUND`:

- `prefix(i)` is `s[0] + ... + s[i - 1]`;
- `add(i, inc)` adds `inc` to element `i` (1-based), and an index past the end changes nothing;
- `find(val)` returns the largest `p` with `prefix(p) <= val` and leaves `val - prefix(p)`;
- `compFind(val)` is `find` over the complemented sequence `BOUND - s[k]`.

The modules follow the library:

- `Bits`: the word primitives of `common.hpp` (`rho`, `lambda`, `clear_rho`, `mask_rho`,
  `mask_lambda`, `compact_bitmask`, `popcount`, `mround`, `log2`, `BYTE_MASK`, `select64`),
  on unbounded naturals with 64-bit words written out where they matter.
- `PrefixSums`: the reference definitions: `Sum`, `Prefix`, `Update`, `Complement`, and
  `IsLargest`, the answer every search must give.
- `Fenwick`: the classical layout, shared by every tree that stores node `j` as the sum of
  `s[j - 2^rho(j) .. j - 1]`. It holds the `prefix` walk along `clear_rho`, the `add` walk
  along `mask_rho`, the top-down search and the classical in-place construction. A tree's
  memory is a map from field addresses to values; a layout supplies the address and width of
  each node's field.
- `Levels`: the level-ordered layout: node `(2i + 1) 2^h` is index `i` of level `h`. It holds
  the node counts per level, the level-by-level construction and the level search.
- `FixedF`, `ByteF`, `BitF`: classical trees of 64-bit words, of byte fields and of bit
  fields. `Shrank` is the older bit-packed tree with 6-bit leaves and a 0-based interface.
- `BitL`, `ByteL` (with `push` and `pop`), `TypeL` (8-, 16- and 64-bit arrays per height):
  the level-ordered trees.
- `Hybrid`: a top tree over blocks of `2^B` elements composed with one bottom tree per block.
  The component trees are taken abstractly, by the contents they hold.
- `Stride`: a rank/select bitvector whose Fenwick tree holds the popcounts of strides of
  `WORDS` words.

Each layout is proved injective (distinct nodes get disjoint fields). Each `prefix`, `add`,
`find` and `compFind` is proved against the reference definitions, and each constructor is
proved to establish the tree invariant.

## Model

| member | source | states |
|---|---|---|
| Bits.RhoBits | include/common.hpp:154-157 | bit rho(w) of a nonzero w is set and every bit below it is clear (rho counts trailing zeros) |
| Bits.RhoExamples | include/common.hpp:143-157 | rho(1) = 0 and rho(2^63) = 63 |
| Bits.Lambda | include/common.hpp:168-171 | lambda(w) is the index of the highest 1-bit: 2^lambda(w) <= w < 2^(lambda(w)+1) |
| Bits.LambdaBelow64 | include/common.hpp:168-171 | for a nonzero 64-bit word the highest 1-bit is below 64, so 63 - clz(w) is lambda(w) |
| Bits.RhoBelowLambda | include/common.hpp:154-171 | no j in 1..n has its lowest 1-bit above the highest 1-bit of n |
| Bits.ClearRho | include/common.hpp:178-181 | clear_rho(w) is w minus its lowest 1-bit and has exactly one 1-bit fewer |
| Bits.ClearRhoAnd | include/common.hpp:178-181 | w & (w - 1) plus 2^rho(w) gives back w |
| Bits.MaskRho | include/common.hpp:190-193 | w & -w in 64-bit two's complement is 2^rho(w) |
| Bits.AndNeg | include/common.hpp:190-193 | for 0 < w < 2^k, w & (2^k - w) is 2^rho(w) |
| Bits.MaskLambda | include/common.hpp:202-205 | 2^63 >> clz(w) is 2^lambda(w) |
| Bits.ByteMaskIsLowOnes | include/common.hpp:37-45 | BYTE_MASK[k] is 2^(8k) - 1, the mask of the k lowest bytes |
| Bits.CompactBitmask | include/common.hpp:217-220 | the mask has exactly the bits pos .. pos + count - 1 below bit 64 set, and is 0 when count is 0 |
| Bits.CompactBitmaskBits | include/common.hpp:217-220 | the source's expression (-(count != 0)) & ((UINT64_MAX >> (64 - count)) << pos), truncated to 64 bits, has exactly those bits |
| Bits.CompactLowOnes | include/common.hpp:217-220 | compact_bitmask(width, 0) is 2^width - 1 |
| Bits.Mround | include/common.hpp:238-241 | for a power of two `multiple` and number >= 1 the result is a multiple of `multiple` in [number, number + multiple), hence the smallest one at least number |
| Bits.RoundUpOr | include/common.hpp:238-241 | ((a \| (m - 1)) + 1) is a multiple of the power of two m in (a, a + m] |
| Bits.Log2 | include/common.hpp:51-54 | log2(n) >= 1, n < 2^log2(n), and 2^(log2(n) - 1) <= n for n >= 1: 1 below 2, the bit length otherwise |
| Bits.Select64 | include/common.hpp:243-262 | for k < popcount(x) the result p has bit p set and exactly k 1-bits below it |
| Bits.SelectBelow64 | include/common.hpp:243-262 | on a 64-bit word the selected position is below 64 |
| Bits.PopcountNot | include/common.hpp:227-230 | the complement of a k-bit word has k - popcount(x) 1-bits |
| Bits.PopcountSucc | include/fenwick/bitf.hpp:164-167 | popcount(m + 1) + rho(m + 1) = popcount(m) + 1, the step behind get_bitpos |
| PrefixSums.RangeIsPrefixDifference | include/rankselect/stride.hpp:58-61 | a range sum is the difference of the two prefix sums |
| PrefixSums.PrefixUpdate | include/fenwick/fixedf.hpp:46-51 | after adding inc to element i, prefix(k) grows by inc exactly when k >= i and is unchanged otherwise |
| PrefixSums.SumUpdate | include/fenwick/fixedf.hpp:46-51 | a range sum changes by inc exactly when the range holds the updated element |
| PrefixSums.UpdateKeepsBounds | include/fenwick/fixedf.hpp:46-51 | an add that keeps the element within BOUND keeps the sequence bounded and moves the total by inc |
| PrefixSums.SumComplement | include/fenwick/fixedf.hpp:72-87 | the sum of BOUND - s[k] over a range is BOUND times its length minus the sum of s |
| PrefixSums.Largest | include/fenwick/fixedf.hpp:54-69 | the reference search, scanning down from the end, returns the largest p with prefix(p) <= val |
| PrefixSums.LargestUnique | include/fenwick/fixedf.hpp:54-69 | the largest such p is unique, so every correct search returns the same position |
| PrefixSums.TreeFind | include/fenwick/hybrid.hpp:60-61 | a component's find returns the largest p with prefix(p) <= val and val - prefix(p) |
| PrefixSums.TreeCompFind | include/fenwick/hybrid.hpp:69-70 | a component's compfind is that search over the complemented contents |
| Fenwick.NodeSumBits | include/fenwick/bytef.hpp:111 | with every element below 2^bs, node j sums below 2^(bs + rho(j)), the width its field gets |
| Fenwick.ReadsMasked | include/fenwick/bytef.hpp:44-54 | reading each stored node modulo its field's range gives back its node sum when the node fits |
| Fenwick.PrefixWalk | include/fenwick/fixedf.hpp:35-44 | the walk idx, clear_rho(idx), ... down to 0, summing the nodes read, returns prefix(idx), and prefix(0) = 0 |
| Fenwick.NodeSumUpdate | include/fenwick/fixedf.hpp:46-51 | adding inc to element i changes exactly the nodes that cover i, each by inc |
| Fenwick.CoverNext | include/fenwick/fixedf.hpp:49 | idx + mask_rho(idx) still covers the element |
| Fenwick.CoverGap | include/fenwick/fixedf.hpp:49 | no node strictly between two steps of the add walk covers the element |
| Fenwick.AddWalk | include/fenwick/fixedf.hpp:46-51 | the walk idx, idx + mask_rho(idx), ... up to n adds inc to exactly the nodes covering idx and leaves every other field alone |
| Fenwick.AddKeepsHolds | include/fenwick/fixedf.hpp:46-51 | after the add walk the fields hold the tree of the updated sequence |
| Fenwick.AddBeyond | include/fenwick/fixedf.hpp:47 | an add past the last element changes nothing |
| Fenwick.CandidateHeight | include/fenwick/fixedf.hpp:57-60 | the candidate node + m of the search at step m = 2^h is a node of height h |
| Fenwick.DescendFinds | include/fenwick/fixedf.hpp:54-69 | with the exact guard node + m > Size and correct node values, the search ends at the largest p with prefix(p) <= val, leaving val - prefix(p) |
| Fenwick.DescendSound | include/fenwick/fixedf.hpp:54-69 | with any guard that skips the nodes past the end, the search ends at a position whose prefix fits in val, leaving val - prefix(p) |
| Fenwick.DescendAvoids | include/fenwick/bitf.hpp:104-126 | a guard that rejects every candidate from n on keeps the search below n |
| Fenwick.Find | include/fenwick/fixedf.hpp:54-69 | find starting from mask_lambda(Size) returns the largest p with prefix(p) <= val and leaves val - prefix(p) |
| Fenwick.NodeSumComplement | include/fenwick/fixedf.hpp:78 | the node of the complemented sequence is (BOUND << rho(j)) minus the stored node |
| Fenwick.ReadsComplement | include/fenwick/fixedf.hpp:72-87 | reading (BOUND << rho(j)) minus each node reads the tree of BOUND - s[k] |
| Fenwick.ClassicBuild | include/fenwick/fixedf.hpp:25-33 | the leaves, then the rounds m = 2, 4, ... adding node idx - m/2 into every multiple idx of m, leave every node holding its node sum and touch only the tree's fields |
| Fenwick.BuildLeaves | include/fenwick/fixedf.hpp:26-27 | the first loop stores every element in its leaf |
| Fenwick.BuildLevel | include/fenwick/fixedf.hpp:30-31 | one round m leaves every node summed up to m elements |
| Fenwick.ChildValue | include/fenwick/fixedf.hpp:31 | node idx - m/2 is complete when round m adds it, and adding it completes idx up to m |
| Fenwick.RoundSelection | include/fenwick/fixedf.hpp:30 | no node strictly between idx and idx + m is touched in round m |
| Levels.NodeAtInverse | include/fenwick/bitl.hpp:36 | node (2i + 1) 2^h has height h and level index i |
| Levels.LevelIndexInverse | include/fenwick/bitl.hpp:65 | every node j is node idx >> (1 + rho(j)) of level rho(j) |
| Levels.NodeAtOrder | include/fenwick/bitl.hpp:35 | nodes of one level are ordered by index and 2^(h+1) apart |
| Levels.CountHeightIsCount | include/fenwick/bitl.hpp:28-30 | (n + 2^h) / 2^(h+1) is the number of j in 1..n with rho(j) = h |
| Levels.CountBound | include/fenwick/bitl.hpp:28-30 | index i exists on level h exactly when its node is at most n |
| Levels.LevelDistinctNodes | include/fenwick/bitl.hpp:36 | a layout giving distinct (height, index) pairs distinct fields gives distinct nodes distinct fields |
| Levels.LevelReads | include/fenwick/bitl.hpp:60-73 | correct values per (height, index) are correct values per node |
| Levels.LevelSkipExact | include/fenwick/bitl.hpp:95 | a guard rejecting exactly the indices past a level's last node is the exact guard |
| Levels.ChildOf | include/fenwick/bitl.hpp:44-46 | the child of height j of a node is the node 2^j before it, at level index (node - 1) >> (j + 1) |
| Levels.NodeValue | include/fenwick/bitl.hpp:41-52 | the leaf plus the fields of the node's children at heights 0..l - 1 is the node sum |
| Levels.BuildComplete | include/fenwick/bitl.hpp:34-58 | once every height below Levels is done the fields hold the tree |
| Levels.LevelBuild | include/fenwick/bitl.hpp:34-58 | building height by height, each node from its leaf and children, leaves every field holding its node sum |
| Levels.LevelSearch | include/fenwick/bitl.hpp:87-109 | the top-down walk over (height, index) takes the same steps as the classical search over nodes |
| Levels.LevelFind | include/fenwick/bitl.hpp:87-109 | with the exact guard the level search returns the largest p with prefix(p) <= val and val - prefix(p) |
| FixedF.PosIncreasing | include/fenwick/fixedf.hpp:96-98 | pos(i) = i + 3i / 16384 is strictly increasing |
| FixedF.PosDistinct | include/fenwick/fixedf.hpp:96-98 | distinct nodes get distinct slots |
| FixedF.NodeSumBelowTotal | include/fenwick/fixedf.hpp:39 | every node is at most the total, so no word of a tree whose total fits wraps around |
| FixedF.Build | include/fenwick/fixedf.hpp:25-33 | the constructor leaves every node's slot holding its node sum, all slots below pos(Size) + 1 |
| FixedF.Prefix | include/fenwick/fixedf.hpp:35-44 | prefix(idx) is the sum of the first idx elements |
| FixedF.Add | include/fenwick/fixedf.hpp:46-51 | add keeps Size and leaves the tree of the updated sequence; past the end it changes nothing |
| FixedF.Find | include/fenwick/fixedf.hpp:54-69 | find returns the largest p with prefix(p) <= val and leaves val - prefix(p) |
| FixedF.CompFind | include/fenwick/fixedf.hpp:72-87 | compFind is find over BOUND - s[k] |
| ByteF.ByteSize | include/fenwick/bytef.hpp:111 | bytesize(j) is the least number of bytes holding BOUNDSIZE + rho(j) bits |
| ByteF.NextByte | include/fenwick/bytef.hpp:126 | NEXTBYTE is 8 times the bytes of a leaf |
| ByteF.Medium | include/fenwick/bytef.hpp:129 | MEDIUM is one more than the spare bits of a leaf's bytes, between 1 and 8 |
| ByteF.Multiplier | include/fenwick/bytef.hpp:132 | MULTIPLIER is 8 - SMALL - 1, or -1 where the unsigned constant wraps |
| ByteF.PosFormulaStep | include/fenwick/bytef.hpp:125-135 | pos(i) - pos(i - 1) is the gap of node i: its bytes, plus 8 at every 2^14-th node |
| ByteF.PosFormulaIsPos | include/fenwick/bytef.hpp:125-135 | the closed formula for pos is the running sum of the gaps |
| ByteF.GapFits | include/fenwick/bytef.hpp:111-135 | the gap of a node is at least one byte and holds its whole field |
| ByteF.PosIncreasing | include/fenwick/bytef.hpp:125-135 | pos is strictly increasing |
| ByteF.FieldEnd | include/fenwick/bytef.hpp:113-135 | node j's field ends where node j + 1's field starts, or before |
| ByteF.Layout | include/fenwick/bytef.hpp:125-135 | every field lies inside the pos(Size) + 8 bytes allocated and before every later field |
| ByteF.ByteDistinct | include/fenwick/bytef.hpp:125-135 | distinct nodes get distinct field addresses |
| ByteF.NodesFit | include/fenwick/bytef.hpp:111 | with elements of at most BOUNDSIZE bits every node fits in its bytes |
| ByteF.WordMasked | include/fenwick/bytef.hpp:47-50 | for any 64-bit word, masking with BYTE_MASK[k] keeps the low k bytes, whatever the upper bytes hold (a stand-alone word fact) |
| ByteF.PosWordIsPos | include/fenwick/bytef.hpp:125-135 | pos computed in size_t, with MULTIPLIER wrapping, equals the exact formula for every node index in range |
| ByteF.Build | include/fenwick/bytef.hpp:25-42 | the constructor stores each leaf masked to its bytes and then builds the tree; every node holds its node sum |
| ByteF.MaskedReads | include/fenwick/bytef.hpp:44-54 | the masked read of every node is its node sum |
| ByteF.Prefix | include/fenwick/bytef.hpp:44-54 | prefix(idx) is the sum of the first idx elements |
| ByteF.Add | include/fenwick/bytef.hpp:56-61 | add leaves the tree of the updated sequence and the same fields; past the end it changes nothing |
| ByteF.Find | include/fenwick/bytef.hpp:64-81 | find, guarded by node + m - 1 >= Size, returns the largest p with prefix(p) <= val |
| ByteF.CompFind | include/fenwick/bytef.hpp:84-102 | compFind is find over BOUND - s[k] |
| BitF.LeafBits | include/fenwick/bitf.hpp:21 | LEAF_BITSIZE is at least 1 and LEAF_MAXVAL fits in it |
| BitF.BitPosIsSum | include/fenwick/bitf.hpp:164-167 | get_bitpos(n) = (LEAF_BITSIZE + 1) n - popcount(n) is the sum of the widths LEAF_BITSIZE + rho(i) of nodes 1..n |
| BitF.BitPosOrder | include/fenwick/bitf.hpp:41-44 | the field of node j ends before the field of every later node starts |
| BitF.BitDistinct | include/fenwick/bitf.hpp:41 | distinct nodes get distinct bit offsets |
| BitF.NodesFit | include/fenwick/bitf.hpp:44 | every node fits in LEAF_BITSIZE + rho(j) bits |
| BitF.FieldInWord | include/fenwick/bitf.hpp:42-46 | each field, shifted by its bit offset within its byte, lies inside the 64-bit word read there |
| BitF.WordExtract | include/fenwick/bitf.hpp:71-88 | for any 64-bit word, shifting right and masking with compact_bitmask(width, 0) yields the bits of the field, whatever surrounds it (a stand-alone word fact) |
| BitF.WordAdd | include/fenwick/bitf.hpp:90-101 | for any 64-bit word, adding inc << shift changes only the field, as long as the new value fits (a stand-alone word fact) |
| BitF.Build | include/fenwick/bitf.hpp:36-69 | the constructor leaves every field holding its node sum |
| BitF.MaskedReads | include/fenwick/bitf.hpp:71-88 | the shifted, masked read of every node is its node sum |
| BitF.Prefix | include/fenwick/bitf.hpp:71-88 | prefix(idx) is the sum of the first idx elements |
| BitF.Add | include/fenwick/bitf.hpp:90-101 | add leaves the tree of the updated sequence; past the end it changes nothing |
| BitF.Find | include/fenwick/bitf.hpp:104-126 | find returns the largest p with prefix(p) <= val and leaves val - prefix(p) |
| BitF.CompFind | include/fenwick/bitf.hpp:128-150 | compfind is find over LEAF_MAXVAL - s[k] |
| BitL.LevelCount | include/fenwick/bitl.hpp:27 | Levels is lambda(size) + 2, or 1 when empty |
| BitL.FieldInLevel | include/fenwick/bitl.hpp:28-36 | the field of index i of level h lies within [Level[h], Level[h + 1]) |
| BitL.GuardExact | include/fenwick/bitl.hpp:95 | find's guard pos >= Level[h + 1] rejects exactly the indices whose node is past the end |
| BitL.BitLDistinct | include/fenwick/bitl.hpp:28-36 | distinct (height, index) pairs get distinct bit offsets |
| BitL.LowerLevelFirst | include/fenwick/bitl.hpp:30 | every field of a lower level ends before any field of a higher level starts |
| BitL.BitsBelowStep | include/fenwick/bitl.hpp:30 | each level adds its count of nodes times BOUNDSIZE + h bits |
| BitL.LevelStartIsBits | include/fenwick/bitl.hpp:28-30 | Level[H] is the number of bits of all nodes below height H |
| BitL.TotalBits | include/fenwick/bitl.hpp:28-32 | Level[Levels - 1] equals BitF's get_bitpos(size): the level order moves fields but takes no extra bits |
| BitL.NodesFit | include/fenwick/bitl.hpp:38 | every node fits in BOUNDSIZE + rho(j) bits |
| BitL.Build | include/fenwick/bitl.hpp:26-58 | the constructor leaves every field holding its node sum |
| BitL.ReadAtNodes | include/fenwick/bitl.hpp:65-68 | bitextract of every node's field is its node sum |
| BitL.Prefix | include/fenwick/bitl.hpp:60-73 | prefix(idx) is the sum of the first idx elements |
| BitL.Add | include/fenwick/bitl.hpp:75-84 | add leaves the tree of the updated sequence; past the end it changes nothing |
| BitL.SkipAtExact | include/fenwick/bitl.hpp:95 | the guard skips exactly the candidates past the end |
| BitL.TopHeight | include/fenwick/bitl.hpp:91 | the search's first height covers every node |
| BitL.Find | include/fenwick/bitl.hpp:87-109 | find returns min(node, Size), the largest p with prefix(p) <= val, and leaves val - prefix(p) |
| BitL.CompAtNodes | include/fenwick/bitl.hpp:125 | (BOUND << h) minus every field reads the tree of BOUND - s[k] |
| BitL.CompFind | include/fenwick/bitl.hpp:112-135 | compFind is find over BOUND - s[k] |
| BitL.FieldInWord | include/fenwick/bitl.hpp:36-39 | each field, shifted by its bit offset within its byte, lies inside the word read there |
| ByteL.HeightSize | include/fenwick/bytel.hpp:179 | heightsize(h) is the least number of bytes holding BOUNDSIZE + h bits |
| ByteL.OffsetOrder | include/fenwick/bytel.hpp:52-54 | fields of one level lie back to back in index order |
| ByteL.ByteLDistinct | include/fenwick/bytel.hpp:52-54 | distinct (height, index) pairs get distinct fields |
| ByteL.NodesFit | include/fenwick/bytel.hpp:179 | every node fits in heightsize(rho(j)) bytes |
| ByteL.LevelCount | include/fenwick/bytel.hpp:27 | Levels is lambda(size) + 1, or 1 when empty, enough for every node |
| ByteL.BuiltLens | include/fenwick/bytel.hpp:28-29 | the constructor sizes 64 arrays, count(h) * heightsize(h) bytes below Levels |
| ByteL.BuiltCovers | include/fenwick/bytel.hpp:28-29 | those sizes hold every node's field |
| ByteL.Empty | include/fenwick/bytel.hpp:25 | the default constructor is a valid tree of no elements, with nothing stored |
| ByteL.Build | include/fenwick/bytel.hpp:27-46 | the constructor leaves every field holding its node sum, with the arrays sized as above |
| ByteL.ReadAtNodes | include/fenwick/bytel.hpp:52-56 | byteread of every node's field is its node sum |
| ByteL.Prefix | include/fenwick/bytel.hpp:48-61 | prefix(idx) is the sum of the first idx elements |
| ByteL.Add | include/fenwick/bytel.hpp:63-72 | add keeps Levels and the arrays and leaves the tree of the updated sequence; past the end it changes nothing |
| ByteL.Find | include/fenwick/bytel.hpp:75-97 | find with the guard corrected to "node past Size" returns the largest p with prefix(p) <= val |
| ByteL.CompAtNodes | include/fenwick/bytel.hpp:112 | (BOUND << h) minus every field reads the tree of BOUND - s[k] |
| ByteL.CompFind | include/fenwick/bytel.hpp:100-122 | compFind with the corrected guard is find over BOUND - s[k] |
| ByteL.FreshGuard | include/fenwick/bytel.hpp:84 | on a freshly built tree the guard pos + isize >= Tree[h].size() skips index i exactly when the next index is past the end, so it skips each level's last node |
| ByteL.FreshSkipsEnd | include/fenwick/bytel.hpp:84 | on a freshly built tree the guard rejects node Size and every node past it |
| ByteL.FindNeverReturnsSize | include/fenwick/bytel.hpp:75-97 | the find as written on a fresh non-empty tree never returns Size, although Size is the answer for val >= prefix(Size) |
| ByteL.FindAsWritten | include/fenwick/bytel.hpp:75-97 | find as written on a fresh tree returns a position whose prefix fits in val, but never Size; on other trees it runs the as-written search |
| ByteL.CompFindAsWritten | include/fenwick/bytel.hpp:100-122 | compFind as written has the same shortfall over the complement |
| ByteL.Push | include/fenwick/bytel.hpp:124-146 | push(val) leaves the tree of s + [val], Levels = lambda(Size) + 1, resizes only the array of the new node's height, and stores only the new node's field |
| ByteL.StepShape | include/fenwick/bytel.hpp:124-133 | with BOUNDSIZE 1, a push of node n (height h, level index i) with h < 3 resizes Tree[h] to i + 8 bytes, leaves the other two of Tree[0], Tree[1], Tree[2] at their lengths and adds exactly the field (h, i) |
| ByteL.FivePushes | include/fenwick/bytel.hpp:124-133 | five pushes of 1 leave a valid tree of five ones whose arrays hold 10, 8 and 8 bytes and nothing at nodes 6 and 7 |
| ByteL.PhantomSearch | include/fenwick/bytel.hpp:75-97 | on that shape the guard admits the never-written nodes 6 and 7, which read 0, so find(4) returns min(7, Size) = 5 |
| ByteL.PushedFindOvershoots | include/fenwick/bytel.hpp:84 | after five pushes of 1, find(4) as written returns 5, although 4 is the largest p with prefix(p) <= 4 |
| ByteL.ChildSums | include/fenwick/bytel.hpp:135-145 | push's loop adds the new node's children to val, giving the new node's sum |
| ByteL.PushStep | include/fenwick/bytel.hpp:137-144 | one round adds the child of height h and moves to the next index 2k, 4k + 1, 8k + 3, ... |
| ByteL.ChainStep | include/fenwick/bytel.hpp:144 | each step of the index chain doubles it and adds one |
| ByteL.PushIndex | include/fenwick/bytel.hpp:128-144 | the chain's index d heights below the new node is the level index of its child there |
| ByteL.Pop | include/fenwick/bytel.hpp:148-152 | pop cuts Tree[rho(Size)] back to the start of node Size's field and leaves the tree of s without its last element |
| ByteL.PopKeeps | include/fenwick/bytel.hpp:149-151 | dropping that field and that element keeps the tree valid |
| TypeL.ArrayOf | include/fenwick/typel.hpp:81-90 | the array chosen for height h is one of Tree8, Tree16, Tree64 |
| TypeL.ElemBitsFit | include/fenwick/typel.hpp:81-90 | the element chosen for height h has at least BOUNDSIZE + h bits |
| TypeL.Slot | include/fenwick/typel.hpp:37-44 | the constructor's array counter names one of the three arrays |
| TypeL.SlotIsArray | include/fenwick/typel.hpp:37-44 | the constructor fills height h into the array prefix and add read it from |
| TypeL.LevelCount | include/fenwick/typel.hpp:32 | Levels = lambda(size + 1) + 2 covers every node |
| TypeL.StartOrder | include/fenwick/typel.hpp:39-43 | heights sharing an array come one after the other |
| TypeL.TypeEndCovers | include/fenwick/typel.hpp:39 | each array's typeEnd covers every height placed in it |
| TypeL.Layout | include/fenwick/typel.hpp:34-45 | the first loop computes Level[] and typeEnd[] as defined by the level counts |
| TypeL.LayoutRound | include/fenwick/typel.hpp:39-44 | one round of that loop |
| TypeL.LayoutStep | include/fenwick/typel.hpp:39-44 | Level[i] restarts at 0 exactly after the last height of an array, and typeEnd follows the running count |
| TypeL.AllocAsWrittenFits | include/fenwick/typel.hpp:47-54 | the switch allocates every used array when Levels + BOUNDSIZE - 1 is at most 64 |
| TypeL.AllocationMissesTree64 | include/fenwick/typel.hpp:47-54 | with BOUNDSIZE 64 and one element the switch value is 66, Tree64 stays unallocated and leaf 1 has no array |
| TypeL.AllocCovers | include/fenwick/typel.hpp:47-54 | allocating every array at its typeEnd length holds every node |
| TypeL.TypeLDistinct | include/fenwick/typel.hpp:77-79 | distinct (height, index) pairs get distinct (array, element) places |
| TypeL.NodesFit | include/fenwick/typel.hpp:81-90 | every node fits in its element |
| TypeL.FillHeightsCover | include/fenwick/typel.hpp:56-70 | the four fillTree calls together fill every height of the tree |
| TypeL.Build | include/fenwick/typel.hpp:204-238 | the constructor's fillTree calls, each node summing its leaf and the elements of its children, leave every element holding its node sum |
| TypeL.ReadAtNodes | include/fenwick/typel.hpp:77-90 | the element read for every node is its node sum |
| TypeL.Prefix | include/fenwick/typel.hpp:73-96 | prefix(idx) is the sum of the first idx elements |
| TypeL.Add | include/fenwick/typel.hpp:98-117 | add keeps the layout and leaves the tree of the updated sequence; past the end it changes nothing |
| TypeL.Find | include/fenwick/typel.hpp:120-154 | find with the guard corrected to "node past Size" returns the largest p with prefix(p) <= val |
| TypeL.CompAtNodes | include/fenwick/typel.hpp:165 | (BOUND << h) minus every element reads the tree of BOUND - s[k] |
| TypeL.CompFind | include/fenwick/typel.hpp:157-191 | compFind with the corrected guard is find over BOUND - s[k] |
| TypeL.GuardKeepsNodes | include/fenwick/typel.hpp:131-141 | the guard as written never skips a node of the tree |
| TypeL.FindAsWritten | include/fenwick/typel.hpp:120-154 | find as written returns a position of the tree, the one its array-length guard leads to |
| TypeL.CompFindAsWritten | include/fenwick/typel.hpp:157-191 | compFind as written, with the same guard |
| TypeL.FindOvershoots | include/fenwick/typel.hpp:120-154 | with BOUNDSIZE 1 and s = [0, 0, 0, 0, 1], find(0) returns 5 where the answer is 4 |
| Shrank.SameLayoutAsBitF | src/shrank_fenwick_tree.cpp:7-11 | get_bitpos and the width 5 + find_first_set(j) are BitF's layout with 6-bit leaves |
| Shrank.BitCountIsWidths | src/shrank_fenwick_tree.cpp:113-116 | bit_count() is the sum of the widths of all the fields |
| Shrank.BitCountFifteen | test/shrank_fenwick_tree_test.hpp:19 | fifteen elements take 6·8 + 7·4 + 8·2 + 9 bits |
| Shrank.Build | src/shrank_fenwick_tree.cpp:13-47 | the constructor leaves the BitF tree with 6-bit leaves, in an array of the corrected length that holds every field and every word read at one |
| Shrank.AllocationTooShort | src/shrank_fenwick_tree.cpp:17 | as written, 15 elements get 12 bytes while node 15's field ends at bit 101, and one element gets 1 byte under an 8-byte access |
| Shrank.AllocCovers | src/shrank_fenwick_tree.cpp:17-28 | bit_count() / 8 + 8 bytes hold every field and the 8-byte word read at its first byte |
| Shrank.Get | src/shrank_fenwick_tree.cpp:56-72 | get(idx) is s[0] + ... + s[idx] |
| Shrank.Set | src/shrank_fenwick_tree.cpp:75-84 | set(idx, inc) adds inc to element idx (0-based); past the end it changes nothing |
| Shrank.Before | src/shrank_fenwick_tree.cpp:109 | node - 1 in size_t, undone by adding one back |
| Shrank.NoGuardNeeded | src/shrank_fenwick_tree.cpp:91-107 | while every candidate is a node, the unguarded search is the guarded one |
| Shrank.FullTreeFinds | src/shrank_fenwick_tree.cpp:87-110 | when size + 1 is a power of two the unguarded find returns the index before the largest p with prefix(p) <= val |
| Shrank.FindAsWritten | src/shrank_fenwick_tree.cpp:87-110 | find as written, reading arbitrary memory past the last node, is correct when size + 1 is a power of two |
| Shrank.FindReadsPastEnd | src/shrank_fenwick_tree.cpp:87-110 | on s = [0, 0] with zero bytes past the tree, find(0) returns 2, past the end, where the answer is index 1 |
| Shrank.Find | src/shrank_fenwick_tree.cpp:87-110 | find with the guard node + m <= size returns the index before the largest p with prefix(p) <= val, for every size |
| Hybrid.Split | include/fenwick/hybrid.hpp:37-38 | idx >> B and idx & BOTTOM_ELEMENTS are the block of idx and its place in it |
| Hybrid.BottomLenIs | include/fenwick/hybrid.hpp:26-29 | bottom tree i holds BOTTOM_ELEMENTS elements for a complete block and size & BOTTOM_ELEMENTS for the last |
| Hybrid.TopPrefix | include/fenwick/hybrid.hpp:40 | the top tree's prefix of k leaves is the prefix of the first k blocks |
| Hybrid.PositionPrefix | include/fenwick/hybrid.hpp:40 | the prefix of block t plus u elements is the top prefix of t plus the bottom prefix of u |
| Hybrid.Prefix | include/fenwick/hybrid.hpp:35-41 | prefix(idx) is the sum of the first idx elements |
| Hybrid.LayoutSearch | include/fenwick/hybrid.hpp:58-64 | the top search's block and the bottom search inside it give the largest p with prefix(p) <= val |
| Hybrid.Compose | include/fenwick/hybrid.hpp:63 | (top << B) + bottom is that position, with the remainder of val |
| Hybrid.Find | include/fenwick/hybrid.hpp:58-64 | find returns the largest p with prefix(p) <= val and leaves val - prefix(p) |
| Hybrid.ComplementLayout | include/fenwick/hybrid.hpp:67-73 | the complemented top and bottom trees form the layout of the complemented sequence |
| Hybrid.ComponentBounds | include/fenwick/hybrid.hpp:92 | top leaves are at most LEAF_MAXVAL · 2^B and bottom elements at most LEAF_MAXVAL, the bounds the components are built with |
| Hybrid.CompFind | include/fenwick/hybrid.hpp:67-73 | compfind is find over LEAF_MAXVAL - s[k] |
| Hybrid.TopAfterAdd | include/fenwick/hybrid.hpp:48-54 | the top leaf add touches is the block of idx, so every top leaf again sums its block |
| Hybrid.BottomsAfterAdd | include/fenwick/hybrid.hpp:53 | only the bottom tree of idx's block changes, at idx & BOTTOM_ELEMENTS |
| Hybrid.InsideBottom | include/fenwick/hybrid.hpp:46-48 | element idx is in a bottom tree exactly when idx & BOTTOM_ELEMENTS is nonzero |
| Hybrid.AddCases | include/fenwick/hybrid.hpp:48-54 | in both branches the components' adds are in range and the layout holds for the updated sequence |
| Hybrid.Add | include/fenwick/hybrid.hpp:43-55 | add leaves the structure of the updated sequence; when idx is a multiple of 2^B no bottom tree changes, and otherwise only the one of idx's block |
| Hybrid.BuildTop | include/fenwick/hybrid.hpp:92-101 | build_top has size >> B leaves, leaf i - 1 seeded with sequence[i · 2^B - 1] |
| Hybrid.BuildBottoms | include/fenwick/hybrid.hpp:26-29 | bottom tree i holds the elements of block i but its last |
| Hybrid.SeedPlusBottom | include/fenwick/hybrid.hpp:31-32 | the seed plus the bottom tree's total is the block's total |
| Hybrid.AddTotals | include/fenwick/hybrid.hpp:31-32 | after the loop every top leaf is its block's total |
| Hybrid.Build | include/fenwick/hybrid.hpp:22-33 | the constructor establishes the layout over the whole sequence |
| Stride.CountPartition | include/rankselect/stride.hpp:63-66 | the ones and the zeros of a range fill it |
| Stride.CountStrict | include/rankselect/stride.hpp:73-88 | a set bit below q makes the ones below q more than below p, so select's answer is unique |
| Stride.OnesBelow | include/rankselect/stride.hpp:47-56 | the ones below p are the popcounts of the words below p / 64 plus the ones of word p / 64 below bit p % 64 |
| Stride.StrideBound | include/rankselect/stride.hpp:150-159 | a stride of WORDS words holds at most 64 · WORDS ones (LEAF_MAXVAL) |
| Stride.TreePrefix | include/rankselect/stride.hpp:50-52 | the tree prefix of k leaves counts the ones of the first k strides |
| Stride.TreeTotal | include/rankselect/stride.hpp:150-159 | the whole tree counts every one of the bitvector |
| Stride.Build | include/rankselect/stride.hpp:150-159 | build_fenwick has length / WORDS + 1 leaves, leaf i the ones of stride i |
| Stride.Rank | include/rankselect/stride.hpp:47-56 | rank(pos) is the number of ones below pos |
| Stride.RankWord | include/rankselect/stride.hpp:53-55 | the masked word pos / 64 adds the ones of that word below pos |
| Stride.RankRange | include/rankselect/stride.hpp:58-61 | rank(from, to) is the ones in [from, to), and its 64-bit negation when to < from |
| Stride.RankZero | include/rankselect/stride.hpp:63-66 | rankZero(pos) is the number of zeros below pos |
| Stride.RankZeroRange | include/rankselect/stride.hpp:68-71 | rankZero(from, to) is the zeros in [from, to), and its 64-bit negation when to < from |
| Stride.Scan | include/rankselect/stride.hpp:78-87 | the scan finds the 1-bit of the given rank inside the stride, or returns SIZE_MAX when the stride has too few |
| Stride.SelectPlace | include/rankselect/stride.hpp:74-76 | tree.find leaves the stride holding the bit of that rank and the rank inside it |
| Stride.Select | include/rankselect/stride.hpp:73-88 | below the number of ones, select(rank) is a set bit with rank ones before it; otherwise SIZE_MAX |
| Stride.NotCount | include/rankselect/stride.hpp:95-104 | the ones of the complemented words are the zeros of the bitvector |
| Stride.NotPops | include/rankselect/stride.hpp:95-104 | popcount(~w) = 64 - popcount(w) for every word |
| Stride.CompPrefix | include/rankselect/stride.hpp:91-93 | the complemented tree counts the zeros of the strides (the last stride also counting its missing words) |
| Stride.SelectZeroPlace | include/rankselect/stride.hpp:91-93 | tree.compFind leaves the stride holding the zero of that rank |
| Stride.SelectZero | include/rankselect/stride.hpp:90-105 | below the number of zeros, selectZero(rank) is a clear bit with rank zeros before it; otherwise SIZE_MAX |
| Stride.LeafMoves | include/rankselect/stride.hpp:107-114 | replacing a word moves exactly the leaf of its stride, by the change in popcount |
| Stride.Update | include/rankselect/stride.hpp:107-114 | update(index, word) returns the old word, stores the new one and keeps every leaf the ones of its stride |
| Stride.OrBit | include/rankselect/stride.hpp:116-123 | w \| (1 << b) sets bit b, changes the word exactly when the bit was clear, and adds that many ones |
| Stride.AndNotBit | include/rankselect/stride.hpp:125-132 | w & ~(1 << b) clears bit b, changes the word exactly when the bit was set |
| Stride.XorBit | include/rankselect/stride.hpp:134-140 | w ^ (1 << b) flips bit b, growing the word exactly when the bit was clear |
| Stride.Set | include/rankselect/stride.hpp:116-123 | set(index) sets the bit, keeps the tree and returns true exactly when the bit was already set |
| Stride.Clear | include/rankselect/stride.hpp:125-132 | clear(index) clears the bit, keeps the tree and returns true exactly when the bit was set |
| Stride.Toggle | include/rankselect/stride.hpp:134-140 | toggle(index) flips the bit, keeps the tree and returns true exactly when the bit was set |
| Stride.TreeDetermined | include/rankselect/stride.hpp:150-159 | the bitvector determines the tree |
| Stride.ToggleTwice | include/rankselect/stride.hpp:134-140 | toggling a bit twice restores the structure |
| Stride.SetThenClear | include/rankselect/stride.hpp:116-132 | clearing a bit set() just set restores the structure |
| Stride.SelectOfRank | include/rankselect/stride.hpp:47-88 | a set bit's rank is below the number of ones, and two set bits with the same rank are the same bit |

## Left out

- Memory is modelled as a map from field addresses to values. Unaligned 64-bit loads,
  endianness, the slack bytes after each array, and raw byte and bit strings are not modelled.
  For that reason the layout strings of test/shrank_fenwick_tree_test.hpp:21-22 and 66-67
  are not stated. The layouts are instead proved injective, with each field inside the word
  read at its address.
- Cells are unbounded integers. The source adds a signed `inc` to unsigned cells; the model
  requires every element to stay within `[0, BOUND]` and every node to fit its field. The
  source relies on this without checking it.
- ByteF.WordMasked, BitF.WordExtract, BitF.WordAdd: stand-alone facts about one 64-bit word
  (masking yields the field, an in-range add leaves the neighbours alone). The memory map
  holds fields, not words, so these facts are not applied to the trees' reads and writes.
- Leaf writes in the constructors are modelled as storing the element modulo the field's
  range, which is what `&= ~mask; |= value & mask` leaves when the field is the only thing
  that changes.
- ByteF.Valid, BitF.WordFits, BitL.WordFits, ByteL.ByteFits, TypeL.TypeFits: assume
  `BOUNDSIZE + lambda(size)` fits in a word, which the source never checks. In ByteF a
  larger tree would read past the 8-entry `BYTE_MASK`; in BitF and BitL a field would
  straddle the word read.
- `add(0, inc)` loops forever in the source, because `mask_rho(0)` is 0. Every `add`
  therefore requires `1 <= idx`. `rho(0)` is undefined and the model applies it only to
  nonzero words.
- Fenwick.Find, FixedF.Find, FixedF.CompFind, ByteF.Find, ByteF.CompFind, BitF.Find,
  BitF.CompFind: on an empty tree the source calls `mask_lambda(0)`, which is undefined
  (`__builtin_clzll(0)`); the model takes no step and returns 0.
- The `__builtin_prefetch` calls, the `sizeof`-dependent `bitCount`/`bit_count` of every
  tree but `Shrank`, stream serialisation, ByteL's `reserve` and `shrink`, and the
  `size()` accessors are not modelled. Those are memory or I/O concerns, or return a stored
  field unchanged.
- The non-default `HFT_HOLES` branches of ByteF's `holes` are not modelled; only
  `(idx >> 14) * 8` is.
- Bits.Select64: states only the result. The broadword algorithm, the `pdep`/`tzcnt` path
  and the `kSelectInByte` table are not modelled.
- `DArray`, `byteread`, `bytewrite`, `bytewrite_inc`, `bitextract` and broadword's
  `find_first_set`, `find_last_set`, `drop_first_set`, `mask_first_set` and `mask_last_set`
  are not part of this model. They are taken by their evident meaning: the k bytes or bits
  at a position, and `rho + 1`, `lambda + 1`, `clear_rho`, `mask_rho`, `mask_lambda`.
- BitL.CompFind, ByteL.CompFind, TypeL.CompFind, FixedF.CompFind, ByteF.CompFind: do not
  model the 64-bit wrap of `BOUND << height`. The model requires every element to be at
  most `BOUND`, so the complemented node never exceeds the total bound.
- TypeL: the source shifts `1 << (i - 1)` and `1 << l` on 32-bit `int`. The model uses the
  exact power of two, as for the sizes the layout can address.
- PrefixSums.TreeAdd: states only the length. Its effect is stated through
  `Hybrid.TopAfterAdd` and `Hybrid.BottomsAfterAdd`.
- Hybrid: the component trees are abstract, given by their contents and by
  `TreeAdd`/`TreeFind`/`TreeCompFind`. The `size_t` overflow of `top << B` and
  `BOTTOM_ELEMENTS + 1` is not modelled. `prefix` and `add` require `idx <= size`, since
  the source indexes `bottom_trees[top]` out of range otherwise.
- Shrank.FindAsWritten: proved correct only when size + 1 is a power of two. For every
  other size the search reads memory past the last node, which is a parameter
  (`Shrank.FindReadsPastEnd` gives a concrete wrong answer).
- ByteF.Multiplier: the unsigned constant `8 - SMALL - 1` wraps to `2^64 - 1` for
  `BOUNDSIZE > 56`. The model uses the signed value -1 and proves the `size_t` computation
  congruent (`ByteF.PosWordIsPos`).
- Stride: the Fenwick tree is abstract, taken by its leaves through `TreeFind`/
  `TreeCompFind`/`TreeAdd`. The constructors' copy and move of the bitvector and the
  `bitvector()`/`size()` accessors are not modelled.
- Stride.Rank: requires `pos < 64 * size`. At `pos = 64 * size` the source reads the word
  past the end.
- Stride.RankRange, Stride.RankZeroRange: require both positions below `2^64`, as `size_t`
  values are.
- Stride.Update, Stride.Set, Stride.Clear, Stride.Toggle: require the index in range, which
  the source does not check.
- ByteL.FindAsWritten, ByteL.CompFindAsWritten: state soundness only for a freshly built
  tree. After `push` the arrays are longer than the nodes need, the guard admits nodes past
  Size, and the result can be wrong (`ByteL.PushedFindOvershoots`); for such trees the
  contract says only which search is run.
- Shrank.Get: requires `idx < size`. A larger idx makes the source read memory past the
  last node.
- `include/typed_fenwick_tree.hpp` is not part of this model; TypeL covers the same design.

## Findings

| source | as written | input that shows it | evidently intended | confidence | as-written member | corrected member |
|---|---|---|---|---|---|---|
| include/fenwick/bytel.hpp:84 | the guard `pos + isize >= Tree[height].size()` of find (and of compFind at line 109) skips index i when its field ends exactly at the end of the array, that is the last node of every level of a freshly built tree | BOUND 5, s = [5]: find(10) returns 0 | find(10) returns 1, the largest p with prefix(p) <= 10; the guard should skip exactly the nodes past Size, `node + 2^height > Size` | high, not executed | ByteL.FindNeverReturnsSize | ByteL.Find |
| include/fenwick/bytel.hpp:84-132 | push resizes `Tree[height]` to `highpos + 8` bytes (line 132), so the array-length guard of find admits zero bytes that belong to no node | BOUNDSIZE 1, five pushes of 1: find(4) goes 4, 6, 7 and returns min(7, 5) = 5 | find(4) returns 4; the guard should be `node + 2^height > Size`, not a test on the array length | high, not executed | ByteL.PushedFindOvershoots | ByteL.Find |
| src/shrank_fenwick_tree.cpp:91-107 | find has no bounds guard, so when size + 1 is not a power of two it reads candidates past the last node | s = [0, 0], zero memory past the tree: find(0) returns 2 | find(0) returns 1, the last index; a guard `node + m <= size` as in the other trees | high, not executed | Shrank.FindReadsPastEnd | Shrank.Find |
| src/shrank_fenwick_tree.cpp:17 | the constructor allocates `get_bitpos(size) / 8 + 1` bytes, but `get_bitpos(size)` is where the last field starts | 15 elements: 12 bytes, while node 15's field covers bits 95..100 and its word read spans bytes 11..18; 1 element: 1 byte under an 8-byte access | `bit_count() / 8 + 8` bytes, enough for the last field and the word read at it | high, not executed | Shrank.AllocationTooShort | Shrank.AllocCovers |
| include/fenwick/typel.hpp:47-54 | the switch on `Levels + BOUNDSIZE - 1` has no case above 64 | BOUNDSIZE 64, one element: the value is 66, so Tree64 is never allocated and leaf 1 is written outside every array | every array a height uses is allocated with its typeEnd length | medium, not executed | TypeL.AllocationMissesTree64 | TypeL.AllocCovers |
| include/fenwick/typel.hpp:131-141 | the guard compares `Level[h] + i` with the length of the whole array, which also holds the heights stored after h | BOUNDSIZE 1, s = [0, 0, 0, 0, 1]: find(0) returns 5 | find(0) returns 4; the guard should reject the nodes past Size | high, not executed | TypeL.FindOvershoots | TypeL.Find |
