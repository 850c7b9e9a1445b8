/** The block merkle tree: the streaming hasher, the offline root, and inclusion witnesses. */
module Merkle {
  import opened Common

  const HASH_LENGTH := 48

  type Digest = d: Bytes | |d| == HASH_LENGTH witness seq(48, _ => 0)

  /** SHA-384 is any function from byte strings to 48-byte digests; nothing else is assumed of it. */
  type Sha384 = Bytes -> Digest

  const LEAF_PREFIX: byte := 0x00
  const SINGLE_CHILD_PREFIX: byte := 0x01
  const INTERNAL_PREFIX: byte := 0x02

  function HashLeaf(sha384: Sha384, leafBytes: Bytes): Digest {
    sha384([LEAF_PREFIX] + leafBytes)
  }

  function HashInternal(sha384: Sha384, left: Bytes, right: Bytes): Digest {
    sha384([INTERNAL_PREFIX] + left + right)
  }

  function HashInternalSingleChild(sha384: Sha384, child: Bytes): Digest {
    sha384([SINGLE_CHILD_PREFIX] + child)
  }

  // ----- The tree as a value -----------------------------------------------------------------
  // The code only ever holds digests. The specification is the tree those digests stand for.

  datatype Tree = Leaf(hash: Digest) | Node(left: Tree, right: Tree)

  function Value(sha384: Sha384, t: Tree): Digest {
    match t
    case Leaf(h) => h
    case Node(l, r) => HashInternal(sha384, Value(sha384, l), Value(sha384, r))
  }

  function Values(sha384: Sha384, ts: seq<Tree>): (vs: seq<Digest>)
    ensures |vs| == |ts|
    ensures forall i :: 0 <= i < |ts| ==> vs[i] == Value(sha384, ts[i])
  {
    seq(|ts|, i requires 0 <= i < |ts| => Value(sha384, ts[i]))
  }

  /** The leaves of a tree, left to right. */
  function Frontier(t: Tree): seq<Digest> {
    match t
    case Leaf(h) => [h]
    case Node(l, r) => Frontier(l) + Frontier(r)
  }

  function InternalNodes(t: Tree): nat {
    match t
    case Leaf(_) => 0
    case Node(l, r) => 1 + InternalNodes(l) + InternalNodes(r)
  }

  predicate Perfect(t: Tree, height: nat) {
    match t
    case Leaf(_) => height == 0
    case Node(l, r) => height > 0 && Perfect(l, height - 1) && Perfect(r, height - 1)
  }

  function LeafTrees(leaves: seq<Digest>): (ts: seq<Tree>)
    ensures |ts| == |leaves|
    ensures forall i :: 0 <= i < |leaves| ==> ts[i] == Leaf(leaves[i])
  {
    seq(|leaves|, i requires 0 <= i < |leaves| => Leaf(leaves[i]))
  }

  /** One level up: adjacent nodes are paired, an odd last one is left behind. */
  function Pairs(level: seq<Tree>): (next: seq<Tree>)
    ensures |next| == |level| / 2
    ensures forall i :: 0 <= i < |level| / 2 ==> next[i] == Node(level[2 * i], level[2 * i + 1])
  {
    seq(|level| / 2, i requires 0 <= i < |level| / 2 => Node(level[2 * i], level[2 * i + 1]))
  }

  /** The mountain range: what each level leaves behind, the highest first. */
  function Peaks(level: seq<Tree>): seq<Tree>
    decreases |level|
  {
    if level == [] then []
    else Peaks(Pairs(level)) + if |level| % 2 == 1 then [level[|level| - 1]] else []
  }

  /** The peaks joined right to left, each earlier one as a left child. */
  function Bag(peaks: seq<Tree>): Tree
    requires peaks != []
  {
    if |peaks| == 1 then peaks[0] else Node(peaks[0], Bag(peaks[1..]))
  }

  function Range(leaves: seq<Digest>): seq<Tree> {
    Peaks(LeafTrees(leaves))
  }

  lemma {:induction false} PeaksNonEmpty(level: seq<Tree>)
    requires level != []
    ensures Peaks(level) != []
    decreases |level|
  {
    if |level| >= 2 {
      PeaksNonEmpty(Pairs(level));
    }
  }

  function TreeOf(leaves: seq<Digest>): Tree
    requires leaves != []
  {
    PeaksNonEmpty(LeafTrees(leaves));
    Bag(Range(leaves))
  }

  /** The root the network signs over a list of leaf hashes. */
  function TreeRoot(sha384: Sha384, leaves: seq<Digest>): Digest {
    if leaves == [] then HashLeaf(sha384, []) else Value(sha384, TreeOf(leaves))
  }

  // ----- The streaming hasher ----------------------------------------------------------------

  /** A push onto an even level leaves a new lowest peak. */
  lemma PeaksOfEvenPush(level: seq<Tree>, t: Tree)
    requires |level| % 2 == 0
    ensures Peaks(level + [t]) == Peaks(level) + [t]
  {
    assert Pairs(level + [t]) == Pairs(level);
    assert Peaks(level) == Peaks(Pairs(level));
  }

  /** A push onto an odd level merges with the lowest peak and carries to the level above. */
  lemma {:induction false} PeaksOfOddPush(level: seq<Tree>, t: Tree)
    requires |level| % 2 == 1
    ensures Peaks(level) == Peaks(Pairs(level)) + [level[|level| - 1]]
    ensures Peaks(level + [t]) == Peaks(Pairs(level) + [Node(level[|level| - 1], t)])
  {
    assert Pairs(level + [t]) == Pairs(level) + [Node(level[|level| - 1], t)];
    PeaksOfEven(level + [t]);
  }

  lemma PeaksOfEven(level: seq<Tree>)
    requires |level| % 2 == 0
    ensures Peaks(level) == Peaks(Pairs(level))
  {
  }

  /** One carry of `AddLeaf`: the stack holds the peaks of a level and the tree being pushed. */
  lemma CarryStep(sha384: Sha384, stack: seq<Digest>, level: seq<Tree>, top: Tree)
    requires |level| % 2 == 1
    requires stack == Values(sha384, Peaks(level)) + [Value(sha384, top)]
    ensures |stack| >= 2
    ensures var merged := Node(level[|level| - 1], top);
            && Peaks(level + [top]) == Peaks(Pairs(level) + [merged])
            && stack[..|stack| - 2] + [HashInternal(sha384, stack[|stack| - 2], stack[|stack| - 1])]
               == Values(sha384, Peaks(Pairs(level))) + [Value(sha384, merged)]
  {
    PeaksOfOddPush(level, top);
    assert stack[|stack| - 2] == Value(sha384, level[|level| - 1]);
    assert stack[..|stack| - 2] == Values(sha384, Peaks(Pairs(level)));
  }

  class StreamingTreeHasher {
    const sha384: Sha384
    var stack: seq<Digest>
    var leafCount: nat
    ghost var leaves: seq<Digest>  // every leaf added so far
    ghost var merges: nat          // internal hashes computed so far

    ghost predicate Valid()
      reads this
    {
      && leafCount == |leaves|
      && stack == Values(sha384, Range(leaves))
      && merges + |stack| == leafCount
    }

    constructor (sha384: Sha384)
      ensures Valid() && leaves == [] && merges == 0 && this.sha384 == sha384
    {
      this.sha384 := sha384;
      stack, leafCount, leaves, merges := [], 0, [], 0;
    }

    /** Both pops are in bounds: the `expect`s of the source cannot fire. */
    method AddLeaf(hash: Digest)
      requires Valid()
      modifies this
      ensures Valid() && leaves == old(leaves) + [hash]
    {
      stack := stack + [hash];
      var n := leafCount;
      ghost var level, top := LeafTrees(leaves), Leaf(hash);
      ghost var all := Range(leaves + [hash]);
      assert LeafTrees(leaves + [hash]) == level + [top];
      while n % 2 == 1
        invariant n == |level|
        invariant stack == Values(sha384, Peaks(level)) + [Value(sha384, top)]
        invariant Peaks(level + [top]) == all
        invariant merges + |stack| == leafCount + 1
        invariant leafCount == old(leafCount) && leaves == old(leaves)
        decreases n
      {
        CarryStep(sha384, stack, level, top);
        var right := stack[|stack| - 1];
        var left := stack[|stack| - 2];
        stack := stack[..|stack| - 2] + [HashInternal(sha384, left, right)];
        level, top := Pairs(level), Node(level[|level| - 1], top);
        n := n / 2;
        merges := merges + 1;
      }
      PeaksOfEvenPush(level, top);
      leafCount := leafCount + 1;
      leaves := leaves + [hash];
      assert stack == Values(sha384, Range(leaves));
    }

    method Root() returns (root: Digest, ghost hashes: nat)
      requires Valid()
      ensures root == TreeRoot(sha384, leaves)
      ensures leaves != [] ==> merges + hashes == |leaves| - 1
    {
      hashes := 0;
      if stack == [] {
        assert leaves == [] by {
          if leaves != [] { PeaksNonEmpty(LeafTrees(leaves)); }
        }
        return HashLeaf(sha384, []), 0;
      }
      ghost var peaks := Range(leaves);
      var i := |stack| - 1;
      root := stack[i];
      assert peaks[i..] == [peaks[i]];
      while i > 0
        invariant 0 <= i < |stack|
        invariant root == Value(sha384, Bag(peaks[i..]))
        invariant hashes == |stack| - 1 - i
      {
        i := i - 1;
        assert peaks[i..][1..] == peaks[i + 1..];
        root := HashInternal(sha384, stack[i], root);
        hashes := hashes + 1;
      }
      assert peaks[0..] == peaks;
    }
  }

  // ----- Peak boundaries ---------------------------------------------------------------------

  datatype Bound = Bound(start: nat, size: nat)

  /** Where the peaks of n leaves lie, defined from the lowest bit of n upwards. */
  function Bounds(n: nat): (bs: seq<Bound>)
    ensures forall i :: 0 <= i < |bs| ==> bs[i].size > 0 && bs[i].start + bs[i].size <= n
  {
    if n == 0 then [] else Double(Bounds(n / 2)) + if n % 2 == 1 then [Bound(n - 1, 1)] else []
  }

  function Double(bs: seq<Bound>): (r: seq<Bound>)
    ensures |r| == |bs|
    ensures forall i :: 0 <= i < |bs| ==> r[i] == Bound(2 * bs[i].start, 2 * bs[i].size)
  {
    seq(|bs|, i requires 0 <= i < |bs| => Bound(2 * bs[i].start, 2 * bs[i].size))
  }

  function Scale(bs: seq<Bound>, k: nat): (r: seq<Bound>)
    ensures |r| == |bs|
    ensures forall i :: 0 <= i < |bs| ==> r[i] == Bound(bs[i].start * k, bs[i].size * k)
  {
    seq(|bs|, i requires 0 <= i < |bs| => Bound(bs[i].start * k, bs[i].size * k))
  }

  function BitCount(n: nat): nat {
    if n == 0 then 0 else BitCount(n / 2) + n % 2
  }

  /** The bounds cover 0..n without gap or overlap, in order. */
  predicate Tiles(bs: seq<Bound>, n: nat) {
    if bs == [] then n == 0
    else
      var last := bs[|bs| - 1];
      last.size > 0 && last.start + last.size == n && Tiles(bs[..|bs| - 1], last.start)
  }

  lemma {:induction false} DoubleTiles(bs: seq<Bound>, n: nat)
    requires Tiles(bs, n)
    ensures Tiles(Double(bs), 2 * n)
  {
    if bs != [] {
      DoubleTiles(bs[..|bs| - 1], bs[|bs| - 1].start);
      assert Double(bs)[..|bs| - 1] == Double(bs[..|bs| - 1]);
    }
  }

  lemma TilesPush(bs: seq<Bound>, n: nat, size: nat)
    requires Tiles(bs, n) && size > 0
    ensures Tiles(bs + [Bound(n, size)], n + size)
  {
    assert (bs + [Bound(n, size)])[..|bs|] == bs;
  }

  /** One peak per set bit of n, and the peaks tile 0..n. */
  lemma {:induction false} BoundsTile(n: nat)
    ensures |Bounds(n)| == BitCount(n)
    ensures Tiles(Bounds(n), n)
  {
    if n > 0 {
      BoundsTile(n / 2);
      var high := Double(Bounds(n / 2));
      DoubleTiles(Bounds(n / 2), n / 2);
      if n % 2 == 1 {
        TilesPush(high, n - 1, 1);
        assert Bounds(n) == high + [Bound(n - 1, 1)];
      } else {
        assert high + [] == high;
        assert Bounds(n) == high;
      }
    }
  }

  /** A tiling names, for each index, the one peak holding it. */
  lemma {:induction false} TilesAt(bs: seq<Bound>, n: nat, i: nat)
    requires Tiles(bs, n) && i < |bs|
    ensures bs[i].size > 0
    ensures i == 0 ==> bs[i].start == 0
    ensures bs[i].start + bs[i].size == if i + 1 < |bs| then bs[i + 1].start else n
  {
    if i < |bs| - 1 {
      TilesAt(bs[..|bs| - 1], bs[|bs| - 1].start, i);
    } else if i == 0 {
      assert bs[..0] == [];
    }
  }

  predicate Heights(bs: seq<Bound>, top: int) {
    forall i :: 0 <= i < |bs| ==> bs[i].size == Pow2(Log2(bs[i].size)) && Log2(bs[i].size) + i <= top
  }

  predicate Descending(bs: seq<Bound>) {
    forall i, j :: 0 <= i < j < |bs| ==> bs[i].size > bs[j].size
  }

  lemma DoubleHeights(bs: seq<Bound>, top: int)
    requires Heights(bs, top) && forall i :: 0 <= i < |bs| ==> bs[i].size > 0
    ensures Heights(Double(bs), top + 1)
  {
    forall i | 0 <= i < |bs|
      ensures var b := Double(bs)[i]; b.size == Pow2(Log2(b.size)) && Log2(b.size) + i <= top + 1
    {
      assert Double(bs)[i].size / 2 == bs[i].size;
    }
  }

  /** Every peak is a power of two in size, larger than the next; the i-th is at most 2^(log2 n - i). */
  lemma {:induction false} BoundsHeights(n: nat)
    requires n > 0
    ensures 0 < |Bounds(n)| <= Log2(n) + 1
    ensures Heights(Bounds(n), Log2(n)) && Descending(Bounds(n))
  {
    if n == 1 {
      assert Bounds(1) == [Bound(0, 1)] by { assert Double(Bounds(0)) == []; }
    } else {
      BoundsHeights(n / 2);
      DoubleHeights(Bounds(n / 2), Log2(n / 2));
    }
  }

  lemma ScaledBoundsStep(n: nat, bit: nat, size: nat)
    requires size == Pow2(bit)
    ensures var low := Shift(n, bit);
            && Pow2(bit + 1) == 2 * size
            && low * size == Shift(n, bit + 1) * (2 * size) + low % 2 * size
            && Scale(Bounds(low), size)
               == Scale(Bounds(Shift(n, bit + 1)), 2 * size)
                  + if low % 2 == 1 then [Bound((low - 1) * size, size)] else []
  {
    ShiftStep(n, bit);
    var low := Shift(n, bit);
    var high := low / 2;
    var last := if low % 2 == 1 then [Bound(low - 1, 1)] else [];
    ScaleDouble(Bounds(high), size);
    assert Bounds(low) == Double(Bounds(high)) + last by {
      if low == 0 { assert Double(Bounds(high)) == []; }
    }
    ScaleAppend(Double(Bounds(high)), last, size);
    assert Scale(last, size) == if low % 2 == 1 then [Bound((low - 1) * size, size)] else [];
    assert low == 2 * high + low % 2;
    SplitProduct(high, low % 2, size);
  }

  lemma SplitProduct(high: nat, bit: nat, size: nat)
    ensures (2 * high + bit) * size == high * (2 * size) + bit * size
  {
  }

  /** The top-down scan over bits 63..0 finds the bounds that are defined bottom-up. */
  method PeakBounds(n: u64) returns (peaks: seq<Bound>)
    ensures peaks == Bounds(n)
  {
    peaks := [];
    var start := 0;
    var bit := 64;
    Pow2Of64();
    ShiftBound(n, 64, 0);
    assert Bounds(0) == [];
    while bit > 0
      invariant 0 <= bit <= 64
      invariant peaks == Scale(Bounds(Shift(n, bit)), Pow2(bit))
      invariant start == Shift(n, bit) * Pow2(bit)
    {
      bit := bit - 1;
      var size := Pow2(bit);
      ScaledBoundsStep(n, bit, size);
      if Shift(n, bit) % 2 == 1 {
        SplitProduct(Shift(n, bit + 1), 1, size);
        ShiftStep(n, bit);
        assert (Shift(n, bit) - 1) * size == start;
        peaks := peaks + [Bound(start, size)];
        start := start + size;
      }
    }
    assert Scale(Bounds(n), 1) == Bounds(n);
  }

  lemma ScaleDouble(bs: seq<Bound>, k: nat)
    ensures Scale(Double(bs), k) == Scale(bs, 2 * k)
  {
    forall i | 0 <= i < |bs|
      ensures Scale(Double(bs), k)[i] == Scale(bs, 2 * k)[i]
    {
      SplitProduct(bs[i].start, 0, k);
      SplitProduct(bs[i].size, 0, k);
    }
  }

  lemma ScaleAppend(a: seq<Bound>, b: seq<Bound>, k: nat)
    ensures Scale(a + b, k) == Scale(a, k) + Scale(b, k)
  {
  }

  // ----- The offline root --------------------------------------------------------------------

  predicate IsPow2(n: nat) {
    n == 1 || (n > 1 && n % 2 == 0 && IsPow2(n / 2))
  }

  lemma {:induction false} Pow2IsPow2(k: nat)
    ensures IsPow2(Pow2(k)) && Log2(Pow2(k)) == k
  {
    if k > 0 {
      Pow2IsPow2(k - 1);
      var half := Pow2(k - 1);
      assert Pow2(k) == 2 * half;
      assert 2 * half / 2 == half && 2 * half % 2 == 0;
    }
  }

  /** The one tree over a power-of-two level. */
  function PerfectTree(level: seq<Tree>): Tree
    requires level != []
    decreases |level|
  {
    if |level| == 1 then level[0] else PerfectTree(Pairs(level))
  }

  method NextLevel(sha384: Sha384, level: seq<Digest>, ghost trees: seq<Tree>) returns (next: seq<Digest>)
    requires |level| % 2 == 0 && level == Values(sha384, trees)
    ensures next == Values(sha384, Pairs(trees))
  {
    next := [];
    var i := 0;
    while i < |level|
      invariant 0 <= i <= |level| && i % 2 == 0
      invariant next == Values(sha384, Pairs(trees))[..i / 2]
    {
      next := next + [HashInternal(sha384, level[i], level[i + 1])];
      i := i + 2;
    }
  }

  method PerfectRoot(sha384: Sha384, leaves: seq<Digest>) returns (root: Digest)
    requires IsPow2(|leaves|)
    ensures root == Value(sha384, PerfectTree(LeafTrees(leaves)))
  {
    var level := leaves;
    ghost var trees := LeafTrees(leaves);
    while |level| > 1
      invariant IsPow2(|level|) && level == Values(sha384, trees)
      invariant PerfectTree(trees) == PerfectTree(LeafTrees(leaves))
      decreases |level|
    {
      level := NextLevel(sha384, level, trees);
      trees := Pairs(trees);
    }
    root := level[0];
  }

  method FoldPeaks(sha384: Sha384, roots: seq<Digest>, ghost peaks: seq<Tree>) returns (r: Option<Digest>)
    requires roots == Values(sha384, peaks)
    ensures r == if peaks == [] then None else Some(Value(sha384, Bag(peaks)))
  {
    if roots == [] {
      return None;
    }
    var i := |roots| - 1;
    var acc := roots[i];
    assert peaks[i..] == [peaks[i]];
    while i > 0
      invariant 0 <= i < |roots|
      invariant acc == Value(sha384, Bag(peaks[i..]))
    {
      i := i - 1;
      assert peaks[i..][1..] == peaks[i + 1..];
      acc := HashInternal(sha384, roots[i], acc);
    }
    assert peaks[0..] == peaks;
    return Some(acc);
  }

  lemma PairsOfSlice(level: seq<Tree>, a: nat, z: nat)
    requires a + z <= |level| / 2
    ensures Pairs(level)[a..a + z] == Pairs(level[2 * a..2 * a + 2 * z])
  {
  }

  function Slice(level: seq<Tree>, b: Bound): seq<Tree>
    requires b.start + b.size <= |level|
  {
    level[b.start..b.start + b.size]
  }

  lemma {:induction false} PeakCount(level: seq<Tree>)
    ensures |Peaks(level)| == |Bounds(|level|)|
    decreases |level|
  {
    if level != [] {
      PeakCount(Pairs(level));
    }
  }

  /** The peaks the binary counter leaves are the perfect subtrees over the peak bounds. */
  lemma {:induction false} PeakAtBound(level: seq<Tree>, i: nat)
    requires i < |Bounds(|level|)|
    ensures |Peaks(level)| == |Bounds(|level|)|
    ensures Peaks(level)[i] == PerfectTree(Slice(level, Bounds(|level|)[i]))
    decreases |level|
  {
    var above := Pairs(level);
    PeakCount(above);
    var b, high := Bounds(|level|)[i], Bounds(|above|);
    if i < |high| {
      PeakAtBound(above, i);
      PairsOfSlice(level, high[i].start, high[i].size);
      assert Pairs(Slice(level, b)) == Slice(above, high[i]);
      assert PerfectTree(Slice(level, b)) == PerfectTree(Slice(above, high[i]));
    } else {
      assert Slice(level, b) == [level[|level| - 1]];
    }
  }

  /** Its height is the log of its leaf count, and its leaves are those it was built over, in order. */
  lemma {:induction false} PerfectTreeIsPerfect(level: seq<Tree>, height: nat)
    requires IsPow2(|level|) && forall i :: 0 <= i < |level| ==> Perfect(level[i], height)
    ensures Perfect(PerfectTree(level), height + Log2(|level|))
    ensures Frontier(PerfectTree(level)) == FrontierOf(level)
    decreases |level|
  {
    if |level| > 1 {
      PerfectTreeIsPerfect(Pairs(level), height + 1);
      PairsKeepFrontier(level);
    } else {
      assert level[..0] == [];
      assert FrontierOf(level) == [] + Frontier(level[0]);
    }
  }

  /** The i-th peak is the perfect tree over exactly the leaves the i-th bound names. */
  predicate PeakIsPerfectSubtree(leaves: seq<Digest>, i: nat) {
    && i < |Bounds(|leaves|)| == |Range(leaves)|
    && var b := Bounds(|leaves|)[i];
       && IsPow2(b.size)
       && Perfect(Range(leaves)[i], Log2(b.size))
       && Frontier(Range(leaves)[i]) == leaves[b.start..b.start + b.size]
       && Range(leaves)[i] == PerfectTree(LeafTrees(leaves[b.start..b.start + b.size]))
  }

  lemma RangeAt(leaves: seq<Digest>, i: nat)
    requires i < |Bounds(|leaves|)|
    ensures PeakIsPerfectSubtree(leaves, i)
  {
    PeakAtBound(LeafTrees(leaves), i);
    var b := Bounds(|leaves|)[i];
    assert IsPow2(b.size) by {
      BoundsHeights(|leaves|);
      Pow2IsPow2(Log2(b.size));
    }
    var own := leaves[b.start..b.start + b.size];
    assert Slice(LeafTrees(leaves), b) == LeafTrees(own);
    PerfectTreeIsPerfect(LeafTrees(own), 0);
    FrontierOfLeafTrees(own);
  }

  /** What the streaming hasher's stack holds: one perfect subtree per set bit, largest first. */
  lemma RangeIsPerfectSubtrees(leaves: seq<Digest>)
    ensures |Range(leaves)| == |Bounds(|leaves|)| == BitCount(|leaves|)
    ensures Tiles(Bounds(|leaves|), |leaves|) && Descending(Bounds(|leaves|))
    ensures forall i :: 0 <= i < |Range(leaves)| ==> PeakIsPerfectSubtree(leaves, i)
  {
    PeakCount(LeafTrees(leaves));
    BoundsTile(|leaves|);
    if leaves != [] {
      BoundsHeights(|leaves|);
    }
    forall i | 0 <= i < |Range(leaves)|
      ensures PeakIsPerfectSubtree(leaves, i)
    {
      RangeAt(leaves, i);
    }
  }

  function LeavesOf(leaves: seq<Digest>, b: Bound): (own: seq<Digest>)
    requires b.start + b.size <= |leaves|
    ensures |own| == b.size
  {
    leaves[b.start..b.start + b.size]
  }

  /** The one tree over the leaves of a bound. */
  function PeakTree(leaves: seq<Digest>, b: Bound): Tree
    requires 0 < b.size && b.start + b.size <= |leaves|
  {
    PerfectTree(LeafTrees(LeavesOf(leaves, b)))
  }

  lemma PeakTreeAt(leaves: seq<Digest>, i: nat)
    requires i < |Bounds(|leaves|)|
    ensures i < |Range(leaves)| && IsPow2(Bounds(|leaves|)[i].size)
    ensures Range(leaves)[i] == PeakTree(leaves, Bounds(|leaves|)[i])
  {
    RangeAt(leaves, i);
  }

  /** Perfect roots of a run of peaks, by the same slices the source takes. */
  method PeakRoots(sha384: Sha384, leaves: seq<Digest>, peaks: seq<Bound>, from: nat, to: nat)
    returns (roots: seq<Digest>)
    requires peaks == Bounds(|leaves|) && from <= to <= |peaks| == |Range(leaves)|
    ensures roots == Values(sha384, Range(leaves)[from..to])
  {
    ghost var range := Range(leaves);
    roots := [];
    for i := from to to
      invariant roots == Values(sha384, range[from..i])
    {
      var b := peaks[i];
      PeakTreeAt(leaves, i);
      var root := PerfectRoot(sha384, leaves[b.start..b.start + b.size]);
      roots := roots + [root];
      SliceGrows(range, from, i);
    }
  }

  /** The offline root equals the streaming hasher's, the empty tree included. */
  method MerkleRoot(sha384: Sha384, leaves: seq<Digest>) returns (root: Digest)
    requires |leaves| < TWO_64
    ensures root == TreeRoot(sha384, leaves)
  {
    var peaks := PeakBounds(|leaves|);
    RangeIsPerfectSubtrees(leaves);
    var roots := PeakRoots(sha384, leaves, peaks, 0, |peaks|);
    assert Range(leaves)[0..|peaks|] == Range(leaves);
    var folded := FoldPeaks(sha384, roots, Range(leaves));
    if leaves != [] { PeaksNonEmpty(LeafTrees(leaves)); }
    root := match folded case Some(r) => r case None => HashLeaf(sha384, []);
  }

  // ----- Conservation ------------------------------------------------------------------------

  function FrontierOf(ts: seq<Tree>): seq<Digest> {
    if ts == [] then [] else FrontierOf(ts[..|ts| - 1]) + Frontier(ts[|ts| - 1])
  }

  lemma FrontierOfPush(ts: seq<Tree>, t: Tree)
    ensures FrontierOf(ts + [t]) == FrontierOf(ts) + Frontier(t)
  {
    assert (ts + [t])[..|ts|] == ts;
  }

  lemma {:induction false} PairsKeepFrontier(level: seq<Tree>)
    requires |level| % 2 == 0
    ensures FrontierOf(Pairs(level)) == FrontierOf(level)
    decreases |level|
  {
    if level != [] {
      var front, l, r := level[..|level| - 2], level[|level| - 2], level[|level| - 1];
      PairsKeepFrontier(front);
      assert Pairs(level) == Pairs(front) + [Node(l, r)];
      assert level == (front + [l]) + [r];
      FrontierOfTwo(Pairs(front), front, l, r);
    }
  }

  lemma FrontierOfTwo(above: seq<Tree>, front: seq<Tree>, l: Tree, r: Tree)
    requires FrontierOf(above) == FrontierOf(front)
    ensures FrontierOf(above + [Node(l, r)]) == FrontierOf((front + [l]) + [r])
  {
    FrontierOfPush(above, Node(l, r));
    FrontierOfPush(front, l);
    FrontierOfPush(front + [l], r);
    assert FrontierOf(front) + Frontier(l) + Frontier(r) == FrontierOf(front) + (Frontier(l) + Frontier(r));
  }

  lemma {:induction false} PeaksKeepFrontier(level: seq<Tree>)
    ensures FrontierOf(Peaks(level)) == FrontierOf(level)
    decreases |level|
  {
    if |level| % 2 == 1 {
      var front, last := level[..|level| - 1], level[|level| - 1];
      PairsKeepFrontier(front);
      assert Pairs(front) == Pairs(level);
      PeaksKeepFrontier(Pairs(level));
      FrontierOfPush(Peaks(Pairs(level)), last);
    } else if level != [] {
      PairsKeepFrontier(level);
      PeaksKeepFrontier(Pairs(level));
      assert Peaks(level) == Peaks(Pairs(level));
    }
  }

  lemma {:induction false} FrontierOfTail(ts: seq<Tree>)
    requires ts != []
    ensures FrontierOf(ts) == Frontier(ts[0]) + FrontierOf(ts[1..])
  {
    if |ts| > 1 {
      FrontierOfTail(ts[..|ts| - 1]);
      assert ts[..|ts| - 1][1..] == ts[1..][..|ts| - 2];
    } else {
      assert ts[..0] == [] && ts[1..] == [];
    }
  }

  lemma {:induction false} BagKeepsFrontier(peaks: seq<Tree>)
    requires peaks != []
    ensures Frontier(Bag(peaks)) == FrontierOf(peaks)
  {
    FrontierOfTail(peaks);
    if |peaks| > 1 {
      BagKeepsFrontier(peaks[1..]);
    }
  }

  lemma {:induction false} FrontierOfLeafTrees(leaves: seq<Digest>)
    ensures FrontierOf(LeafTrees(leaves)) == leaves
  {
    if leaves != [] {
      var front := leaves[..|leaves| - 1];
      FrontierOfLeafTrees(front);
      assert LeafTrees(leaves)[..|leaves| - 1] == LeafTrees(front);
    }
  }

  lemma {:induction false} NodesOneLessThanLeaves(t: Tree)
    ensures InternalNodes(t) == |Frontier(t)| - 1
  {
    if t.Node? {
      NodesOneLessThanLeaves(t.left);
      NodesOneLessThanLeaves(t.right);
    }
  }

  /** No leaf is lost, repeated or moved, and n leaves take n - 1 internal nodes. */
  lemma TreeKeepsLeaves(leaves: seq<Digest>)
    requires leaves != []
    ensures Frontier(TreeOf(leaves)) == leaves
    ensures InternalNodes(TreeOf(leaves)) == |leaves| - 1
  {
    PeaksNonEmpty(LeafTrees(leaves));
    BagKeepsFrontier(Range(leaves));
    PeaksKeepFrontier(LeafTrees(leaves));
    FrontierOfLeafTrees(leaves);
    NodesOneLessThanLeaves(TreeOf(leaves));
  }

  // ----- The tree by halves ------------------------------------------------------------------

  /** The largest power of two below n. */
  function LargestPower(n: nat): (k: nat)
    requires n >= 2
    ensures IsPow2(k) && k < n <= 2 * k
  {
    if n == 2 then 1 else 2 * LargestPower((n + 1) / 2)
  }

  lemma {:induction false} PeaksOfPower(level: seq<Tree>)
    requires IsPow2(|level|)
    ensures Peaks(level) == [PerfectTree(level)]
    decreases |level|
  {
    if |level| > 1 {
      PeaksOfPower(Pairs(level));
      assert Peaks(level) == Peaks(Pairs(level)) + [];
    } else {
      assert Pairs(level) == [];
      Single(level);
    }
  }

  lemma {:induction false} PerfectSplits(level: seq<Tree>)
    requires IsPow2(|level|) && |level| >= 2
    ensures var half := |level| / 2;
            IsPow2(half) && PerfectTree(level) == Node(PerfectTree(level[..half]), PerfectTree(level[half..]))
    decreases |level|
  {
    var half := |level| / 2;
    if |level| > 2 {
      PerfectSplits(Pairs(level));
      PairsOfHalves(level, half);
    } else {
      assert Pairs(level) == [Node(level[0], level[1])] && level[..1] == [level[0]] && level[1..] == [level[1]];
    }
  }

  lemma PairsOfHalves(level: seq<Tree>, k: nat)
    requires k % 2 == 0 && k <= |level|
    ensures Pairs(level)[..k / 2] == Pairs(level[..k]) && Pairs(level)[k / 2..] == Pairs(level[k..])
  {
  }

  lemma {:induction false} PeaksSplit(level: seq<Tree>, k: nat)
    requires IsPow2(k) && k <= |level| < 2 * k
    ensures Peaks(level) == Peaks(level[..k]) + Peaks(level[k..])
    decreases |level|
  {
    if k == 1 {
      Single(level);
      assert level[..1] == level && Peaks(level[1..]) == [];
    } else {
      PairsOfHalves(level, k);
      PeaksSplit(Pairs(level), k / 2);
      PeaksStep(level);
      PeaksStep(level[..k]);
      PeaksStep(level[k..]);
      Regroup(Peaks(Pairs(level[..k])), Peaks(Pairs(level[k..])), if |level| % 2 == 1 then [level[|level| - 1]] else []);
    }
  }

  lemma PeaksStep(level: seq<Tree>)
    ensures Peaks(level) == Peaks(Pairs(level)) + if |level| % 2 == 1 then [level[|level| - 1]] else []
  {
    if level == [] {
      assert Pairs(level) == [];
    }
  }

  lemma PowerSplits(level: seq<Tree>, k: nat)
    requires IsPow2(k) && |level| == 2 * k
    ensures Peaks(level) == [Node(PerfectTree(level[..k]), PerfectTree(level[k..]))]
    ensures Peaks(level[..k]) == [PerfectTree(level[..k])] && Peaks(level[k..]) == [PerfectTree(level[k..])]
  {
    PeaksOfPower(level);
    PeaksOfPower(level[..k]);
    PeaksOfPower(level[k..]);
    PerfectSplits(level);
  }

  lemma FirstPeak(level: seq<Tree>, k: nat)
    requires IsPow2(k) && k < |level| < 2 * k
    ensures Peaks(level[..k]) == [PerfectTree(level[..k])] && Peaks(level[k..]) != []
    ensures Peaks(level) == [PerfectTree(level[..k])] + Peaks(level[k..])
  {
    PeaksOfPower(level[..k]);
    PeaksNonEmpty(level[k..]);
    PeaksSplit(level, k);
  }

  lemma BagOfMore(first: Tree, rest: seq<Tree>)
    requires rest != []
    ensures Bag([first] + rest) == Node(first, Bag(rest)) && Bag([first]) == first
  {
    assert ([first] + rest)[1..] == rest;
  }

  lemma TreeSplits(level: seq<Tree>, k: nat)
    requires IsPow2(k) && k < |level| <= 2 * k
    ensures Peaks(level) != [] && Peaks(level[..k]) != [] && Peaks(level[k..]) != []
    ensures Bag(Peaks(level)) == Node(Bag(Peaks(level[..k])), Bag(Peaks(level[k..])))
  {
    if |level| == 2 * k {
      PowerSplits(level, k);
    } else {
      FirstPeak(level, k);
      BagOfMore(PerfectTree(level[..k]), Peaks(level[k..]));
    }
  }

  /**
   * The root by halves, cut as in section 2.1 of RFC 6962, with this tree's own prefixes: no leaves, one leaf,
   * or the roots of the first k leaves and of the others, k being the largest power of two below their number.
   */
  function RootByHalves(sha384: Sha384, leaves: seq<Digest>): Digest
    decreases |leaves|
  {
    if leaves == [] then sha384([0x00])
    else if |leaves| == 1 then leaves[0]
    else
      var k := LargestPower(|leaves|);
      sha384([0x02] + RootByHalves(sha384, leaves[..k]) + RootByHalves(sha384, leaves[k..]))
  }

  /** The mountain range has that very root. */
  lemma {:induction false} RootIsByHalves(sha384: Sha384, leaves: seq<Digest>)
    ensures TreeRoot(sha384, leaves) == RootByHalves(sha384, leaves)
    decreases |leaves|
  {
    if leaves == [] {
      assert [LEAF_PREFIX] + [] == [0x00];
    } else if |leaves| == 1 {
      PeaksOfPower(LeafTrees(leaves));
    } else {
      var k := LargestPower(|leaves|);
      RootIsByHalves(sha384, leaves[..k]);
      RootIsByHalves(sha384, leaves[k..]);
      TreeSplits(LeafTrees(leaves), k);
      assert LeafTrees(leaves)[..k] == LeafTrees(leaves[..k]) && LeafTrees(leaves)[k..] == LeafTrees(leaves[k..]);
    }
  }

  // ----- Inclusion witnesses -----------------------------------------------------------------

  datatype Side = Left | Right
  datatype Sibling = Sibling(side: Side, hash: Digest)

  datatype MerkleWitness = MerkleWitness(
    siblings: seq<Sibling>,
    leftPeaks: seq<Digest>,
    rightRoot: Option<Digest>)
  {
    function Size(): nat {
      |siblings| + |leftPeaks| + if rightRoot.Some? then 1 else 0
    }
  }

  function Absorb(sha384: Sha384, acc: Digest, s: Sibling): Digest {
    if s.side.Left? then HashInternal(sha384, s.hash, acc) else HashInternal(sha384, acc, s.hash)
  }

  /** The running hash after a list of siblings has been absorbed in order. */
  function Climb(sha384: Sha384, leaf: Digest, path: seq<Sibling>): Digest {
    if path == [] then leaf
    else Absorb(sha384, Climb(sha384, leaf, path[..|path| - 1]), path[|path| - 1])
  }

  /** Left peaks wrap the accumulator from the nearest one outwards. */
  function LeftSteps(leftPeaks: seq<Digest>): seq<Sibling> {
    if leftPeaks == [] then [] else LeftSteps(leftPeaks[1..]) + [Sibling(Left, leftPeaks[0])]
  }

  /** A witness of any shape is one list of siblings. */
  function Steps(w: MerkleWitness): seq<Sibling> {
    w.siblings
    + (if w.rightRoot.Some? then [Sibling(Right, w.rightRoot.value)] else [])
    + LeftSteps(w.leftPeaks)
  }

  function Folded(sha384: Sha384, leaf: Digest, w: MerkleWitness): Digest {
    Climb(sha384, leaf, Steps(w))
  }

  lemma {:induction false} ClimbAppend(sha384: Sha384, leaf: Digest, a: seq<Sibling>, b: seq<Sibling>)
    ensures Climb(sha384, leaf, a + b) == Climb(sha384, Climb(sha384, leaf, a), b)
  {
    if b == [] {
      assert a + b == a;
    } else {
      ClimbAppend(sha384, leaf, a, b[..|b| - 1]);
      assert (a + b)[..|a + b| - 1] == a + b[..|b| - 1];
    }
  }

  lemma ClimbPush(sha384: Sha384, leaf: Digest, path: seq<Sibling>, s: Sibling)
    ensures Climb(sha384, leaf, path + [s]) == Absorb(sha384, Climb(sha384, leaf, path), s)
  {
    assert (path + [s])[..|path|] == path;
  }

  method ClimbPath(sha384: Sha384, leaf: Digest, path: seq<Sibling>) returns (acc: Digest)
    ensures acc == Climb(sha384, leaf, path)
  {
    acc := leaf;
    ghost var climbed: seq<Sibling> := [];
    for i := 0 to |path|
      invariant climbed == path[..i]
      invariant acc == Climb(sha384, leaf, climbed)
    {
      acc := match path[i].side
             case Left => HashInternal(sha384, path[i].hash, acc)
             case Right => HashInternal(sha384, acc, path[i].hash);
      ClimbPush(sha384, leaf, climbed, path[i]);
      climbed := climbed + [path[i]];
    }
    assert climbed == path;
  }

  method WrapLeft(sha384: Sha384, inner: Digest, leftPeaks: seq<Digest>) returns (acc: Digest)
    ensures acc == Climb(sha384, inner, LeftSteps(leftPeaks))
  {
    acc := inner;
    var j := |leftPeaks|;
    while j > 0
      invariant 0 <= j <= |leftPeaks|
      invariant acc == Climb(sha384, inner, LeftSteps(leftPeaks[j..]))
    {
      j := j - 1;
      assert leftPeaks[j..][1..] == leftPeaks[j + 1..];
      acc := HashInternal(sha384, leftPeaks[j], acc);
      ClimbPush(sha384, inner, LeftSteps(leftPeaks[j + 1..]), Sibling(Left, leftPeaks[j]));
    }
    assert leftPeaks[0..] == leftPeaks;
  }

  method FoldWitness(sha384: Sha384, leaf: Digest, w: MerkleWitness) returns (acc: Digest)
    ensures acc == Folded(sha384, leaf, w)
  {
    acc := ClimbPath(sha384, leaf, w.siblings);
    ghost var path := w.siblings + [];
    if w.rightRoot.Some? {
      acc := HashInternal(sha384, acc, w.rightRoot.value);
      path := w.siblings + [Sibling(Right, w.rightRoot.value)];
      ClimbPush(sha384, leaf, w.siblings, Sibling(Right, w.rightRoot.value));
    }
    ClimbAppend(sha384, leaf, path, LeftSteps(w.leftPeaks));
    assert Steps(w) == path + LeftSteps(w.leftPeaks);
    assert w.siblings + [] == w.siblings;
    acc := WrapLeft(sha384, acc, w.leftPeaks);
  }

  /** The other child of the node above position `pos`. */
  function SiblingOf(sha384: Sha384, level: seq<Tree>, pos: nat): Sibling
    requires |level| % 2 == 0 && pos < |level|
  {
    if pos % 2 == 0 then Sibling(Right, Value(sha384, level[pos + 1])) else Sibling(Left, Value(sha384, level[pos - 1]))
  }

  /** The siblings on the way from position `pos` of a level to its one tree. */
  function PathFrom(sha384: Sha384, level: seq<Tree>, pos: nat): seq<Sibling>
    requires IsPow2(|level|) && pos < |level|
    decreases |level|
  {
    if |level| == 1 then [] else [SiblingOf(sha384, level, pos)] + PathFrom(sha384, Pairs(level), pos / 2)
  }

  method PeakPath(sha384: Sha384, peakLeaves: seq<Digest>, index: nat) returns (siblings: seq<Sibling>)
    requires IsPow2(|peakLeaves|) && index < |peakLeaves|
    ensures siblings == PathFrom(sha384, LeafTrees(peakLeaves), index)
  {
    siblings := [];
    var level := peakLeaves;
    var pos := index;
    ghost var trees := LeafTrees(peakLeaves);
    ghost var all := PathFrom(sha384, trees, pos);
    while |level| > 1
      invariant IsPow2(|level|) && 0 <= pos < |level| && level == Values(sha384, trees)
      invariant all == siblings + PathFrom(sha384, trees, pos)
      decreases |level|
    {
      var sibling := if pos % 2 == 0 then Sibling(Right, level[pos + 1]) else Sibling(Left, level[pos - 1]);
      ghost var rest := PathFrom(sha384, Pairs(trees), pos / 2);
      assert sibling == SiblingOf(sha384, trees, pos);
      Regroup(siblings, [sibling], rest);
      siblings := siblings + [sibling];
      level := NextLevel(sha384, level, trees);
      trees := Pairs(trees);
      pos := pos / 2;
    }
    assert all == siblings;
  }

  /** The last peak starting at or before `index`. */
  function PeakOf(bs: seq<Bound>, index: nat): nat
    requires bs != [] && bs[0].start <= index
  {
    if bs[|bs| - 1].start <= index then |bs| - 1 else PeakOf(bs[..|bs| - 1], index)
  }

  lemma {:induction false} PeakOfHolds(bs: seq<Bound>, n: nat, index: nat)
    requires Tiles(bs, n) && index < n
    ensures bs != [] && bs[0].start == 0
    ensures var p := PeakOf(bs, index); p < |bs| && bs[p].start <= index < bs[p].start + bs[p].size
  {
    TilesAt(bs, n, 0);
    if bs[|bs| - 1].start > index {
      PeakOfHolds(bs[..|bs| - 1], bs[|bs| - 1].start, index);
    }
  }

  /** The number of the peak that holds leaf `index`. */
  function PeakIndex(leaves: seq<Digest>, index: nat): (p: nat)
    requires index < |leaves|
    ensures p < |Range(leaves)| == |Bounds(|leaves|)|
    ensures HoldsLeaf(leaves, Bounds(|leaves|)[p], index)
  {
    BoundsTile(|leaves|);
    PeakOfHolds(Bounds(|leaves|), |leaves|, index);
    var p := PeakOf(Bounds(|leaves|), index);
    RangeAt(leaves, p);
    p
  }

  predicate HoldsLeaf(leaves: seq<Digest>, b: Bound, index: nat) {
    b.start <= index < b.start + b.size <= |leaves| && IsPow2(b.size)
  }

  function PathInPeak(sha384: Sha384, leaves: seq<Digest>, b: Bound, index: nat): seq<Sibling>
    requires HoldsLeaf(leaves, b, index)
  {
    PathFrom(sha384, LeafTrees(LeavesOf(leaves, b)), index - b.start)
  }

  function OwnPath(sha384: Sha384, leaves: seq<Digest>, index: nat): seq<Sibling>
    requires index < |leaves|
  {
    PathInPeak(sha384, leaves, Bounds(|leaves|)[PeakIndex(leaves, index)], index)
  }

  /** The witness the tree calls for: own-peak path, peaks to the left, right side pre-folded. */
  function WitnessOf(sha384: Sha384, leaves: seq<Digest>, index: nat): Option<MerkleWitness> {
    if index >= |leaves| then None
    else
      var p := PeakIndex(leaves, index);
      var range := Range(leaves);
      Some(MerkleWitness(
        OwnPath(sha384, leaves, index),
        Values(sha384, range[..p]),
        if p + 1 == |range| then None else Some(Value(sha384, Bag(range[p + 1..])))))
  }

  /** Walk back from the last bound to the one holding `index`. */
  method FindPeak(peaks: seq<Bound>, n: nat, index: nat) returns (p: nat)
    requires Tiles(peaks, n) && index < n
    ensures peaks != [] && peaks[0].start == 0 && p == PeakOf(peaks, index)
  {
    PeakOfHolds(peaks, n, index);
    p := |peaks| - 1;
    assert peaks[..|peaks|] == peaks;
    while peaks[p].start > index
      invariant 0 <= p < |peaks|
      invariant PeakOf(peaks[..p + 1], index) == PeakOf(peaks, index)
      decreases p
    {
      assert peaks[..p + 1][..p] == peaks[..p];
      p := p - 1;
    }
  }

  method WitnessFor(sha384: Sha384, leaves: seq<Digest>, index: nat) returns (r: Option<MerkleWitness>)
    requires |leaves| < TWO_64
    ensures r == WitnessOf(sha384, leaves, index)
  {
    if index >= |leaves| {
      return None;
    }
    var peaks := PeakBounds(|leaves|);
    var p := HoldingPeak(leaves, peaks, index);
    var b := peaks[p];
    var siblings := PeakPath(sha384, leaves[b.start..b.start + b.size], index - b.start);
    assert siblings == PathInPeak(sha384, leaves, b, index);
    var leftPeaks, rightRoot := OtherPeaks(sha384, leaves, peaks, p);
    return Some(MerkleWitness(siblings, leftPeaks, rightRoot));
  }

  method OtherPeaks(sha384: Sha384, leaves: seq<Digest>, peaks: seq<Bound>, p: nat)
    returns (leftPeaks: seq<Digest>, rightRoot: Option<Digest>)
    requires peaks == Bounds(|leaves|) && p < |peaks| == |Range(leaves)|
    ensures leftPeaks == Values(sha384, Range(leaves)[..p])
    ensures rightRoot == if p + 1 == |peaks| then None else Some(Value(sha384, Bag(Range(leaves)[p + 1..])))
  {
    ghost var range := Range(leaves);
    leftPeaks := PeakRoots(sha384, leaves, peaks, 0, p);
    assert range[0..p] == range[..p];
    var rightRoots := PeakRoots(sha384, leaves, peaks, p + 1, |peaks|);
    assert range[p + 1..|peaks|] == range[p + 1..];
    rightRoot := FoldPeaks(sha384, rightRoots, range[p + 1..]);
  }

  method HoldingPeak(leaves: seq<Digest>, peaks: seq<Bound>, index: nat) returns (p: nat)
    requires index < |leaves| && peaks == Bounds(|leaves|)
    ensures p == PeakIndex(leaves, index)
  {
    BoundsTile(|leaves|);
    p := FindPeak(peaks, |leaves|, index);
  }

  lemma ClimbOne(sha384: Sha384, level: seq<Tree>, pos: nat)
    requires |level| % 2 == 0 && pos < |level|
    ensures Climb(sha384, Value(sha384, level[pos]), [SiblingOf(sha384, level, pos)]) == Value(sha384, Pairs(level)[pos / 2])
  {
    var k := pos / 2;
    assert Pairs(level)[k] == Node(level[2 * k], level[2 * k + 1]);
    ClimbPush(sha384, Value(sha384, level[pos]), [], SiblingOf(sha384, level, pos));
    assert [] + [SiblingOf(sha384, level, pos)] == [SiblingOf(sha384, level, pos)];
  }

  /** Climbing a path inside one perfect peak ends at the peak, after one step per level. */
  lemma {:induction false} PathReachesPeak(sha384: Sha384, level: seq<Tree>, pos: nat)
    requires IsPow2(|level|) && pos < |level|
    ensures Climb(sha384, Value(sha384, level[pos]), PathFrom(sha384, level, pos))
            == Value(sha384, PerfectTree(level))
    ensures |PathFrom(sha384, level, pos)| == Log2(|level|)
    decreases |level|
  {
    if |level| > 1 {
      PathReachesPeak(sha384, Pairs(level), pos / 2);
      ClimbOne(sha384, level, pos);
      ClimbAppend(sha384, Value(sha384, level[pos]), [SiblingOf(sha384, level, pos)], PathFrom(sha384, Pairs(level), pos / 2));
    }
  }

  /** Wrapping by the left peaks turns the bag of the peaks from p on into the bag of all. */
  lemma {:induction false} LeftPeaksReachRoot(sha384: Sha384, peaks: seq<Tree>, p: nat)
    requires p < |peaks|
    ensures Climb(sha384, Value(sha384, Bag(peaks[p..])), LeftSteps(Values(sha384, peaks[..p])))
            == Value(sha384, Bag(peaks))
  {
    if p == 0 {
      assert peaks[0..] == peaks;
    } else {
      LeftPeaksReachRoot(sha384, peaks[1..], p - 1);
      assert peaks[1..][p - 1..] == peaks[p..];
      var left := Values(sha384, peaks[..p]);
      assert Values(sha384, peaks[1..][..p - 1]) == left[1..];
      ClimbPush(sha384, Value(sha384, Bag(peaks[p..])), LeftSteps(left[1..]), Sibling(Left, left[0]));
    }
  }

  lemma PathInPeakReachesIt(sha384: Sha384, leaves: seq<Digest>, b: Bound, index: nat)
    requires HoldsLeaf(leaves, b, index)
    ensures var path := PathInPeak(sha384, leaves, b, index);
            && Climb(sha384, leaves[index], path) == Value(sha384, PeakTree(leaves, b))
            && |path| == Log2(b.size)
  {
    PathInLeaves(sha384, LeavesOf(leaves, b), index - b.start);
    LeafOf(leaves, b, index);
  }

  lemma LeafOf(leaves: seq<Digest>, b: Bound, index: nat)
    requires HoldsLeaf(leaves, b, index)
    ensures |LeavesOf(leaves, b)| == b.size && LeavesOf(leaves, b)[index - b.start] == leaves[index]
  {
  }

  lemma PathInLeaves(sha384: Sha384, own: seq<Digest>, pos: nat)
    requires IsPow2(|own|) && pos < |own|
    ensures var path := PathFrom(sha384, LeafTrees(own), pos);
            Climb(sha384, own[pos], path) == Value(sha384, PerfectTree(LeafTrees(own))) && |path| == Log2(|own|)
  {
    PathReachesPeak(sha384, LeafTrees(own), pos);
  }

  lemma OwnPathReachesPeak(sha384: Sha384, leaves: seq<Digest>, index: nat)
    requires index < |leaves|
    ensures var p := PeakIndex(leaves, index);
            var path := OwnPath(sha384, leaves, index);
            && Climb(sha384, leaves[index], path) == Value(sha384, Range(leaves)[p])
            && |path| == Log2(Bounds(|leaves|)[p].size)
  {
    var p := PeakIndex(leaves, index);
    var b := Bounds(|leaves|)[p];
    PathInPeakReachesIt(sha384, leaves, b, index);
    PeakTreeAt(leaves, p);
  }

  /** The right side, when there is one, joins the own peak into the bag of the peaks from p on. */
  lemma RightRootJoins(sha384: Sha384, leaf: Digest, path: seq<Sibling>, peaks: seq<Tree>, right: Option<Digest>)
    requires peaks != [] && Climb(sha384, leaf, path) == Value(sha384, peaks[0])
    requires right == if |peaks| == 1 then None else Some(Value(sha384, Bag(peaks[1..])))
    ensures Climb(sha384, leaf, path + if right.Some? then [Sibling(Right, right.value)] else [])
            == Value(sha384, Bag(peaks))
  {
    if right.Some? {
      ClimbPush(sha384, leaf, path, Sibling(Right, right.value));
    } else {
      assert path + [] == path;
    }
  }

  /** Every leaf of every non-empty tree has a witness, and it folds to the root. */
  lemma WitnessComplete(sha384: Sha384, leaves: seq<Digest>, index: nat)
    requires index < |leaves|
    ensures var w := WitnessOf(sha384, leaves, index);
            w.Some? && Folded(sha384, leaves[index], w.value) == TreeRoot(sha384, leaves)
  {
    var p, range := PeakIndex(leaves, index), Range(leaves);
    var w := WitnessOf(sha384, leaves, index).value;
    OwnPathReachesPeak(sha384, leaves, index);
    assert range[p..][1..] == range[p + 1..];
    RightRootJoins(sha384, leaves[index], w.siblings, range[p..], w.rightRoot);
    LeftPeaksReachRoot(sha384, range, p);
    var own := w.siblings + if w.rightRoot.Some? then [Sibling(Right, w.rightRoot.value)] else [];
    ClimbAppend(sha384, leaves[index], own, LeftSteps(w.leftPeaks));
  }

  /** A witness carries at most floor(log2 n) + 1 hashes. */
  lemma WitnessIsShort(sha384: Sha384, leaves: seq<Digest>, index: nat)
    requires index < |leaves|
    ensures var w := WitnessOf(sha384, leaves, index);
            w.Some? && w.value.Size() <= Log2(|leaves|) + 1
  {
    OwnPathReachesPeak(sha384, leaves, index);
    BoundHeight(|leaves|, PeakIndex(leaves, index));
  }

  lemma BoundHeight(n: nat, p: nat)
    requires p < |Bounds(n)|
    ensures Log2(Bounds(n)[p].size) + p <= Log2(n)
  {
    BoundsHeights(n);
  }
}
