/**
 The growable left-leaning Merkle tree of crates/mini_merkle_tree/src/lib.rs. Trimmed leaves
 are replaced by a cache of at most one left sibling per level; the naive tree over every leaf
 ever pushed is the specification.
 */
module MiniMerkle {
  import opened Wrappers

  // ----- binary positions

  function Pow2(n: nat): (p: nat)
    ensures p >= 1
  {
    if n == 0 then 1 else 2 * Pow2(n - 1)
  }

  /** `x >> level`, the ancestor of position `x` at `level`. */
  function Up(x: nat, level: nat): nat {
    if level == 0 then x else Up(x, level - 1) / 2
  }

  function Sibling(i: nat): nat {
    if i % 2 == 0 then i + 1 else i - 1
  }

  lemma {:induction false} UpMonotone(x: nat, y: nat, level: nat)
    requires x <= y
    ensures Up(x, level) <= Up(y, level)
  {
    if level == 0 {
    } else {
      UpMonotone(x, y, level - 1);
    }
  }

  lemma {:induction false} UpPow2(d: nat, level: nat)
    requires level <= d
    ensures Up(Pow2(d), level) == Pow2(d - level)
  {
    if level == 0 {
    } else {
      UpPow2(d, level - 1);
    }
  }

  lemma {:induction false} UpBelow(x: nat, d: nat, level: nat)
    requires x < Pow2(d) && level <= d
    ensures Up(x, level) < Pow2(d - level)
  {
    if level == 0 {
    } else {
      UpBelow(x, d, level - 1);
    }
  }

  /** `trailing_zeros` of a power of two. */
  function TreeDepthBySize(size: nat): nat {
    if size <= 1 then 0 else 1 + TreeDepthBySize(size / 2)
  }

  lemma {:induction false} DepthOfPow2(d: nat)
    ensures TreeDepthBySize(Pow2(d)) == d
  {
    if d == 0 {
    } else {
      DepthOfPow2(d - 1);
    }
  }

  // ----- the naive tree

  function EmptyNode<H>(compress: (H, H) -> H, emptyLeaf: H, level: nat): H {
    if level == 0 then emptyLeaf
    else compress(EmptyNode(compress, emptyLeaf, level - 1), EmptyNode(compress, emptyLeaf, level - 1))
  }

  /** Node `i` of `level` in the infinite tree over `leaves` padded with empty leaves. */
  ghost function Node<H>(compress: (H, H) -> H, emptyLeaf: H, leaves: seq<H>, level: nat, i: nat): H {
    if level == 0 then if i < |leaves| then leaves[i] else emptyLeaf
    else compress(Node(compress, emptyLeaf, leaves, level - 1, 2 * i),
                  Node(compress, emptyLeaf, leaves, level - 1, 2 * i + 1))
  }

  /** How many nodes of `level` have a leaf below them. */
  function Populated(count: nat, level: nat): nat {
    if level == 0 then count else (Populated(count, level - 1) + 1) / 2
  }

  lemma {:induction false} BeyondPopulated<H>(compress: (H, H) -> H, emptyLeaf: H, leaves: seq<H>, level: nat, i: nat)
    requires i >= Populated(|leaves|, level)
    ensures Node(compress, emptyLeaf, leaves, level, i) == EmptyNode(compress, emptyLeaf, level)
  {
    if level == 0 {
    } else {
      BeyondPopulated(compress, emptyLeaf, leaves, level - 1, 2 * i);
      BeyondPopulated(compress, emptyLeaf, leaves, level - 1, 2 * i + 1);
    }
  }

  /** A subtree that is already full does not notice later leaves. */
  lemma {:induction false} FullNodeIsStable<H>(compress: (H, H) -> H, emptyLeaf: H, leaves: seq<H>, more: seq<H>,
                                               level: nat, i: nat)
    requires i < Up(|leaves|, level)
    ensures Node(compress, emptyLeaf, leaves + more, level, i) == Node(compress, emptyLeaf, leaves, level, i)
  {
    if level == 0 {
    } else {
      FullNodeIsStable(compress, emptyLeaf, leaves, more, level - 1, 2 * i);
      FullNodeIsStable(compress, emptyLeaf, leaves, more, level - 1, 2 * i + 1);
    }
  }

  ghost function Nodes<H>(compress: (H, H) -> H, emptyLeaf: H, leaves: seq<H>, level: nat, lo: nat, hi: nat): seq<H>
    requires lo <= hi
  {
    seq(hi - lo, k requires 0 <= k < hi - lo => Node(compress, emptyLeaf, leaves, level, lo + k))
  }

  /** The left sibling on the way up from `position` at `level`, if the way goes through a right child there. */
  ghost function LeftEdge<H>(compress: (H, H) -> H, emptyLeaf: H, leaves: seq<H>, position: nat, level: nat)
    : Option<H>
  {
    var i := Up(position, level);
    if i % 2 == 1 then Some(Node(compress, emptyLeaf, leaves, level, i - 1)) else None
  }

  ghost function RightEdge<H>(compress: (H, H) -> H, emptyLeaf: H, leaves: seq<H>, position: nat, level: nat)
    : Option<H>
  {
    var i := Up(position, level);
    if i % 2 == 0 then Some(Node(compress, emptyLeaf, leaves, level, i + 1)) else None
  }

  lemma NodesExtend<H>(compress: (H, H) -> H, emptyLeaf: H, leaves: seq<H>, level: nat, lo: nat,
                       hi: nat)
    requires lo <= hi
    ensures |Nodes(compress, emptyLeaf, leaves, level, lo, hi)| == hi - lo
    ensures lo > 0 ==>
      [Node(compress, emptyLeaf, leaves, level, lo - 1)] + Nodes(compress, emptyLeaf, leaves, level, lo, hi)
      == Nodes(compress, emptyLeaf, leaves, level, lo - 1, hi)
    ensures
      Nodes(compress, emptyLeaf, leaves, level, lo, hi) + [Node(compress, emptyLeaf, leaves, level, hi)]
      == Nodes(compress, emptyLeaf, leaves, level, lo, hi + 1)
  {
  }

  lemma NodesElement<H>(compress: (H, H) -> H, emptyLeaf: H, leaves: seq<H>, level: nat, lo: nat,
                        hi: nat, k: nat)
    requires lo + k < hi
    ensures |Nodes(compress, emptyLeaf, leaves, level, lo, hi)| == hi - lo
    ensures Nodes(compress, emptyLeaf, leaves, level, lo, hi)[k] == Node(compress, emptyLeaf, leaves, level, lo + k)
  {
  }

  function PairUp<H>(compress: (H, H) -> H, hashes: seq<H>): seq<H> {
    seq(|hashes| / 2, k requires 0 <= k < |hashes| / 2 => compress(hashes[2 * k], hashes[2 * k + 1]))
  }

  /** Compressing an aligned run of nodes gives the run of their parents. */
  lemma {:induction false} PairUpNodes<H>(compress: (H, H) -> H, emptyLeaf: H, leaves: seq<H>, level: nat, lo: nat,
                                          hi: nat)
    requires lo <= hi
    ensures PairUp(compress, Nodes(compress, emptyLeaf, leaves, level, 2 * lo, 2 * hi))
         == Nodes(compress, emptyLeaf, leaves, level + 1, lo, hi)
  {
    var children := Nodes(compress, emptyLeaf, leaves, level, 2 * lo, 2 * hi);
    forall k | 0 <= k < hi - lo
      ensures PairUp(compress, children)[k] == Node(compress, emptyLeaf, leaves, level + 1, lo + k)
    {
      assert children[2 * k] == Node(compress, emptyLeaf, leaves, level, 2 * (lo + k));
      assert children[2 * k + 1] == Node(compress, emptyLeaf, leaves, level, 2 * (lo + k) + 1);
    }
  }

  /** One level of the in-place computation: pairs are overwritten from the front, then the rest is dropped. */
  method CompressLevel<H>(compress: (H, H) -> H, level: seq<H>) returns (hashes: seq<H>)
    ensures hashes == PairUp(compress, level)
  {
    hashes := level;
    var levelLen := |hashes| / 2;
    for i := 0 to levelLen
      invariant |hashes| == |level|
      invariant forall k :: 0 <= k < i ==> hashes[k] == PairUp(compress, level)[k]
      invariant forall k :: i <= k < |level| ==> hashes[k] == level[k]
    {
      hashes := hashes[i := compress(hashes[2 * i], hashes[2 * i + 1])];
    }
    hashes := hashes[..levelLen];
  }

  // ----- the cached tree

  datatype Side = Left | Right

  lemma {:induction false} DoubledSize(size: nat)
    requires size == Pow2(TreeDepthBySize(size))
    ensures 2 * size == Pow2(TreeDepthBySize(2 * size)) && TreeDepthBySize(2 * size) == TreeDepthBySize(size) + 1
  {
    DepthOfPow2(TreeDepthBySize(size) + 1);
  }

  lemma {:induction false} LeftEdgeOutside<H>(compress: (H, H) -> H, emptyLeaf: H, leaves: seq<H>, position: nat,
                                              d: nat)
    ensures position < Pow2(d) ==> LeftEdge(compress, emptyLeaf, leaves, position, d) == None
  {
    if position < Pow2(d) {
      UpBelow(position, d, d);
    }
  }

  /** Appending a leaf changes no left sibling of a position already reached. */
  lemma {:induction false} LeftEdgeIsStable<H>(compress: (H, H) -> H, emptyLeaf: H, leaves: seq<H>, leaf: H,
                                               position: nat, l: nat)
    requires position <= |leaves|
    ensures LeftEdge(compress, emptyLeaf, leaves + [leaf], position, l) ==
            LeftEdge(compress, emptyLeaf, leaves, position, l)
  {
    hide Node, Up;
    if Up(position, l) % 2 == 1 {
      UpMonotone(position, |leaves|, l);
      FullNodeIsStable(compress, emptyLeaf, leaves, [leaf], l, Up(position, l) - 1);
    }
  }

  class MiniMerkleTree<H(==)> {
    const compress: (H, H) -> H
    const emptyLeaf: H
    const emptyLeafOverride: Option<H>
    var hashes: seq<H>
    var binaryTreeSize: nat
    var startIndex: nat
    var cache: seq<Option<H>>
    /** Every leaf ever pushed, trimmed or not. */
    ghost var leaves: seq<H>

    function Padding(): H {
      if emptyLeafOverride.Some? then emptyLeafOverride.value else emptyLeaf
    }

    function Depth(): nat
      reads this`binaryTreeSize
    {
      TreeDepthBySize(binaryTreeSize)
    }

    ghost function NodeAt(level: nat, i: nat): H
      reads this`leaves
    {
      Node(compress, Padding(), leaves, level, i)
    }

    /** The naive root over all leaves ever pushed. */
    ghost function Root(): H
      reads this`leaves, this`binaryTreeSize
    {
      NodeAt(Depth(), 0)
    }

    /** The left sibling on the way up from `position`, if there is one at `level`. */
    ghost function LeftSlot(position: nat, level: nat): Option<H>
      reads this`leaves
    {
      LeftEdge(compress, Padding(), leaves, position, level)
    }

    ghost function RightSlot(position: nat, level: nat): Option<H>
      reads this`leaves
    {
      RightEdge(compress, Padding(), leaves, position, level)
    }

    ghost predicate Valid()
      reads this
    {
      && binaryTreeSize == Pow2(Depth())
      && startIndex <= |leaves| <= binaryTreeSize
      && hashes == leaves[startIndex..]
      && |cache| == (if startIndex == binaryTreeSize then Depth() + 1 else Depth())
      && CacheHolds(cache, startIndex)
    }

    /** Slot `l` is filled exactly when bit `l` of the position is set, with the node just left of the way up. */
    ghost predicate CacheHolds(slots: seq<Option<H>>, position: nat)
      reads this`leaves
    {
      forall l :: 0 <= l < |slots| ==> slots[l] == LeftSlot(position, l)
    }

    /** Nothing is left to hash: no leaf was ever pushed, or all are trimmed and the tree is full. */
    predicate Exhausted()
      reads this
    {
      hashes == [] && (startIndex == 0 || startIndex == binaryTreeSize)
    }

    constructor FromHashes(compress: (H, H) -> H, emptyLeaf: H, emptyLeafOverride: Option<H>, leafHashes: seq<H>,
                           minTreeSize: Option<nat>)
      requires minTreeSize.Some? ==> minTreeSize.value == Pow2(TreeDepthBySize(minTreeSize.value))
      ensures Valid()
      ensures leaves == leafHashes && startIndex == 0
      ensures this.compress == compress && this.emptyLeaf == emptyLeaf && this.emptyLeafOverride == emptyLeafOverride
      ensures binaryTreeSize ==
        Max(if minTreeSize.Some? then minTreeSize.value else 1, NextPowerOfTwo(|leafHashes|))
    {
      var size := NextPowerOfTwo(|leafHashes|);
      if minTreeSize.Some? && minTreeSize.value > size {
        size := minTreeSize.value;
      }
      this.compress, this.emptyLeaf, this.emptyLeafOverride := compress, emptyLeaf, emptyLeafOverride;
      hashes, leaves := leafHashes, leafHashes;
      binaryTreeSize, startIndex := size, 0;
      cache := seq(TreeDepthBySize(size), _ => None);
      new;
      forall l | 0 <= l < |cache|
        ensures cache[l] == LeftSlot(0, l)
      {
        UpZero(l);
      }
    }

    /** What the path holds for `level` on the way up from `position`. */
    ghost predicate PathSlot(slot: Option<H>, side: Option<Side>, position: nat, level: nat)
      reads this`leaves
    {
      && (side == Some(Left) ==> slot == LeftSlot(position, level))
      && (position < |leaves| ==>
            && (side == Some(Right) ==> slot == RightSlot(position, level))
            && (side == None ==> slot == Some(NodeAt(level, Sibling(Up(position, level))))))
    }

    /** The nodes of one level, aligned to whole pairs with the cached left node and an empty right node. */
    method AlignLevel(l: nat, level: seq<H>, start: nat) returns (aligned: seq<H>, ghost low: nat, ghost high: nat)
      requires l < |cache| && cache[l] == LeftSlot(startIndex, l) && start == Up(startIndex, l)
      requires level == Nodes(compress, Padding(), leaves, l, start, start + |level|)
      requires Populated(|leaves|, l) <= start + |level|
      ensures low == start / 2 && high == (start + |level| + 1) / 2
      ensures |aligned| == 2 * high - 2 * low && aligned == Nodes(compress, Padding(), leaves, l, 2 * low, 2 * high)
    {
      hide Node, EmptyNode, Nodes, Up, Populated;
      low, high := start / 2, (start + |level| + 1) / 2;
      aligned := level;
      NodesExtend(compress, Padding(), leaves, l, start, start + |level|);
      if start % 2 != 0 {
        aligned := [cache[l].value] + aligned;
      }
      NodesExtend(compress, Padding(), leaves, l, 2 * low, start + |level|);
      if |aligned| % 2 != 0 {
        BeyondPopulated(compress, Padding(), leaves, l, start + |level|);
        aligned := aligned + [EmptyNode(compress, Padding(), l)];
      }
    }

    /** The loop's state at level `l`: the nodes from the first untrimmed leaf's ancestor on, covering all leaves. */
    ghost predicate LevelHolds(l: nat, level: seq<H>, relative: nat, start: nat, position: nat)
      requires l <= Depth()
      reads this
    {
      var end := start + |level|;
      && start == Up(startIndex, l) && start + relative == Up(position, l)
      && level == Nodes(compress, Padding(), leaves, l, start, end)
      && Populated(|leaves|, l) <= end <= Pow2(Depth() - l)
      && relative <= |level| && (position < |leaves| ==> relative < |level|)
      && (leaves == [] ==> startIndex == 0 && level == [])
    }

    /** One level of the climb: the path entry of this level and the nodes of the next. */
    method ClimbLevel(l: nat, side: Option<Side>, level: seq<H>, relative: nat, start: nat, ghost position: nat)
      returns (hash: Option<H>, level': seq<H>, relative': nat, start': nat)
      requires l < Depth() && l < |cache| && cache[l] == LeftSlot(startIndex, l)
      requires LevelHolds(l, level, relative, start, position)
      ensures PathSlot(hash, side, position, l)
      ensures LevelHolds(l + 1, level', relative', start', position)
    {
      hide Node, EmptyNode, TreeDepthBySize, Nodes, Up, Pow2, Populated, PathSlot, PairUp, LeftSlot;
      LevelArithmetic(startIndex, position, |leaves|, Depth(), l);
      HalfStep(start, |level|, relative, Populated(|leaves|, l), Pow2(Depth() - l - 1));
      var aligned;
      ghost var low, high;
      aligned, low, high := AlignLevel(l, level, start);
      hash := PathHash(l, side, aligned, relative + start % 2, low, high, position);
      PairUpNodes(compress, Padding(), leaves, l, low, high);
      level' := CompressLevel(compress, aligned);
      relative', start' := (relative + start % 2) / 2, start / 2;
      NodesExtend(compress, Padding(), leaves, l + 1, low, high);
    }

    /** The sibling of the node at `index` in an aligned level, restricted to `side`. */
    method PathHash(l: nat, side: Option<Side>, aligned: seq<H>, index: nat, ghost low: nat, ghost high: nat,
                    ghost position: nat) returns (hash: Option<H>)
      requires low <= high
      requires |aligned| == 2 * high - 2 * low && aligned == Nodes(compress, Padding(), leaves, l, 2 * low, 2 * high)
      requires 2 * low + index == Up(position, l) <= 2 * high
      requires position < |leaves| ==> Up(position, l) < 2 * high
      ensures PathSlot(hash, side, position, l)
    {
      hide Node, Nodes, Up;
      var sibling := Sibling(index);
      if sibling < |aligned| {
        NodesElement(compress, Padding(), leaves, l, 2 * low, 2 * high, sibling);
      }
      hash := if side == Some(Left) && index % 2 == 0 then None
              else if side == Some(Right) && index % 2 != 0 then None
              else if sibling < |aligned| then Some(aligned[sibling]) else None;
    }

    /**
     The root and the path to the leaf at `index` (relative to the first untrimmed leaf), or only
     the `side` part of the path. `None` for the root is the panic on an exhausted tree.
     */
    method ComputeMerkleRootAndPath(index: nat, side: Option<Side>) returns (root: Option<H>, path: seq<Option<H>>)
      requires Valid() && index <= |hashes|
      ensures root.Some? <==> !Exhausted()
      ensures root.Some? ==> root.value == Root()
      ensures |path| == Depth()
      ensures forall l :: 0 <= l < |path| ==> PathSlot(path[l], side, startIndex + index, l)
    {
      hide Node, TreeDepthBySize, Nodes, PathSlot, LevelHolds, Valid, LeftSlot, Exhausted, Up;
      var level := hashes;
      var relative: nat, start: nat := index, startIndex;
      path := [];
      ClimbStarts(index);
      for l := 0 to Depth()
        invariant LevelHolds(l, level, relative, start, startIndex + index)
        invariant |path| == l
        invariant forall k :: 0 <= k < l ==> PathSlot(path[k], side, startIndex + index, k)
      {
        CacheSlot(l);
        var hash;
        hash, level, relative, start := ClimbLevel(l, side, level, relative, start, startIndex + index);
        path := path + [hash];
      }
      ClimbEnds(level, relative, start, startIndex + index);
      root := if |level| > 0 then Some(level[0]) else None;
    }

    lemma CacheSlot(l: nat)
      requires Valid() && l < Depth()
      ensures l < |cache| && cache[l] == LeftSlot(startIndex, l)
    {
    }

    lemma {:induction false} ClimbStarts(index: nat)
      requires Valid() && index <= |hashes|
      ensures LevelHolds(0, hashes, index, startIndex, startIndex + index)
    {
      LeavesAreNodes(compress, Padding(), leaves, startIndex);
    }

    lemma {:induction false} ClimbEnds(level: seq<H>, relative: nat, start: nat, position: nat)
      requires Valid() && LevelHolds(Depth(), level, relative, start, position)
      ensures |level| > 0 <==> !Exhausted()
      ensures |level| > 0 ==> level[0] == Root()
    {
      hide Node, Nodes, TreeDepthBySize, CacheHolds;
      UpPow2(Depth(), Depth());
      if startIndex < binaryTreeSize {
        UpBelow(startIndex, Depth(), Depth());
      }
      PopulatedIsPositive(|leaves|, Depth());
      if |level| > 0 {
        NodesElement(compress, Padding(), leaves, Depth(), start, start + |level|, 0);
      }
    }

    /**
     The root of the naive tree, padded with the hasher's empty leaf when no leaf was ever pushed
     and with the tree's own empty leaf otherwise.
     */
    method MerkleRoot() returns (root: H)
      requires Valid()
      ensures leaves != [] ==> root == Root()
      ensures leaves == [] ==> root == EmptyNode(compress, emptyLeaf, Depth())
      ensures emptyLeafOverride == None ==> root == Root()
    {
      hide Node, TreeDepthBySize, EmptyNode;
      if hashes == [] {
        var depth := Depth();
        if startIndex == 0 {
          EmptyTreeHasNone(depth);
          BeyondPopulated(compress, emptyLeaf, leaves, depth, 0);
          return EmptyNode(compress, emptyLeaf, depth);
        } else if startIndex == binaryTreeSize {
          UpPow2(depth, depth);
          assert cache[depth] == LeftSlot(startIndex, depth);
          return cache[depth].value;
        }
      }
      var computed, _ := ComputeMerkleRootAndPath(0, None);
      root := computed.value;
    }

    /** The root and the siblings of an untrimmed leaf, which fold that leaf back to the root. */
    method MerkleRootAndPath(index: nat) returns (root: H, path: seq<H>)
      requires Valid() && index < |hashes|
      ensures root == Root() && |path| == Depth()
      ensures FoldProof(compress, hashes[index], startIndex + index, path, |path|) == root
    {
      hide Node, TreeDepthBySize, Up;
      var computed, slots := ComputeMerkleRootAndPath(index, None);
      root := computed.value;
      forall l | 0 <= l < |slots|
        ensures slots[l] == Some(NodeAt(l, Sibling(Up(startIndex + index, l))))
      {
        assert PathSlot(slots[l], None, startIndex + index, l);
      }
      path := seq(|slots|, l requires 0 <= l < |slots| && slots[l].Some? => slots[l].value);
      ProofFolds(compress, Padding(), leaves, startIndex + index, path, |path|);
      UpBelow(startIndex + index, Depth(), Depth());
    }

    /** The root with the left and right edges of the first `end` untrimmed leaves, which a range verifier accepts. */
    method MerkleRootAndPathsForRange(end: nat) returns (root: H, left: seq<Option<H>>, right: seq<Option<H>>)
      requires Valid() && 0 < end <= |hashes|
      ensures root == Root()
      ensures VerifyRange(compress, hashes[..end], startIndex, left, right) == Some(root)
    {
      hide Node, TreeDepthBySize, VerifyRange;
      var computed, slots := ComputeMerkleRootAndPath(end - 1, Some(Right));
      root, left, right := computed.value, cache, slots;
      forall l | 0 <= l < |slots|
        ensures slots[l] == RightSlot(startIndex + end - 1, l)
      {
        assert PathSlot(slots[l], Some(Right), startIndex + end - 1, l);
      }
      LeavesAreNodes(compress, Padding(), leaves, startIndex);
      RangeIsNodes(end);
      UpBelow(startIndex, Depth(), Depth());
      UpBelow(startIndex + end - 1, Depth(), Depth());
      RangeProofFolds(compress, Padding(), leaves, startIndex, startIndex + end - 1, left, right, 0);
      assert left[0..] == left && right[0..] == right;
    }

    lemma {:induction false} RangeIsNodes(end: nat)
      requires Valid() && end <= |hashes|
      ensures hashes[..end] == Nodes(compress, Padding(), leaves, 0, startIndex, startIndex + end)
    {
      forall k | 0 <= k < end
        ensures hashes[k] == Node(compress, Padding(), leaves, 0, startIndex + k)
      {
      }
    }

    lemma {:induction false} EmptyTreeHasNone(level: nat)
      requires Valid() && hashes == [] && startIndex == 0
      ensures leaves == [] && Populated(|leaves|, level) == 0
    {
      assert leaves == leaves[0..];
      PopulatedZero(level);
    }

    /** Appends a leaf, doubling a full tree; nothing cached goes stale. */
    method PushHash(leafHash: H)
      requires Valid()
      modifies this
      ensures Valid()
      ensures leaves == old(leaves) + [leafHash] && startIndex == old(startIndex)
      ensures binaryTreeSize ==
              if |old(leaves)| == old(binaryTreeSize) then 2 * old(binaryTreeSize) else old(binaryTreeSize)
    {
      hide Node, Up, Pow2, TreeDepthBySize, LeftEdge;
      ghost var before := leaves;
      hashes := hashes + [leafHash];
      leaves := leaves + [leafHash];
      if startIndex + |hashes| > binaryTreeSize {
        DoubledSize(binaryTreeSize);
        LeftEdgeOutside(compress, Padding(), leaves, startIndex, Depth());
        binaryTreeSize := 2 * binaryTreeSize;
        if |cache| < TreeDepthBySize(binaryTreeSize) {
          cache := cache + [None];
        }
      }
      forall l | 0 <= l < |cache|
        ensures cache[l] == LeftSlot(startIndex, l)
      {
        LeftEdgeIsStable(compress, Padding(), before, leafHash, startIndex, l);
      }
    }

    /**
     Trims `count` leaves into the cache. The only failure is the panic on an exhausted tree, which
     a zero count alone can reach; otherwise the leaves, the size and so the root stay as they were.
     */
    method TrimStart(count: nat) returns (trimmed: bool)
      requires Valid() && count <= |hashes|
      modifies this
      ensures Valid() && leaves == old(leaves) && binaryTreeSize == old(binaryTreeSize)
      ensures trimmed <==> !old(Exhausted())
      ensures startIndex == old(startIndex) + if trimmed then count else 0
      ensures count > 0 ==> trimmed
      ensures Root() == old(Root())
    {
      hide Node, Up, TreeDepthBySize;
      var root, newCache := ComputeMerkleRootAndPath(count, Some(Left));
      if root.None? {
        return false;
      }
      forall l | 0 <= l < |newCache|
        ensures newCache[l] == LeftSlot(startIndex + count, l)
      {
        assert PathSlot(newCache[l], Some(Left), startIndex + count, l);
      }
      hashes := hashes[count..];
      startIndex := startIndex + count;
      if startIndex == binaryTreeSize {
        UpPow2(Depth(), Depth());
        newCache := newCache + [root];
      }
      cache := newCache;
      trimmed := true;
    }
  }

  // ----- proofs

  /** A Merkle proof folded from the leaf at `index` over its first `n` siblings. */
  function FoldProof<H>(compress: (H, H) -> H, leaf: H, index: nat, path: seq<H>, n: nat): H
    requires n <= |path|
  {
    if n == 0 then leaf
    else
      var hash := FoldProof(compress, leaf, index, path, n - 1);
      if Up(index, n - 1) % 2 == 0 then compress(hash, path[n - 1]) else compress(path[n - 1], hash)
  }

  lemma LevelZero<H>(compress: (H, H) -> H, emptyLeaf: H, leaves: seq<H>, index: nat)
    requires index < |leaves|
    ensures Node(compress, emptyLeaf, leaves, 0, Up(index, 0)) == leaves[index]
  {
  }

  lemma {:induction false} NodeParent<H>(compress: (H, H) -> H, emptyLeaf: H, leaves: seq<H>, level: nat, i: nat)
    ensures Node(compress, emptyLeaf, leaves, level + 1, i / 2) ==
      if i % 2 == 0
      then compress(Node(compress, emptyLeaf, leaves, level, i), Node(compress, emptyLeaf, leaves, level, Sibling(i)))
      else compress(Node(compress, emptyLeaf, leaves, level, Sibling(i)), Node(compress, emptyLeaf, leaves, level, i))
  {
    assert i == if i % 2 == 0 then 2 * (i / 2) else 2 * (i / 2) + 1;
  }

  lemma {:induction false} ProofFolds<H>(compress: (H, H) -> H, emptyLeaf: H, leaves: seq<H>, index: nat,
                                         path: seq<H>, n: nat)
    requires n <= |path| && index < |leaves|
    requires forall l :: 0 <= l < |path| ==> path[l] == Node(compress, emptyLeaf, leaves, l, Sibling(Up(index, l)))
    ensures FoldProof(compress, leaves[index], index, path, n) == Node(compress, emptyLeaf, leaves, n, Up(index, n))
  {
    hide Node, Up, Sibling;
    if n == 0 {
      LevelZero(compress, emptyLeaf, leaves, index);
    } else {
      ProofFolds(compress, emptyLeaf, leaves, index, path, n - 1);
      var child := Up(index, n - 1);
      LevelArithmetic(index, index, 0, n, n - 1);
      NodeParent(compress, emptyLeaf, leaves, n - 1, child);
      assert path[n - 1] == Node(compress, emptyLeaf, leaves, n - 1, Sibling(child));
    }
  }

  /** The range verifier: rebuild the root from a run of leaves and the two edges, or fail. */
  ghost function VerifyRange<H>(compress: (H, H) -> H, hashes: seq<H>, start: nat, left: seq<Option<H>>,
                                right: seq<Option<H>>): Option<H>
    decreases |left|
  {
    if |left| != |right| then None
    else if left == [] then if hashes == [] then None else Some(hashes[0])
    else if left[0].Some? != (start % 2 == 1) then None
    else
      var withLeft := if start % 2 == 1 then [left[0].value] + hashes else hashes;
      if right[0].Some? != (|withLeft| % 2 == 1) then None
      else
        var paired := if |withLeft| % 2 == 1 then withLeft + [right[0].value] else withLeft;
        VerifyRange(compress, PairUp(compress, paired), start / 2, left[1..], right[1..])
  }

  /** From level `l` on, the edges of leaves `first .. last` rebuild the root. */
  lemma {:induction false} RangeProofFolds<H>(compress: (H, H) -> H, emptyLeaf: H, leaves: seq<H>, first: nat,
                                              last: nat, left: seq<Option<H>>, right: seq<Option<H>>, l: nat)
    requires first <= last && |left| == |right| && l <= |left|
    requires Up(first, |left|) == Up(last, |left|) == 0
    requires forall k :: 0 <= k < |left| ==> left[k] == LeftEdge(compress, emptyLeaf, leaves, first, k)
    requires forall k :: 0 <= k < |right| ==> right[k] == RightEdge(compress, emptyLeaf, leaves, last, k)
    ensures Up(first, l) <= Up(last, l)
    ensures VerifyRange(compress, Nodes(compress, emptyLeaf, leaves, l, Up(first, l), Up(last, l) + 1), Up(first, l),
                        left[l..], right[l..])
         == Some(Node(compress, emptyLeaf, leaves, |left|, 0))
    decreases |left| - l
  {
    hide Node, Nodes, Up, PairUp, VerifyRange;
    UpMonotone(first, last, l);
    if l == |left| {
      NodesElement(compress, emptyLeaf, leaves, l, 0, 1, 0);
      RangeEnd(compress, Nodes(compress, emptyLeaf, leaves, l, 0, 1), left[l..], right[l..]);
    } else {
      UpMonotone(first, last, l + 1);
      LevelArithmetic(first, last, 0, l + 1, l);
      RangeProofFolds(compress, emptyLeaf, leaves, first, last, left, right, l + 1);
      assert left[l..][1..] == left[l + 1..] && right[l..][1..] == right[l + 1..];
      RangeStep(compress, emptyLeaf, leaves, l, Up(first, l), Up(last, l), left[l..], right[l..]);
    }
  }

  lemma RangeEnd<H>(compress: (H, H) -> H, hashes: seq<H>, left: seq<Option<H>>, right: seq<Option<H>>)
    requires left == right == [] && |hashes| > 0
    ensures VerifyRange(compress, hashes, 0, left, right) == Some(hashes[0])
  {
  }

  /** One level of the verifier takes nodes `s .. e` to their parents. */
  lemma {:induction false} RangeStep<H>(compress: (H, H) -> H, emptyLeaf: H, leaves: seq<H>, l: nat, s: nat, e: nat,
                                        left: seq<Option<H>>, right: seq<Option<H>>)
    requires s <= e && |left| == |right| > 0
    requires left[0] == if s % 2 == 1 then Some(Node(compress, emptyLeaf, leaves, l, s - 1)) else None
    requires right[0] == if e % 2 == 0 then Some(Node(compress, emptyLeaf, leaves, l, e + 1)) else None
    ensures VerifyRange(compress, Nodes(compress, emptyLeaf, leaves, l, s, e + 1), s, left, right)
         == VerifyRange(compress, Nodes(compress, emptyLeaf, leaves, l + 1, s / 2, e / 2 + 1), s / 2,
                        left[1..], right[1..])
  {
    hide Node, Nodes, PairUp, VerifyRange;
    var lo, hi := s / 2, e / 2 + 1;
    var run := Nodes(compress, emptyLeaf, leaves, l, s, e + 1);
    NodesExtend(compress, emptyLeaf, leaves, l, s, e + 1);
    var withLeft := if s % 2 == 1 then [left[0].value] + run else run;
    assert withLeft == Nodes(compress, emptyLeaf, leaves, l, 2 * lo, e + 1);
    NodesExtend(compress, emptyLeaf, leaves, l, 2 * lo, e + 1);
    assert |withLeft| % 2 == 1 <==> e % 2 == 0;
    var paired := if e % 2 == 0 then withLeft + [right[0].value] else withLeft;
    assert paired == Nodes(compress, emptyLeaf, leaves, l, 2 * lo, 2 * hi);
    PairUpNodes(compress, emptyLeaf, leaves, l, lo, hi);
    RangeUnfolds(compress, run, s, left, right, withLeft, paired);
  }

  /** One round of the range verifier that has both the edges it needs. */
  lemma RangeUnfolds<H>(compress: (H, H) -> H, hashes: seq<H>, start: nat, left: seq<Option<H>>, right: seq<Option<H>>,
                        withLeft: seq<H>, paired: seq<H>)
    requires |left| == |right| > 0
    requires left[0].Some? == (start % 2 == 1) && right[0].Some? == (|withLeft| % 2 == 1)
    requires withLeft == if left[0].Some? then [left[0].value] + hashes else hashes
    requires paired == if right[0].Some? then withLeft + [right[0].value] else withLeft
    ensures VerifyRange(compress, hashes, start, left, right)
         == VerifyRange(compress, PairUp(compress, paired), start / 2, left[1..], right[1..])
  {
  }

  lemma {:induction false} PopulatedZero(level: nat)
    ensures Populated(0, level) == 0
  {
    if level == 0 {
    } else {
      PopulatedZero(level - 1);
    }
  }

  lemma {:induction false} LevelArithmetic(start: nat, position: nat, count: nat, depth: nat, l: nat)
    requires l < depth
    ensures Up(start, l + 1) == Up(start, l) / 2 && Up(position, l + 1) == Up(position, l) / 2
    ensures Populated(count, l + 1) == (Populated(count, l) + 1) / 2
    ensures Pow2(depth - l) == 2 * Pow2(depth - l - 1)
    ensures Up(0, l) == 0
  {
    UpZero(l);
  }

  /** Rounding a run of nodes out to whole pairs and halving it. */
  lemma HalfStep(start: nat, count: nat, relative: nat, populated: nat, width: nat)
    requires populated <= start + count <= 2 * width && relative <= count
    ensures var low, high := start / 2, (start + count + 1) / 2;
      && 2 * low + relative + start % 2 == start + relative
      && low + (relative + start % 2) / 2 == (start + relative) / 2 <= high
      && (populated + 1) / 2 <= high <= width
      && (relative < count ==> (start + relative) / 2 < high)
  {
  }

  lemma {:induction false} UpZero(level: nat)
    ensures Up(0, level) == 0
  {
    if level == 0 {
    } else {
      UpZero(level - 1);
    }
  }

  lemma {:induction false} PopulatedIsPositive(count: nat, level: nat)
    ensures count > 0 ==> Populated(count, level) > 0
  {
    if level == 0 {
    } else {
      PopulatedIsPositive(count, level - 1);
    }
  }

  lemma {:induction false} LeavesAreNodes<H>(compress: (H, H) -> H, emptyLeaf: H, leaves: seq<H>, start: nat)
    requires start <= |leaves|
    ensures leaves[start..] == Nodes(compress, emptyLeaf, leaves, 0, start, |leaves|)
  {
    forall k | 0 <= k < |leaves| - start
      ensures leaves[start..][k] == Node(compress, emptyLeaf, leaves, 0, start + k)
    {
    }
  }

  /** The least power of two that is at least `n`. */
  function NextPowerOfTwo(n: nat): (size: nat)
    ensures size >= n
    ensures size == Pow2(TreeDepthBySize(size))
  {
    if n <= 1 then 1
    else
      var half := NextPowerOfTwo((n + 1) / 2);
      DepthOfPow2(1 + TreeDepthBySize(half));
      2 * half
  }

  lemma {:induction false} NextPowerOfTwoIsLeast(n: nat, d: nat)
    requires Pow2(d) >= n
    ensures NextPowerOfTwo(n) <= Pow2(d)
  {
    if n <= 1 {
    } else {
      assert d > 0;
      NextPowerOfTwoIsLeast((n + 1) / 2, d - 1);
    }
  }

  lemma {:induction false} Pow2Monotone(k: nat, d: nat)
    requires k <= d
    ensures Pow2(k) <= Pow2(d)
  {
    if k == d {
    } else {
      Pow2Monotone(k, d - 1);
    }
  }

  function Max(x: nat, y: nat): nat {
    if x >= y then x else y
  }

  /** Doubling a full tree keeps its size the least allowed power of two. */
  lemma {:induction false} GrowthFollowsNextPower(minSize: nat, count: nat)
    requires minSize == Pow2(TreeDepthBySize(minSize))
    ensures var size := Max(minSize, NextPowerOfTwo(count));
      Max(minSize, NextPowerOfTwo(count + 1)) == if count == size then 2 * size else size
  {
    hide NextPowerOfTwo, TreeDepthBySize;
    var size := Max(minSize, NextPowerOfTwo(count));
    var k := TreeDepthBySize(size);
    var grown := TreeDepthBySize(NextPowerOfTwo(count + 1));
    if count < size {
      NextPowerOfTwoIsLeast(count + 1, k);
      NextPowerOfTwoIsLeast(count, grown);
    } else {
      assert Pow2(k + 1) == 2 * size;
      NextPowerOfTwoIsLeast(count + 1, k + 1);
      if grown <= k {
        Pow2Monotone(grown, k);
      }
      Pow2Monotone(k + 1, grown);
    }
  }

  datatype Operation<H> = Push(leafHash: H) | Trim(count: nat)

  function Pushes<H>(operations: seq<Operation<H>>, n: nat): seq<H>
    requires n <= |operations|
  {
    if n == 0 then []
    else if operations[n - 1].Push? then Pushes(operations, n - 1) + [operations[n - 1].leafHash]
    else Pushes(operations, n - 1)
  }

  /**
   Any run of pushes and trims from any initial leaves: the root is that of the naive tree over
   the initial leaves and all pushes, of the least allowed size, padded with the overriding empty
   leaf unless there is no leaf at all. Trims larger than what is left are cut to what is left.
   */
  method RootAfter<H(==)>(compress: (H, H) -> H, emptyLeaf: H, override: Option<H>, initial: seq<H>, minTreeSize: nat,
                          operations: seq<Operation<H>>)
    returns (root: H)
    requires minTreeSize == Pow2(TreeDepthBySize(minTreeSize))
    ensures var all := initial + Pushes(operations, |operations|);
      var padding := if override.Some? && all != [] then override.value else emptyLeaf;
      root == Node(compress, padding, all, TreeDepthBySize(Max(minTreeSize, NextPowerOfTwo(|all|))), 0)
  {
    hide Node, NextPowerOfTwo, TreeDepthBySize, Pow2;
    var tree := new MiniMerkleTree<H>.FromHashes(compress, emptyLeaf, override, initial, Some(minTreeSize));
    for i := 0 to |operations|
      invariant fresh(tree) && tree.Valid()
      invariant tree.compress == compress && tree.emptyLeaf == emptyLeaf && tree.emptyLeafOverride == override
      invariant tree.leaves == initial + Pushes(operations, i)
      invariant tree.binaryTreeSize == Max(minTreeSize, NextPowerOfTwo(|tree.leaves|))
    {
      match operations[i]
      case Push(leafHash) =>
        GrowthFollowsNextPower(minTreeSize, |tree.leaves|);
        tree.PushHash(leafHash);
      case Trim(count) =>
        var _ := tree.TrimStart(if count <= |tree.hashes| then count else |tree.hashes|);
    }
    root := tree.MerkleRoot();
    if tree.leaves == [] {
      PopulatedZero(tree.Depth());
      BeyondPopulated(compress, emptyLeaf, [], tree.Depth(), 0);
    }
  }

  ghost predicate InjectiveCompress<H(!new)>(compress: (H, H) -> H) {
    forall a, b, c, e :: compress(a, b) == compress(c, e) ==> a == c && b == e
  }

  /**
   An empty tree with an overriding empty leaf returns the hasher's empty root; that is the root
   padded with the override exactly when the override changes nothing.
   */
  lemma {:induction false} EmptyRootIgnoresOverride<H(!new)>(compress: (H, H) -> H, emptyLeaf: H, override: H,
                                                             depth: nat)
    requires InjectiveCompress(compress)
    ensures EmptyNode(compress, emptyLeaf, depth) == Node(compress, override, [], depth, 0) <==> emptyLeaf == override
  {
    PopulatedZero(depth);
    BeyondPopulated(compress, override, [], depth, 0);
    if depth == 0 {
    } else {
      EmptyRootIgnoresOverride(compress, emptyLeaf, override, depth - 1);
      PopulatedZero(depth - 1);
      BeyondPopulated(compress, override, [], depth - 1, 0);
    }
  }

  /** A zero trim of a tree without leaves hits the panic. */
  method ZeroTrimOfEmptyTree<H(==)>(compress: (H, H) -> H, emptyLeaf: H) returns (trimmed: bool)
    ensures !trimmed
  {
    var tree := new MiniMerkleTree.FromHashes(compress, emptyLeaf, None, [], None);
    assert tree.hashes == [];
    trimmed := tree.TrimStart(0);
  }

  /** So does a zero trim of a full tree whose only leaf is trimmed. */
  method ZeroTrimOfTrimmedTree<H(==)>(compress: (H, H) -> H, emptyLeaf: H, leaf: H) returns (trimmed: bool)
    ensures !trimmed
  {
    var tree := new MiniMerkleTree.FromHashes(compress, emptyLeaf, None, [leaf], None);
    var first := tree.TrimStart(1);
    assert first && tree.hashes == [] && tree.startIndex == tree.binaryTreeSize;
    trimmed := tree.TrimStart(0);
  }
}
