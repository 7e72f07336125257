/**
 The sparse binary Merkle tree that every witness path is folded against
 (crates/merkle_tree/src/lib.rs, "Tree hashing specification", and
 crates/merkle_tree/src/hasher/mod.rs).

 Hashes are symbolic: two digests are equal exactly when their preimages are, which is what
 collision resistance gives. `Unhashed` stands for 32 bytes that are the digest of nothing, so
 an untrusted path may hold anything at all. The depth of the tree is the parameter `d`
 (`TREE_DEPTH` in the program).
 */
module SparseTree {

  type Word = nat

  /** Bits of a hashed key, least significant first: bit `j` picks the side at level `j`. */
  type Key = seq<bool>

  datatype Leaf = Leaf(index: nat, value: Word)

  const VACANT: Leaf := Leaf(0, 0)

  datatype Hash =
    | LeafHash(leaf: Leaf)
    | NodeHash(left: Hash, right: Hash)
    | Unhashed(id: nat)

  /** Occupied leaves only; every other leaf is vacant. */
  type Tree = map<Key, Leaf>

  ghost predicate WellFormed(d: nat, t: Tree) {
    forall k :: k in t ==> |k| == d && t[k].index >= 1
  }

  function LeafAt(t: Tree, key: Key): Leaf {
    if key in t then t[key] else VACANT
  }

  function Empty(h: nat): Hash {
    if h == 0 then LeafHash(VACANT) else NodeHash(Empty(h - 1), Empty(h - 1))
  }

  /** Hash of the subtree of height `h` that holds the keys ending in `suffix`. */
  ghost function Node(t: Tree, h: nat, suffix: Key): Hash {
    if h == 0 then LeafHash(LeafAt(t, suffix))
    else NodeHash(Node(t, h - 1, [false] + suffix), Node(t, h - 1, [true] + suffix))
  }

  ghost function Root(d: nat, t: Tree): Hash {
    Node(t, d, [])
  }

  /** The true siblings of `key`, bottom-up. */
  ghost function Siblings(t: Tree, key: Key): seq<Hash> {
    seq(|key|, j requires 0 <= j < |key| => Node(t, j, [!key[j]] + key[j + 1..]))
  }

  function Branch(bit: bool, sibling: Hash, node: Hash): Hash {
    if bit then NodeHash(sibling, node) else NodeHash(node, sibling)
  }

  /** The hash reached from `leaf` after combining the lowest `h` siblings. */
  function Climb(key: Key, siblings: seq<Hash>, leaf: Leaf, h: nat): Hash
    requires h <= |key| == |siblings|
  {
    if h == 0 then LeafHash(leaf)
    else Branch(key[h - 1], siblings[h - 1], Climb(key, siblings, leaf, h - 1))
  }

  /** A stored path omits its lowest levels when they are empty subtrees. */
  function ExtendPath(d: nat, path: seq<Hash>): (full: seq<Hash>)
    requires |path| <= d
    ensures |full| == d
  {
    seq(d - |path|, j requires 0 <= j < d - |path| => Empty(j)) + path
  }

  function Fold(d: nat, path: seq<Hash>, key: Key, leaf: Leaf): Hash
    requires |path| <= d == |key|
  {
    Climb(key, ExtendPath(d, path), leaf, d)
  }

  /** The fold as the program runs it: one pass over the extended path. */
  method FoldMerklePath(d: nat, path: seq<Hash>, key: Key, leaf: Leaf) returns (hash: Hash)
    requires |path| <= d == |key|
    ensures hash == Fold(d, path, key, leaf)
  {
    var full := ExtendPath(d, path);
    hash := LeafHash(leaf);
    for depth := 0 to d
      invariant hash == Climb(key, full, leaf, depth)
    {
      hash := if key[depth] then NodeHash(full[depth], hash) else NodeHash(hash, full[depth]);
    }
  }

  /** An honest path folds to the subtree it climbs into. */
  lemma {:induction false} HonestClimb(t: Tree, key: Key, h: nat)
    requires h <= |key|
    ensures Climb(key, Siblings(t, key), LeafAt(t, key), h) == Node(t, h, key[h..])
  {
    if h == 0 {
      assert key[0..] == key;
    } else {
      HonestClimb(t, key, h - 1);
      assert key[h - 1..] == [key[h - 1]] + key[h..];
    }
  }

  /** Injectivity carries equality at level `h` down to every lower level. */
  lemma {:induction false} ClimbDown(t: Tree, key: Key, siblings: seq<Hash>, leaf: Leaf, h: nat)
    requires h <= |key| == |siblings|
    requires Climb(key, siblings, leaf, h) == Node(t, h, key[h..])
    ensures leaf == LeafAt(t, key)
    ensures siblings[..h] == Siblings(t, key)[..h]
  {
    if h == 0 {
      assert key[0..] == key;
    } else {
      assert key[h - 1..] == [key[h - 1]] + key[h..];
      ClimbDown(t, key, siblings, leaf, h - 1);
      assert siblings[..h] == siblings[..h - 1] + [siblings[h - 1]];
      assert Siblings(t, key)[..h] == Siblings(t, key)[..h - 1] + [Siblings(t, key)[h - 1]];
    }
  }

  /**
   A path folds to the root of `t` exactly when it carries the leaf and the siblings of `t`.
   This is what makes an untrusted path a proof.
   */
  lemma {:induction false} FoldAuthenticates(d: nat, t: Tree, path: seq<Hash>, key: Key, leaf: Leaf)
    requires |path| <= d == |key|
    ensures Fold(d, path, key, leaf) == Root(d, t)
       <==> leaf == LeafAt(t, key) && ExtendPath(d, path) == Siblings(t, key)
  {
    var full := ExtendPath(d, path);
    assert key[d..] == [];
    if Fold(d, path, key, leaf) == Root(d, t) {
      ClimbDown(t, key, full, leaf, d);
      assert full[..d] == full && Siblings(t, key)[..d] == Siblings(t, key);
    }
    HonestClimb(t, key, d);
  }

  lemma {:induction false} NodeFrame(t: Tree, key: Key, leaf: Leaf, h: nat, suffix: Key)
    requires h <= |key| && |suffix| == |key| - h
    requires suffix != key[h..]
    ensures Node(t[key := leaf], h, suffix) == Node(t, h, suffix)
  {
    if h == 0 {
      assert key[0..] == key;
    } else {
      assert key[h - 1..] == [key[h - 1]] + key[h..];
      forall b: bool
        ensures Node(t[key := leaf], h - 1, [b] + suffix) == Node(t, h - 1, [b] + suffix)
      {
        assert ([b] + suffix)[1..] == suffix && key[h - 1..][1..] == key[h..];
        NodeFrame(t, key, leaf, h - 1, [b] + suffix);
      }
    }
  }

  /** Writing a leaf moves none of its own siblings, so one path proves both states. */
  lemma {:induction false} SiblingsFrame(t: Tree, key: Key, leaf: Leaf)
    ensures Siblings(t[key := leaf], key) == Siblings(t, key)
  {
    forall j | 0 <= j < |key|
      ensures Node(t[key := leaf], j, [!key[j]] + key[j + 1..]) == Node(t, j, [!key[j]] + key[j + 1..])
    {
      assert ([!key[j]] + key[j + 1..])[0] != key[j..][0];
      NodeFrame(t, key, leaf, j, [!key[j]] + key[j + 1..]);
    }
  }

  lemma {:induction false} SameNodeSameLeaf(t: Tree, u: Tree, key: Key, h: nat)
    requires h <= |key|
    requires Node(t, h, key[h..]) == Node(u, h, key[h..])
    ensures LeafAt(t, key) == LeafAt(u, key)
  {
    if h == 0 {
      assert key[0..] == key;
    } else {
      var suffix := key[h..];
      assert key[h - 1..] == if key[h - 1] then [true] + suffix else [false] + suffix;
      assert Node(t, h, suffix).right == Node(t, h - 1, [true] + suffix);
      assert Node(u, h, suffix).right == Node(u, h - 1, [true] + suffix);
      SameNodeSameLeaf(t, u, key, h - 1);
    }
  }

  /** A root is the root of one tree only. */
  lemma {:induction false} RootIsBinding(d: nat, t: Tree, u: Tree)
    requires WellFormed(d, t) && WellFormed(d, u)
    requires Root(d, t) == Root(d, u)
    ensures t == u
  {
    forall key | key in t || key in u
      ensures key in t && key in u && t[key] == u[key]
    {
      assert key[d..] == [];
      SameNodeSameLeaf(t, u, key, d);
    }
  }

  /** `target` is a key of the subtree at `suffix`. */
  ghost predicate Under(d: nat, suffix: Key, target: Key) {
    |suffix| <= d == |target| && target[d - |suffix|..] == suffix
  }

  /** A subtree with no occupied leaf has the empty hash of its height. */
  lemma {:induction false} AllVacant(t: Tree, h: nat, suffix: Key)
    requires forall target :: Under(h + |suffix|, suffix, target) ==> LeafAt(t, target) == VACANT
    ensures Node(t, h, suffix) == Empty(h)
  {
    if h == 0 {
      assert Under(|suffix|, suffix, suffix);
    } else {
      forall b: bool
        ensures Node(t, h - 1, [b] + suffix) == Empty(h - 1)
      {
        forall target | Under(h - 1 + |[b] + suffix|, [b] + suffix, target)
          ensures LeafAt(t, target) == VACANT
        {
          assert target[h..] == target[h - 1..][1..] == suffix;
        }
        AllVacant(t, h - 1, [b] + suffix);
      }
    }
  }
}
