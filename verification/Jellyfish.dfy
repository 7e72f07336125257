/**
 The radix-16 storage form of the tree and its consistency walk (`validate_node` in
 crates/merkle_tree/src/consistency.rs, hashing in crates/merkle_tree/src/hasher/nodes.rs).

 Internal nodes hold up to 16 child references with a hash each, chains of single children are
 collapsed, and a leaf may sit at any level. A node is placed by the bits of the keys below it,
 least significant first, so a child's place is its nibble's four bits put before its parent's.
 */
module Jellyfish {
  import opened Wrappers
  import opened SparseTree

  const NIBBLE: nat := 4

  datatype ChildRef = ChildRef(hash: Hash, version: nat, isLeaf: bool)

  /** Children are keyed by the four bits of their nibble. */
  datatype Node = LeafNode(fullKey: Key, leaf: Leaf) | InternalNode(children: map<Key, ChildRef>)

  datatype NodeKey = NodeKey(version: nat, suffix: Key)

  type Db = map<NodeKey, Node>

  datatype Inconsistency =
    | FullKeyMismatch
    | EmptyInternalNode
    | KeyVersionMismatch
    | RootVersionMismatch
    | TerminalInternalNode
    | MissingNode
    | HashMismatch

  function ChildKey(nibble: Key, ref: ChildRef, suffix: Key): NodeKey {
    NodeKey(ref.version, nibble + suffix)
  }

  // ----- hashing

  /** A leaf stored `h` levels above the bottom, hashed up through empty siblings. */
  function LeafHashAt(key: Key, leaf: Leaf, h: nat): Hash
    requires h <= |key|
  {
    if h == 0 then LeafHash(leaf) else Branch(key[h - 1], Empty(h - 1), LeafHashAt(key, leaf, h - 1))
  }

  /** Two optional subtrees of one height; nothing at all stays nothing. */
  function OptionalBranch(h: nat, left: Option<Hash>, right: Option<Hash>): Option<Hash> {
    if left.None? && right.None? then None
    else
      Some(NodeHash(if left.Some? then left.value else Empty(h), if right.Some? then right.value else Empty(h)))
  }

  /** The part of an internal node under `bits`, `r` levels above its children, which have height `base`. */
  function InnerHash(children: map<Key, ChildRef>, base: nat, r: nat, bits: Key): Option<Hash> {
    if r == 0 then if bits in children then Some(children[bits].hash) else None
    else OptionalBranch(base + r - 1,
                        InnerHash(children, base, r - 1, [false] + bits),
                        InnerHash(children, base, r - 1, [true] + bits))
  }

  /** The hash of a node whose subtree has height `h`, from its own contents only. */
  function HashOf(d: nat, node: Node, h: nat): Hash
    requires h <= d && (node.LeafNode? ==> |node.fullKey| == d)
  {
    match node
    case LeafNode(key, leaf) => LeafHashAt(key, leaf, h)
    case InternalNode(children) =>
      if h < NIBBLE then Empty(h)
      else
        var inner := InnerHash(children, h - NIBBLE, NIBBLE, []);
        if inner.Some? then inner.value else Empty(h)
  }

  // ----- the walk

  ghost predicate WellTyped(d: nat, db: Db) {
    forall k :: k in db ==> NodeWellTyped(d, db[k])
  }

  /** Keys have the full length and children are named by nibbles. */
  ghost predicate NodeWellTyped(d: nat, node: Node) {
    && (node.LeafNode? ==> |node.fullKey| == d)
    && (node.InternalNode? ==> forall n :: n in node.children ==> |n| == NIBBLE)
  }

  ghost predicate VersionsFit(children: map<Key, ChildRef>, key: NodeKey) {
    && (forall n :: n in children ==> children[n].version <= key.version)
    && (key.suffix != [] ==> exists n :: n in children && children[n].version == key.version)
  }

  predicate Found(db: Db, key: NodeKey, isLeaf: bool) {
    key in db && db[key].LeafNode? == isLeaf
  }

  /** What is wrong with a child, if anything: absent, inconsistent below, or not of the hash its reference carries. */
  ghost function ChildError(d: nat, db: Db, nibble: Key, ref: ChildRef, suffix: Key): Option<Inconsistency>
    requires WellTyped(d, db) && |nibble| == NIBBLE && |suffix| + NIBBLE <= d
    decreases d - |suffix|, 0
  {
    var key := ChildKey(nibble, ref, suffix);
    if !Found(db, key, ref.isLeaf) then Some(MissingNode)
    else
      var hash := ValidateNode(d, db, db[key], key);
      if hash.Err? then Some(hash.error)
      else if hash.value != ref.hash then Some(HashMismatch)
      else None
  }

  /**
   Validates a node and everything below it, and returns its hash; the recursion ends because
   places only get longer. Of several faults any one may be reported.
   */
  ghost function ValidateNode(d: nat, db: Db, node: Node, key: NodeKey): Result<Hash, Inconsistency>
    requires WellTyped(d, db) && NodeWellTyped(d, node) && |key.suffix| <= d
    decreases d - |key.suffix|, 1
  {
    var h := d - |key.suffix|;
    match node
    case LeafNode(fullKey, leaf) =>
      if fullKey[h..] != key.suffix then Err(FullKeyMismatch) else Ok(HashOf(d, node, h))
    case InternalNode(children) =>
      if children == map[] then Err(EmptyInternalNode)
      else if !VersionsFit(children, key) then
        if key.suffix == [] then Err(RootVersionMismatch) else Err(KeyVersionMismatch)
      else if h < NIBBLE then Err(TerminalInternalNode)
      else if n :| n in children && ChildError(d, db, n, children[n], key.suffix).Some? then
        Err(ChildError(d, db, n, children[n], key.suffix).value)
      else Ok(HashOf(d, node, h))
  }

  // ----- what the database says

  /** The leaf found by walking down from `node` along `target`. */
  ghost function Find(d: nat, db: Db, node: Node, suffix: Key, target: Key): Leaf
    requires |suffix| <= d == |target|
    decreases d - |suffix|
  {
    var h := d - |suffix|;
    match node
    case LeafNode(fullKey, leaf) => if fullKey == target then leaf else VACANT
    case InternalNode(children) =>
      if h < NIBBLE then VACANT
      else
        var nibble := target[h - NIBBLE..h];
        if nibble in children && ChildKey(nibble, children[nibble], suffix) in db then
          Find(d, db, db[ChildKey(nibble, children[nibble], suffix)], nibble + suffix, target)
        else VACANT
  }

  /** `t` has, for every key under `suffix`, the leaf the database finds. */
  ghost predicate Agrees(d: nat, db: Db, node: Node, suffix: Key, t: Tree) {
    forall target :: Under(d, suffix, target) ==> LeafAt(t, target) == Find(d, db, node, suffix, target)
  }

  /** A leaf stored early hashes as the subtree in which it is alone. */
  lemma {:induction false} LoneLeaf(t: Tree, key: Key, leaf: Leaf, h: nat)
    requires h <= |key|
    requires forall target :: Under(|key|, key[h..], target) ==>
      LeafAt(t, target) == if target == key then leaf else VACANT
    ensures SparseTree.Node(t, h, key[h..]) == LeafHashAt(key, leaf, h)
  {
    if h == 0 {
      assert key[0..] == key && Under(|key|, key[0..], key);
    } else {
      var suffix := key[h..];
      assert key[h - 1..] == [key[h - 1]] + suffix;
      forall target | Under(|key|, [key[h - 1]] + suffix, target) || Under(|key|, [!key[h - 1]] + suffix, target)
        ensures Under(|key|, suffix, target)
        ensures target[h - 1] != key[h - 1] ==> target != key
      {
        assert target[h..] == target[h - 1..][1..];
      }
      forall target | Under(|key|, [!key[h - 1]] + suffix, target)
        ensures LeafAt(t, target) == VACANT
      {
        assert target[h - 1] == target[h - 1..][0];
      }
      AllVacant(t, h - 1, [!key[h - 1]] + suffix);
      LoneLeaf(t, key, leaf, h - 1);
    }
  }

  /** What the sixteen places under an internal node of height `base + NIBBLE` must hash to. */
  ghost predicate PlacesMatch(children: map<Key, ChildRef>, base: nat, suffix: Key, t: Tree) {
    forall n {:trigger n in children} :: |n| == NIBBLE ==>
      SparseTree.Node(t, base, n + suffix) == if n in children then children[n].hash else Empty(base)
  }

  /** The four-level hashing of an internal node is the binary hashing of the tree. */
  lemma {:induction false} InnerIsNode(children: map<Key, ChildRef>, base: nat, suffix: Key, t: Tree, r: nat, bits: Key)
    requires r <= NIBBLE && |bits| == NIBBLE - r && PlacesMatch(children, base, suffix, t)
    ensures var inner := InnerHash(children, base, r, bits);
      SparseTree.Node(t, base + r, bits + suffix) == if inner.Some? then inner.value else Empty(base + r)
  {
    if r == 0 {
    } else {
      InnerIsNode(children, base, suffix, t, r - 1, [false] + bits);
      InnerIsNode(children, base, suffix, t, r - 1, [true] + bits);
      assert [false] + (bits + suffix) == ([false] + bits) + suffix;
      assert [true] + (bits + suffix) == ([true] + bits) + suffix;
    }
  }

  /** Below `nibble`, the walk from a node is the walk from its child there. */
  lemma {:induction false} ChildAgrees(d: nat, db: Db, node: Node, suffix: Key, t: Tree, nibble: Key)
    requires node.InternalNode? && |nibble| == NIBBLE && |suffix| + NIBBLE <= d
    requires Agrees(d, db, node, suffix, t)
    ensures nibble in node.children && ChildKey(nibble, node.children[nibble], suffix) in db ==>
      Agrees(d, db, db[ChildKey(nibble, node.children[nibble], suffix)], nibble + suffix, t)
    ensures nibble !in node.children ==>
      SparseTree.Node(t, d - |suffix| - NIBBLE, nibble + suffix) == Empty(d - |suffix| - NIBBLE)
  {
    var h := d - |suffix|;
    forall target | Under(d, nibble + suffix, target)
      ensures Under(d, suffix, target) && target[h - NIBBLE..h] == nibble
    {
      var low := target[h - NIBBLE..];
      assert target[h..] == low[NIBBLE..] == suffix && target[h - NIBBLE..h] == low[..NIBBLE] == nibble;
    }
    if nibble !in node.children {
      forall target | Under(d, nibble + suffix, target)
        ensures LeafAt(t, target) == VACANT
      {
      }
      AllVacant(t, h - NIBBLE, nibble + suffix);
    }
  }

  /**
   A node that validates has the hash of the binary tree over the leaves found below it, though
   it was hashed from the references stored in it alone.
   */
  lemma {:induction false} ValidatedIsNode(d: nat, db: Db, node: Node, key: NodeKey, t: Tree)
    requires WellTyped(d, db) && NodeWellTyped(d, node) && |key.suffix| <= d
    requires ValidateNode(d, db, node, key).Ok? && Agrees(d, db, node, key.suffix, t)
    ensures ValidateNode(d, db, node, key).value == SparseTree.Node(t, d - |key.suffix|, key.suffix)
    decreases d - |key.suffix|
  {
    hide InnerHash, LeafHashAt, Empty, SparseTree.Node;
    var suffix, h := key.suffix, d - |key.suffix|;
    match node
    case LeafNode(fullKey, leaf) =>
      LoneLeaf(t, fullKey, leaf, h);
    case InternalNode(children) =>
      var base := h - NIBBLE;
      forall n {:trigger n in children} | |n| == NIBBLE
        ensures SparseTree.Node(t, base, n + suffix) == if n in children then children[n].hash else Empty(base)
      {
        ChildAgrees(d, db, node, suffix, t, n);
        if n in children {
          assert ChildError(d, db, n, children[n], suffix) == None;
          var child := ChildKey(n, children[n], suffix);
          ValidatedIsNode(d, db, db[child], child, t);
        }
      }
      InnerIsNode(children, base, suffix, t, NIBBLE, []);
      assert [] + suffix == suffix;
  }

  /** The leaves a database holds under a root, as a tree. */
  ghost function StoredTree(d: nat, db: Db, root: Node): Tree {
    var stored := (set k | k in db && db[k].LeafNode? :: db[k].fullKey) + if root.LeafNode? then {root.fullKey} else {};
    map key | key in stored && |key| == d && Find(d, db, root, [], key) != VACANT :: Find(d, db, root, [], key)
  }

  lemma {:induction false} FoundLeavesAreStored(d: nat, db: Db, node: Node, suffix: Key, target: Key)
    requires |suffix| <= d == |target| && Find(d, db, node, suffix, target) != VACANT
    ensures
      || (node.LeafNode? && node.fullKey == target)
      || exists k :: k in db && db[k].LeafNode? && db[k].fullKey == target
    decreases d - |suffix|
  {
    if node.LeafNode? {
    } else {
      var h := d - |suffix|;
      var nibble := target[h - NIBBLE..h];
      var child := ChildKey(nibble, node.children[nibble], suffix);
      FoundLeavesAreStored(d, db, db[child], nibble + suffix, target);
    }
  }

  lemma {:induction false} StoredTreeAgrees(d: nat, db: Db, root: Node)
    ensures Agrees(d, db, root, [], StoredTree(d, db, root))
  {
    forall target | Under(d, [], target)
      ensures LeafAt(StoredTree(d, db, root), target) == Find(d, db, root, [], target)
    {
      if Find(d, db, root, [], target) != VACANT {
        FoundLeavesAreStored(d, db, root, [], target);
      }
    }
  }

  /** A root that validates carries exactly the root hash of the tree of its stored leaves. */
  lemma {:induction false} ValidatedRootIsTreeRoot(d: nat, db: Db, root: Node, version: nat)
    requires WellTyped(d, db) && NodeWellTyped(d, root)
    requires ValidateNode(d, db, root, NodeKey(version, [])).Ok?
    ensures ValidateNode(d, db, root, NodeKey(version, [])).value == Root(d, StoredTree(d, db, root))
  {
    StoredTreeAgrees(d, db, root);
    ValidatedIsNode(d, db, root, NodeKey(version, []), StoredTree(d, db, root));
  }

  /**
   Two databases that validate to one root hash answer every lookup alike, whatever shape their
   nodes have.
   */
  lemma {:induction false} SameRootSameLeaves(d: nat, db: Db, root: Node, version: nat, db': Db, root': Node,
                                              version': nat, target: Key)
    requires WellTyped(d, db) && NodeWellTyped(d, root) && WellTyped(d, db') && NodeWellTyped(d, root') && |target| == d
    requires ValidateNode(d, db, root, NodeKey(version, [])).Ok?
    requires ValidateNode(d, db', root', NodeKey(version', [])) == ValidateNode(d, db, root, NodeKey(version, []))
    ensures Find(d, db, root, [], target) == Find(d, db', root', [], target)
  {
    var t, t' := StoredTree(d, db, root), StoredTree(d, db', root');
    ValidatedRootIsTreeRoot(d, db, root, version);
    ValidatedRootIsTreeRoot(d, db', root', version');
    StoredTreeAgrees(d, db, root);
    StoredTreeAgrees(d, db', root');
    assert target[d..] == [];
    SameNodeSameLeaf(t, t', target, d);
    assert Under(d, [], target);
  }

  // ----- which databases validate

  /** Where the walk down from `node` along `target` comes to a leaf of that key. */
  ghost function LeafKeyAt(d: nat, db: Db, node: Node, key: NodeKey, target: Key): Option<NodeKey>
    requires |key.suffix| <= d == |target|
    decreases d - |key.suffix|
  {
    var h := d - |key.suffix|;
    match node
    case LeafNode(fullKey, leaf) => if fullKey == target then Some(key) else None
    case InternalNode(children) =>
      if h < NIBBLE then None
      else
        var nibble := target[h - NIBBLE..h];
        if nibble in children && ChildKey(nibble, children[nibble], key.suffix) in db then
          var child := ChildKey(nibble, children[nibble], key.suffix);
          LeafKeyAt(d, db, db[child], child, target)
        else None
  }

  ghost predicate LeafBelow(d: nat, db: Db, node: Node, key: NodeKey, target: Key) {
    Under(d, key.suffix, target) && |key.suffix| <= d && LeafKeyAt(d, db, node, key, target).Some?
  }

  /** Some leaf lies below, none is newer than the node, and below the root the node is as new as the newest. */
  ghost predicate NewestLeaf(d: nat, db: Db, node: Node, key: NodeKey) {
    && (forall target :: LeafBelow(d, db, node, key, target) ==>
         LeafKeyAt(d, db, node, key, target).value.version <= key.version)
    && (exists target :: LeafBelow(d, db, node, key, target) &&
         (key.suffix != [] ==> LeafKeyAt(d, db, node, key, target).value.version == key.version))
  }

  /**
   What a database must be below a node, told by the leaves: every leaf is in its place, every
   reference leads to a node of its kind and carries the hash of the leaves below it, and nodes
   are as new as their newest leaves.
   */
  ghost predicate Sound(d: nat, db: Db, node: Node, key: NodeKey, t: Tree)
    requires WellTyped(d, db) && NodeWellTyped(d, node) && |key.suffix| <= d
    decreases d - |key.suffix|, 1
  {
    match node
    case LeafNode(fullKey, leaf) => Under(d, key.suffix, fullKey)
    case InternalNode(children) =>
      && |key.suffix| + NIBBLE <= d
      && NewestLeaf(d, db, node, key)
      && forall n :: n in children ==> ChildSound(d, db, n, children[n], key.suffix, t)
  }

  ghost predicate ChildSound(d: nat, db: Db, nibble: Key, ref: ChildRef, suffix: Key, t: Tree)
    requires WellTyped(d, db) && |nibble| == NIBBLE && |suffix| + NIBBLE <= d
    decreases d - |suffix|, 0
  {
    var child := ChildKey(nibble, ref, suffix);
    && child in db && (db[child].LeafNode? <==> ref.isLeaf)
    && ref.hash == SparseTree.Node(t, d - |suffix| - NIBBLE, nibble + suffix)
    && Sound(d, db, db[child], child, t)
  }

  /** The leaves below a node are the leaves below its children. */
  lemma {:induction false} LeafBelowChild(d: nat, db: Db, node: Node, key: NodeKey, n: Key, target: Key)
    requires node.InternalNode? && |key.suffix| + NIBBLE <= d && |n| == NIBBLE && n in node.children
    requires ChildKey(n, node.children[n], key.suffix) in db && Under(d, n + key.suffix, target)
    ensures var child := ChildKey(n, node.children[n], key.suffix);
      && Under(d, key.suffix, target)
      && LeafKeyAt(d, db, node, key, target) == LeafKeyAt(d, db, db[child], child, target)
  {
    var h := d - |key.suffix|;
    var low := target[h - NIBBLE..];
    assert target[h..] == low[NIBBLE..] == key.suffix && target[h - NIBBLE..h] == low[..NIBBLE] == n;
  }

  /** The child on the way to a leaf. */
  lemma {:induction false} LeafIsBelowChild(d: nat, db: Db, node: Node, key: NodeKey, target: Key) returns (n: Key)
    requires node.InternalNode? && LeafBelow(d, db, node, key, target)
    ensures |n| == NIBBLE <= d - |key.suffix| && n in node.children
    ensures var child := ChildKey(n, node.children[n], key.suffix);
      && child in db
      && LeafBelow(d, db, db[child], child, target)
      && LeafKeyAt(d, db, node, key, target) == LeafKeyAt(d, db, db[child], child, target)
  {
    var h := d - |key.suffix|;
    n := target[h - NIBBLE..h];
    assert target[h - NIBBLE..] == n + target[h..];
  }

  lemma {:induction false} OwnNewestLeaf(d: nat, db: Db, node: Node, key: NodeKey)
    requires node.LeafNode? && |key.suffix| <= d && Under(d, key.suffix, node.fullKey)
    ensures NewestLeaf(d, db, node, key)
  {
    assert LeafBelow(d, db, node, key, node.fullKey);
  }

  /** Every child is there and as new as its newest leaf. */
  ghost predicate ChildrenNewest(d: nat, db: Db, node: Node, key: NodeKey)
    requires node.InternalNode?
  {
    forall n :: n in node.children ==>
      var child := ChildKey(n, node.children[n], key.suffix);
      child in db && NewestLeaf(d, db, db[child], child)
  }

  lemma {:induction false} NewestVersionsFit(d: nat, db: Db, node: Node, key: NodeKey)
    requires NodeWellTyped(d, node) && node.InternalNode? && |key.suffix| + NIBBLE <= d
    requires ChildrenNewest(d, db, node, key) && NewestLeaf(d, db, node, key)
    ensures node.children != map[] && VersionsFit(node.children, key)
  {
    hide LeafKeyAt;
    forall n | n in node.children
      ensures node.children[n].version <= key.version
    {
      var child := ChildKey(n, node.children[n], key.suffix);
      var target :| LeafBelow(d, db, db[child], child, target) &&
        LeafKeyAt(d, db, db[child], child, target).value.version == child.version;
      ChildLeafIsBelow(d, db, node, key, n, target);
    }
    var target :| LeafBelow(d, db, node, key, target) &&
      (key.suffix != [] ==> LeafKeyAt(d, db, node, key, target).value.version == key.version);
    var n := LeafIsBelowChild(d, db, node, key, target);
    assert key.suffix != [] ==> node.children[n].version == key.version;
  }

  lemma {:induction false} FittingIsNewest(d: nat, db: Db, node: Node, key: NodeKey)
    requires NodeWellTyped(d, node) && node.InternalNode? && |key.suffix| + NIBBLE <= d
    requires ChildrenNewest(d, db, node, key) && node.children != map[] && VersionsFit(node.children, key)
    ensures NewestLeaf(d, db, node, key)
  {
    hide LeafKeyAt;
    forall target | LeafBelow(d, db, node, key, target)
      ensures LeafKeyAt(d, db, node, key, target).value.version <= key.version
    {
      var n := LeafIsBelowChild(d, db, node, key, target);
    }
    var n :| n in node.children && (key.suffix != [] ==> node.children[n].version == key.version);
    var child := ChildKey(n, node.children[n], key.suffix);
    var target :| LeafBelow(d, db, db[child], child, target) &&
      LeafKeyAt(d, db, db[child], child, target).value.version == child.version;
    ChildLeafIsBelow(d, db, node, key, n, target);
  }

  lemma {:induction false} ChildLeafIsBelow(d: nat, db: Db, node: Node, key: NodeKey, n: Key, target: Key)
    requires node.InternalNode? && |key.suffix| + NIBBLE <= d && |n| == NIBBLE && n in node.children
    requires var child := ChildKey(n, node.children[n], key.suffix);
      child in db && LeafBelow(d, db, db[child], child, target)
    ensures LeafBelow(d, db, node, key, target)
    ensures var child := ChildKey(n, node.children[n], key.suffix);
      LeafKeyAt(d, db, node, key, target) == LeafKeyAt(d, db, db[child], child, target)
  {
    hide LeafKeyAt;
    LeafBelowChild(d, db, node, key, n, target);
  }

  /** A validated node is as new as the newest leaf below it, and has one. */
  lemma {:induction false} ValidatedIsNewest(d: nat, db: Db, node: Node, key: NodeKey)
    requires WellTyped(d, db) && NodeWellTyped(d, node) && |key.suffix| <= d
    requires ValidateNode(d, db, node, key).Ok?
    ensures NewestLeaf(d, db, node, key)
    decreases d - |key.suffix|
  {
    hide LeafKeyAt, HashOf, NewestLeaf;
    if node.LeafNode? {
      OwnNewestLeaf(d, db, node, key);
    } else {
      forall n | n in node.children
        ensures var child := ChildKey(n, node.children[n], key.suffix);
          child in db && NewestLeaf(d, db, db[child], child)
      {
        ValidatedChild(d, db, node, key, n);
        var child := ChildKey(n, node.children[n], key.suffix);
        ValidatedIsNewest(d, db, db[child], child);
      }
      FittingIsNewest(d, db, node, key);
    }
  }

  lemma {:induction false} ValidatedChild(d: nat, db: Db, node: Node, key: NodeKey, n: Key)
    requires WellTyped(d, db) && NodeWellTyped(d, node) && |key.suffix| <= d
    requires ValidateNode(d, db, node, key).Ok? && node.InternalNode? && n in node.children
    ensures NIBBLE <= d - |key.suffix|
    ensures var child := ChildKey(n, node.children[n], key.suffix);
      && Found(db, child, node.children[n].isLeaf)
      && ValidateNode(d, db, db[child], child) == Ok(node.children[n].hash)
  {
    hide HashOf;
    assert ChildError(d, db, n, node.children[n], key.suffix) == None;
  }

  lemma {:induction false} ValidatedIsSound(d: nat, db: Db, node: Node, key: NodeKey, t: Tree)
    requires WellTyped(d, db) && NodeWellTyped(d, node) && |key.suffix| <= d
    requires Agrees(d, db, node, key.suffix, t) && ValidateNode(d, db, node, key).Ok?
    ensures Sound(d, db, node, key, t)
    decreases d - |key.suffix|, 1
  {
    hide HashOf, NewestLeaf, Agrees, ChildSound, ChildError;
    if node.InternalNode? {
      ValidatedIsNewest(d, db, node, key);
      forall n | n in node.children
        ensures ChildSound(d, db, n, node.children[n], key.suffix, t)
      {
        ValidatedChildIsSound(d, db, node, key, t, n);
      }
    }
  }

  lemma {:induction false} ValidatedChildIsSound(d: nat, db: Db, node: Node, key: NodeKey, t: Tree, n: Key)
    requires WellTyped(d, db) && NodeWellTyped(d, node) && |key.suffix| + NIBBLE <= d
    requires Agrees(d, db, node, key.suffix, t) && ValidateNode(d, db, node, key).Ok?
    requires node.InternalNode? && n in node.children
    ensures ChildSound(d, db, n, node.children[n], key.suffix, t)
    decreases d - |key.suffix|, 0
  {
    hide ValidateNode, Agrees, Sound, SparseTree.Node;
    ValidatedChild(d, db, node, key, n);
    var child := ChildKey(n, node.children[n], key.suffix);
    ChildAgrees(d, db, node, key.suffix, t, n);
    ValidatedIsNode(d, db, db[child], child, t);
    ValidatedIsSound(d, db, db[child], child, t);
  }

  lemma {:induction false} SoundIsNewest(d: nat, db: Db, node: Node, key: NodeKey, t: Tree)
    requires WellTyped(d, db) && NodeWellTyped(d, node) && |key.suffix| <= d && Sound(d, db, node, key, t)
    ensures NewestLeaf(d, db, node, key)
  {
    if node.LeafNode? {
      OwnNewestLeaf(d, db, node, key);
    }
  }

  lemma {:induction false} SoundIsValidated(d: nat, db: Db, node: Node, key: NodeKey, t: Tree)
    requires WellTyped(d, db) && NodeWellTyped(d, node) && |key.suffix| <= d
    requires Agrees(d, db, node, key.suffix, t) && Sound(d, db, node, key, t)
    ensures ValidateNode(d, db, node, key).Ok?
    decreases d - |key.suffix|, 1
  {
    hide HashOf, NewestLeaf, Agrees, ChildSound, ChildError, VersionsFit;
    if node.InternalNode? {
      forall n | n in node.children
        ensures ChildError(d, db, n, node.children[n], key.suffix) == None
        ensures var child := ChildKey(n, node.children[n], key.suffix);
          child in db && NewestLeaf(d, db, db[child], child)
      {
        SoundChildIsValidated(d, db, node, key, t, n);
      }
      NewestVersionsFit(d, db, node, key);
    }
  }

  lemma {:induction false} SoundChildIsValidated(d: nat, db: Db, node: Node, key: NodeKey, t: Tree, n: Key)
    requires WellTyped(d, db) && NodeWellTyped(d, node) && |key.suffix| + NIBBLE <= d
    requires Agrees(d, db, node, key.suffix, t) && node.InternalNode? && n in node.children
    requires ChildSound(d, db, n, node.children[n], key.suffix, t)
    ensures ChildError(d, db, n, node.children[n], key.suffix) == None
    ensures var child := ChildKey(n, node.children[n], key.suffix);
      child in db && NewestLeaf(d, db, db[child], child)
    decreases d - |key.suffix|, 0
  {
    hide ValidateNode, Agrees, Sound, SparseTree.Node, NewestLeaf;
    var child := ChildKey(n, node.children[n], key.suffix);
    ChildAgrees(d, db, node, key.suffix, t, n);
    SoundIsValidated(d, db, db[child], child, t);
    ValidatedIsNode(d, db, db[child], child, t);
    SoundIsNewest(d, db, db[child], child, t);
  }

  /**
   The exact condition for a root to validate: the walk compares references and versions of a
   node and its children only, and accepts just the databases that are in order down to the leaves.
   */
  lemma {:induction false} ValidatesIffSound(d: nat, db: Db, root: Node, version: nat)
    requires WellTyped(d, db) && NodeWellTyped(d, root)
    ensures ValidateNode(d, db, root, NodeKey(version, [])).Ok? <==>
      Sound(d, db, root, NodeKey(version, []), StoredTree(d, db, root))
  {
    hide StoredTree;
    var key, t := NodeKey(version, []), StoredTree(d, db, root);
    StoredTreeAgrees(d, db, root);
    if ValidateNode(d, db, root, key).Ok? {
      ValidatedIsSound(d, db, root, key, t);
    }
    if Sound(d, db, root, key, t) {
      SoundIsValidated(d, db, root, key, t);
    }
  }
}
