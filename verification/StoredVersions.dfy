/**
 What reading a version means for the tree it holds: the consistency walk and all lookups over the
 shared store give for a readable version what they gave when it was written, whatever versions
 were written, truncated or pruned since.
 */
module StoredVersions {
  import opened Wrappers
  import opened SparseTree
  import opened Jellyfish
  import opened VersionedStore
  import Pruning

  /** The nodes below roots, as the walk sees them. */
  ghost function DbOf(nodes: Nodes): Db {
    map k | k in nodes && nodes[k].Inner? :: nodes[k].node
  }

  /** A child of a node of the tree is in the store and is the one the tree has. */
  lemma {:induction false} ChildIsShared(view: Nodes, nodes: Nodes, version: nat, key: NodeKey, nibble: Key)
    requires TreeOf(view, version) && Included(view, nodes) && key in view && |nibble| == NIBBLE
    requires nibble in ChildrenOf(view[key])
    ensures var child := ChildKey(nibble, ChildrenOf(view[key])[nibble], key.suffix);
      && child in view && view[child].Inner?
      && child in DbOf(view) && child in DbOf(nodes) && DbOf(view)[child] == DbOf(nodes)[child] == view[child].node
  {
    hide Referenced;
  }

  lemma {:induction false} FindsAlike(d: nat, view: Nodes, nodes: Nodes, version: nat, key: NodeKey, target: Key)
    requires TreeOf(view, version) && Included(view, nodes) && key in view && !view[key].EmptyRoot?
    requires |key.suffix| <= d == |target|
    ensures var node := view[key].node;
      Find(d, DbOf(nodes), node, key.suffix, target) == Find(d, DbOf(view), node, key.suffix, target)
    decreases d - |key.suffix|
  {
    hide TreeOf, Included, DbOf;
    var h := d - |key.suffix|;
    if h < NIBBLE || view[key].node.LeafNode? {
    } else {
      var nibble := target[h - NIBBLE..h];
      if nibble in view[key].node.children {
        ChildIsShared(view, nodes, version, key, nibble);
        FindsAlike(d, view, nodes, version, ChildKey(nibble, view[key].node.children[nibble], key.suffix), target);
      }
    }
  }

  lemma {:induction false} ValidatesAlike(d: nat, view: Nodes, nodes: Nodes, version: nat, key: NodeKey)
    requires TreeOf(view, version) && Included(view, nodes) && key in view && !view[key].EmptyRoot?
    requires WellTyped(d, DbOf(nodes)) && WellTyped(d, DbOf(view)) && NodeWellTyped(d, view[key].node)
    requires |key.suffix| <= d
    ensures ValidateNode(d, DbOf(nodes), view[key].node, key).Ok? <==>
            ValidateNode(d, DbOf(view), view[key].node, key).Ok?
    decreases d - |key.suffix|
  {
    hide TreeOf, Included, DbOf, HashOf;
    var node := view[key].node;
    if node.LeafNode? || |key.suffix| + NIBBLE > d {
    } else {
      forall n | n in node.children
        ensures ChildError(d, DbOf(nodes), n, node.children[n], key.suffix).Some? <==>
                ChildError(d, DbOf(view), n, node.children[n], key.suffix).Some?
      {
        ChildIsShared(view, nodes, version, key, n);
        ValidatesAlike(d, view, nodes, version, ChildKey(n, node.children[n], key.suffix));
        ValidatedHash(d, DbOf(nodes), view[ChildKey(n, node.children[n], key.suffix)].node,
                      ChildKey(n, node.children[n], key.suffix));
        ValidatedHash(d, DbOf(view), view[ChildKey(n, node.children[n], key.suffix)].node,
                      ChildKey(n, node.children[n], key.suffix));
      }
    }
  }

  lemma ValidatedHash(d: nat, db: Db, node: Jellyfish.Node, key: NodeKey)
    requires WellTyped(d, db) && NodeWellTyped(d, node) && |key.suffix| <= d
    ensures ValidateNode(d, db, node, key).Ok? ==>
      ValidateNode(d, db, node, key).value == HashOf(d, node, d - |key.suffix|)
  {
  }

  /** The tree that a filled root leads to in a store. */
  ghost function TreeAt(d: nat, nodes: Nodes, root: Stored): Tree {
    if root.EmptyRoot? then map[] else StoredTree(d, DbOf(nodes), root.node)
  }

  ghost predicate SameVerdict(a: Result<Hash, Inconsistency>, b: Result<Hash, Inconsistency>) {
    (a.Ok? <==> b.Ok?) && (a.Ok? ==> a.value == b.value)
  }

  /** A readable version holds the tree it was written with, and validates exactly if it did then, to the same hash. */
  lemma {:induction false} ReadableVersionIsIntact(d: nat, s: Store, version: nat)
    requires History(s.views) && Readable(s, version)
    requires WellTyped(d, DbOf(s.nodes)) && WellTyped(d, DbOf(s.views[version]))
    ensures var root := RootOf(s.views[version], version);
      && RootOf(s.nodes, version) == root
      && TreeAt(d, s.nodes, root) == TreeAt(d, s.views[version], root)
      && (root.FilledRoot? && NodeWellTyped(d, root.node) ==>
            SameVerdict(ValidateNode(d, DbOf(s.nodes), root.node, RootKey(version)),
                        ValidateNode(d, DbOf(s.views[version]), root.node, RootKey(version))))
  {
    hide ReadableIn, ValidateNode, Find, DbOf, CopyOnWrite;
    var view, nodes := s.views[version], s.nodes;
    assert TreeOf(view, version);
    hide TreeOf, History;
    ReadableIffIncluded(nodes, view, version);
    RootIsFirst(view, version);
    var root := view[RootKey(version)];
    if root.FilledRoot? {
      TreesAlike(d, view, nodes, version);
      if NodeWellTyped(d, root.node) {
        ValidatesAlike(d, view, nodes, version, RootKey(version));
        ValidatedHash(d, DbOf(nodes), root.node, RootKey(version));
        ValidatedHash(d, DbOf(view), root.node, RootKey(version));
      }
    }
  }

  lemma {:induction false} TreesAlike(d: nat, view: Nodes, nodes: Nodes, version: nat)
    requires TreeOf(view, version) && Included(view, nodes) && RootOf(view, version).FilledRoot?
    ensures StoredTree(d, DbOf(nodes), RootOf(view, version).node) ==
            StoredTree(d, DbOf(view), RootOf(view, version).node)
  {
    hide TreeOf, Find, DbOf;
    RootIsFirst(view, version);
    var root := RootOf(view, version).node;
    var t, t' := StoredTree(d, DbOf(nodes), root), StoredTree(d, DbOf(view), root);
    StoredTreeAgrees(d, DbOf(nodes), root);
    StoredTreeAgrees(d, DbOf(view), root);
    forall key
      ensures key in t <==> key in t'
      ensures key in t ==> t[key] == t'[key]
    {
      if |key| == d {
        FindsAlike(d, view, nodes, version, RootKey(version), key);
        assert key[d..] == [] && Under(d, [], key);
      }
    }
  }

  /**
   Over every run, the latest version and all versions from the highest target on keep their tree
   and their verdict, as long as the bytes in the store decode to well-typed nodes.
   */
  lemma {:induction false} RetainedVersionsAreIntact(d: nat, limit: nat, steps: seq<Pruning.Step>, target: nat, n: nat,
                                                     version: nat)
    requires Pruning.Run(limit, Pruning.START, steps) && Pruning.TargetsUpTo(steps, target) && n <= |steps|
    requires var s := Pruning.After(Pruning.START, steps, n).store;
      && version < |s.views| && (target <= version || version == |s.views| - 1)
      && WellTyped(d, DbOf(s.nodes)) && WellTyped(d, DbOf(s.views[version]))
    ensures var s := Pruning.After(Pruning.START, steps, n).store;
      var root := RootOf(s.views[version], version);
      && RootOf(s.nodes, version) == root
      && TreeAt(d, s.nodes, root) == TreeAt(d, s.views[version], root)
      && (root.FilledRoot? && NodeWellTyped(d, root.node) ==>
            SameVerdict(ValidateNode(d, DbOf(s.nodes), root.node, RootKey(version)),
                        ValidateNode(d, DbOf(s.views[version]), root.node, RootKey(version))))
  {
    hide Pruning.After, Pruning.Run, Readable, ValidateNode, DbOf, TreeAt, RootOf, History;
    Pruning.RunIsSafe(limit, steps, target, n, version);
    ReadableVersionIsIntact(d, Pruning.After(Pruning.START, steps, n).store, version);
  }
}
