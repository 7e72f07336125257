/**
 `verify_consistency` as a whole (crates/merkle_tree/src/consistency.rs): the walk over the stored
 nodes hands every leaf it meets to the shared index check. Joining both halves, a database that
 passes holds exactly a well-formed tree whose leaves are numbered from 1 without gaps.
 */
module Consistency {
  import opened Wrappers
  import opened SparseTree
  import opened Jellyfish
  import LeafIndices
  import Verifier

  /** A leaf as the walk meets it. */
  datatype Visit = Visit(key: Key, leaf: Leaf)

  /** The leaves the walk meets at and below a node. */
  ghost function LeavesOf(d: nat, db: Db, node: Jellyfish.Node, suffix: Key): seq<Visit>
    requires |suffix| <= d
    decreases d - |suffix|, NIBBLE + 1
  {
    match node
    case LeafNode(fullKey, leaf) => [Visit(fullKey, leaf)]
    case InternalNode(children) =>
      if |suffix| + NIBBLE > d then [] else LeavesUnder(d, db, children, suffix, NIBBLE, [])
  }

  /** Those below the children of an internal node whose nibbles end in `bits`, `r` bits being free. */
  ghost function LeavesUnder(d: nat, db: Db, children: map<Key, ChildRef>, suffix: Key, r: nat, bits: Key): seq<Visit>
    requires |suffix| + NIBBLE <= d && r + |bits| == NIBBLE
    decreases d - |suffix|, r
  {
    if r == 0 then
      if bits in children && ChildKey(bits, children[bits], suffix) in db then
        LeavesOf(d, db, db[ChildKey(bits, children[bits], suffix)], bits + suffix)
      else []
    else
      LeavesUnder(d, db, children, suffix, r - 1, [false] + bits)
      + LeavesUnder(d, db, children, suffix, r - 1, [true] + bits)
  }

  ghost predicate Met(list: seq<Visit>, key: Key) {
    exists i :: 0 <= i < |list| && list[i].key == key
  }

  /** The list has every leaf that a lookup from `node` finds under `place`, each key once. */
  ghost predicate Lists(d: nat, db: Db, node: Jellyfish.Node, suffix: Key, place: Key, list: seq<Visit>)
    requires |suffix| <= d
  {
    && (forall i :: 0 <= i < |list| ==>
          Under(d, place, list[i].key) && Find(d, db, node, suffix, list[i].key) == list[i].leaf)
    && (forall i, j :: 0 <= i < j < |list| ==> list[i].key != list[j].key)
    && (forall target {:trigger Met(list, target)} ::
          Under(d, place, target) && Find(d, db, node, suffix, target) != VACANT ==> Met(list, target))
  }

  lemma {:induction false} UnderNibble(d: nat, suffix: Key, nibble: Key, target: Key)
    requires |suffix| + |nibble| <= d && Under(d, nibble + suffix, target)
    ensures Under(d, suffix, target)
    ensures target[d - |suffix| - |nibble|..d - |suffix|] == nibble
  {
    var h := d - |suffix|;
    var low := target[h - |nibble|..];
    assert target[h..] == low[|nibble|..] == suffix && target[h - |nibble|..h] == low[..|nibble|] == nibble;
  }

  lemma {:induction false} OneBitMore(d: nat, place: Key, target: Key)
    requires |place| < d && Under(d, place, target)
    ensures Under(d, [target[d - |place| - 1]] + place, target)
  {
    var at := d - |place| - 1;
    assert target[at..] == [target[at]] + target[at + 1..];
  }

  lemma {:induction false} MetInJoin(left: seq<Visit>, right: seq<Visit>, key: Key)
    requires Met(left, key) || Met(right, key)
    ensures Met(left + right, key)
  {
    var list := left + right;
    if i :| 0 <= i < |left| && left[i].key == key {
      assert list[i].key == key;
    } else {
      var i :| 0 <= i < |right| && right[i].key == key;
      assert list[|left| + i].key == key;
    }
  }

  /** The leaves under two neighbouring places make up those under the place above. */
  lemma {:induction false} ListsJoin(d: nat, db: Db, node: Jellyfish.Node, suffix: Key, place: Key, left: seq<Visit>,
                                     right: seq<Visit>)
    requires |suffix| <= d && |place| < d
    requires Lists(d, db, node, suffix, [false] + place, left) && Lists(d, db, node, suffix, [true] + place, right)
    ensures Lists(d, db, node, suffix, place, left + right)
  {
    hide Find;
    var list, at := left + right, d - |place| - 1;
    forall bit, target | Under(d, [bit] + place, target)
      ensures Under(d, place, target) && target[at] == bit
    {
      UnderNibble(d, place, [bit], target);
      assert target[at..at + 1] == [target[at]];
    }
    forall target | Under(d, place, target) && Find(d, db, node, suffix, target) != VACANT
      ensures Met(list, target)
    {
      OneBitMore(d, place, target);
      assert if target[at] then Met(right, target) else Met(left, target);
      MetInJoin(left, right, target);
    }
    forall i | 0 <= i < |list|
      ensures Under(d, place, list[i].key) && Find(d, db, node, suffix, list[i].key) == list[i].leaf
      ensures list[i].key[at] <==> i >= |left|
    {
      assert list[i] == if i < |left| then left[i] else right[i - |left|];
    }
    forall i, j | 0 <= i < j < |list|
      ensures list[i].key != list[j].key
    {
      assert list[i] == if i < |left| then left[i] else right[i - |left|];
      assert list[j] == if j < |left| then left[j] else right[j - |left|];
    }
  }

  lemma {:induction false} ChildLists(d: nat, db: Db, node: Jellyfish.Node, suffix: Key, nibble: Key, list: seq<Visit>)
    requires node.InternalNode? && |nibble| == NIBBLE && |suffix| + NIBBLE <= d
    requires if nibble in node.children then
               var child := ChildKey(nibble, node.children[nibble], suffix);
               child in db && Lists(d, db, db[child], nibble + suffix, nibble + suffix, list)
             else list == []
    ensures Lists(d, db, node, suffix, nibble + suffix, list)
  {
    forall target | Under(d, nibble + suffix, target)
      ensures nibble !in node.children ==> Find(d, db, node, suffix, target) == VACANT
      ensures nibble in node.children ==>
        Find(d, db, node, suffix, target) ==
        Find(d, db, db[ChildKey(nibble, node.children[nibble], suffix)], nibble + suffix, target)
    {
      UnderNibble(d, suffix, nibble, target);
    }
  }

  /** In a validated database the walk meets exactly the leaves that lookups find. */
  lemma {:induction false} WalkMeetsLeaves(d: nat, db: Db, node: Jellyfish.Node, key: NodeKey)
    requires WellTyped(d, db) && NodeWellTyped(d, node) && |key.suffix| <= d
    requires ValidateNode(d, db, node, key).Ok?
    ensures Lists(d, db, node, key.suffix, key.suffix, LeavesOf(d, db, node, key.suffix))
    decreases d - |key.suffix|, NIBBLE + 1
  {
    match node
    case LeafNode(fullKey, leaf) =>
      var list := LeavesOf(d, db, node, key.suffix);
      assert list == [Visit(fullKey, leaf)];
      assert list[0].key == fullKey;
    case InternalNode(children) =>
      WalkMeetsChildren(d, db, node, key, NIBBLE, []);
      assert [] + key.suffix == key.suffix;
  }

  lemma {:induction false} WalkMeetsChildren(d: nat, db: Db, node: Jellyfish.Node, key: NodeKey, r: nat, bits: Key)
    requires WellTyped(d, db) && NodeWellTyped(d, node) && |key.suffix| + NIBBLE <= d && r + |bits| == NIBBLE
    requires node.InternalNode? && ValidateNode(d, db, node, key).Ok?
    ensures Lists(d, db, node, key.suffix, bits + key.suffix,
                  LeavesUnder(d, db, node.children, key.suffix, r, bits))
    decreases d - |key.suffix|, r
  {
    hide Lists, HashOf;
    var children, suffix := node.children, key.suffix;
    if r == 0 {
      if bits in children {
        assert ChildError(d, db, bits, children[bits], suffix) == None;
        var child := ChildKey(bits, children[bits], suffix);
        WalkMeetsLeaves(d, db, db[child], child);
      }
      ChildLists(d, db, node, suffix, bits, LeavesUnder(d, db, children, suffix, r, bits));
    } else {
      WalkMeetsChildren(d, db, node, key, r - 1, [false] + bits);
      WalkMeetsChildren(d, db, node, key, r - 1, [true] + bits);
      assert ([false] + bits) + suffix == [false] + (bits + suffix);
      assert ([true] + bits) + suffix == [true] + (bits + suffix);
      ListsJoin(d, db, node, suffix, bits + suffix, LeavesUnder(d, db, children, suffix, r - 1, [false] + bits),
                LeavesUnder(d, db, children, suffix, r - 1, [true] + bits));
    }
  }

  // ----- both halves

  ghost function IndicesOf(list: seq<Visit>): seq<nat> {
    seq(|list|, i requires 0 <= i < |list| => list[i].leaf.index)
  }

  /** `t` is the tree of the leaves in the list that are not vacant. */
  ghost predicate TreeOfList(t: Tree, list: seq<Visit>) {
    && (forall i :: 0 <= i < |list| && list[i].leaf != VACANT ==> list[i].key in t && t[list[i].key] == list[i].leaf)
    && (forall i, j :: 0 <= i < j < |list| ==> list[i].key != list[j].key)
    && (forall k :: k in t ==> Met(list, k) && t[k] != VACANT)
  }

  lemma {:induction false} StoredTreeIsListed(d: nat, db: Db, root: Jellyfish.Node, version: nat)
    requires WellTyped(d, db) && NodeWellTyped(d, root) && ValidateNode(d, db, root, NodeKey(version, [])).Ok?
    ensures TreeOfList(StoredTree(d, db, root), LeavesOf(d, db, root, []))
  {
    hide ValidateNode, WellTyped, NodeWellTyped, LeavesOf, Find;
    WalkMeetsLeaves(d, db, root, NodeKey(version, []));
    StoredTreeAgrees(d, db, root);
    var t, list := StoredTree(d, db, root), LeavesOf(d, db, root, []);
    forall i | 0 <= i < |list| && list[i].leaf != VACANT
      ensures list[i].key in t && t[list[i].key] == list[i].leaf
    {
      assert Under(d, [], list[i].key);
    }
    forall k | k in t
      ensures Met(list, k) && t[k] != VACANT
    {
      assert k[d..] == [] && Under(d, [], k);
    }
  }

  ghost predicate NoVacantLeaf(list: seq<Visit>) {
    forall i :: 0 <= i < |list| ==> list[i].leaf != VACANT
  }

  /** The place in the list of a key of the tree. */
  lemma {:induction false} PlaceOf(t: Tree, list: seq<Visit>, key: Key) returns (i: nat)
    requires TreeOfList(t, list) && key in t
    ensures i < |list| && list[i].key == key
    ensures list[i].leaf != VACANT ==> IndicesOf(list)[i] == t[key].index
  {
    assert Met(list, key);
    i :| 0 <= i < |list| && list[i].key == key;
  }

  lemma {:induction false} PermutationEnumerates(t: Tree, list: seq<Visit>, leafCount: nat)
    requires TreeOfList(t, list) && LeafIndices.Permutation(leafCount, IndicesOf(list))
    ensures NoVacantLeaf(list) && Verifier.Enumerated(Verifier.State(t, leafCount + 1))
  {
    var indices := IndicesOf(list);
    forall i | 0 <= i < |list|
      ensures 1 <= indices[i] <= leafCount && list[i].leaf != VACANT
    {
      assert indices[i] == list[i].leaf.index;
    }
    forall n: nat | 1 <= n < leafCount + 1
      ensures Verifier.Numbered(t, n)
    {
      LeafIndices.PermutationCovers(leafCount, indices, n);
      var i :| 0 <= i < |indices| && indices[i] == n;
      assert list[i].key in t;
    }
    hide TreeOfList, IndicesOf;
    forall k | k in t
      ensures 1 <= t[k].index < leafCount + 1
    {
      var i := PlaceOf(t, list, k);
    }
    forall k, l | k in t && l in t && t[k].index == t[l].index
      ensures k == l
    {
      var i := PlaceOf(t, list, k);
      var j := PlaceOf(t, list, l);
      assert indices[i] == indices[j];
    }
  }

  lemma {:induction false} EnumerationIsPermutation(t: Tree, list: seq<Visit>, leafCount: nat)
    requires TreeOfList(t, list) && NoVacantLeaf(list) && Verifier.Enumerated(Verifier.State(t, leafCount + 1))
    ensures LeafIndices.Permutation(leafCount, IndicesOf(list))
  {
    hide LeafIndices.Permutation;
    var indices := IndicesOf(list);
    forall i | 0 <= i < |indices|
      ensures 1 <= indices[i] <= leafCount && list[i].key in t && t[list[i].key].index == indices[i]
    {
    }
    forall i, j | 0 <= i < j < |indices|
      ensures indices[i] != indices[j]
    {
      assert list[i].key != list[j].key;
    }
    forall n | 1 <= n <= leafCount
      ensures n in indices
    {
      assert Verifier.Numbered(t, n);
      NumberedIsListed(t, list, n);
    }
    LeafIndices.CoveringIsPermutation(leafCount, indices);
  }

  lemma {:induction false} NumberedIsListed(t: Tree, list: seq<Visit>, n: nat)
    requires TreeOfList(t, list) && NoVacantLeaf(list) && Verifier.Numbered(t, n)
    ensures n in IndicesOf(list)
  {
    var k :| k in t && t[k].index == n;
    assert Met(list, k);
    var i :| 0 <= i < |list| && list[i].key == k;
    assert IndicesOf(list)[i] == n;
  }

  /**
   The whole check, under every interleaving of its tasks: once the nodes validate, the index check
   passes if and only if no stored leaf is vacant and the stored leaves are numbered 1 .. leafCount,
   each number once. The validated hash is then the root hash of that well-formed tree.
   */
  lemma {:induction false} ConsistencyIsExact(d: nat, db: Db, root: Jellyfish.Node, version: nat, leafCount: nat,
                                              states: seq<LeafIndices.State>)
    requires WellTyped(d, db) && NodeWellTyped(d, root) && ValidateNode(d, db, root, NodeKey(version, [])).Ok?
    requires LeafIndices.Run(leafCount, IndicesOf(LeavesOf(d, db, root, [])), states)
    requires LeafIndices.Finished(states[|states| - 1])
    ensures var t := StoredTree(d, db, root);
      && (LeafIndices.Passes(leafCount, states[|states| - 1]) <==>
          NoVacantLeaf(LeavesOf(d, db, root, [])) && Verifier.Enumerated(Verifier.State(t, leafCount + 1)))
      && (LeafIndices.Passes(leafCount, states[|states| - 1]) ==>
          && Verifier.Sane(d, Verifier.State(t, leafCount + 1))
          && ValidateNode(d, db, root, NodeKey(version, [])).value == Root(d, t))
  {
    hide ValidateNode, WellTyped, NodeWellTyped, LeavesOf, Find, TreeOfList, Verifier.Enumerated, Root;
    hide LeafIndices.Run, LeafIndices.Passes, LeafIndices.Permutation, LeafIndices.Finished, IndicesOf;
    var t, list := StoredTree(d, db, root), LeavesOf(d, db, root, []);
    StoredTreeIsListed(d, db, root, version);
    ValidatedRootIsTreeRoot(d, db, root, version);
    LeafIndices.CheckIsExact(leafCount, IndicesOf(list), states);
    if LeafIndices.Permutation(leafCount, IndicesOf(list)) {
      PermutationEnumerates(t, list, leafCount);
      EnumeratedIsSane(d, db, root, leafCount);
    } else if NoVacantLeaf(list) && Verifier.Enumerated(Verifier.State(t, leafCount + 1)) {
      EnumerationIsPermutation(t, list, leafCount);
    }
  }

  lemma EnumeratedIsSane(d: nat, db: Db, root: Jellyfish.Node, leafCount: nat)
    requires Verifier.Enumerated(Verifier.State(StoredTree(d, db, root), leafCount + 1))
    ensures Verifier.Sane(d, Verifier.State(StoredTree(d, db, root), leafCount + 1))
  {
  }
}
