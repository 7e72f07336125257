/**
 Merkle paths from the stored tree (`create_proof` in crates/merkle_tree/src/storage/patch.rs): the
 path read off the nodes on the way of a key stands for the true siblings of the key.
 */
module MerklePaths {
  import opened SparseTree
  import opened Jellyfish
  import opened TreeUpdate
  import opened StoredVersions
  import opened TreeHistory

  /** The highest position below `h` at which the keys differ. */
  function DivergingBit(a: Key, b: Key, h: nat): (j: nat)
    requires h <= |a| && h <= |b|
    ensures h > 0 ==> j < h
  {
    if h == 0 then 0 else if a[h - 1] != b[h - 1] then h - 1 else DivergingBit(a, b, h - 1)
  }

  lemma {:induction false} DivergingBitIsHighest(a: Key, b: Key, h: nat)
    requires h <= |a| == |b| && a[h..] == b[h..] && a != b
    ensures var j := DivergingBit(a, b, h);
      j < h && a[j] != b[j] && a[j + 1..] == b[j + 1..]
  {
    assert a[0..] == a && b[0..] == b;
    if h == 0 {
    } else if a[h - 1] == b[h - 1] {
      assert a[h - 1..] == [a[h - 1]] + a[h..] && b[h - 1..] == [b[h - 1]] + b[h..];
      DivergingBitIsHighest(a, b, h - 1);
    }
  }

  /** The four siblings that an internal node of height `h` gives to the way of `key`. */
  function NodeSiblings(children: map<Key, ChildRef>, h: nat, key: Key): seq<Hash>
    requires NIBBLE <= h <= |key|
  {
    seq(NIBBLE, r requires 0 <= r < NIBBLE => SiblingIn(children, h, key, r))
  }

  function SiblingIn(children: map<Key, ChildRef>, h: nat, key: Key, r: nat): Hash
    requires NIBBLE <= h <= |key| && r < NIBBLE
  {
    var j := h - NIBBLE + r;
    var inner := InnerHash(children, h - NIBBLE, r, [!key[j]] + key[j + 1..h]);
    if inner.Some? then inner.value else Empty(j)
  }

  /** The siblings of `key` below the place `p`, without leading empty ones. */
  function PathBelow(d: nat, places: Places, p: Key, key: Key): seq<Hash>
    requires |p| <= d == |key|
    decreases d - |p|
  {
    var h := d - |p|;
    if p !in places then []
    else match places[p]
      case LeafNode(fullKey, leaf) =>
        if fullKey == key || |fullKey| != d || h == 0 then []
        else
          var j := DivergingBit(key, fullKey, h);
          [LeafHashAt(fullKey, leaf, j)] + seq(h - j - 1, i requires 0 <= i < h - j - 1 => Empty(j + 1 + i))
      case InternalNode(children) =>
        if h < NIBBLE then []
        else PathBelow(d, places, NibbleBelow(d, key, p) + p, key) + NodeSiblings(children, h, key)
  }

  /** The path stands for the true siblings up to height `h`. */
  ghost predicate StandsFor(t: Tree, key: Key, h: nat, path: seq<Hash>)
    requires h <= |key|
  {
    |path| <= h && forall j :: 0 <= j < h ==> SiblingNode(t, key, j) == PathAt(h, path, j)
  }

  ghost function SiblingNode(t: Tree, key: Key, j: nat): Hash
    requires j < |key|
  {
    SparseTree.Node(t, j, [!key[j]] + key[j + 1..])
  }

  /** What a path of levels up to `h` has for level `j`, its missing lowest levels being empty. */
  function PathAt(h: nat, path: seq<Hash>, j: nat): Hash
    requires |path| <= h && j < h
  {
    if j < h - |path| then Empty(j) else path[j - (h - |path|)]
  }

  /** Below a sibling of the way of `key`, a key shares with it exactly what is above the sibling. */
  lemma {:induction false} UnderSibling(d: nat, key: Key, j: nat, p: Key, target: Key)
    requires |p| <= d == |key| && j < d - |p| && Under(d, p, key) && Under(d, [!key[j]] + key[j + 1..], target)
    ensures Under(d, p, target) && target != key && target[j] != key[j] && target[j + 1..] == key[j + 1..]
  {
    assert target[j..][0] == target[j] && target[j..][1..] == target[j + 1..];
    assert target[d - |p|..] == target[j + 1..][d - |p| - j - 1..];
    assert key[d - |p|..] == key[j + 1..][d - |p| - j - 1..];
  }

  /** A way that ends in nothing, or in the key's own leaf, has only empty siblings below. */
  lemma {:induction false} AloneBelow(d: nat, t: Tree, key: Key, p: Key)
    requires |p| <= d == |key| && Under(d, p, key)
    requires forall target :: Under(d, p, target) && target != key ==> target !in t || t[target] == VACANT
    ensures StandsFor(t, key, d - |p|, [])
  {
    forall j | 0 <= j < d - |p|
      ensures SiblingNode(t, key, j) == Empty(j)
    {
      forall target | Under(d, [!key[j]] + key[j + 1..], target)
        ensures LeafAt(t, target) == VACANT
      {
        UnderSibling(d, key, j, p, target);
      }
      AllVacant(t, j, [!key[j]] + key[j + 1..]);
    }
  }

  /** A way that ends at another key's leaf has that leaf beside it where the keys part, and nothing else. */
  lemma {:induction false} OtherLeafBelow(d: nat, t: Tree, key: Key, p: Key, fullKey: Key, leaf: Leaf)
    requires Under(d, p, key) && Under(d, p, fullKey) && key != fullKey && |p| < d
    requires forall target :: Under(d, p, target) ==> LeafAt(t, target) == if target == fullKey then leaf else VACANT
    ensures var h := d - |p|;
      var j := DivergingBit(key, fullKey, h);
      StandsFor(t, key, h, [LeafHashAt(fullKey, leaf, j)]
                           + seq(h - j - 1, i requires 0 <= i < h - j - 1 => Empty(j + 1 + i)))
  {
    hide LeafHashAt, SiblingNode, Empty, DivergingBit;
    var h := d - |p|;
    DivergingBitIsHighest(key, fullKey, h);
    var m := DivergingBit(key, fullKey, h);
    var path := [LeafHashAt(fullKey, leaf, m)] + seq(h - m - 1, i requires 0 <= i < h - m - 1 => Empty(m + 1 + i));
    forall j | 0 <= j < h
      ensures SiblingNode(t, key, j) == PathAt(h, path, j)
    {
      SiblingOfOther(d, t, key, p, fullKey, leaf, m, j);
    }
  }

  lemma {:induction false} SiblingOfOther(d: nat, t: Tree, key: Key, p: Key, fullKey: Key, leaf: Leaf, m: nat, j: nat)
    requires Under(d, p, key) && Under(d, p, fullKey) && m < d - |p| && j < d - |p|
    requires key[m] != fullKey[m] && key[m + 1..] == fullKey[m + 1..]
    requires forall target :: Under(d, p, target) ==> LeafAt(t, target) == if target == fullKey then leaf else VACANT
    ensures SiblingNode(t, key, j) == if j == m then LeafHashAt(fullKey, leaf, j) else Empty(j)
  {
    hide LeafHashAt, Empty, SparseTree.Node;
    var suffix := [!key[j]] + key[j + 1..];
    forall target | Under(d, suffix, target)
      ensures LeafAt(t, target) == if target == fullKey then leaf else VACANT
      ensures target == fullKey ==> j == m
    {
      UnderSibling(d, key, j, p, target);
    }
    if j == m {
      assert fullKey[j..] == [fullKey[j]] + fullKey[j + 1..] == suffix;
      LoneLeaf(t, fullKey, leaf, j);
    } else {
      AllVacant(t, j, suffix);
    }
  }

  /** An internal node adds its four siblings. */
  lemma {:induction false} NodeBelow(d: nat, t: Tree, key: Key, p: Key, children: map<Key, ChildRef>, lower: seq<Hash>)
    requires Under(d, p, key) && |p| + NIBBLE <= d
    requires PlacesMatch(children, d - |p| - NIBBLE, p, t) && StandsFor(t, key, d - |p| - NIBBLE, lower)
    ensures StandsFor(t, key, d - |p|, lower + NodeSiblings(children, d - |p|, key))
  {
    hide PlacesMatch, SiblingNode, SiblingIn, Empty;
    var h := d - |p|;
    var path := lower + NodeSiblings(children, h, key);
    forall j | 0 <= j < h
      ensures SiblingNode(t, key, j) == PathAt(h, path, j)
    {
      if j >= h - NIBBLE {
        NodeSiblingIsTrue(d, t, key, p, children, j - (h - NIBBLE));
        assert path[j - (h - |path|)] == SiblingIn(children, h, key, j - (h - NIBBLE));
      } else {
        assert SiblingNode(t, key, j) == PathAt(h - NIBBLE, lower, j);
      }
    }
  }

  lemma {:induction false} NodeSiblingIsTrue(d: nat, t: Tree, key: Key, p: Key, children: map<Key, ChildRef>, r: nat)
    requires Under(d, p, key) && |p| + NIBBLE <= d && PlacesMatch(children, d - |p| - NIBBLE, p, t) && r < NIBBLE
    ensures SiblingNode(t, key, d - |p| - NIBBLE + r) == SiblingIn(children, d - |p|, key, r)
  {
    hide PlacesMatch, SparseTree.Node, Empty, InnerHash;
    var h := d - |p|;
    var j := h - NIBBLE + r;
    var bits := [!key[j]] + key[j + 1..h];
    assert key[j + 1..] == key[j + 1..h] + key[h..];
    assert bits + p == [!key[j]] + key[j + 1..];
    InnerIsNode(children, h - NIBBLE, p, t, r, bits);
  }

  /** The sixteen places below an internal node hash as its references say. */
  lemma {:induction false} ChildrenMatch(d: nat, base: Places, places: Places, v: nat, t: Tree, p: Key)
    requires Finished(d, base, places, v, t) && p in places && places[p].InternalNode?
    ensures |p| + NIBBLE <= d && PlacesMatch(places[p].children, d - |p| - NIBBLE, p, t)
  {
    hide Editing, HashedFrom, Finished, SparseTree.Node, Empty;
    FinishedIsEdited(d, base, places, v, t);
    PlaceIsOk(d, base, places, v, t, p);
    var children, h := places[p].children, d - |p| - NIBBLE;
    forall n {:trigger n in children} | |n| == NIBBLE
      ensures SparseTree.Node(t, h, n + p) == if n in children then children[n].hash else Empty(h)
    {
      ChildMatches(d, base, places, v, t, p, n);
    }
  }

  lemma {:induction false} ChildMatches(d: nat, base: Places, places: Places, v: nat, t: Tree, p: Key, n: Key)
    requires Finished(d, base, places, v, t) && p in places && places[p].InternalNode? && |n| == NIBBLE
    requires |p| + NIBBLE <= d
    ensures SparseTree.Node(t, d - |p| - NIBBLE, n + p) ==
            if n in places[p].children then places[p].children[n].hash else Empty(d - |p| - NIBBLE)
  {
    hide Editing, HashedFrom, Finished, SparseTree.Node, Empty, ValidateNode, Find, DbOf, ViewOf, HashOf;
    FinishedIsEdited(d, base, places, v, t);
    var db := DbOf(ViewOf(places, v, 0));
    if n in places[p].children {
      ChildValidates(d, base, places, v, 0, t, p, n);
      ViewIsWellTyped(d, base, places, v, 0, t);
      FinishedValidates(d, base, places, v, 0, t, n + p);
      forall target | Under(d, n + p, target)
        ensures LeafAt(t, target) == Find(d, db, places[n + p], n + p, target)
      {
        FindsContents(d, base, places, v, 0, t, n + p, target);
      }
      ValidatedIsNode(d, db, places[n + p], KeyAt(places, v, n + p), t);
      ValidatedHash(d, db, places[n + p], KeyAt(places, v, n + p));
    } else {
      forall target | Under(d, n + p, target)
        ensures LeafAt(t, target) == VACANT
      {
        AbsentSpeaks(d, base, places, v, t, p, n, target);
      }
      AllVacant(t, d - |p| - NIBBLE, n + p);
    }
  }

  lemma {:induction false} LeafPathStands(d: nat, base: Places, places: Places, v: nat, t: Tree, p: Key, key: Key)
    requires Finished(d, base, places, v, t) && Under(d, p, key) && p in places && places[p].LeafNode?
    ensures StandsFor(t, key, d - |p|, PathBelow(d, places, p, key))
  {
    hide Editing, HashedFrom, StandsFor, LeafHashAt;
    PlaceIsOk(d, base, places, v, t, p);
    var fullKey, leaf := places[p].fullKey, places[p].leaf;
    forall target | Under(d, p, target)
      ensures LeafAt(t, target) == if target == fullKey then leaf else VACANT
    {
      LeafSpeaks(d, base, places, v, t, p, target);
    }
    assert key[0..] == key && fullKey[0..] == fullKey;
    if fullKey == key || |p| == d {
      AloneBelow(d, t, key, p);
    } else {
      OtherLeafBelow(d, t, key, p, fullKey, leaf);
    }
  }

  /** The path read off the nodes stands for the true siblings. */
  lemma {:induction false} PathStands(d: nat, base: Places, places: Places, v: nat, t: Tree, p: Key, key: Key)
    requires Finished(d, base, places, v, t) && Under(d, p, key)
    requires p !in places ==> forall target :: Under(d, p, target) ==> target !in t
    ensures StandsFor(t, key, d - |p|, PathBelow(d, places, p, key))
    decreases d - |p|
  {
    hide Editing, HashedFrom, StandsFor, LeafHashAt;
    if p !in places {
      AloneBelow(d, t, key, p);
    } else {
      PlaceIsOk(d, base, places, v, t, p);
      match places[p]
      case LeafNode(_, _) =>
        LeafPathStands(d, base, places, v, t, p, key);
      case InternalNode(children) =>
        OneNibbleFurther(d, key, p);
        var n := NibbleBelow(d, key, p);
        JoinedPlace(n, p);
        if n + p !in places {
          forall target | Under(d, n + p, target)
            ensures target !in t
          {
            AbsentSpeaks(d, base, places, v, t, p, n, target);
          }
        }
        PathStands(d, base, places, v, t, n + p, key);
        ChildrenMatch(d, base, places, v, t, p);
        NodeBelow(d, t, key, p, children, PathBelow(d, places, n + p, key));
    }
  }

  lemma {:induction false} PathIsHonest(d: nat, base: Places, places: Places, v: nat, t: Tree, key: Key)
    requires Finished(d, base, places, v, t) && |key| == d
    ensures var path := PathBelow(d, places, [], key);
      |path| <= d && ExtendPath(d, path) == Siblings(t, key)
  {
    hide Editing, HashedFrom, Finished, Empty, PathBelow;
    FinishedIsEdited(d, base, places, v, t);
    assert key[d..] == [];
    if [] !in places {
      EmptyIffEmpty(d, base, places, v, t);
    }
    PathStands(d, base, places, v, t, [], key);
    var path := PathBelow(d, places, [], key);
    forall j | 0 <= j < d
      ensures ExtendPath(d, path)[j] == Siblings(t, key)[j]
    {
      assert SiblingNode(t, key, j) == PathAt(d, path, j);
    }
  }
}
