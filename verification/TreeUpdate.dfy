/**
 Writing into the tree (`TreeUpdater::insert` in crates/merkle_tree/src/storage/mod.rs and
 `WorkingPatchSet` with its finalisation in crates/merkle_tree/src/storage/patch.rs). The working
 set maps places in the radix-16 tree to nodes; inserting a leaf moves and splits nodes and marks
 the references on the way up with the new version, and finalising recomputes hashes level by level.
 */
module TreeUpdate {
  import opened SparseTree
  import opened Jellyfish
  import Verifier

  type Places = map<Key, Jellyfish.Node>

  // ----- shape

  /** The node above `p` is internal and refers to `p`. */
  predicate Linked(places: Places, p: Key) {
    && |p| >= NIBBLE && p[NIBBLE..] in places && places[p[NIBBLE..]].InternalNode?
    && p[..NIBBLE] in places[p[NIBBLE..]].children
  }

  function RefTo(places: Places, p: Key): ChildRef
    requires Linked(places, p)
  {
    places[p[NIBBLE..]].children[p[..NIBBLE]]
  }

  /** A leaf lies on the way of its key; an internal node has children, and they are there. */
  ghost predicate Fits(d: nat, places: Places, p: Key)
    requires p in places
  {
    match places[p]
    case LeafNode(fullKey, _) => Under(d, p, fullKey)
    case InternalNode(children) =>
      && |p| + NIBBLE <= d && children != map[]
      && forall n :: n in children ==> |n| == NIBBLE && n + p in places
  }

  ghost predicate Shape(d: nat, places: Places) {
    && (places != map[] ==> [] in places)
    && forall p {:trigger PlaceOk(d, places, p)} :: p in places ==> PlaceOk(d, places, p)
  }

  ghost predicate PlaceOk(d: nat, places: Places, p: Key)
    requires p in places
  {
    |p| <= d && |p| % NIBBLE == 0 && (p != [] ==> Linked(places, p)) && Fits(d, places, p)
  }

  ghost predicate IsLeafAt(places: Places, p: Key, key: Key) {
    p in places && places[p].LeafNode? && places[p].fullKey == key
  }

  ghost predicate HasLeaf(places: Places, key: Key) {
    exists p :: IsLeafAt(places, p, key)
  }

  /** `t` is the tree of the leaves in the working set. */
  ghost predicate IsContents(places: Places, t: Tree) {
    && (forall p :: p in places && places[p].LeafNode? ==>
          places[p].fullKey in t && t[places[p].fullKey] == places[p].leaf)
    && (forall k :: k in t ==> HasLeaf(places, k))
  }

  /** `p` is on the way from the root to `c`. */
  ghost predicate Above(p: Key, c: Key) {
    |p| <= |c| && c[|c| - |p|..] == p
  }

  /** Nothing is stored below a leaf. */
  lemma {:induction false} LeafIsLast(d: nat, places: Places, p: Key, q: Key)
    requires Shape(d, places) && p in places && q in places && places[p].LeafNode? && Above(p, q)
    ensures p == q
    decreases |q|
  {
    if |p| == |q| {
    } else {
      assert PlaceOk(d, places, p) && PlaceOk(d, places, q);
      var up := q[NIBBLE..];
      assert up[|up| - |p|..] == q[|q| - |p|..];
      LeafIsLast(d, places, p, up);
    }
  }

  /** Hence a key has at most one leaf. */
  lemma {:induction false} LeafIsUnique(d: nat, places: Places, p: Key, q: Key, key: Key)
    requires Shape(d, places) && IsLeafAt(places, p, key) && IsLeafAt(places, q, key)
    ensures p == q
  {
    assert PlaceOk(d, places, p) && PlaceOk(d, places, q);
    assert |p| <= |q| ==> Above(p, q) by {
      if |p| <= |q| {
        assert key[d - |p|..] == key[d - |q|..][|q| - |p|..];
      }
    }
    assert |q| <= |p| ==> Above(q, p) by {
      if |q| <= |p| {
        assert key[d - |q|..] == key[d - |p|..][|p| - |q|..];
      }
    }
    if |p| <= |q| {
      LeafIsLast(d, places, p, q);
    } else {
      LeafIsLast(d, places, q, p);
    }
  }

  /** Where the way of a key ends below an internal node, the key has no leaf. */
  lemma {:induction false} LeafIsElsewhere(d: nat, places: Places, c: Key, key: Key, q: Key)
    requires Shape(d, places) && Under(d, c, key) && c !in places && |c| >= NIBBLE
    requires c[NIBBLE..] in places && places[c[NIBBLE..]].InternalNode?
    ensures !IsLeafAt(places, q, key)
  {
    if IsLeafAt(places, q, key) {
      var p := c[NIBBLE..];
      assert PlaceOk(d, places, q) && PlaceOk(d, places, p);
      if |q| <= |p| {
        assert Above(q, p) by {
          assert key[d - |q|..] == key[d - |c|..][|c| - |q|..];
        }
        LeafIsLast(d, places, q, p);
      } else {
        assert |c| <= |q|;
        assert Above(c, q) by {
          assert key[d - |c|..] == key[d - |q|..][|q| - |c|..];
        }
        WayIsStored(d, places, c, q);
      }
    }
  }

  /** All places on the way to a stored one are stored. */
  lemma {:induction false} WayIsStored(d: nat, places: Places, c: Key, q: Key)
    requires Shape(d, places) && q in places && Above(c, q) && |c| % NIBBLE == 0
    ensures c in places
    decreases |q|
  {
    if |c| == |q| {
    } else {
      assert PlaceOk(d, places, q);
      var up := q[NIBBLE..];
      assert up[|up| - |c|..] == q[|q| - |c|..];
      WayIsStored(d, places, c, up);
    }
  }

  // ----- edits

  /** A leaf takes a new value. */
  function LeafSet(places: Places, p: Key, key: Key, leaf: Leaf): Places {
    places[p := LeafNode(key, leaf)]
  }

  /** An internal node gets a new leaf below it. */
  function LeafAdded(places: Places, p: Key, n: Key, ref: ChildRef, key: Key, leaf: Leaf): Places
    requires p in places && places[p].InternalNode?
  {
    places[p := InternalNode(places[p].children[n := ref])][n + p := LeafNode(key, leaf)]
  }

  /** A leaf moves down one level, below a new internal node in its place. */
  function LeafPushed(places: Places, p: Key, n: Key, ref: ChildRef): Places
    requires p in places
  {
    places[p := InternalNode(map[n := ref])][n + p := places[p]]
  }

  /** A reference is replaced. */
  function RefSet(places: Places, c: Key, ref: ChildRef): Places
    requires Linked(places, c)
  {
    var q := c[NIBBLE..];
    places[q := InternalNode(places[q].children[c[..NIBBLE] := ref])]
  }

  lemma {:induction false} JoinedPlace(n: Key, p: Key)
    requires |n| == NIBBLE
    ensures (n + p)[..NIBBLE] == n && (n + p)[NIBBLE..] == p && n + p != p
  {
  }

  lemma {:induction false} SetKeepsShape(d: nat, places: Places, p: Key, key: Key, leaf: Leaf, t: Tree)
    requires Shape(d, places) && IsContents(places, t) && IsLeafAt(places, p, key)
    ensures Shape(d, LeafSet(places, p, key, leaf)) && IsContents(LeafSet(places, p, key, leaf), t[key := leaf])
  {
    var after := LeafSet(places, p, key, leaf);
    assert PlaceOk(d, places, p);
    forall q | q in after
      ensures PlaceOk(d, after, q)
    {
      assert PlaceOk(d, places, q);
    }
    forall q | q in after && after[q].LeafNode?
      ensures after[q].fullKey in t[key := leaf] && t[key := leaf][after[q].fullKey] == after[q].leaf
    {
      if q != p && after[q].fullKey == key {
        LeafIsUnique(d, places, p, q, key);
      }
    }
    forall k | k in t[key := leaf]
      ensures HasLeaf(after, k)
    {
      if k == key {
        assert IsLeafAt(after, p, k);
      } else {
        assert HasLeaf(places, k);
        var q :| IsLeafAt(places, q, k);
        assert IsLeafAt(after, q, k);
      }
    }
  }

  lemma {:induction false} AddKeepsPlace(d: nat, places: Places, p: Key, n: Key, ref: ChildRef, key: Key, leaf: Leaf,
                                         q: Key)
    requires Shape(d, places) && p in places && places[p].InternalNode?
    requires |n| == NIBBLE && n + p !in places && Under(d, n + p, key)
    requires q in LeafAdded(places, p, n, ref, key, leaf)
    ensures PlaceOk(d, LeafAdded(places, p, n, ref, key, leaf), q)
  {
    JoinedPlace(n, p);
    assert PlaceOk(d, places, p);
    if q in places {
      assert PlaceOk(d, places, q);
      var after := LeafAdded(places, p, n, ref, key, leaf);
      assert forall r :: r in places ==> r in after;
      if q == p {
        assert after[p].children == places[p].children[n := ref];
      }
    }
  }

  lemma {:induction false} AddKeepsContents(d: nat, places: Places, p: Key, n: Key, ref: ChildRef, key: Key, leaf: Leaf,
                                            t: Tree)
    requires Shape(d, places) && IsContents(places, t) && p in places && places[p].InternalNode?
    requires |n| == NIBBLE && n + p !in places && Under(d, n + p, key)
    ensures key !in t
    ensures IsContents(LeafAdded(places, p, n, ref, key, leaf), t[key := leaf])
  {
    hide Shape;
    JoinedPlace(n, p);
    var after := LeafAdded(places, p, n, ref, key, leaf);
    forall q
      ensures !IsLeafAt(places, q, key)
    {
      LeafIsElsewhere(d, places, n + p, key, q);
    }
    assert key !in t;
    forall k | k in t[key := leaf]
      ensures HasLeaf(after, k)
    {
      if k == key {
        assert IsLeafAt(after, n + p, k);
      } else {
        assert HasLeaf(places, k);
        var q :| IsLeafAt(places, q, k);
        assert IsLeafAt(after, q, k);
      }
    }
    forall q | q in after && after[q].LeafNode?
      ensures after[q].fullKey in t[key := leaf] && t[key := leaf][after[q].fullKey] == after[q].leaf
    {
      assert q == n + p || IsLeafAt(places, q, after[q].fullKey);
    }
  }

  lemma {:induction false} AddKeepsShape(d: nat, places: Places, p: Key, n: Key, ref: ChildRef, key: Key, leaf: Leaf,
                                         t: Tree)
    requires Shape(d, places) && IsContents(places, t) && p in places && places[p].InternalNode?
    requires |n| == NIBBLE && n + p !in places && Under(d, n + p, key)
    ensures key !in t
    ensures Shape(d, LeafAdded(places, p, n, ref, key, leaf))
    ensures IsContents(LeafAdded(places, p, n, ref, key, leaf), t[key := leaf])
  {
    hide PlaceOk, IsContents;
    AddKeepsContents(d, places, p, n, ref, key, leaf, t);
    var after := LeafAdded(places, p, n, ref, key, leaf);
    forall q | q in after
      ensures PlaceOk(d, after, q)
    {
      AddKeepsPlace(d, places, p, n, ref, key, leaf, q);
    }
  }

  lemma {:induction false} PushKeepsPlace(d: nat, places: Places, p: Key, n: Key, ref: ChildRef, q: Key)
    requires Shape(d, places) && p in places && places[p].LeafNode? && |n| == NIBBLE
    requires |p| + NIBBLE <= d && Under(d, n + p, places[p].fullKey)
    requires q in LeafPushed(places, p, n, ref)
    ensures PlaceOk(d, LeafPushed(places, p, n, ref), q) && n + p !in places
  {
    JoinedPlace(n, p);
    if n + p in places {
      assert Above(p, n + p);
      LeafIsLast(d, places, p, n + p);
    }
    assert PlaceOk(d, places, p);
    if q in places {
      assert PlaceOk(d, places, q);
      var after := LeafPushed(places, p, n, ref);
      assert forall r :: r in places ==> r in after;
      assert q != [] ==> q[NIBBLE..] != p;
      assert n in map[n := ref];
    }
  }

  lemma {:induction false} PushKeepsShape(d: nat, places: Places, p: Key, n: Key, ref: ChildRef, t: Tree)
    requires Shape(d, places) && IsContents(places, t) && p in places && places[p].LeafNode? && |n| == NIBBLE
    requires |p| + NIBBLE <= d && Under(d, n + p, places[p].fullKey)
    ensures Shape(d, LeafPushed(places, p, n, ref)) && IsContents(LeafPushed(places, p, n, ref), t)
    ensures n + p !in places
  {
    hide PlaceOk;
    var after := LeafPushed(places, p, n, ref);
    forall q | q in after
      ensures PlaceOk(d, after, q)
    {
      PushKeepsPlace(d, places, p, n, ref, q);
    }
    assert p in after;
    PushKeepsPlace(d, places, p, n, ref, p);
    hide Shape;
    JoinedPlace(n, p);
    forall k | k in t
      ensures HasLeaf(after, k)
    {
      assert HasLeaf(places, k);
      var q :| IsLeafAt(places, q, k);
      assert IsLeafAt(after, if q == p then n + p else q, k);
    }
  }

  lemma {:induction false} RefSetKeepsShape(d: nat, places: Places, c: Key, ref: ChildRef, t: Tree)
    requires Shape(d, places) && IsContents(places, t) && Linked(places, c)
    ensures Shape(d, RefSet(places, c, ref)) && IsContents(RefSet(places, c, ref), t)
  {
    var after := RefSet(places, c, ref);
    forall q | q in after
      ensures PlaceOk(d, after, q)
    {
      assert PlaceOk(d, places, q);
    }
    forall k | k in t
      ensures HasLeaf(after, k)
    {
      assert HasLeaf(places, k);
      var q :| IsLeafAt(places, q, k);
      assert IsLeafAt(after, q, k);
    }
  }

  // ----- references

  /** The hash of a node at its place, from its own contents. */
  function NodeHashAt(d: nat, node: Jellyfish.Node, p: Key): Hash {
    if |p| <= d && (node.LeafNode? ==> |node.fullKey| == d) then HashOf(d, node, d - |p|) else Empty(0)
  }

  /** An internal node has the version of its newest child. */
  ghost predicate VersionFits(node: Jellyfish.Node, version: nat) {
    node.InternalNode? ==>
      && (forall n :: n in node.children ==> node.children[n].version <= version)
      && HasVersion(node, version)
  }

  ghost predicate HasVersion(node: Jellyfish.Node, version: nat)
    requires node.InternalNode?
  {
    exists n :: n in node.children && node.children[n].version == version
  }

  /** What lies below a reference of an older version is as it was in that version, with the right hash. */
  ghost predicate OldIsKept(d: nat, base: Places, places: Places, p: Key)
    requires p in places && Linked(places, p)
  {
    && p in base && base[p] == places[p] && Linked(base, p) && RefTo(base, p) == RefTo(places, p)
    && RefTo(places, p).hash == NodeHashAt(d, places[p], p)
  }

  /**
   The reference to `p` is in order while version `v` is being written; those on the way to the
   cursor `c` still have to be marked, and the kind of `moving` is still to come.
   */
  ghost predicate RefFine(d: nat, base: Places, places: Places, v: nat, c: Key, moving: Key, p: Key)
    requires p in places && Linked(places, p)
  {
    var ref := RefTo(places, p);
    && ref.version <= v
    && (p != moving ==> ref.isLeaf == places[p].LeafNode?)
    && (!Above(p, c) ==> VersionFits(places[p], ref.version) && (ref.version < v ==> OldIsKept(d, base, places, p)))
  }

  ghost predicate RefsFine(d: nat, base: Places, places: Places, v: nat, c: Key, moving: Key) {
    && (forall p :: p in base ==> p in places)
    && forall p {:trigger RefFine(d, base, places, v, c, moving, p)} :: p in places && Linked(places, p) ==>
         RefFine(d, base, places, v, c, moving, p)
  }

  /** A node may be rewritten if its own reference is already marked or will be. */
  ghost predicate MayRewrite(places: Places, v: nat, c: Key, p: Key) {
    Above(p, c) || (Linked(places, p) && RefTo(places, p).version == v)
  }

  lemma {:induction false} SetKeepsRefs(d: nat, base: Places, places: Places, v: nat, c: Key, key: Key, leaf: Leaf)
    requires RefsFine(d, base, places, v, c, []) && c in places && places[c].LeafNode?
    ensures RefsFine(d, base, LeafSet(places, c, key, leaf), v, c, [])
  {
    var after := LeafSet(places, c, key, leaf);
    forall q | q in after && Linked(after, q)
      ensures RefFine(d, base, after, v, c, [], q)
    {
      assert RefFine(d, base, places, v, c, [], q);
    }
  }

  lemma {:induction false} AddKeepsRefs(d: nat, base: Places, places: Places, v: nat, c: Key, p: Key, n: Key,
                                        hash: Hash, key: Key, leaf: Leaf)
    requires RefsFine(d, base, places, v, c, []) && p in places && places[p].InternalNode?
    requires MayRewrite(places, v, c, p) && |n| == NIBBLE && n + p !in places
    requires forall m :: m in places[p].children ==> m + p in places && |m| == NIBBLE
    ensures RefsFine(d, base, LeafAdded(places, p, n, ChildRef(hash, v, true), key, leaf), v, c, [])
  {
    JoinedPlace(n, p);
    var after := LeafAdded(places, p, n, ChildRef(hash, v, true), key, leaf);
    forall q | q in after && Linked(after, q)
      ensures RefFine(d, base, after, v, c, [], q)
    {
      if q != n + p {
        assert q == q[..NIBBLE] + q[NIBBLE..];
        assert RefFine(d, base, places, v, c, [], q);
        if q == p {
          forall m | m in after[p].children
            ensures after[p].children[m].version <= v
          {
            if m != n {
              JoinedPlace(m, p);
              assert RefFine(d, base, places, v, c, [], m + p);
            }
          }
          assert after[p].children[n].version == v;
        }
      }
    }
  }

  /** `moving` is the leaf's place before and, unless its new reference already calls it a leaf, after. */
  lemma {:induction false} PushKeepsRefs(d: nat, base: Places, places: Places, v: nat, c: Key, p: Key, n: Key,
                                         ref: ChildRef)
    requires RefsFine(d, base, places, v, c, p) && p in places && places[p].LeafNode? && MayRewrite(places, v, c, p)
    requires |n| == NIBBLE && n + p !in places && ref.version == v
    requires forall q :: q in places && Linked(places, q) ==> q[NIBBLE..] != p
    requires p != [] ==> Linked(places, p) && !RefTo(places, p).isLeaf
    ensures RefsFine(d, base, LeafPushed(places, p, n, ref), v, c, if ref.isLeaf then [] else n + p)
  {
    JoinedPlace(n, p);
    var after := LeafPushed(places, p, n, ref);
    var moving := if ref.isLeaf then [] else n + p;
    forall q | q in after && Linked(after, q)
      ensures RefFine(d, base, after, v, c, moving, q)
    {
      assert q == q[..NIBBLE] + q[NIBBLE..];
      if q != n + p {
        assert RefFine(d, base, places, v, c, p, q);
        if q == p {
          assert after[p].children[n].version == v;
        }
      }
    }
  }

  /** The reference to a leaf that is about to move is no longer one to a leaf. */
  lemma {:induction false} ClearKeepsRefs(d: nat, base: Places, places: Places, v: nat, c: Key)
    requires RefsFine(d, base, places, v, c, []) && c in places && Linked(places, c)
    ensures RefsFine(d, base, RefSet(places, c, RefTo(places, c).(isLeaf := false)), v, c, c)
  {
    var q := c[NIBBLE..];
    var after := RefSet(places, c, RefTo(places, c).(isLeaf := false));
    assert Above(q, c);
    forall r | r in after && Linked(after, r)
      ensures RefFine(d, base, after, v, c, c, r)
    {
      assert r == r[..NIBBLE] + r[NIBBLE..] && c == c[..NIBBLE] + c[NIBBLE..];
      assert RefFine(d, base, places, v, c, [], r);
    }
  }

  /** Marking the reference to the cursor moves the cursor up. */
  lemma {:induction false} MarkKeepsRefs(d: nat, base: Places, places: Places, v: nat, c: Key)
    requires RefsFine(d, base, places, v, c, []) && c in places && Linked(places, c)
    requires places[c].InternalNode? ==> HasVersion(places[c], v)
    requires forall p :: p in places ==> |p| % NIBBLE == 0
    requires places[c].InternalNode? ==> forall m :: m in places[c].children ==> m + c in places && |m| == NIBBLE
    ensures var after := RefSet(places, c, RefTo(places, c).(version := v));
      && RefsFine(d, base, after, v, c[NIBBLE..], [])
      && after[c[NIBBLE..]].InternalNode? && HasVersion(after[c[NIBBLE..]], v)
  {
    var q, n := c[NIBBLE..], c[..NIBBLE];
    var after := RefSet(places, c, RefTo(places, c).(version := v));
    assert c == n + q;
    assert after[q].children[n].version == v;
    forall r | r in after && Linked(after, r)
      ensures RefFine(d, base, after, v, q, [], r)
    {
      assert r == r[..NIBBLE] + r[NIBBLE..];
      assert RefFine(d, base, places, v, c, [], r);
      if r == c {
        if places[c].InternalNode? {
          forall m | m in places[c].children
            ensures places[c].children[m].version <= v
          {
            JoinedPlace(m, c);
            assert RefFine(d, base, places, v, c, [], m + c);
          }
        }
      } else if !Above(r, q) {
        AboveOneMore(r, c);
        assert r != q;
      }
    }
  }

  lemma {:induction false} AboveOneMore(p: Key, c: Key)
    requires |c| >= NIBBLE && |p| % NIBBLE == |c| % NIBBLE == 0
    ensures Above(p, c) <==> p == c || Above(p, c[NIBBLE..])
  {
    var q := c[NIBBLE..];
    if |p| <= |q| {
      assert c[|c| - |p|..] == q[|q| - |p|..];
    }
  }

  // ----- edits as a whole

  /** The working set in the middle of writing version `v`, with the tree `t` in it. */
  ghost predicate Editing(d: nat, base: Places, places: Places, v: nat, c: Key, moving: Key, t: Tree) {
    d % NIBBLE == 0 && Shape(d, places) && IsContents(places, t) && RefsFine(d, base, places, v, c, moving)
  }

  lemma {:induction false} EditSet(d: nat, base: Places, places: Places, v: nat, p: Key, key: Key, leaf: Leaf, t: Tree)
    requires Editing(d, base, places, v, [], [], t) && IsLeafAt(places, p, key)
    ensures Editing(d, base, LeafSet(places, p, key, leaf), v, p, [], t[key := leaf])
    ensures key in t && t[key] == places[p].leaf
  {
    hide Shape, IsContents, RefsFine, LeafSet;
    assert key in t && t[key] == places[p].leaf by {
      LeafIsContained(places, t, p);
    }
    SetKeepsShape(d, places, p, key, leaf, t);
    CursorLowered(d, base, places, v, [], p);
    SetKeepsRefs(d, base, places, v, p, key, leaf);
  }

  lemma LeafIsContained(places: Places, t: Tree, p: Key)
    requires IsContents(places, t) && p in places && places[p].LeafNode?
    ensures places[p].fullKey in t && t[places[p].fullKey] == places[p].leaf
  {
  }

  /** A cursor further down excuses more. */
  lemma {:induction false} CursorLowered(d: nat, base: Places, places: Places, v: nat, moving: Key, c: Key)
    requires RefsFine(d, base, places, v, [], moving)
    ensures RefsFine(d, base, places, v, c, moving)
  {
    forall p | p in places && Linked(places, p)
      ensures RefFine(d, base, places, v, c, moving, p)
    {
      assert RefFine(d, base, places, v, [], moving, p);
    }
  }

  lemma {:induction false} ChildrenAreStored(d: nat, places: Places, p: Key)
    requires Shape(d, places) && p in places && places[p].InternalNode?
    ensures forall m :: m in places[p].children ==> m + p in places && |m| == NIBBLE
    ensures |p| + NIBBLE <= d
  {
    assert PlaceOk(d, places, p);
  }

  lemma {:induction false} EditAdd(d: nat, base: Places, places: Places, v: nat, c: Key, p: Key, n: Key, hash: Hash,
                                   key: Key, leaf: Leaf, t: Tree)
    requires Editing(d, base, places, v, c, [], t) && p in places && places[p].InternalNode?
    requires MayRewrite(places, v, c, p) && |n| == NIBBLE && n + p !in places && Under(d, n + p, key)
    ensures var after := LeafAdded(places, p, n, ChildRef(hash, v, true), key, leaf);
      Editing(d, base, after, v, c, [], t[key := leaf]) && after[p].InternalNode? && HasVersion(after[p], v)
    ensures key !in t
  {
    hide Shape, IsContents, RefsFine;
    AddKeepsShape(d, places, p, n, ChildRef(hash, v, true), key, leaf, t);
    ChildrenAreStored(d, places, p);
    AddKeepsRefs(d, base, places, v, c, p, n, hash, key, leaf);
    JoinedPlace(n, p);
    var after := LeafAdded(places, p, n, ChildRef(hash, v, true), key, leaf);
    assert after[p].children[n].version == v;
  }

  lemma {:induction false} NothingBelowLeaf(d: nat, places: Places, p: Key)
    requires Shape(d, places) && p in places && places[p].LeafNode?
    ensures forall q :: q in places && Linked(places, q) ==> q[NIBBLE..] != p
    ensures p != [] ==> Linked(places, p)
  {
    assert PlaceOk(d, places, p);
  }

  lemma {:induction false} EditPush(d: nat, base: Places, places: Places, v: nat, c: Key, p: Key, n: Key, ref: ChildRef,
                                    t: Tree)
    requires Editing(d, base, places, v, c, p, t) && p in places && places[p].LeafNode? && MayRewrite(places, v, c, p)
    requires p != [] && Linked(places, p) ==> !RefTo(places, p).isLeaf
    requires |n| == NIBBLE && |p| + NIBBLE <= d && Under(d, n + p, places[p].fullKey) && ref.version == v
    ensures var after := LeafPushed(places, p, n, ref);
      && Editing(d, base, after, v, c, if ref.isLeaf then [] else n + p, t)
      && after[p] == InternalNode(map[n := ref]) && after[n + p] == places[p]
      && Linked(after, n + p) && RefTo(after, n + p) == ref && HasVersion(after[p], v)
      && (p != [] ==> Linked(places, p) && Linked(after, p) && RefTo(after, p) == RefTo(places, p))
      && forall q :: q in after ==> q in places || q == n + p
  {
    hide Shape, IsContents, RefsFine;
    NothingBelowLeaf(d, places, p);
    PushKeepsShape(d, places, p, n, ref, t);
    PushKeepsRefs(d, base, places, v, c, p, n, ref);
    JoinedPlace(n, p);
    assert LeafPushed(places, p, n, ref)[p].children[n].version == v;
  }

  lemma {:induction false} EditClear(d: nat, base: Places, places: Places, v: nat, p: Key, t: Tree)
    requires Editing(d, base, places, v, [], [], t) && p in places && Linked(places, p)
    ensures var after := RefSet(places, p, RefTo(places, p).(isLeaf := false));
      && Editing(d, base, after, v, p, p, t) && Linked(after, p) && !RefTo(after, p).isLeaf && after[p] == places[p]
  {
    hide Shape, IsContents, RefsFine;
    CursorLowered(d, base, places, v, [], p);
    RefSetKeepsShape(d, places, p, RefTo(places, p).(isLeaf := false), t);
    ClearKeepsRefs(d, base, places, v, p);
  }

  lemma {:induction false} PlacesAreWhole(d: nat, places: Places, c: Key)
    requires Shape(d, places) && c in places
    ensures |c| <= d && forall p :: p in places ==> |p| % NIBBLE == 0
    ensures c != [] ==> Linked(places, c)
  {
    assert PlaceOk(d, places, c);
    forall p | p in places
      ensures |p| % NIBBLE == 0
    {
      assert PlaceOk(d, places, p);
    }
  }

  lemma {:induction false} EditMark(d: nat, base: Places, places: Places, v: nat, c: Key, t: Tree)
    requires Editing(d, base, places, v, c, [], t) && c in places && c != []
    requires places[c].InternalNode? ==> HasVersion(places[c], v)
    ensures Linked(places, c)
    ensures var after := RefSet(places, c, RefTo(places, c).(version := v));
      && Editing(d, base, after, v, c[NIBBLE..], [], t) && c[NIBBLE..] in after
      && after[c[NIBBLE..]].InternalNode? && HasVersion(after[c[NIBBLE..]], v)
  {
    hide Shape, IsContents, RefsFine, HasVersion;
    PlacesAreWhole(d, places, c);
    if places[c].InternalNode? {
      ChildrenAreStored(d, places, c);
    }
    RefSetKeepsShape(d, places, c, RefTo(places, c).(version := v), t);
    MarkKeepsRefs(d, base, places, v, c);
  }

  // ----- the updater

  /** Where the way of a key ends. */
  datatype TraverseOutcome =
    | LeafMatch(place: Key, leaf: Leaf)
    | LeafMismatch(place: Key, fullKey: Key, leaf: Leaf)
    | MissingChild(place: Key)

  /** The hash of a new reference, until it is computed. */
  const NO_HASH: Hash := Unhashed(0)

  /** The nibble below `place` on the way of `key`. */
  function NibbleBelow(d: nat, key: Key, place: Key): Key
    requires |place| + NIBBLE <= d == |key|
  {
    key[d - |place| - NIBBLE..d - |place|]
  }

  lemma {:induction false} OneNibbleFurther(d: nat, key: Key, place: Key)
    requires Under(d, place, key) && |place| + NIBBLE <= d
    ensures |NibbleBelow(d, key, place)| == NIBBLE && Under(d, NibbleBelow(d, key, place) + place, key)
  {
    var low := key[d - |place| - NIBBLE..];
    assert low == low[..NIBBLE] + low[NIBBLE..];
  }

  /** While a leaf moves down from `c`: `w` is the working set with that leaf at `cur`. */
  ghost predicate Splitting(d: nat, base: Places, w: Places, v: nat, c: Key, cur: Key, moved: Jellyfish.Node, key: Key,
                            t: Tree)
  {
    && Editing(d, base, w, v, c, cur, t) && cur in w && w[cur] == moved && moved.LeafNode?
    && MayRewrite(w, v, c, cur) && (cur != [] ==> Linked(w, cur) && !RefTo(w, cur).isLeaf)
    && Under(d, cur, key) && Under(d, cur, moved.fullKey) && key != moved.fullKey && |cur| % NIBBLE == 0
    && c in w && (c == cur || (|c| < |cur| && w[c].InternalNode? && HasVersion(w[c], v)))
  }

  lemma {:induction false} StartSplit(d: nat, base: Places, places: Places, v: nat, p: Key, key: Key, t: Tree)
    requires Editing(d, base, places, v, [], [], t) && p in places && places[p].LeafNode?
    requires Under(d, p, key) && key != places[p].fullKey
    ensures p == [] ==> Splitting(d, base, places, v, p, p, places[p], key, t)
    ensures p != [] ==>
      && Linked(places, p)
      && Splitting(d, base, RefSet(places, p, RefTo(places, p).(isLeaf := false)), v, p, p, places[p], key, t)
  {
    assert PlaceOk(d, places, p);
    hide Shape, IsContents, RefsFine;
    if p != [] {
      EditClear(d, base, places, v, p, t);
    }
  }

  lemma {:induction false} RoomToSplit(d: nat, base: Places, w: Places, v: nat, c: Key, cur: Key, moved: Jellyfish.Node,
                                       key: Key, t: Tree)
    requires Splitting(d, base, w, v, c, cur, moved, key, t)
    ensures |cur| + NIBBLE <= d == |key| == |moved.fullKey|
  {
    hide Shape, IsContents, RefsFine;
    assert key[0..] == key && moved.fullKey[0..] == moved.fullKey;
  }

  lemma {:induction false} SplitFurther(d: nat, base: Places, w: Places, v: nat, c: Key, cur: Key,
                                        moved: Jellyfish.Node, key: Key, t: Tree)
    requires Splitting(d, base, w, v, c, cur, moved, key, t) && |cur| + NIBBLE <= d == |key| == |moved.fullKey|
    requires NibbleBelow(d, moved.fullKey, cur) == NibbleBelow(d, key, cur)
    ensures var n := NibbleBelow(d, key, cur);
      Splitting(d, base, LeafPushed(w, cur, n, ChildRef(NO_HASH, v, false)), v, c, n + cur, moved, key, t)
  {
    hide Editing, NibbleBelow;
    var n := NibbleBelow(d, key, cur);
    OneNibbleFurther(d, key, cur);
    OneNibbleFurther(d, moved.fullKey, cur);
    JoinedPlace(n, cur);
    EditPush(d, base, w, v, c, cur, n, ChildRef(NO_HASH, v, false), t);
  }

  /** The working set once the keys part at `cur`. */
  function Forked(w: Places, v: nat, cur: Key, m: Key, n: Key, key: Key, leaf: Leaf): Places
    requires cur in w
  {
    var ref := ChildRef(NO_HASH, v, true);
    w[cur := InternalNode(map[n := ref, m := ref])][n + cur := LeafNode(key, leaf)][m + cur := w[cur]]
  }

  lemma {:induction false} SplitEnds(d: nat, base: Places, w: Places, v: nat, c: Key, cur: Key, moved: Jellyfish.Node,
                                     key: Key, leaf: Leaf, t: Tree)
    requires Splitting(d, base, w, v, c, cur, moved, key, t) && |cur| + NIBBLE <= d == |key| == |moved.fullKey|
    requires NibbleBelow(d, moved.fullKey, cur) != NibbleBelow(d, key, cur)
    ensures var after := Forked(w, v, cur, NibbleBelow(d, moved.fullKey, cur), NibbleBelow(d, key, cur), key, leaf);
      && Editing(d, base, after, v, c, [], t[key := leaf])
      && c in after && after[c].InternalNode? && HasVersion(after[c], v)
    ensures key !in t
  {
    hide NibbleBelow, Shape, IsContents, RefsFine;
    var m, n, ref := NibbleBelow(d, moved.fullKey, cur), NibbleBelow(d, key, cur), ChildRef(NO_HASH, v, true);
    OneNibbleFurther(d, key, cur);
    OneNibbleFurther(d, moved.fullKey, cur);
    JoinedPlace(n, cur);
    JoinedPlace(m, cur);
    EditPush(d, base, w, v, c, cur, m, ref, t);
    var pushed := LeafPushed(w, cur, m, ref);
    if n + cur in w {
      assert Above(cur, n + cur);
      LeafIsLast(d, w, cur, n + cur);
    }
    EditAdd(d, base, pushed, v, c, cur, n, NO_HASH, key, leaf, t);
    var added := LeafAdded(pushed, cur, n, ref, key, leaf);
    assert map[m := ref][n := ref] == map[n := ref, m := ref];
    assert added == Forked(w, v, cur, m, n, key, leaf);
  }

  lemma {:induction false} EditFirst(d: nat, base: Places, v: nat, key: Key, leaf: Leaf, t: Tree)
    requires Editing(d, base, map[], v, [], [], t) && |key| == d
    ensures Editing(d, base, map[[] := LeafNode(key, leaf)], v, [], [], t[key := leaf]) && key !in t
  {
    var after: Places := map[[] := LeafNode(key, leaf)];
    assert forall k :: k in t ==> HasLeaf(map[], k);
    assert t == map[];
    assert key[d..] == [] && IsLeafAt(after, [], key);
    assert PlaceOk(d, after, []);
  }

  lemma {:induction false} EditBelow(d: nat, base: Places, places: Places, v: nat, place: Key, key: Key, leaf: Leaf,
                                     t: Tree)
    requires Editing(d, base, places, v, [], [], t) && Under(d, place, key) && place !in places && |place| >= NIBBLE
    requires place[NIBBLE..] in places && places[place[NIBBLE..]].InternalNode?
    ensures var after := LeafAdded(places, place[NIBBLE..], place[..NIBBLE], ChildRef(NO_HASH, v, true), key, leaf);
      Editing(d, base, after, v, place, [], t[key := leaf])
    ensures key !in t
  {
    hide Shape, IsContents, RefsFine;
    assert place == place[..NIBBLE] + place[NIBBLE..] && Above(place[NIBBLE..], place);
    CursorLowered(d, base, places, v, [], place);
    EditAdd(d, base, places, v, place, place[NIBBLE..], place[..NIBBLE], NO_HASH, key, leaf, t);
  }

  /** No reference is newer than the version being written. */
  lemma {:induction false} NoneIsNewer(d: nat, base: Places, places: Places, v: nat, c: Key, t: Tree)
    requires Editing(d, base, places, v, c, [], t) && c in places && Linked(places, c)
    ensures RefTo(places, c).version <= v
  {
    assert RefFine(d, base, places, v, c, [], c);
  }

  // ----- hashes

  /** A node whose references carry the hashes of the nodes they refer to. */
  function Rehashed(d: nat, places: Places, p: Key): Jellyfish.Node
    requires p in places
  {
    match places[p]
    case LeafNode(_, _) => places[p]
    case InternalNode(children) =>
      InternalNode(map n | n in children ::
        if n + p in places then children[n].(hash := NodeHashAt(d, places[n + p], n + p)) else children[n])
  }

  /** All nodes `level` bits below the root are brought up to date. */
  function LevelRehashed(d: nat, places: Places, level: nat): Places {
    map p | p in places :: if |p| == level then Rehashed(d, places, p) else places[p]
  }

  ghost predicate RefHashed(d: nat, places: Places, p: Key)
    requires p in places && Linked(places, p)
  {
    RefTo(places, p).hash == NodeHashAt(d, places[p], p)
  }

  /** References to nodes at least `level` bits below the root carry their hashes. */
  ghost predicate HashedFrom(d: nat, places: Places, level: nat) {
    forall p {:trigger RefHashed(d, places, p)} :: p in places && Linked(places, p) && |p| >= level ==>
      RefHashed(d, places, p)
  }

  lemma {:induction false} RehashKeepsShape(d: nat, places: Places, level: nat, t: Tree)
    requires Shape(d, places) && IsContents(places, t)
    ensures Shape(d, LevelRehashed(d, places, level)) && IsContents(LevelRehashed(d, places, level), t)
  {
    var after := LevelRehashed(d, places, level);
    forall q | q in after
      ensures PlaceOk(d, after, q)
    {
      assert PlaceOk(d, places, q);
      if |q| == level && places[q].InternalNode? {
        var n :| n in places[q].children;
        assert n in after[q].children;
      }
    }
    forall k | k in t
      ensures HasLeaf(after, k)
    {
      assert HasLeaf(places, k);
      var q :| IsLeafAt(places, q, k);
      assert IsLeafAt(after, q, k);
    }
  }

  /** What rehashing does to the reference to `p`. */
  lemma {:induction false} RehashedRef(d: nat, places: Places, level: nat, p: Key)
    requires p in places
    ensures Linked(LevelRehashed(d, places, level), p) <==> Linked(places, p)
    ensures Linked(places, p) ==>
      RefTo(LevelRehashed(d, places, level), p) ==
      if |p| == level + NIBBLE then RefTo(places, p).(hash := NodeHashAt(d, places[p], p)) else RefTo(places, p)
  {
    if |p| >= NIBBLE {
      assert p == p[..NIBBLE] + p[NIBBLE..];
    }
  }

  lemma {:induction false} RehashMovesUp(d: nat, places: Places, level: nat)
    requires HashedFrom(d, places, level + 2 * NIBBLE)
    requires forall p :: p in places ==> |p| % NIBBLE == 0
    requires level % NIBBLE == 0
    ensures HashedFrom(d, LevelRehashed(d, places, level), level + NIBBLE)
  {
    var after := LevelRehashed(d, places, level);
    forall p | p in after && Linked(after, p) && |p| >= level + NIBBLE
      ensures RefHashed(d, after, p)
    {
      RehashedRef(d, places, level, p);
      assert after[p] == places[p];
      if |p| != level + NIBBLE {
        assert RefHashed(d, places, p);
      }
    }
  }

  /** A node below an old reference is already up to date. */
  lemma {:induction false} OldNodeIsFresh(d: nat, base: Places, places: Places, v: nat, p: Key)
    requires Shape(d, places) && RefsFine(d, base, places, v, [], []) && p in places && Linked(places, p)
    requires RefTo(places, p).version < v
    ensures Rehashed(d, places, p) == places[p]
  {
    assert RefFine(d, base, places, v, [], [], p);
    assert VersionFits(places[p], RefTo(places, p).version);
    if places[p].InternalNode? {
      ChildrenAreStored(d, places, p);
      var children := places[p].children;
      forall n | n in children
        ensures Rehashed(d, places, p).children[n] == children[n]
      {
        JoinedPlace(n, p);
        assert RefFine(d, base, places, v, [], [], n + p);
      }
    }
  }

  lemma {:induction false} RehashKeepsRefs(d: nat, base: Places, places: Places, v: nat, level: nat)
    requires Shape(d, places) && RefsFine(d, base, places, v, [], [])
    ensures RefsFine(d, base, LevelRehashed(d, places, level), v, [], [])
  {
    hide Shape;
    var after := LevelRehashed(d, places, level);
    forall p | p in after && Linked(after, p)
      ensures RefFine(d, base, after, v, [], [], p)
    {
      RehashedRef(d, places, level, p);
      RehashedRefFine(d, base, places, v, level, p);
    }
  }

  lemma {:induction false} RehashedRefFine(d: nat, base: Places, places: Places, v: nat, level: nat, p: Key)
    requires Shape(d, places) && RefsFine(d, base, places, v, [], []) && p in places && Linked(places, p)
    ensures p in LevelRehashed(d, places, level) && Linked(LevelRehashed(d, places, level), p)
    ensures RefFine(d, base, LevelRehashed(d, places, level), v, [], [], p)
  {
    hide Shape, HashOf;
    var after := LevelRehashed(d, places, level);
    RehashedRef(d, places, level, p);
    assert RefFine(d, base, places, v, [], [], p);
    if RefTo(places, p).version < v {
      OldNodeIsFresh(d, base, places, v, p);
    }
    SameVersions(d, places, level, p, RefTo(places, p).version);
  }

  lemma {:induction false} SameVersions(d: nat, places: Places, level: nat, p: Key, version: nat)
    requires p in places && VersionFits(places[p], version)
    ensures VersionFits(LevelRehashed(d, places, level)[p], version)
  {
    var after := LevelRehashed(d, places, level);
    if places[p].InternalNode? {
      var n :| n in places[p].children && places[p].children[n].version == version;
      assert n in after[p].children && after[p].children[n].version == version;
    }
  }

  lemma {:induction false} EditRehash(d: nat, base: Places, places: Places, v: nat, level: nat, t: Tree)
    requires Editing(d, base, places, v, [], [], t) && level % NIBBLE == 0 && HashedFrom(d, places, level + 2 * NIBBLE)
    ensures var after := LevelRehashed(d, places, level);
      Editing(d, base, after, v, [], [], t) && HashedFrom(d, after, level + NIBBLE)
  {
    hide IsContents, RefsFine, HashedFrom;
    RehashKeepsShape(d, places, level, t);
    RehashKeepsRefs(d, base, places, v, level);
    forall p | p in places
      ensures |p| % NIBBLE == 0
    {
      assert PlaceOk(d, places, p);
    }
    hide Shape;
    RehashMovesUp(d, places, level);
  }

  lemma {:induction false} NothingBelowBottom(d: nat, places: Places)
    requires Shape(d, places)
    ensures HashedFrom(d, places, d + NIBBLE)
  {
    forall p | p in places
      ensures |p| <= d
    {
      assert PlaceOk(d, places, p);
    }
  }

  class TreeUpdater {
    const d: nat
    const version: nat
    var places: Places
    /** The working set as loaded, before this version. */
    ghost const base: Places
    ghost var contents: Tree

    ghost predicate Valid()
      reads this
    {
      Editing(d, base, places, version, [], [], contents)
    }

    constructor (d: nat, version: nat, places: Places, ghost contents: Tree)
      requires Editing(d, places, places, version, [], [], contents)
      ensures Valid() && this.d == d && this.version == version && this.places == places && base == places
      ensures this.contents == contents
    {
      this.d, this.version, this.places := d, version, places;
      this.base, this.contents := places, contents;
    }

    method Traverse(key: Key) returns (outcome: TraverseOutcome)
      requires Valid() && |key| == d
      ensures Under(d, outcome.place, key) && |outcome.place| % NIBBLE == 0
      ensures outcome.LeafMatch? ==> IsLeafAt(places, outcome.place, key) && places[outcome.place].leaf == outcome.leaf
      ensures outcome.LeafMismatch? ==>
        && outcome.place in places && outcome.fullKey != key
        && places[outcome.place] == LeafNode(outcome.fullKey, outcome.leaf)
      ensures outcome.MissingChild? ==>
        && outcome.place !in places
        && if outcome.place == [] then places == map[]
           else |outcome.place| >= NIBBLE && outcome.place[NIBBLE..] in places
                && places[outcome.place[NIBBLE..]].InternalNode?
    {
      hide IsContents, RefsFine, PlaceOk;
      var place: Key := [];
      while place in places && places[place].InternalNode?
        invariant Under(d, place, key) && |place| % NIBBLE == 0
        invariant place == [] ||
          (|place| >= NIBBLE && place[NIBBLE..] in places && places[place[NIBBLE..]].InternalNode?)
        decreases d - |place|
      {
        ChildrenAreStored(d, places, place);
        OneNibbleFurther(d, key, place);
        var nibble := NibbleBelow(d, key, place);
        JoinedPlace(nibble, place);
        place := nibble + place;
      }
      if place !in places {
        outcome := MissingChild(place);
      } else if places[place].fullKey == key {
        outcome := LeafMatch(place, places[place].leaf);
      } else {
        outcome := LeafMismatch(place, places[place].fullKey, places[place].leaf);
      }
    }

    /** Marks the references from the root to `position` with the new version. */
    method MarkWay(position: Key)
      requires Editing(d, base, places, version, position, [], contents) && position in places
      requires places[position].InternalNode? ==> HasVersion(places[position], version)
      modifies this`places
      ensures Valid() && places != map[]
    {
      hide Editing, HasVersion;
      var cursor := position;
      while cursor != []
        invariant Editing(d, base, places, version, cursor, [], contents) && cursor in places
        invariant places[cursor].InternalNode? ==> HasVersion(places[cursor], version)
        decreases |cursor|
      {
        EditMark(d, base, places, version, cursor, contents);
        var ref := RefTo(places, cursor);
        NoneIsNewer(d, base, places, version, cursor, contents);
        places := RefSet(places, cursor, ref.(version := if ref.version > version then ref.version else version));
        cursor := cursor[NIBBLE..];
      }
    }

    /** Replaces the leaf at `place` by internal nodes down to where the keys part, with both leaves below. */
    method SplitLeaf(place: Key, fullKey: Key, movedLeaf: Leaf, key: Key, leaf: Leaf)
      requires Valid() && place in places && places[place] == LeafNode(fullKey, movedLeaf)
      requires key != fullKey && Under(d, place, key)
      modifies this
      ensures Editing(d, base, places, version, place, [], contents) && contents == old(contents)[key := leaf]
      ensures place in places && places[place].InternalNode? && HasVersion(places[place], version)
      ensures key !in old(contents)
    {
      hide Editing, Splitting;
      var moved := LeafNode(fullKey, movedLeaf);
      StartSplit(d, base, places, version, place, key, contents);
      if place != [] {
        places := RefSet(places, place, RefTo(places, place).(isLeaf := false));
      }
      ghost var whole := places;
      var cur := place;
      RoomToSplit(d, base, whole, version, place, cur, moved, key, contents);
      while NibbleBelow(d, fullKey, cur) == NibbleBelow(d, key, cur)
        invariant Splitting(d, base, whole, version, place, cur, moved, key, contents)
        invariant places[cur := moved] == whole && contents == old(contents)
        invariant |cur| + NIBBLE <= d == |key| == |fullKey|
        decreases d - |cur|
      {
        SplitFurther(d, base, whole, version, place, cur, moved, key, contents);
        var nibble := NibbleBelow(d, key, cur);
        whole := LeafPushed(whole, cur, nibble, ChildRef(NO_HASH, version, false));
        RoomToSplit(d, base, whole, version, place, nibble + cur, moved, key, contents);
        places := places[cur := InternalNode(map[nibble := ChildRef(NO_HASH, version, false)])];
        cur := nibble + cur;
      }
      SplitEnds(d, base, whole, version, place, cur, moved, key, leaf, contents);
      var nibble, movedNibble := NibbleBelow(d, key, cur), NibbleBelow(d, fullKey, cur);
      var fork := map[nibble := ChildRef(NO_HASH, version, true), movedNibble := ChildRef(NO_HASH, version, true)];
      assert places[cur := InternalNode(fork)] == whole[cur := InternalNode(fork)] && whole[cur] == moved;
      places := places[cur := InternalNode(fork)];
      places := places[nibble + cur := LeafNode(key, leaf)];
      places := places[movedNibble + cur := moved];
      contents := contents[key := leaf];
    }

    /** Writes one entry: the working set then holds the updated tree. */
    method Insert(key: Key, leaf: Leaf) returns (log: Verifier.TreeLogEntry)
      requires Valid() && |key| == d
      modifies this
      ensures Valid() && contents == old(contents)[key := leaf]
      ensures log == if key in old(contents) then Verifier.Updated(old(contents)[key].index, old(contents)[key].value)
                     else Verifier.Inserted
    {
      hide Editing;
      var outcome := Traverse(key);
      var place := outcome.place;
      match outcome {
        case LeafMatch(_, replaced) =>
          EditSet(d, base, places, version, place, key, leaf, contents);
          log := Verifier.Updated(replaced.index, replaced.value);
          places := LeafSet(places, place, key, leaf);
          contents := contents[key := leaf];
        case LeafMismatch(_, fullKey, movedLeaf) =>
          SplitLeaf(place, fullKey, movedLeaf, key, leaf);
          log := Verifier.Inserted;
        case MissingChild(_) =>
          AddToNode(place, key, leaf);
          log := Verifier.Inserted;
      }
      MarkWay(place);
    }

    /** Puts a leaf where the way of its key ends, below an internal node or as the root of an empty tree. */
    method AddToNode(place: Key, key: Key, leaf: Leaf)
      requires Valid() && Under(d, place, key) && |place| % NIBBLE == 0 && place !in places
      requires if place == [] then places == map[]
               else |place| >= NIBBLE && place[NIBBLE..] in places && places[place[NIBBLE..]].InternalNode?
      modifies this
      ensures Editing(d, base, places, version, place, [], contents) && contents == old(contents)[key := leaf]
      ensures place in places && places[place].LeafNode? && key !in old(contents)
    {
      hide Editing;
      if place == [] {
        EditFirst(d, base, version, key, leaf, contents);
        places := map[[] := LeafNode(key, leaf)];
      } else {
        var nibble, parent := place[..NIBBLE], place[NIBBLE..];
        assert place == nibble + parent;
        EditBelow(d, base, places, version, place, key, leaf, contents);
        places := LeafAdded(places, parent, nibble, ChildRef(NO_HASH, version, true), key, leaf);
      }
      contents := contents[key := leaf];
    }

    /** Recomputes hashes from the bottom level up; afterwards every reference carries the hash of its node. */
    method Finalize()
      requires Valid()
      modifies this`places
      ensures Valid() && HashedFrom(d, places, NIBBLE)
      ensures places.Keys == old(places.Keys)
    {
      hide Shape, IsContents, RefsFine, HashedFrom;
      NothingBelowBottom(d, places);
      var level: nat := d;
      while level > 0
        invariant Valid() && level % NIBBLE == 0 && HashedFrom(d, places, level + NIBBLE)
        invariant places.Keys == old(places.Keys)
      {
        level := level - NIBBLE;
        EditRehash(d, base, places, version, level, contents);
        places := LevelRehashed(d, places, level);
      }
    }
  }
}
