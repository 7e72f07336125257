/**
 Versioned node storage: the trees of all versions share nodes copy-on-write, and every version
 records the nodes it replaced (crates/merkle_tree/src/storage/patch.rs and the RocksDB database
 in crates/merkle_tree/src/storage/rocksdb.rs). The history of trees as written is the
 specification; the store holds whatever extension, truncation and pruning left of it.
 */
module VersionedStore {
  import opened Wrappers
  import opened SparseTree
  import opened Jellyfish

  /** What the database holds under a node key: the root of a version, or a node below a root. */
  datatype Stored =
    | EmptyRoot
    | FilledRoot(leafCount: nat, node: Jellyfish.Node)
    | Inner(node: Jellyfish.Node)

  type Nodes = map<NodeKey, Stored>

  function RootKey(version: nat): NodeKey {
    NodeKey(version, [])
  }

  function ChildrenOf(stored: Stored): map<Key, ChildRef> {
    if stored.EmptyRoot? || stored.node.LeafNode? then map[] else stored.node.children
  }

  // ----- one version

  /** Some internal node of `view` refers to the node at `key`. */
  ghost predicate Referenced(view: Nodes, key: NodeKey) {
    |key.suffix| >= NIBBLE && exists parent: NodeKey :: IsParent(view, parent, key)
  }

  ghost predicate IsParent(view: Nodes, parent: NodeKey, key: NodeKey)
    requires |key.suffix| >= NIBBLE
  {
    var nibble := key.suffix[..NIBBLE];
    && parent in view && parent.suffix == key.suffix[NIBBLE..]
    && nibble in ChildrenOf(view[parent]) && ChildrenOf(view[parent])[nibble].version == key.version
  }

  /** `view` is exactly the tree of `version`: one root, all children its nodes refer to, nothing unreachable. */
  ghost predicate TreeOf(view: Nodes, version: nat) {
    && RootKey(version) in view
    && (forall k :: k in view ==> k.version <= version && (view[k].Inner? <==> k.suffix != []))
    && (forall k :: k in view && k.suffix == [] ==> k == RootKey(version))
    && ChildrenPresent(view)
    && (forall k {:trigger Referenced(view, k)} :: k in view && k.suffix != [] ==> Referenced(view, k))
  }

  ghost predicate ChildrenPresent(view: Nodes) {
    forall k, nibble :: k in view && nibble in ChildrenOf(view[k]) ==>
      ChildKey(nibble, ChildrenOf(view[k])[nibble], k.suffix) in view
  }

  function RootOf(view: Nodes, version: nat): Stored {
    if RootKey(version) in view then view[RootKey(version)] else EmptyRoot
  }

  lemma {:induction false} ParentOf(view: Nodes, version: nat, key: NodeKey) returns (parent: NodeKey)
    requires TreeOf(view, version) && key in view && key.suffix != []
    ensures |key.suffix| >= NIBBLE && IsParent(view, parent, key) && |parent.suffix| < |key.suffix|
    ensures key == ChildKey(key.suffix[..NIBBLE], ChildrenOf(view[parent])[key.suffix[..NIBBLE]], parent.suffix)
  {
    hide ChildrenPresent;
    assert Referenced(view, key);
    parent :| IsParent(view, parent, key);
    assert key.suffix == key.suffix[..NIBBLE] + parent.suffix;
  }

  /** An empty tree is its root alone. */
  lemma {:induction false} EmptyTreeIsItsRoot(view: Nodes, version: nat, key: NodeKey)
    requires TreeOf(view, version) && RootOf(view, version) == EmptyRoot && key in view
    ensures key == RootKey(version)
    decreases |key.suffix|
  {
    if key.suffix == [] {
    } else {
      var parent := ParentOf(view, version, key);
      EmptyTreeIsItsRoot(view, version, parent);
    }
  }

  /** The key of the node reached from `key` by following the nibbles of `path`. */
  function Reach(nodes: Nodes, key: NodeKey, path: seq<Key>): Option<NodeKey>
    decreases |path|
  {
    if key !in nodes then None
    else if path == [] then Some(key)
    else if path[0] in ChildrenOf(nodes[key]) then
      Reach(nodes, ChildKey(path[0], ChildrenOf(nodes[key])[path[0]], key.suffix), path[1..])
    else None
  }

  function Lookup(nodes: Nodes, key: NodeKey, path: seq<Key>): Option<Stored> {
    var found := Reach(nodes, key, path);
    if found.Some? && found.value in nodes then Some(nodes[found.value]) else None
  }

  ghost predicate Included(view: Nodes, nodes: Nodes) {
    forall k :: k in view ==> k in nodes && nodes[k] == view[k]
  }

  /** Every lookup in `version` gives what was written. */
  ghost predicate ReadableIn(nodes: Nodes, view: Nodes, version: nat) {
    forall path :: Lookup(nodes, RootKey(version), path) == Lookup(view, RootKey(version), path)
  }

  lemma {:induction false} ReachIsStored(nodes: Nodes, key: NodeKey, path: seq<Key>)
    ensures Reach(nodes, key, path).Some? ==> Reach(nodes, key, path).value in nodes
    decreases |path|
  {
    if path == [] {
    } else if key in nodes && path[0] in ChildrenOf(nodes[key]) {
      ReachIsStored(nodes, ChildKey(path[0], ChildrenOf(nodes[key])[path[0]], key.suffix), path[1..]);
    }
  }

  lemma {:induction false} ReachAgrees(view: Nodes, nodes: Nodes, version: nat, key: NodeKey, path: seq<Key>)
    requires TreeOf(view, version) && Included(view, nodes) && key in view
    ensures Reach(nodes, key, path) == Reach(view, key, path)
    decreases |path|
  {
    if path == [] {
    } else if path[0] in ChildrenOf(view[key]) {
      ReachAgrees(view, nodes, version, ChildKey(path[0], ChildrenOf(view[key])[path[0]], key.suffix), path[1..]);
    }
  }

  lemma {:induction false} ReachOneMore(nodes: Nodes, key: NodeKey, path: seq<Key>, nibble: Key, at: NodeKey)
    requires Reach(nodes, key, path) == Some(at)
    requires at in nodes && nibble in ChildrenOf(nodes[at])
    ensures var child := ChildKey(nibble, ChildrenOf(nodes[at])[nibble], at.suffix);
      Reach(nodes, key, path + [nibble]) == if child in nodes then Some(child) else None
    decreases |path|
  {
    if path == [] {
      var child := ChildKey(nibble, ChildrenOf(nodes[at])[nibble], at.suffix);
      assert (path + [nibble])[1..] == [];
      assert Reach(nodes, child, []) == if child in nodes then Some(child) else None;
    } else {
      assert (path + [nibble])[1..] == path[1..] + [nibble];
      ReachOneMore(nodes, ChildKey(path[0], ChildrenOf(nodes[key])[path[0]], key.suffix), path[1..], nibble, at);
    }
  }

  lemma RootIsFirst(view: Nodes, version: nat)
    requires TreeOf(view, version)
    ensures RootKey(version) in view
    ensures forall k :: k in view && k.suffix == [] ==> k == RootKey(version)
    ensures !RootOf(view, version).Inner?
  {
  }

  lemma RootIsReached(nodes: Nodes, view: Nodes, version: nat)
    requires RootKey(version) in view
    requires Lookup(nodes, RootKey(version), []) == Lookup(view, RootKey(version), [])
    ensures Reach(view, RootKey(version), []) == Reach(nodes, RootKey(version), []) == Some(RootKey(version))
    ensures RootKey(version) in nodes && nodes[RootKey(version)] == view[RootKey(version)]
  {
  }

  /** The nibbles that lead from the root to the node at `suffix`. */
  function PathTo(suffix: Key): seq<Key> {
    if |suffix| < NIBBLE then [] else PathTo(suffix[NIBBLE..]) + [suffix[..NIBBLE]]
  }

  /** A node lies at the end of its own path, in the tree and in a store from which the tree is readable. */
  lemma {:induction false} NodeIsReached(nodes: Nodes, view: Nodes, version: nat, key: NodeKey)
    requires TreeOf(view, version) && ReadableIn(nodes, view, version) && key in view
    ensures var path := PathTo(key.suffix);
      && Reach(view, RootKey(version), path) == Some(key)
      && Reach(nodes, RootKey(version), path) == Some(key) && key in nodes && nodes[key] == view[key]
    decreases |key.suffix|
  {
    hide TreeOf, Reach;
    var root := RootKey(version);
    assert Lookup(nodes, root, PathTo(key.suffix)) == Lookup(view, root, PathTo(key.suffix));
    if key.suffix == [] {
      RootIsFirst(view, version);
      RootIsReached(nodes, view, version);
    } else {
      var parent := ParentOf(view, version, key);
      NodeIsReached(nodes, view, version, parent);
      ReachOneMore(view, root, PathTo(parent.suffix), key.suffix[..NIBBLE], parent);
      ReachOneMore(nodes, root, PathTo(parent.suffix), key.suffix[..NIBBLE], parent);
    }
  }

  /** A version reads as it was written if and only if none of its nodes was lost or changed. */
  lemma {:induction false} ReadableIffIncluded(nodes: Nodes, view: Nodes, version: nat)
    requires TreeOf(view, version)
    ensures ReadableIn(nodes, view, version) <==> Included(view, nodes)
  {
    hide TreeOf;
    if ReadableIn(nodes, view, version) {
      forall k | k in view
        ensures k in nodes && nodes[k] == view[k]
      {
        NodeIsReached(nodes, view, version, k);
      }
    }
    RootIsFirst(view, version);
    if Included(view, nodes) {
      forall path: seq<Key>
        ensures Lookup(nodes, RootKey(version), path) == Lookup(view, RootKey(version), path)
      {
        ReachAgrees(view, nodes, version, RootKey(version), path);
        ReachIsStored(view, RootKey(version), path);
      }
    }
  }

  // ----- histories

  /** A new version rewrites what it changes under its own number and shares everything older. */
  ghost predicate CopyOnWrite(prev: Nodes, view: Nodes, version: nat) {
    forall k :: k in view && k.version < version ==> k in prev && prev[k] == view[k]
  }

  /** Each version is a complete tree that shares older nodes with the one before it. */
  ghost predicate History(views: seq<Nodes>) {
    && (forall v {:trigger TreeOf(views[v], v)} :: 0 <= v < |views| ==> TreeOf(views[v], v))
    && (forall v {:trigger CopiesPrevious(views, v)} :: 0 < v < |views| ==> CopiesPrevious(views, v))
  }

  ghost predicate CopiesPrevious(views: seq<Nodes>, v: nat)
    requires 0 < v < |views|
  {
    CopyOnWrite(views[v - 1], views[v], v)
  }

  /** An empty root followed by a filled one: the only replaced node that no version records. */
  ghost predicate Orphan(views: seq<Nodes>, v: nat) {
    v + 1 < |views| && RootOf(views[v], v) == EmptyRoot && RootOf(views[v + 1], v + 1) != EmptyRoot
  }

  /** The node was live just before `version`, is not live in it, and is not an orphaned empty root. */
  ghost predicate Replaces(views: seq<Nodes>, version: nat, key: NodeKey) {
    && 0 < version < |views| && key in views[version - 1] && key !in views[version]
    && !(key == RootKey(version - 1) && Orphan(views, version - 1))
  }

  /** A key that is live at `later` was live at every version since it was written. */
  lemma {:induction false} LiveKeysPersist(views: seq<Nodes>, key: NodeKey, version: nat, later: nat)
    requires History(views) && key.version <= version <= later < |views| && key in views[later]
    ensures key in views[version] && views[version][key] == views[later][key]
    decreases later
  {
    hide TreeOf;
    if version == later {
    } else {
      assert CopiesPrevious(views, later);
      LiveKeysPersist(views, key, version, later - 1);
    }
  }

  lemma {:induction false} VersionBound(views: seq<Nodes>, key: NodeKey, v: nat)
    requires History(views) && v < |views| && key in views[v]
    ensures key.version <= v
    ensures key.suffix == [] ==> key == RootKey(v)
  {
    assert TreeOf(views[v], v);
  }

  /** Once replaced, never live again. */
  lemma {:induction false} ReplacedStaysDead(views: seq<Nodes>, key: NodeKey, version: nat, later: nat)
    requires History(views) && Replaces(views, version, key) && version <= later < |views|
    ensures key !in views[later]
  {
    hide History;
    VersionBound(views, key, version - 1);
    if key in views[later] {
      LiveKeysPersist(views, key, version, later);
    }
  }

  /** Every root is replaced by the next version's, and recorded unless it is an orphan. */
  lemma {:induction false} RootsAreReplaced(views: seq<Nodes>, v: nat)
    requires History(views) && v + 1 < |views|
    ensures Replaces(views, v + 1, RootKey(v)) <==> !Orphan(views, v)
    ensures forall p: nat :: Replaces(views, p, RootKey(v)) ==> p == v + 1
  {
    hide CopyOnWrite, Orphan, ChildrenPresent;
    assert TreeOf(views[v], v) && TreeOf(views[v + 1], v + 1);
    forall p: nat | Replaces(views, p, RootKey(v))
      ensures p == v + 1
    {
      VersionBound(views, RootKey(v), p - 1);
    }
  }

  // ----- the store

  type StaleKeys = map<nat, seq<NodeKey>>

  function RecordsAt(stale: StaleKeys, version: nat): seq<NodeKey> {
    if version in stale then stale[version] else []
  }

  /** No records below `version`. */
  ghost predicate StaleFrom(stale: StaleKeys, version: nat) {
    forall v: nat {:trigger RecordsAt(stale, v)} :: RecordsAt(stale, v) != [] ==> v >= version
  }

  /**
   The database with its history: `views` are the trees of all current versions as they were
   written, and `pruned` the versions whose recorded nodes have been deleted.
   */
  datatype Store = Store(nodes: Nodes, stale: StaleKeys, views: seq<Nodes>, pruned: set<nat>)

  const NEW_STORE: Store := Store(map[], map[], [], {})

  ghost predicate Lost(s: Store, key: NodeKey) {
    exists p :: p in s.pruned && Replaces(s.views, p, key)
  }

  /** The store holds a node of a current version exactly until the version that replaced it is pruned. */
  ghost predicate ContentsExact(s: Store) {
    forall k: NodeKey :: k.version < |s.views| ==>
      && (k in s.nodes <==> k in s.views[k.version] && !Lost(s, k))
      && (k in s.nodes && k in s.views[k.version] ==> s.nodes[k] == s.views[k.version][k])
  }

  /** The records are exactly the nodes replaced by versions that are not pruned. */
  ghost predicate RecordsExact(s: Store) {
    forall v: nat, k :: k in RecordsAt(s.stale, v) <==> v !in s.pruned && Replaces(s.views, v, k)
  }

  ghost predicate Inv(s: Store) {
    && History(s.views)
    && (forall p :: p in s.pruned ==> 0 < p < |s.views|)
    && ContentsExact(s) && RecordsExact(s)
  }

  ghost predicate Readable(s: Store, version: nat) {
    version < |s.views| && ReadableIn(s.nodes, s.views[version], version)
  }

  lemma {:induction false} StoredUnlessLost(s: Store, version: nat, key: NodeKey)
    requires Inv(s) && version < |s.views| && key in s.views[version]
    ensures key in s.nodes && s.nodes[key] == s.views[version][key] <==> !Lost(s, key)
  {
    hide TreeOf, History, Lost;
    VersionBound(s.views, key, version);
    LiveKeysPersist(s.views, key, key.version, version);
  }

  /** A version is readable if and only if none of its nodes was lost. */
  lemma {:induction false} ReadableIffNothingLost(s: Store, version: nat)
    requires Inv(s) && version < |s.views|
    ensures Readable(s, version) <==> forall k :: k in s.views[version] ==> !Lost(s, k)
  {
    hide ReadableIn, Lost, ContentsExact, RecordsExact;
    assert TreeOf(s.views[version], version);
    ReadableIffIncluded(s.nodes, s.views[version], version);
    hide TreeOf;
    forall k | k in s.views[version]
      ensures k in s.nodes && s.nodes[k] == s.views[version][k] <==> !Lost(s, k)
    {
      StoredUnlessLost(s, version, k);
    }
  }

  /** What pruning up to a version deletes, that version and all later ones do without. */
  lemma {:induction false} PrunedUpToIsReadable(s: Store, version: nat)
    requires Inv(s) && version < |s.views| && forall p :: p in s.pruned ==> p <= version
    ensures Readable(s, version)
  {
    hide Readable, History, ContentsExact, RecordsExact;
    ReadableIffNothingLost(s, version);
    forall k | k in s.views[version]
      ensures !Lost(s, k)
    {
      if p :| p in s.pruned && Replaces(s.views, p, k) {
        ReplacedStaysDead(s.views, k, p, version);
      }
    }
  }

  /** Once the version after it is pruned, only an orphaned empty root is left to read. */
  lemma {:induction false} PrunedSuccessor(s: Store, version: nat)
    requires Inv(s) && version + 1 < |s.views|
    ensures Orphan(s.views, version) ==> Readable(s, version)
    ensures version + 1 in s.pruned && !Orphan(s.views, version) ==> !Readable(s, version)
  {
    hide Readable, ContentsExact, RecordsExact, Orphan, Replaces;
    ReadableIffNothingLost(s, version);
    RootsAreReplaced(s.views, version);
    assert TreeOf(s.views[version], version);
    hide TreeOf;
    RootIsFirst(s.views[version], version);
    if Orphan(s.views, version) {
      forall k | k in s.views[version]
        ensures !Lost(s, k)
      {
        OrphanIsAlone(s.views, version, k);
      }
    } else if version + 1 in s.pruned {
      assert Lost(s, RootKey(version));
    }
  }

  lemma {:induction false} OrphanIsAlone(views: seq<Nodes>, version: nat, key: NodeKey)
    requires History(views) && Orphan(views, version) && key in views[version]
    ensures key == RootKey(version)
  {
    hide CopyOnWrite, TreeOf;
    EmptyTreeIsItsRoot(views[version], version, key);
  }

  // ----- extension

  /** What the tree hands to the database for the next version, with every replaced node recorded but an orphan. */
  ghost predicate ExtendsHistory(views: seq<Nodes>, view: Nodes, replaced: seq<NodeKey>) {
    var version := |views|;
    && TreeOf(view, version)
    && (version > 0 ==> CopyOnWrite(views[version - 1], view, version))
    && (forall k :: k in replaced <==> Replaces(views + [view], version, k))
  }

  /** Nodes left over under the new version's number are deleted, then its own are put. */
  function NodesWith(nodes: Nodes, view: Nodes, version: nat): Nodes {
    (map k | k in nodes && k.version != version :: nodes[k]) + (map k | k in view && k.version == version :: view[k])
  }

  function Extended(s: Store, view: Nodes, replaced: seq<NodeKey>): Store {
    var version := |s.views|;
    s.(nodes := NodesWith(s.nodes, view, version), stale := s.stale[version := replaced], views := s.views + [view])
  }

  lemma ReplacesIsLocal(views: seq<Nodes>, more: seq<Nodes>, version: nat, key: NodeKey)
    requires version < |views|
    ensures Replaces(views + more, version, key) <==> Replaces(views, version, key)
  {
  }

  lemma {:induction false} ExtendedHistory(views: seq<Nodes>, view: Nodes, replaced: seq<NodeKey>)
    requires History(views) && ExtendsHistory(views, view, replaced)
    ensures History(views + [view])
  {
    hide TreeOf, CopyOnWrite, Replaces;
    var after := views + [view];
    forall v | 0 <= v < |after|
      ensures TreeOf(after[v], v) && (v > 0 ==> CopiesPrevious(after, v))
    {
      assert v < |views| ==> TreeOf(views[v], v) && (v > 0 ==> CopiesPrevious(views, v));
    }
  }

  lemma {:induction false} ExtendKeepsInv(s: Store, view: Nodes, replaced: seq<NodeKey>)
    requires Inv(s) && ExtendsHistory(s.views, view, replaced)
    ensures Inv(Extended(s, view, replaced))
  {
    hide TreeOf, History, Replaces;
    ExtendedHistory(s.views, view, replaced);
    var after, version := Extended(s, view, replaced), |s.views|;
    forall k: NodeKey | k.version <= version
      ensures Lost(after, k) <==> Lost(s, k)
      ensures k.version == version ==> !Lost(s, k)
    {
      forall p | p in s.pruned
        ensures Replaces(after.views, p, k) <==> Replaces(s.views, p, k)
        ensures k.version == version ==> !Replaces(s.views, p, k)
      {
        ReplacesIsLocal(s.views, [view], p, k);
        if Replaces(s.views, p, k) {
          ReplacedIsCurrent(s.views, p, k);
          VersionBound(s.views, k, p - 1);
        }
      }
    }
    assert ContentsExact(after);
    forall v: nat, k
      ensures k in RecordsAt(after.stale, v) <==> v !in after.pruned && Replaces(after.views, v, k)
    {
      if v < version {
        ReplacesIsLocal(s.views, [view], v, k);
      } else {
        assert Replaces(after.views, v, k) ==> v == version by { ReplacedIsCurrent(after.views, v, k); }
        assert RecordsAt(after.stale, v) == if v == version then replaced else RecordsAt(s.stale, v);
        assert !Replaces(s.views, v, k) by { ReplacedIsCurrent(s.views, v, k); }
      }
    }
  }

  lemma ReplacedIsCurrent(views: seq<Nodes>, version: nat, key: NodeKey)
    ensures Replaces(views, version, key) ==> 0 < version < |views| && key in views[version - 1]
  {
  }

  // ----- truncation

  /** Drops the most recent versions and what they recorded; node data stays. */
  ghost function Truncated(s: Store, count: nat): Store {
    if count >= |s.views| then s
    else
      s.(stale := map v | v in s.stale && !(count <= v < |s.views|) :: s.stale[v],
      views := s.views[..count],
      pruned := set p | p in s.pruned && p < count)
  }

  lemma {:induction false} TruncatedRecords(s: Store, count: nat)
    requires Inv(s) && count < |s.views|
    ensures History(s.views[..count]) && RecordsExact(Truncated(s, count))
    ensures forall v: nat, k :: v < count ==> (Replaces(s.views[..count], v, k) <==> Replaces(s.views, v, k))
  {
    hide TreeOf, CopyOnWrite, Replaces, ContentsExact;
    forall v | 0 <= v < count
      ensures TreeOf(s.views[..count][v], v) && (v > 0 ==> CopiesPrevious(s.views[..count], v))
    {
      assert TreeOf(s.views[v], v) && (v > 0 ==> CopiesPrevious(s.views, v));
    }
    assert s.views == s.views[..count] + s.views[count..];
    forall v: nat, k
      ensures v < count ==> (Replaces(s.views[..count], v, k) <==> Replaces(s.views, v, k))
      ensures v >= count ==> !Replaces(s.views[..count], v, k)
      ensures v >= |s.views| ==> !Replaces(s.views, v, k)
    {
      if v < count {
        ReplacesIsLocal(s.views[..count], s.views[count..], v, k);
      } else {
        ReplacedIsCurrent(s.views[..count], v, k);
      }
      ReplacedIsCurrent(s.views, v, k);
    }
    assert forall v: nat :: RecordsAt(Truncated(s, count).stale, v) ==
                            if count <= v < |s.views| then [] else RecordsAt(s.stale, v);
  }

  /**
   Truncation keeps the store exact if and only if the version it goes back to is still readable,
   which the caller has to know.
   */
  lemma {:induction false} TruncationIsExact(s: Store, count: nat)
    requires Inv(s)
    ensures Inv(Truncated(s, count)) <==> (0 < count < |s.views| ==> Readable(s, count - 1))
  {
    hide Readable, History, RecordsExact, Replaces;
    if count < |s.views| {
      TruncatedRecords(s, count);
      var after := Truncated(s, count);
      if 0 < count {
        ReadableIffNothingLost(s, count - 1);
        if Readable(s, count - 1) {
          TruncatedContents(s, count);
        } else if Inv(after) {
          PrunedUpToIsReadable(after, count - 1);
          SameNodesSameReading(s, after, count - 1);
          assert false;
        }
      }
    }
  }

  lemma {:induction false} TruncatedContents(s: Store, count: nat)
    requires Inv(s) && 0 < count < |s.views|
    requires forall k :: k in s.views[count - 1] ==> !Lost(s, k)
    ensures ContentsExact(Truncated(s, count))
  {
    hide History, RecordsExact, Replaces;
    var after := Truncated(s, count);
    TruncatedRecords(s, count);
    forall k: NodeKey | k.version < count
      ensures Lost(after, k) <==> Lost(s, k)
    {
      if p :| p in s.pruned && Replaces(s.views, p, k) {
        assert Lost(s, k);
        if p < count {
          assert p in after.pruned && Replaces(after.views, p, k);
        } else {
          ReplacedIsCurrent(s.views, p, k);
          LiveKeysPersist(s.views, k, count - 1, p - 1);
        }
      }
      if p :| p in after.pruned && Replaces(after.views, p, k) {
        assert p in s.pruned && Replaces(s.views, p, k);
      }
    }
  }

  // ----- pruning

  datatype PrunePatch = PrunePatch(keys: seq<NodeKey>, from: nat, to: nat) {
    predicate Covers(version: nat) {
      from <= version < to
    }
  }

  /** The keys of the patch are exactly those recorded for the versions it covers. */
  ghost predicate Gathered(stale: StaleKeys, keys: seq<NodeKey>, from: nat, to: nat) {
    forall k :: k in keys <==> RecordedIn(stale, k, from, to)
  }

  ghost predicate RecordedIn(stale: StaleKeys, key: NodeKey, from: nat, to: nat) {
    exists v: nat :: from <= v < to && key in RecordsAt(stale, v)
  }

  /** Deletes the gathered nodes and their records in one write. */
  ghost function Pruned(s: Store, patch: PrunePatch): Store {
    s.(nodes := s.nodes - (set k | k in patch.keys),
    stale := map v | v in s.stale && !patch.Covers(v) :: s.stale[v],
    pruned := s.pruned + set v: nat | v < patch.to && patch.Covers(v))
  }

  lemma {:induction false} PruneKeepsInv(s: Store, patch: PrunePatch)
    requires Inv(s) && 0 < patch.from <= patch.to <= |s.views|
    requires Gathered(s.stale, patch.keys, patch.from, patch.to)
    ensures Inv(Pruned(s, patch))
  {
    hide History, Replaces;
    var after := Pruned(s, patch);
    forall k
      ensures Lost(after, k) <==> Lost(s, k) || k in patch.keys
    {
      if k in patch.keys {
        assert RecordedIn(s.stale, k, patch.from, patch.to);
        var v: nat :| patch.from <= v < patch.to && k in RecordsAt(s.stale, v);
        assert v in after.pruned && Replaces(after.views, v, k);
      }
      if p :| p in after.pruned && Replaces(after.views, p, k) {
        if p !in s.pruned {
          assert k in RecordsAt(s.stale, p);
        }
      }
      if p :| p in s.pruned && Replaces(s.views, p, k) {
        assert p in after.pruned && Replaces(after.views, p, k);
      }
    }
    assert forall v: nat :: RecordsAt(after.stale, v) == if patch.Covers(v) then [] else RecordsAt(s.stale, v);
  }

  /**
   A patch gathered before a truncation and applied after it: the version truncated to survives
   if and only if the patch stops at it, or it is an orphaned empty root.
   */
  lemma {:induction false} TruncationUnderPrune(s: Store, patch: PrunePatch, count: nat)
    requires Inv(s) && 0 < count < |s.views| && Readable(s, count - 1)
    requires Gathered(s.stale, patch.keys, patch.from, patch.to) && StaleFrom(s.stale, patch.from)
    ensures Readable(Pruned(Truncated(s, count), patch), count - 1) <==>
            patch.to <= count || Orphan(s.views, count - 1)
  {
    hide TreeOf, ReadableIn, Orphan, Replaces, Gathered, ContentsExact, RecordsExact, CopyOnWrite;
    var view, nodes := s.views[count - 1], s.nodes - (set k | k in patch.keys);
    assert TreeOf(view, count - 1);
    hide History, Inv;
    ReadableIffIncluded(s.nodes, view, count - 1);
    ReadableIffIncluded(nodes, view, count - 1);
    if patch.to <= count || Orphan(s.views, count - 1) {
      forall k | k in view
        ensures k !in patch.keys
      {
        PatchSpares(s, patch, count, k);
      }
    } else {
      PatchTakesRoot(s, patch, count);
      RootIsFirst(view, count - 1);
    }
  }

  lemma {:induction false} PatchSpares(s: Store, patch: PrunePatch, count: nat, key: NodeKey)
    requires Inv(s) && 0 < count < |s.views| && Gathered(s.stale, patch.keys, patch.from, patch.to)
    requires key in s.views[count - 1] && (patch.to <= count || Orphan(s.views, count - 1))
    ensures key !in patch.keys
  {
    hide History, ContentsExact, Orphan, Replaces;
    if key in patch.keys {
      assert RecordedIn(s.stale, key, patch.from, patch.to);
      var v: nat :| patch.from <= v < patch.to && key in RecordsAt(s.stale, v);
      if patch.to <= count {
        ReplacedStaysDead(s.views, key, v, count - 1);
      } else {
        OrphanIsAlone(s.views, count - 1, key);
        RootsAreReplaced(s.views, count - 1);
      }
    }
  }

  lemma {:induction false} PatchTakesRoot(s: Store, patch: PrunePatch, count: nat)
    requires Inv(s) && 0 < count < |s.views| && Readable(s, count - 1)
    requires Gathered(s.stale, patch.keys, patch.from, patch.to) && StaleFrom(s.stale, patch.from)
    requires count < patch.to && !Orphan(s.views, count - 1)
    ensures RootKey(count - 1) in patch.keys
  {
    hide History, ContentsExact, Orphan, Replaces, Readable;
    PrunedSuccessor(s, count - 1);
    RootsAreReplaced(s.views, count - 1);
    assert RootKey(count - 1) in RecordsAt(s.stale, count);
    assert RecordedIn(s.stale, RootKey(count - 1), patch.from, patch.to);
  }

  // ----- truncation of the in-memory database

  /** The in-memory database drops all records below the old version count, not only the truncated ones. */
  ghost function TruncatedInMemory(s: Store, count: nat): Store {
    Truncated(s, count).(stale := if count >= |s.views| then s.stale
                                  else map v | v in s.stale && v >= |s.views| :: s.stale[v])
  }

  ghost predicate SameRecords(stale: StaleKeys, stale': StaleKeys) {
    forall v: nat :: RecordsAt(stale, v) == RecordsAt(stale', v)
  }

  /** It loses no record, hence stays exact, if and only if there was none below the truncated versions. */
  lemma {:induction false} InMemoryTruncationIsExact(s: Store, count: nat)
    requires Inv(s) && count < |s.views| && Inv(Truncated(s, count))
    ensures Inv(TruncatedInMemory(s, count)) <==> StaleFrom(s.stale, count)
    ensures SameRecords(TruncatedInMemory(s, count).stale, Truncated(s, count).stale) <==> StaleFrom(s.stale, count)
  {
    hide History, Replaces;
    var exact, kept := Truncated(s, count), TruncatedInMemory(s, count);
    forall v: nat
      ensures RecordsAt(exact.stale, v) == if v < count then RecordsAt(s.stale, v) else []
      ensures RecordsAt(kept.stale, v) == []
    {
      RecordsAreCurrent(s, v);
    }
    if StaleFrom(s.stale, count) {
      assert forall v: nat :: RecordsAt(kept.stale, v) == RecordsAt(exact.stale, v);
      assert ContentsExact(kept);
    } else {
      var v: nat :| RecordsAt(s.stale, v) != [] && v < count;
      var k := RecordsAt(s.stale, v)[0];
      assert k in RecordsAt(exact.stale, v) && k !in RecordsAt(kept.stale, v);
    }
  }

  lemma {:induction false} RecordsAreCurrent(s: Store, version: nat)
    requires Inv(s)
    ensures RecordsAt(s.stale, version) != [] ==> 0 < version < |s.views|
  {
    hide History, ContentsExact, Replaces;
    var records := RecordsAt(s.stale, version);
    if records != [] {
      assert records[0] in records;
      ReplacedIsCurrent(s.views, version, records[0]);
    }
  }

  // ----- the first retained version

  /** The least version from `from` on, below `end`, that has records. */
  function LeastRecord(stale: StaleKeys, from: nat, end: nat): Option<nat>
    decreases end - from
  {
    if from >= end then None
    else if RecordsAt(stale, from) != [] then Some(from)
    else LeastRecord(stale, from + 1, end)
  }

  lemma {:induction false} LeastRecordIsLeast(stale: StaleKeys, from: nat, end: nat)
    ensures var least := LeastRecord(stale, from, end);
      && (least.Some? ==> from <= least.value < end && RecordsAt(stale, least.value) != [])
      && forall v: nat {:trigger RecordsAt(stale, v)} ::
           from <= v < end && (least.Some? ==> v < least.value) ==> RecordsAt(stale, v) == []
    decreases end - from
  {
    if from >= end {
    } else {
      LeastRecordIsLeast(stale, from + 1, end);
    }
  }

  ghost function MinStale(s: Store): Option<nat> {
    LeastRecord(s.stale, 0, |s.views|)
  }

  /** All records lie from the least one on, and in versions after the first. */
  lemma {:induction false} MinStaleIsLeast(s: Store)
    requires Inv(s)
    ensures MinStale(s).Some? ==>
      && 0 < MinStale(s).value < |s.views| && RecordsAt(s.stale, MinStale(s).value) != []
      && StaleFrom(s.stale, MinStale(s).value)
    ensures MinStale(s).None? ==> forall v: nat :: RecordsAt(s.stale, v) == []
  {
    hide History, ContentsExact, Replaces;
    LeastRecordIsLeast(s.stale, 0, |s.views|);
    forall v: nat | RecordsAt(s.stale, v) != []
      ensures 0 < v < |s.views|
    {
      RecordsAreCurrent(s, v);
    }
  }

  ghost function FirstRetained(s: Store): Option<nat> {
    match MinStale(s)
    case Some(min) => if min == 0 then None else Some(min - 1)
    case None => if s.views == [] then None else Some(|s.views| - 1)
  }

  /** No version still has records below one whose nodes were deleted. */
  ghost predicate Gapless(s: Store) {
    forall p, k, v: nat {:trigger Replaces(s.views, p, k), RecordsAt(s.stale, v)} ::
      p in s.pruned && Replaces(s.views, p, k) && v < p ==> RecordsAt(s.stale, v) == []
  }

  /**
   Below the reported version exactly the orphaned empty roots are readable. It and all later
   versions are readable if and only if pruning left no gap, so the reported version is the first
   readable one if and only if there is neither a gap nor an orphan below it.
   */
  lemma {:induction false} FirstRetainedIsExact(s: Store)
    requires Inv(s)
    ensures FirstRetained(s).None? <==> s.views == []
    ensures FirstRetained(s).Some? ==>
      var first := FirstRetained(s).value;
      && first < |s.views|
      && (forall v :: 0 <= v < first ==> (Readable(s, v) <==> Orphan(s.views, v)))
      && ((forall v :: first <= v < |s.views| ==> Readable(s, v)) <==> Gapless(s))
      && ((forall v :: 0 <= v < |s.views| ==> (Readable(s, v) <==> first <= v)) <==>
          Gapless(s) && forall v :: 0 <= v < first ==> !Orphan(s.views, v))
  {
    hide Readable, History, ContentsExact, RecordsExact, Replaces, Orphan, MinStale;
    MinStaleIsLeast(s);
    if FirstRetained(s).Some? {
      var first := FirstRetained(s).value;
      forall v: nat | v < first
        ensures Readable(s, v) <==> Orphan(s.views, v)
      {
        UnrecordedSuccessor(s, v);
      }
      if Gapless(s) {
        forall v: nat | first <= v < |s.views|
          ensures Readable(s, v)
        {
          GaplessIsReadable(s, first, v);
        }
      } else {
        GapIsUnreadable(s, first);
      }
    }
  }

  lemma {:induction false} UnrecordedSuccessor(s: Store, version: nat)
    requires Inv(s) && version + 1 < |s.views| && RecordsAt(s.stale, version + 1) == []
    ensures Readable(s, version) <==> Orphan(s.views, version)
  {
    hide Readable, History, ContentsExact, Replaces, Orphan;
    RootsAreReplaced(s.views, version);
    PrunedSuccessor(s, version);
    assert RootKey(version) in RecordsAt(s.stale, version + 1) <==>
      version + 1 !in s.pruned && Replaces(s.views, version + 1, RootKey(version));
  }

  lemma {:induction false} GaplessIsReadable(s: Store, first: nat, version: nat)
    requires Inv(s) && Gapless(s) && FirstRetained(s) == Some(first) && first <= version < |s.views|
    ensures Readable(s, version)
  {
    hide Readable, History, ContentsExact, Replaces, MinStale;
    MinStaleIsLeast(s);
    ReadableIffNothingLost(s, version);
    assert MinStale(s).Some? ==> RecordsAt(s.stale, first + 1)[0] in RecordsAt(s.stale, first + 1);
    forall k | k in s.views[version]
      ensures !Lost(s, k)
    {
      if p :| p in s.pruned && Replaces(s.views, p, k) {
        if p <= version {
          ReplacedStaysDead(s.views, k, p, version);
        }
      }
    }
  }

  lemma {:induction false} GapIsUnreadable(s: Store, first: nat)
    requires Inv(s) && !Gapless(s) && FirstRetained(s) == Some(first)
    ensures exists v: nat :: first <= v < |s.views| && !Readable(s, v)
  {
    hide Readable, History, ContentsExact, RecordsExact, Replaces, MinStale;
    MinStaleIsLeast(s);
    var p, k, v: nat :| p in s.pruned && Replaces(s.views, p, k) && v < p && RecordsAt(s.stale, v) != [];
    ReplacedIsCurrent(s.views, p, k);
    ReadableIffNothingLost(s, p - 1);
    assert Lost(s, k);
  }

  // ----- failing instances

  /** A root without children. */
  predicate IsLoneRoot(stored: Stored) {
    !stored.Inner? && ChildrenOf(stored) == map[]
  }

  const ONE_LEAF: Stored := FilledRoot(1, LeafNode([], Leaf(1, 0)))

  /** A tree of one node. */
  function RootOnly(node: Stored, version: nat): Nodes {
    map[RootKey(version) := node]
  }

  /** What the program records when one single-node tree follows another. */
  function RecordedRoot(prev: Stored, node: Stored, version: nat): seq<NodeKey> {
    if version == 0 || (prev == EmptyRoot && node != EmptyRoot) then [] else [RootKey(version - 1)]
  }

  lemma RootOnlyIsTree(node: Stored, version: nat)
    requires IsLoneRoot(node)
    ensures TreeOf(RootOnly(node, version), version)
  {
  }

  lemma {:induction false} RootOnlyReplaced(views: seq<Nodes>, prev: Stored, node: Stored, key: NodeKey)
    requires views != [] ==> views[|views| - 1] == RootOnly(prev, |views| - 1)
    ensures key in RecordedRoot(prev, node, |views|) <==>
            Replaces(views + [RootOnly(node, |views|)], |views|, key)
  {
    var version := |views|;
    var after := views + [RootOnly(node, version)];
    assert after[version] == RootOnly(node, version);
    if version > 0 {
      assert after[version - 1] == RootOnly(prev, version - 1);
      assert RootOf(after[version - 1], version - 1) == prev && RootOf(after[version], version) == node;
    }
  }

  lemma {:induction false} ExtendRootOnly(s: Store, prev: Stored, node: Stored)
    requires Inv(s) && IsLoneRoot(node)
    requires s.views != [] ==> s.views[|s.views| - 1] == RootOnly(prev, |s.views| - 1)
    ensures ExtendsHistory(s.views, RootOnly(node, |s.views|), RecordedRoot(prev, node, |s.views|))
    ensures Inv(Extended(s, RootOnly(node, |s.views|), RecordedRoot(prev, node, |s.views|)))
  {
    hide Inv, TreeOf, Replaces, RecordedRoot;
    var version, view := |s.views|, RootOnly(node, |s.views|);
    var replaced := RecordedRoot(prev, node, version);
    RootOnlyIsTree(node, version);
    forall k
      ensures k in replaced <==> Replaces(s.views + [view], version, k)
    {
      RootOnlyReplaced(s.views, prev, node, k);
    }
    ExtendKeepsInv(s, view, replaced);
  }

  lemma NewStoreIsExact()
    ensures Inv(NEW_STORE)
  {
  }

  /** The store after writing single-node trees, one version each. */
  ghost function RootOnlyStore(roots: seq<Stored>): Store {
    if roots == [] then NEW_STORE
    else
      var last := |roots| - 1;
      Extended(RootOnlyStore(roots[..last]), RootOnly(roots[last], last), RecordedFor(roots, last))
  }

  function RecordedFor(roots: seq<Stored>, i: nat): seq<NodeKey>
    requires i < |roots|
  {
    RecordedRoot(if i == 0 then EmptyRoot else roots[i - 1], roots[i], i)
  }

  lemma {:induction false} RootOnlyStoreIsExact(roots: seq<Stored>)
    requires forall i :: 0 <= i < |roots| ==> IsLoneRoot(roots[i])
    ensures var s := RootOnlyStore(roots);
      && Inv(s) && s.pruned == {}
      && |s.views| == |roots| && forall i :: 0 <= i < |roots| ==> s.views[i] == RootOnly(roots[i], i)
  {
    hide Inv, RootOnly, RecordedRoot, ExtendsHistory, NodesWith;
    if roots == [] {
      NewStoreIsExact();
    } else {
      var last := |roots| - 1;
      RootOnlyStoreIsExact(roots[..last]);
      var prev := if last == 0 then EmptyRoot else roots[last - 1];
      ExtendRootOnly(RootOnlyStore(roots[..last]), prev, roots[last]);
    }
  }

  lemma {:induction false} RootOnlyRecords(roots: seq<Stored>, i: nat)
    requires i < |roots|
    ensures |RootOnlyStore(roots).views| == |roots|
    ensures RecordsAt(RootOnlyStore(roots).stale, i) == RecordedFor(roots, i)
  {
    hide RootOnly, RecordedRoot, NodesWith;
    var last := |roots| - 1;
    if last == 0 {
      assert RootOnlyStore(roots[..last]) == NEW_STORE;
    } else {
      RootOnlyRecords(roots[..last], if i < last then i else 0);
    }
  }

  /**
   An empty first version, then a filled one: the empty root is not recorded, so version 0 stays
   readable although version 1 is reported as the first.
   */
  lemma {:induction false} OrphanIsNotReported()
    ensures var s := RootOnlyStore([EmptyRoot, ONE_LEAF]);
      && Inv(s) && FirstRetained(s) == Some(1) && Readable(s, 0)
  {
    hide RootOnlyStore, Readable, Inv, MinStale;
    var roots := [EmptyRoot, ONE_LEAF];
    var s := RootOnlyStore(roots);
    RootOnlyStoreIsExact(roots);
    RootOnlyRecords(roots, 1);
    assert RootOf(s.views[0], 0) == EmptyRoot && RootOf(s.views[1], 1) == ONE_LEAF;
    PrunedSuccessor(s, 0);
    MinStaleIsLeast(s);
    assert RecordsAt(s.stale, 1) == [];
  }

  /**
   Three empty versions cut back to two: the record of version 1 is lost, so version 0 is reported
   as gone and will never be pruned, while the other database still reports it.
   */
  lemma {:induction false} InMemoryTruncationForgets()
    ensures var s := RootOnlyStore([EmptyRoot, EmptyRoot, EmptyRoot]);
      && Inv(s) && Inv(Truncated(s, 2)) && !StaleFrom(s.stale, 2)
      && FirstRetained(Truncated(s, 2)) == Some(0) && FirstRetained(TruncatedInMemory(s, 2)) == Some(1)
      && Readable(TruncatedInMemory(s, 2), 0)
  {
    hide RootOnlyStore, Inv, Readable;
    var roots := [EmptyRoot, EmptyRoot, EmptyRoot];
    var s := RootOnlyStore(roots);
    RootOnlyStoreIsExact(roots);
    RootOnlyRecords(roots, 0);
    RootOnlyRecords(roots, 1);
    PrunedUpToIsReadable(s, 0);
    PrunedUpToIsReadable(s, 1);
    TruncationIsExact(s, 2);
    var exact, kept := Truncated(s, 2), TruncatedInMemory(s, 2);
    assert RecordsAt(exact.stale, 0) == [] && RecordsAt(exact.stale, 1) == [RootKey(0)];
    assert LeastRecord(exact.stale, 1, 2) == Some(1);
    assert RecordsAt(kept.stale, 0) == [] && RecordsAt(kept.stale, 1) == [];
    assert LeastRecord(kept.stale, 1, 2) == LeastRecord(kept.stale, 2, 2) == None;
    SameNodesSameReading(s, kept, 0);
  }

  lemma SameNodesSameReading(s: Store, s': Store, version: nat)
    requires version < |s.views| && version < |s'.views|
    requires s.nodes == s'.nodes && s.views[version] == s'.views[version]
    ensures Readable(s, version) <==> Readable(s', version)
  {
  }
}
