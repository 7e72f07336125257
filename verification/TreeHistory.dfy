/**
 Extending the tree by a version (`Storage::extend` in crates/merkle_tree/src/storage/mod.rs with
 the patch of crates/merkle_tree/src/storage/patch.rs). What the updater produces is a new version
 that shares old nodes with the one before it, records exactly what it replaced, and validates to
 the root hash of the tree with all entries written.
 */
module TreeHistory {
  import opened Wrappers
  import opened SparseTree
  import opened Jellyfish
  import opened VersionedStore
  import opened StoredVersions
  import opened TreeUpdate
  import Verifier
  import Pruning

  // ----- versions

  /** The key under which the node at `p` is stored when version `v` is written. */
  function KeyAt(places: Places, v: nat, p: Key): NodeKey {
    NodeKey(if Linked(places, p) then RefTo(places, p).version else v, p)
  }

  function StoredAt(places: Places, leafCount: nat, p: Key): Stored
    requires p in places
  {
    if p == [] then FilledRoot(leafCount, places[p]) else Inner(places[p])
  }

  /** The version that a working set is written as. */
  function ViewOf(places: Places, v: nat, leafCount: nat): Nodes {
    if places == map[] then map[RootKey(v) := EmptyRoot]
    else map p | p in places :: KeyAt(places, v, p) := StoredAt(places, leafCount, p)
  }

  lemma {:induction false} ViewKeys(places: Places, v: nat, leafCount: nat, k: NodeKey)
    requires places != map[]
    ensures k in ViewOf(places, v, leafCount) <==> k.suffix in places && k == KeyAt(places, v, k.suffix)
    ensures k in ViewOf(places, v, leafCount) ==>
      k.suffix in places && ViewOf(places, v, leafCount)[k] == StoredAt(places, leafCount, k.suffix)
  {
    var view := ViewOf(places, v, leafCount);
    if k.suffix in places && k == KeyAt(places, v, k.suffix) {
      assert KeyAt(places, v, k.suffix) in view;
    }
  }

  /** A finished working set: whole, with all hashes, its references no newer than `v`. */
  ghost predicate Finished(d: nat, base: Places, places: Places, v: nat, t: Tree) {
    Editing(d, base, places, v, [], [], t) && HashedFrom(d, places, NIBBLE)
  }

  lemma {:induction false} PlaceIsOk(d: nat, base: Places, places: Places, v: nat, t: Tree, p: Key)
    requires Editing(d, base, places, v, [], [], t) && p in places
    ensures PlaceOk(d, places, p) && [] in places && KeyAt(places, v, p).version <= v
    ensures p != [] ==> Linked(places, p) && RefFine(d, base, places, v, [], [], p)
  {
    assert PlaceOk(d, places, p);
    if p != [] {
      assert RefFine(d, base, places, v, [], [], p);
    }
  }

  lemma FinishedIsEdited(d: nat, base: Places, places: Places, v: nat, t: Tree)
    requires Finished(d, base, places, v, t)
    ensures Editing(d, base, places, v, [], [], t)
  {
  }

  lemma {:induction false} ViewNode(d: nat, base: Places, places: Places, v: nat, leafCount: nat, t: Tree, k: NodeKey)
    requires Editing(d, base, places, v, [], [], t) && places != map[] && k in ViewOf(places, v, leafCount)
    ensures var view := ViewOf(places, v, leafCount);
      && k.version <= v && (view[k].Inner? <==> k.suffix != []) && (k.suffix == [] ==> k == RootKey(v))
      && (k.suffix != [] ==> Referenced(view, k))
  {
    hide Editing, ViewOf, RefFine;
    var view := ViewOf(places, v, leafCount);
    ViewKeys(places, v, leafCount, k);
    PlaceIsOk(d, base, places, v, t, k.suffix);
    if k.suffix != [] {
      var parent := KeyAt(places, v, k.suffix[NIBBLE..]);
      ViewKeys(places, v, leafCount, parent);
      assert IsParent(view, parent, k);
    }
  }

  lemma {:induction false} ViewChild(d: nat, base: Places, places: Places, v: nat, leafCount: nat, t: Tree, k: NodeKey,
                                     nibble: Key)
    requires Editing(d, base, places, v, [], [], t) && places != map[] && k in ViewOf(places, v, leafCount)
    requires nibble in ChildrenOf(ViewOf(places, v, leafCount)[k])
    ensures var view := ViewOf(places, v, leafCount);
      ChildKey(nibble, ChildrenOf(view[k])[nibble], k.suffix) in view
  {
    hide Editing, ViewOf, RefFine;
    var view := ViewOf(places, v, leafCount);
    ViewKeys(places, v, leafCount, k);
    PlaceIsOk(d, base, places, v, t, k.suffix);
    JoinedPlace(nibble, k.suffix);
    ViewKeys(places, v, leafCount, ChildKey(nibble, ChildrenOf(view[k])[nibble], k.suffix));
  }

  /** A whole working set is written as a complete tree. */
  lemma {:induction false} ViewIsTreeOf(d: nat, base: Places, places: Places, v: nat, leafCount: nat, t: Tree)
    requires Editing(d, base, places, v, [], [], t)
    ensures TreeOf(ViewOf(places, v, leafCount), v)
  {
    hide Editing, ViewOf, Referenced;
    var view := ViewOf(places, v, leafCount);
    if places == map[] {
      EmptyView(v, leafCount);
    } else {
      forall k | k in view
        ensures k.version <= v && (view[k].Inner? <==> k.suffix != []) && (k.suffix == [] ==> k == RootKey(v))
        ensures k.suffix != [] ==> Referenced(view, k)
      {
        ViewNode(d, base, places, v, leafCount, t, k);
      }
      forall k, nibble | k in view && nibble in ChildrenOf(view[k])
        ensures ChildKey(nibble, ChildrenOf(view[k])[nibble], k.suffix) in view
      {
        ViewChild(d, base, places, v, leafCount, t, k, nibble);
      }
      RootPlace(d, base, places, v, t);
      ViewKeys(places, v, leafCount, RootKey(v));
    }
  }

  lemma {:induction false} EmptyView(v: nat, leafCount: nat)
    ensures TreeOf(ViewOf(map[], v, leafCount), v) && ViewOf(map[], v, leafCount) == RootOnly(EmptyRoot, v)
    ensures DbOf(ViewOf(map[], v, leafCount)) == map[]
  {
    RootOnlyIsTree(EmptyRoot, v);
  }

  lemma {:induction false} RootPlace(d: nat, base: Places, places: Places, v: nat, t: Tree)
    requires Editing(d, base, places, v, [], [], t) && places != map[]
    ensures [] in places && KeyAt(places, v, []) == RootKey(v)
  {
  }

  // ----- from one version to the next

  /** All references of a finished version are older than the version written next. */
  ghost predicate Older(base: Places, v: nat) {
    forall p {:trigger RefTo(base, p)} :: p in base && Linked(base, p) ==> RefTo(base, p).version < v
  }

  /** What the version before `v` was written as. */
  ghost function PreviousView(base: Places, v: nat, leafCount: nat): Nodes
    requires v > 0
  {
    ViewOf(base, v - 1, leafCount)
  }

  lemma {:induction false} ViewCopies(d: nat, base: Places, places: Places, v: nat, baseCount: nat, leafCount: nat,
                                      t: Tree)
    requires Editing(d, base, places, v, [], [], t) && v > 0
    ensures CopyOnWrite(PreviousView(base, v, baseCount), ViewOf(places, v, leafCount), v)
  {
    hide Editing, ViewOf, RefFine;
    var prev, view := PreviousView(base, v, baseCount), ViewOf(places, v, leafCount);
    forall k | k in view && k.version < v
      ensures k in prev && prev[k] == view[k]
    {
      NodeIsCopied(d, base, places, v, baseCount, leafCount, t, k);
    }
  }

  lemma {:induction false} NodeIsCopied(d: nat, base: Places, places: Places, v: nat, baseCount: nat, leafCount: nat,
                                        t: Tree, k: NodeKey)
    requires Editing(d, base, places, v, [], [], t) && v > 0
    requires k in ViewOf(places, v, leafCount) && k.version < v
    ensures var prev := PreviousView(base, v, baseCount);
      k in prev && prev[k] == ViewOf(places, v, leafCount)[k]
  {
    if places == map[] {
      EmptyView(v, leafCount);
    } else {
      hide Editing, ViewOf;
      ViewKeys(places, v, leafCount, k);
      PlaceIsOk(d, base, places, v, t, k.suffix);
      RootPlace(d, base, places, v, t);
      assert k.suffix != [] && OldIsKept(d, base, places, k.suffix);
      ViewKeys(base, v - 1, baseCount, k);
    }
  }

  /**
   What the program records as stale: the previous root, unless it was empty and the new one is
   not, and every node of the previous version whose place got a newer one.
   */
  ghost predicate IsStale(base: Places, places: Places, v: nat, k: NodeKey) {
    && v > 0
    && if k.suffix == [] then k == RootKey(v - 1) && (base != map[] || places == map[])
       else && k.suffix in base && Linked(base, k.suffix) && k == KeyAt(base, v - 1, k.suffix)
            && k.suffix in places && Linked(places, k.suffix)
            && RefTo(base, k.suffix).version < RefTo(places, k.suffix).version
  }

  lemma {:induction false} PreviousKey(d: nat, base: Places, v: nat, baseCount: nat, bt: Tree, k: NodeKey)
    requires Editing(d, base, base, v, [], [], bt) && v > 0
    ensures k in PreviousView(base, v, baseCount) <==>
      if k.suffix == [] then k == RootKey(v - 1)
      else k.suffix in base && Linked(base, k.suffix) && k == KeyAt(base, v - 1, k.suffix)
  {
    if base == map[] {
      EmptyView(v - 1, baseCount);
    } else {
      hide Editing, ViewOf;
      ViewKeys(base, v - 1, baseCount, k);
      RootPlace(d, base, base, v, bt);
      if k.suffix in base {
        PlaceIsOk(d, base, base, v, bt, k.suffix);
      }
    }
  }

  lemma {:induction false} NewKey(d: nat, base: Places, places: Places, v: nat, leafCount: nat, t: Tree, k: NodeKey)
    requires Editing(d, base, places, v, [], [], t)
    ensures k in ViewOf(places, v, leafCount) <==>
      if k.suffix == [] then k == RootKey(v)
      else k.suffix in places && Linked(places, k.suffix) && k == KeyAt(places, v, k.suffix)
    ensures k.suffix in base ==> k.suffix in places
  {
    if places == map[] {
      EmptyView(v, leafCount);
    } else {
      hide Editing, ViewOf;
      ViewKeys(places, v, leafCount, k);
      RootPlace(d, base, places, v, t);
      if k.suffix in places {
        PlaceIsOk(d, base, places, v, t, k.suffix);
      }
    }
  }

  /** What is recorded is exactly what the new version replaced. */
  lemma {:induction false} StaleIsReplaced(d: nat, base: Places, places: Places, v: nat, baseCount: nat, leafCount: nat,
                                           bt: Tree, t: Tree, k: NodeKey)
    requires Editing(d, base, base, v, [], [], bt) && Older(base, v) && Editing(d, base, places, v, [], [], t) && v > 0
    ensures IsStale(base, places, v, k) <==>
      && k in PreviousView(base, v, baseCount) && k !in ViewOf(places, v, leafCount)
      && !(k == RootKey(v - 1) && base == map[] && places != map[])
  {
    hide Editing, ViewOf;
    PreviousKey(d, base, v, baseCount, bt, k);
    NewKey(d, base, places, v, leafCount, t, k);
    if k.suffix != [] && k.suffix in base {
      PlaceIsOk(d, base, places, v, t, k.suffix);
    }
  }

  lemma {:induction false} RootOfView(d: nat, base: Places, places: Places, v: nat, leafCount: nat, t: Tree)
    requires Editing(d, base, places, v, [], [], t)
    ensures RootOf(ViewOf(places, v, leafCount), v) ==
            if places == map[] then EmptyRoot else FilledRoot(leafCount, if [] in places then places[[]] else NO_NODE)
  {
    if places != map[] {
      hide Editing, ViewOf;
      RootPlace(d, base, places, v, t);
      ViewKeys(places, v, leafCount, RootKey(v));
    }
  }

  const NO_NODE: Jellyfish.Node := InternalNode(map[])

  /** The patch of a finished working set is what the store expects of the next version. */
  lemma {:induction false} PatchExtendsHistory(d: nat, views: seq<Nodes>, base: Places, places: Places, baseCount: nat,
                                               leafCount: nat, bt: Tree, t: Tree, stale: seq<NodeKey>)
    requires Editing(d, base, base, |views|, [], [], bt) && Older(base, |views|)
    requires Editing(d, base, places, |views|, [], [], t)
    requires if views == [] then base == map[]
             else views[|views| - 1] == PreviousView(base, |views|, baseCount)
    requires forall k :: k in stale <==> IsStale(base, places, |views|, k)
    ensures ExtendsHistory(views, ViewOf(places, |views|, leafCount), stale)
  {
    hide Editing, ViewOf, TreeOf, CopyOnWrite;
    var v, view := |views|, ViewOf(places, |views|, leafCount);
    ViewIsTreeOf(d, base, places, v, leafCount, t);
    if v > 0 {
      ViewCopies(d, base, places, v, baseCount, leafCount, t);
    }
    forall k
      ensures IsStale(base, places, v, k) <==> Replaces(views + [view], v, k)
    {
      if v > 0 {
        StaleIsReplaced(d, base, places, v, baseCount, leafCount, bt, t, k);
        RootOfView(d, base, places, v, leafCount, t);
        PreviousRoot(d, base, v, baseCount, bt);
      }
    }
  }

  lemma {:induction false} PreviousRoot(d: nat, base: Places, v: nat, baseCount: nat, bt: Tree)
    requires Editing(d, base, base, v, [], [], bt) && v > 0
    ensures RootOf(PreviousView(base, v, baseCount), v - 1) == EmptyRoot <==> base == map[]
  {
    if base == map[] {
      EmptyView(v - 1, baseCount);
    } else {
      hide Editing, ViewOf;
      RootPlace(d, base, base, v, bt);
      ViewKeys(base, v - 1, baseCount, RootKey(v - 1));
    }
  }

  // ----- what is written validates

  lemma {:induction false} ViewDb(d: nat, base: Places, places: Places, v: nat, leafCount: nat, t: Tree, k: NodeKey)
    requires Editing(d, base, places, v, [], [], t) && places != map[]
    ensures k in DbOf(ViewOf(places, v, leafCount)) <==>
      k.suffix != [] && k.suffix in places && k == KeyAt(places, v, k.suffix)
    ensures k in DbOf(ViewOf(places, v, leafCount)) ==>
      k.suffix in places && DbOf(ViewOf(places, v, leafCount))[k] == places[k.suffix]
  {
    hide Editing, ViewOf;
    ViewKeys(places, v, leafCount, k);
  }

  lemma {:induction false} ViewIsWellTyped(d: nat, base: Places, places: Places, v: nat, leafCount: nat, t: Tree)
    requires Editing(d, base, places, v, [], [], t)
    ensures WellTyped(d, DbOf(ViewOf(places, v, leafCount)))
    ensures [] in places ==> NodeWellTyped(d, places[[]])
  {
    hide Editing, ViewOf, DbOf;
    var db := DbOf(ViewOf(places, v, leafCount));
    if places == map[] {
      EmptyView(v, leafCount);
    } else {
      forall k | k in db
        ensures NodeWellTyped(d, db[k])
      {
        ViewDb(d, base, places, v, leafCount, t, k);
        PlaceIsOk(d, base, places, v, t, k.suffix);
      }
      RootPlace(d, base, places, v, t);
      PlaceIsOk(d, base, places, v, t, []);
    }
  }

  lemma {:induction false} FinishedValidates(d: nat, base: Places, places: Places, v: nat, leafCount: nat, t: Tree,
                                             p: Key)
    requires Finished(d, base, places, v, t) && p in places
    requires WellTyped(d, DbOf(ViewOf(places, v, leafCount))) && NodeWellTyped(d, places[p]) && |p| <= d
    ensures ValidateNode(d, DbOf(ViewOf(places, v, leafCount)), places[p], KeyAt(places, v, p)).Ok?
    decreases d - |p|
  {
    hide ViewOf, DbOf, HashOf, Editing, HashedFrom;
    PlaceIsOk(d, base, places, v, t, p);
    if places[p].InternalNode? {
      var db, key, children := DbOf(ViewOf(places, v, leafCount)), KeyAt(places, v, p), places[p].children;
      VersionsAreRight(d, base, places, v, t, p);
      forall n | n in children
        ensures |n| == NIBBLE && ChildError(d, db, n, children[n], p) == None
      {
        ChildValidates(d, base, places, v, leafCount, t, p, n);
        FinishedValidates(d, base, places, v, leafCount, t, n + p);
        ValidatedHash(d, db, places[n + p], ChildKey(n, children[n], p));
      }
    }
  }

  lemma {:induction false} VersionsAreRight(d: nat, base: Places, places: Places, v: nat, t: Tree, p: Key)
    requires Editing(d, base, places, v, [], [], t) && p in places && places[p].InternalNode?
    ensures VersionsFit(places[p].children, KeyAt(places, v, p))
  {
    hide Editing;
    PlaceIsOk(d, base, places, v, t, p);
    if p == [] {
      forall n | n in places[p].children
        ensures places[p].children[n].version <= v
      {
        JoinedPlace(n, p);
        PlaceIsOk(d, base, places, v, t, n + p);
      }
    }
  }

  /** The child at `n` is found under its key, of the right kind, and its reference carries its hash. */
  lemma {:induction false} ChildValidates(d: nat, base: Places, places: Places, v: nat, leafCount: nat, t: Tree, p: Key,
                                          n: Key)
    requires Finished(d, base, places, v, t) && p in places && places[p].InternalNode? && n in places[p].children
    ensures |n| == NIBBLE && n + p in places && |p| + NIBBLE <= d && NodeWellTyped(d, places[n + p])
    ensures var db, ref := DbOf(ViewOf(places, v, leafCount)), places[p].children[n];
      var key := ChildKey(n, ref, p);
      && key == KeyAt(places, v, n + p) && Found(db, key, ref.isLeaf) && db[key] == places[n + p]
      && ref.hash == HashOf(d, places[n + p], d - |n + p|)
  {
    hide ViewOf, DbOf, HashOf, Editing;
    PlaceIsOk(d, base, places, v, t, p);
    JoinedPlace(n, p);
    PlaceIsOk(d, base, places, v, t, n + p);
    ViewDb(d, base, places, v, leafCount, t, KeyAt(places, v, n + p));
    assert RefHashed(d, places, n + p);
  }

  /** Lookups in what is written find exactly the tree. */
  lemma {:induction false} FindsContents(d: nat, base: Places, places: Places, v: nat, leafCount: nat, t: Tree, p: Key,
                                         target: Key)
    requires Finished(d, base, places, v, t) && p in places && Under(d, p, target)
    ensures Find(d, DbOf(ViewOf(places, v, leafCount)), places[p], p, target) == LeafAt(t, target)
    decreases d - |p|
  {
    hide ViewOf, DbOf, Editing, HashedFrom;
    PlaceIsOk(d, base, places, v, t, p);
    match places[p]
    case LeafNode(fullKey, leaf) =>
      LeafSpeaks(d, base, places, v, t, p, target);
    case InternalNode(children) =>
      OneNibbleFurther(d, target, p);
      var n := NibbleBelow(d, target, p);
      JoinedPlace(n, p);
      if n in children {
        ChildValidates(d, base, places, v, leafCount, t, p, n);
        FindsContents(d, base, places, v, leafCount, t, n + p, target);
      } else {
        AbsentSpeaks(d, base, places, v, t, p, n, target);
      }
  }

  lemma {:induction false} NoLeafOfKey(d: nat, base: Places, places: Places, v: nat, t: Tree, p: Key, key: Key)
    requires Editing(d, base, places, v, [], [], t) && p in places && places[p].LeafNode? && Under(d, p, key)
    requires places[p].fullKey != key
    ensures key !in t
  {
    if key in t {
      assert HasLeaf(places, key);
      var q :| IsLeafAt(places, q, key);
      assert PlaceOk(d, places, q) && PlaceOk(d, places, p);
      if |p| <= |q| {
        assert key[d - |p|..] == key[d - |q|..][|q| - |p|..];
        LeafIsLast(d, places, p, q);
      } else {
        assert key[d - |q|..] == key[d - |p|..][|p| - |q|..];
        LeafIsLast(d, places, q, p);
      }
    }
  }

  lemma {:induction false} LeafSpeaks(d: nat, base: Places, places: Places, v: nat, t: Tree, p: Key, target: Key)
    requires Editing(d, base, places, v, [], [], t) && p in places && places[p].LeafNode? && Under(d, p, target)
    ensures LeafAt(t, target) == if places[p].fullKey == target then places[p].leaf else VACANT
  {
    hide Shape, IsContents, RefsFine;
    if places[p].fullKey == target {
      LeafIsContained(places, t, p);
    } else {
      NoLeafOfKey(d, base, places, v, t, p, target);
    }
  }

  lemma {:induction false} AbsentSpeaks(d: nat, base: Places, places: Places, v: nat, t: Tree, p: Key, n: Key,
                                        target: Key)
    requires Editing(d, base, places, v, [], [], t) && p in places && places[p].InternalNode?
    requires |n| == NIBBLE && n !in places[p].children && Under(d, n + p, target)
    ensures target !in t
  {
    JoinedPlace(n, p);
    if n + p in places {
      assert PlaceOk(d, places, n + p);
    }
    if target in t {
      assert HasLeaf(places, target);
      var q :| IsLeafAt(places, q, target);
      LeafIsElsewhere(d, places, n + p, target, q);
    }
  }

  /** A finished version validates to the root hash of its tree, and lookups find that tree. */
  lemma {:induction false} FinishedIsTree(d: nat, base: Places, places: Places, v: nat, leafCount: nat, t: Tree)
    requires Finished(d, base, places, v, t) && places != map[]
    ensures [] in places && RootOf(ViewOf(places, v, leafCount), v) == FilledRoot(leafCount, places[[]])
    ensures WellTyped(d, DbOf(ViewOf(places, v, leafCount))) && NodeWellTyped(d, places[[]])
    ensures ValidateNode(d, DbOf(ViewOf(places, v, leafCount)), places[[]], RootKey(v)) == Ok(Root(d, t))
    ensures forall target :: |target| == d ==>
      Find(d, DbOf(ViewOf(places, v, leafCount)), places[[]], [], target) == LeafAt(t, target)
  {
    hide ViewOf, DbOf, Editing, HashedFrom, ValidateNode, Find;
    RootPlace(d, base, places, v, t);
    RootOfView(d, base, places, v, leafCount, t);
    ViewIsWellTyped(d, base, places, v, leafCount, t);
    FinishedValidates(d, base, places, v, leafCount, t, []);
    var db := DbOf(ViewOf(places, v, leafCount));
    forall target | |target| == d
      ensures Under(d, [], target) && Find(d, db, places[[]], [], target) == LeafAt(t, target)
    {
      assert target[d..] == [];
      FindsContents(d, base, places, v, leafCount, t, [], target);
    }
    ValidatedIsNode(d, db, places[[]], RootKey(v), t);
  }

  // ----- writing versions

  datatype Entry = Entry(key: Key, leaf: Leaf)

  /** The tree after the first `n` entries. */
  function Written(t: Tree, entries: seq<Entry>, n: nat): Tree
    requires n <= |entries|
  {
    if n == 0 then t else Written(t, entries, n - 1)[entries[n - 1].key := entries[n - 1].leaf]
  }

  function LogOf(t: Tree, entry: Entry): Verifier.TreeLogEntry {
    if entry.key in t then Verifier.Updated(t[entry.key].index, t[entry.key].value) else Verifier.Inserted
  }

  /** `places` is what the next version `v` starts from. */
  ghost predicate IsBase(d: nat, places: Places, v: nat, t: Tree) {
    Editing(d, places, places, v, [], [], t) && Older(places, v)
  }

  lemma {:induction false} EmptyIsBase(d: nat, v: nat)
    requires d % NIBBLE == 0
    ensures IsBase(d, map[], v, map[])
  {
  }

  lemma {:induction false} FinishedIsBase(d: nat, base: Places, places: Places, v: nat, t: Tree)
    requires Finished(d, base, places, v, t)
    ensures IsBase(d, places, v + 1, t)
  {
    forall p | p in places && Linked(places, p)
      ensures RefFine(d, places, places, v + 1, [], [], p) && RefTo(places, p).version < v + 1
    {
      assert RefFine(d, base, places, v, [], [], p) && RefHashed(d, places, p);
    }
  }

  /** One version: all entries in order, then the hashes. The logs say what each entry found. */
  method ExtendWorkingSet(d: nat, v: nat, base: Places, baseCount: nat, entries: seq<Entry>, ghost t: Tree)
    returns (places: Places, leafCount: nat, logs: seq<Verifier.TreeLogEntry>)
    requires IsBase(d, base, v, t) && baseCount == |t|
    requires forall i :: 0 <= i < |entries| ==> |entries[i].key| == d
    ensures Finished(d, base, places, v, Written(t, entries, |entries|))
    ensures leafCount == |Written(t, entries, |entries|)|
    ensures |logs| == |entries|
    ensures forall i :: 0 <= i < |entries| ==> logs[i] == LogOf(Written(t, entries, i), entries[i])
  {
    hide Editing, HashedFrom, Written, LogOf;
    var updater := new TreeUpdater(d, v, base, t);
    leafCount, logs := baseCount, [];
    WrittenStep(t, entries, 0);
    for i := 0 to |entries|
      invariant fresh(updater) && updater.Valid() && updater.contents == Written(t, entries, i)
      invariant leafCount == |Written(t, entries, i)| && |logs| == i
      invariant forall j :: 0 <= j < i ==> logs[j] == LogOf(Written(t, entries, j), entries[j])
    {
      var log := updater.Insert(entries[i].key, entries[i].leaf);
      WrittenStep(t, entries, i);
      SizeAfter(Written(t, entries, i), entries[i]);
      if log == Verifier.Inserted {
        leafCount := leafCount + 1;
      }
      logs := logs + [log];
    }
    updater.Finalize();
    places := updater.places;
  }

  lemma WrittenStep(t: Tree, entries: seq<Entry>, n: nat)
    requires n <= |entries|
    ensures n == 0 ==> Written(t, entries, n) == t
    ensures n < |entries| ==>
      var before := Written(t, entries, n);
      && Written(t, entries, n + 1) == before[entries[n].key := entries[n].leaf]
      && LogOf(before, entries[n]) ==
         if entries[n].key in before then
           Verifier.Updated(before[entries[n].key].index, before[entries[n].key].value)
         else Verifier.Inserted
  {
  }

  lemma {:induction false} SizeAfter(t: Tree, entry: Entry)
    ensures |t[entry.key := entry.leaf]| == |t| + if entry.key in t then 0 else 1
  {
    var after := t[entry.key := entry.leaf];
    if entry.key in t {
      assert after.Keys == t.Keys;
    } else {
      assert after.Keys == t.Keys + {entry.key};
    }
    assert |after| == |after.Keys| && |t| == |t.Keys|;
  }

  /** The stale keys of a patch, in some order. */
  method StaleKeysOf(d: nat, base: Places, places: Places, v: nat, ghost t: Tree) returns (stale: seq<NodeKey>)
    requires Editing(d, base, places, v, [], [], t)
    requires v == 0 ==> base == map[]
    ensures forall k :: k in stale <==> IsStale(base, places, v, k)
  {
    hide Editing;
    stale := [];
    if v > 0 {
      var todo := set p | p in base && p != [] && IsReplaced(base, places, p);
      ghost var all := todo;
      while todo != {}
        invariant todo <= all
        invariant forall k :: k in stale <==> k.suffix in all && k.suffix !in todo && k == KeyAt(base, v - 1, k.suffix)
      {
        var p :| p in todo;
        stale := stale + [KeyAt(base, v - 1, p)];
        todo := todo - {p};
      }
      if base != map[] || places == map[] {
        stale := stale + [RootKey(v - 1)];
      }
    }
  }

  predicate IsReplaced(base: Places, places: Places, p: Key) {
    && p in base && Linked(base, p) && p in places && Linked(places, p)
    && RefTo(base, p).version < RefTo(places, p).version
  }

  /**
   `MerkleTree::extend`: the database gets a version that fits its history, validates to the root
   hash of the tree with all entries written, and is what the version after it can start from.
   */
  method WriteVersion(d: nat, db: Pruning.Database, base: Places, baseCount: nat, entries: seq<Entry>, ghost t: Tree)
    returns (places: Places, leafCount: nat, logs: seq<Verifier.TreeLogEntry>)
    requires db.Valid() && IsBase(d, base, db.versionCount, t) && baseCount == |t|
    requires if db.versionCount == 0 then base == map[]
             else db.views[db.versionCount - 1] == ViewOf(base, db.versionCount - 1, baseCount)
    requires forall i :: 0 <= i < |entries| ==> |entries[i].key| == d
    modifies db
    ensures db.Valid() && db.versionCount == old(db.versionCount) + 1
    ensures var t' := Written(t, entries, |entries|);
      && IsBase(d, places, db.versionCount, t') && leafCount == |t'|
      && db.views == old(db.views) + [ViewOf(places, old(db.versionCount), leafCount)]
      && HoldsTree(d, db.views[db.versionCount - 1], db.versionCount - 1, t')
    ensures |logs| == |entries|
    ensures forall i :: 0 <= i < |entries| ==> logs[i] == LogOf(Written(t, entries, i), entries[i])
  {
    hide Editing, ViewOf, Inv, ExtendsHistory, HashedFrom, IsStale, HoldsTree, Written, LogOf, Older, Finished;
    hide NodesWith;
    var v := db.versionCount;
    places, leafCount, logs := ExtendWorkingSet(d, v, base, baseCount, entries, t);
    ghost var t' := Written(t, entries, |entries|);
    FinishedIsEdited(d, base, places, v, t');
    var stale := StaleKeysOf(d, base, places, v, t');
    PatchExtendsHistory(d, db.views, base, places, baseCount, leafCount, t, t', stale);
    FinishedIsBase(d, base, places, v, t');
    FinishedHoldsTree(d, base, places, v, leafCount, t');
    db.Extend(ViewOf(places, v, leafCount), stale);
  }

  /** The version is the tree `t`: it validates to its root hash, its lookups find it, and it counts its leaves. */
  ghost predicate HoldsTree(d: nat, view: Nodes, version: nat, t: Tree) {
    var root := RootOf(view, version);
    if t == map[] then root == EmptyRoot
    else
      && root.FilledRoot? && root.leafCount == |t|
      && WellTyped(d, DbOf(view)) && NodeWellTyped(d, root.node)
      && ValidateNode(d, DbOf(view), root.node, RootKey(version)) == Ok(Root(d, t))
      && forall target :: |target| == d ==> Find(d, DbOf(view), root.node, [], target) == LeafAt(t, target)
  }

  lemma {:induction false} FinishedHoldsTree(d: nat, base: Places, places: Places, v: nat, leafCount: nat, t: Tree)
    requires Finished(d, base, places, v, t) && leafCount == |t|
    ensures HoldsTree(d, ViewOf(places, v, leafCount), v, t)
  {
    hide Editing, HashedFrom, ViewOf, ValidateNode, Find, DbOf;
    EmptyIffEmpty(d, base, places, v, t);
    if places == map[] {
      EmptyView(v, leafCount);
    } else {
      FinishedIsTree(d, base, places, v, leafCount, t);
    }
  }

  lemma {:induction false} SomeLeafBelow(d: nat, places: Places, p: Key) returns (q: Key)
    requires Shape(d, places) && p in places
    ensures q in places && places[q].LeafNode?
    decreases d - |p|
  {
    assert PlaceOk(d, places, p);
    if places[p].LeafNode? {
      q := p;
    } else {
      var n :| n in places[p].children;
      q := SomeLeafBelow(d, places, n + p);
    }
  }

  lemma {:induction false} EmptyIffEmpty(d: nat, base: Places, places: Places, v: nat, t: Tree)
    requires Editing(d, base, places, v, [], [], t)
    ensures places == map[] <==> t == map[]
    ensures places == map[] <==> [] !in places
  {
    if places == map[] {
      assert forall k :: k in t ==> HasLeaf(places, k);
    } else {
      var q := SomeLeafBelow(d, places, []);
      assert places[q].fullKey in t;
    }
  }

  // ----- whole histories

  /** The tree after the first `n` batches. */
  function TreeAfter(batches: seq<seq<Entry>>, n: nat): Tree
    requires n <= |batches|
  {
    if n == 0 then map[] else Written(TreeAfter(batches, n - 1), batches[n - 1], |batches[n - 1]|)
  }

  lemma AfterOneBatch(batches: seq<seq<Entry>>, n: nat)
    requires n <= |batches|
    ensures n == 0 ==> TreeAfter(batches, n) == map[]
    ensures n < |batches| ==> TreeAfter(batches, n + 1) == Written(TreeAfter(batches, n), batches[n], |batches[n]|)
  {
  }

  /** A database built from nothing by writing batches: each version holds the tree of all entries so far. */
  method BuildHistory(d: nat, batches: seq<seq<Entry>>) returns (db: Pruning.Database)
    requires d % NIBBLE == 0
    requires forall i, j :: 0 <= i < |batches| && 0 <= j < |batches[i]| ==> |batches[i][j].key| == d
    ensures fresh(db) && db.Valid() && db.versionCount == |batches|
    ensures forall i :: 0 <= i < |batches| ==> HoldsTree(d, db.views[i], i, TreeAfter(batches, i + 1))
  {
    hide IsBase, ViewOf, HoldsTree, TreeAfter, Inv, NodesWith, Written, LogOf;
    db := new Pruning.Database();
    EmptyIsBase(d, 0);
    AfterOneBatch(batches, 0);
    var places: Places, leafCount := map[], 0;
    for i := 0 to |batches|
      invariant fresh(db) && db.Valid() && db.versionCount == i
      invariant IsBase(d, places, i, TreeAfter(batches, i)) && leafCount == |TreeAfter(batches, i)|
      invariant if i == 0 then places == map[] else db.views[i - 1] == ViewOf(places, i - 1, leafCount)
      invariant forall j :: 0 <= j < i ==> HoldsTree(d, db.views[j], j, TreeAfter(batches, j + 1))
    {
      AfterOneBatch(batches, i);
      ghost var before := db.views;
      var logs;
      places, leafCount, logs := WriteVersion(d, db, places, leafCount, batches[i], TreeAfter(batches, i));
      assert forall j :: 0 <= j < i ==> db.views[j] == before[j];
    }
  }
}
