/**
 The pre-batch storage view handed to the VM (`build_view_from_merkle_paths` in
 crates/airbender_verifier/src/merkle_witness.rs).
 */
module StorageView {
  import opened Wrappers
  import opened SparseTree
  import opened Witness
  import opened Verifier

  function ViewAt(t: Tree, key: Key): Option<Leaf> {
    if key in t then Some(t[key]) else None
  }

  /** An entry the tree could have produced: only a write is a first write, and a repeated write has an index. */
  predicate WellFlagged(meta: StorageLogMetadata) {
    (meta.firstWrite ==> meta.isWrite) && (meta.isWrite && !meta.firstWrite ==> meta.leafIndex > 0)
  }

  /** The pre-state such an entry claims for its key. */
  function Claim(meta: StorageLogMetadata): Option<Leaf> {
    if meta.firstWrite || meta.leafIndex == 0 then None else Some(Leaf(meta.leafIndex, meta.valueRead))
  }

  ghost predicate AllWellFlagged(metas: seq<StorageLogMetadata>) {
    forall i :: 0 <= i < |metas| ==> WellFlagged(metas[i])
  }

  /** No two entries for one key disagree about its pre-state. */
  ghost predicate Consistent(metas: seq<StorageLogMetadata>) {
    forall i, j :: 0 <= i < |metas| && 0 <= j < |metas| && metas[i].key == metas[j].key ==>
      Claim(metas[i]) == Claim(metas[j])
  }

  /** One view slot per witnessed key, each holding what every entry for that key claims. */
  method BuildViewFromMerklePaths(metas: seq<StorageLogMetadata>) returns (r: Result<map<Key, Option<Leaf>>, Rejection>)
    ensures r.Ok? <==> AllWellFlagged(metas) && Consistent(metas)
    ensures r.Ok? ==> forall k :: k in r.value <==> exists i :: 0 <= i < |metas| && metas[i].key == k
    ensures r.Ok? ==> forall i :: 0 <= i < |metas| ==> r.value[metas[i].key] == Claim(metas[i])
  {
    hide Claim, WellFlagged;
    var view: map<Key, Option<Leaf>> := map[];
    for i := 0 to |metas|
      invariant forall j :: 0 <= j < i ==> WellFlagged(metas[j])
      invariant forall k :: k in view <==> exists j :: 0 <= j < i && metas[j].key == k
      invariant forall j :: 0 <= j < i ==> view[metas[j].key] == Claim(metas[j])
    {
      var leaf := Classify(metas[i]);
      ClassifiedClaim(metas[i]);
      if leaf.Err? {
        return Err(leaf.error);
      }
      var preState := match leaf.value
        case EmptyLeaf(_) => None
        case Existing(_, index, value) => Some(Leaf(index, value));
      var key := metas[i].key;
      if key !in view {
        view := view[key := preState];
      } else if view[key] != preState {
        ghost var j :| 0 <= j < i && metas[j].key == key;
        return Err(ConflictingPreState);
      }
    }
    r := Ok(view);
  }

  /** Classification succeeds on well-flagged entries only, and finds the claim. */
  lemma ClassifiedClaim(meta: StorageLogMetadata)
    ensures Classify(meta).Ok? <==> WellFlagged(meta)
    ensures Classify(meta).Ok? ==>
      && Classify(meta).value.isWrite == meta.isWrite
      && Claim(meta) == match Classify(meta).value
           case EmptyLeaf(_) => None
           case Existing(_, index, value) => Some(Leaf(index, value))
  {
  }

  lemma {:induction false} Untouched(s: State, logs: seq<StorageLog>, key: Key, m: nat, n: nat)
    requires m <= n <= |logs|
    requires forall i :: m <= i < n ==> logs[i].key != key
    ensures LeafAt(Run(s, logs, n).tree, key) == LeafAt(Run(s, logs, m).tree, key)
  {
    if m == n {
    } else {
      Untouched(s, logs, key, m, n - 1);
    }
  }

  /** The first of entries `m .. j` for `key`. */
  lemma {:induction false} FirstTouch(logs: seq<StorageLog>, key: Key, m: nat, j: nat) returns (p: nat)
    requires m <= j < |logs| && logs[j].key == key
    ensures m <= p <= j && logs[p].key == key
    ensures forall i :: m <= i < p ==> logs[i].key != key
    decreases j - m
  {
    p := m;
    if logs[m].key == key {
    } else {
      p := FirstTouch(logs, key, m + 1, j);
    }
  }

  /**
   When the view was built and the fold accepted, every witnessed key is shown to the VM as it
   was before the batch, and keeps that leaf until its last entry: only the last can change it.
   */
  lemma {:induction false} ViewIsPreBatchState(d: nat, s: State, metas: seq<StorageLogMetadata>,
                                               logs: seq<StorageLog>, j: nat, m: nat)
    requires Sane(d, s) && KeysAreFull(d, logs)
    requires Verify(d, metas, logs, Root(d, s.tree), s.next).Ok?
    requires Consistent(metas)
    requires m <= j < |logs| == |metas|
    ensures Claim(metas[j]) == ViewAt(s.tree, metas[j].key)
    ensures LeafAt(Run(s, logs, m).tree, metas[j].key) == LeafAt(s.tree, metas[j].key)
  {
    hide Verify, Faithful, Claim, ViewAt, WellFormed;
    var key := metas[j].key;
    AcceptsIffFaithful(d, s, metas, logs);
    ClaimIsRunning(d, s, metas, logs, j);
    var first := FirstTouch(logs, key, 0, j);
    Untouched(s, logs, key, 0, first);
    ClaimIsRunning(d, s, metas, logs, first);
    var later := FirstTouch(logs, key, m, j);
    Untouched(s, logs, key, m, later);
    ClaimIsRunning(d, s, metas, logs, later);
    assert Run(s, logs, 0) == s;
    RunStaysSane(d, s, logs, m);
    RunStaysSane(d, s, logs, first);
    RunStaysSane(d, s, logs, later);
    ViewIsLeaf(d, s.tree, Run(s, logs, first).tree, key);
    ViewIsLeaf(d, Run(s, logs, m).tree, Run(s, logs, later).tree, key);
    ViewIsLeaf(d, s.tree, Run(s, logs, m).tree, key);
  }

  /** A view slot determines a leaf and back, because occupied leaves have a positive index. */
  lemma ViewIsLeaf(d: nat, t: Tree, t': Tree, key: Key)
    requires WellFormed(d, t) && WellFormed(d, t')
    ensures ViewAt(t, key) == ViewAt(t', key) <==> LeafAt(t, key) == LeafAt(t', key)
  {
  }

  /** Each faithful entry is well flagged, and claims the leaf of the running tree. */
  lemma {:induction false} ClaimIsRunning(d: nat, s: State, metas: seq<StorageLogMetadata>, logs: seq<StorageLog>,
                                          i: nat)
    requires Sane(d, s) && KeysAreFull(d, logs)
    requires i < |logs| == |metas| && AllFaithful(d, s, metas, logs, |metas|)
    ensures metas[i].key == logs[i].key && WellFlagged(metas[i])
    ensures Claim(metas[i]) == ViewAt(Run(s, logs, i).tree, metas[i].key)
  {
    RunStaysSane(d, s, logs, i);
    assert Faithful(d, Run(s, logs, i), metas[i], logs[i]);
  }

  /** No log touches a key that an earlier one has changed. */
  ghost predicate NoneTouchedAfterChange(s: State, logs: seq<StorageLog>) {
    forall i {:trigger Run(s, logs, i)} :: 0 <= i < |logs| ==>
      LeafAt(Run(s, logs, i).tree, logs[i].key) == LeafAt(s.tree, logs[i].key)
  }

  /** In an accepted batch the view can be built if and only if no log touches a key that an earlier one changed. */
  lemma {:induction false} ConsistentIffUntouched(d: nat, s: State, metas: seq<StorageLogMetadata>,
                                                  logs: seq<StorageLog>)
    requires Sane(d, s) && KeysAreFull(d, logs)
    requires Verify(d, metas, logs, Root(d, s.tree), s.next).Ok?
    ensures AllWellFlagged(metas)
    ensures Consistent(metas) <==> NoneTouchedAfterChange(s, logs)
  {
    hide Verify, Faithful, Claim, ViewAt, WellFormed, WellFlagged;
    AcceptsIffFaithful(d, s, metas, logs);
    forall i | 0 <= i < |metas|
      ensures WellFlagged(metas[i]) && metas[i].key == logs[i].key
      ensures Claim(metas[i]) == ViewAt(Run(s, logs, i).tree, metas[i].key)
      ensures LeafAt(Run(s, logs, i).tree, logs[i].key) == LeafAt(s.tree, logs[i].key) <==>
              Claim(metas[i]) == ViewAt(s.tree, logs[i].key)
    {
      ClaimIsRunning(d, s, metas, logs, i);
      RunStaysSane(d, s, logs, i);
      ViewIsLeaf(d, Run(s, logs, i).tree, s.tree, logs[i].key);
    }
    if Consistent(metas) {
      forall i | 0 <= i < |logs|
        ensures LeafAt(Run(s, logs, i).tree, logs[i].key) == LeafAt(s.tree, logs[i].key)
      {
        ViewIsPreBatchState(d, s, metas, logs, i, i);
      }
    } else if NoneTouchedAfterChange(s, logs) {
      forall i | 0 <= i < |metas|
        ensures Claim(metas[i]) == ViewAt(s.tree, metas[i].key)
      {
        assert Run(s, logs, i) == Run(s, logs, i);
      }
    }
  }
}
