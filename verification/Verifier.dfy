/**
 The streaming witness verifier (crates/airbender_verifier/src/merkle_witness.rs and
 `map_log_tree` in crates/airbender_verifier/src/lib.rs).

 The reference it is measured against, `Run`, never looks at the witness: it is the tree that
 results from the VM's storage logs alone.
 */
module Verifier {
  import opened Wrappers
  import opened SparseTree
  import opened Witness

  /** A deduplicated VM storage log; `key` is the hashed storage key. */
  datatype StorageLog = StorageLog(isWrite: bool, key: Key, value: Word)

  datatype WitnessLeaf = EmptyLeaf(isWrite: bool) | Existing(isWrite: bool, index: nat, value: Word)

  datatype TreeLogEntry =
    | Inserted
    | Updated(leafIndex: nat, previousValue: Word)
    | Read(leafIndex: nat, value: Word)
    | ReadMissingKey
  {
    predicate IsRead() {
      Read? || ReadMissingKey?
    }
  }

  datatype TreeInstruction = ReadKey(key: Key) | Write(key: Key, leaf: Leaf)

  datatype Rejection =
    | ReadMarkedFirstWrite
    | RepeatedWriteWithoutIndex
    | ConflictingPreState
    | CountMismatch
    | NoEntries
    | LegacyForm
    | LongPath
    | KeyMismatch
    | UnmappableLog
    | RootMismatch
    | KindMismatch
    | PrevHashMismatch
    | NextHashMismatch

  // ----- classification

  function Classify(log: StorageLogMetadata): Result<WitnessLeaf, Rejection> {
    if !log.isWrite then
      if log.firstWrite then Err(ReadMarkedFirstWrite)
      else if log.leafIndex == 0 then Ok(EmptyLeaf(false))
      else Ok(Existing(false, log.leafIndex, log.valueRead))
    else if log.firstWrite then Ok(EmptyLeaf(true))
    else if log.leafIndex == 0 then Err(RepeatedWriteWithoutIndex)
    else Ok(Existing(true, log.leafIndex, log.valueRead))
  }

  function BaseOf(log: StorageLogMetadata): Result<TreeLogEntry, Rejection> {
    var leaf :- Classify(log);
    Ok(match leaf
       case EmptyLeaf(false) => ReadMissingKey
       case EmptyLeaf(true) => Inserted
       case Existing(false, index, value) => Read(index, value)
       case Existing(true, index, value) => Updated(index, value))
  }

  /** `map_log_tree`: the second component is the advanced enumeration index. */
  function MapLogTree(log: StorageLog, base: TreeLogEntry, next: nat): Result<(TreeInstruction, nat), Rejection> {
    match base
    case Updated(index, _) =>
      if log.isWrite then Ok((Write(log.key, Leaf(index, log.value)), next)) else Err(UnmappableLog)
    case Inserted =>
      if log.isWrite then Ok((Write(log.key, Leaf(next, log.value)), next + 1)) else Err(UnmappableLog)
    case Read(_, value) =>
      if !log.isWrite && log.value == value then Ok((ReadKey(log.key), next)) else Err(UnmappableLog)
    case ReadMissingKey =>
      if !log.isWrite then Ok((ReadKey(log.key), next)) else Err(UnmappableLog)
  }

  // ----- the two passes

  datatype Op = Op(base: TreeLogEntry, instruction: TreeInstruction)

  datatype Bound = Bound(next: nat, ops: seq<Op>)

  function BindEntry(d: nat, meta: StorageLogMetadata, log: StorageLog, next: nat): Result<(Op, nat), Rejection> {
    if |meta.merklePath| > d then Err(LongPath)
    else
      var base :- BaseOf(meta);
      if meta.key != log.key then Err(KeyMismatch)
      else
        var mapped :- MapLogTree(log, base, next);
        Ok((Op(base, mapped.0), mapped.1))
  }

  /** Pass 1 over the first `n` entries. */
  function Bind(d: nat, metas: seq<StorageLogMetadata>, logs: seq<StorageLog>, next: nat, n: nat)
    : Result<Bound, Rejection>
    requires n <= |metas| == |logs|
  {
    if n == 0 then Ok(Bound(next, []))
    else
      var prior :- Bind(d, metas, logs, next, n - 1);
      var op :- BindEntry(d, metas[n - 1], logs[n - 1], prior.next);
      Ok(Bound(op.1, prior.ops + [op.0]))
  }

  function PrevLeaf(base: TreeLogEntry): Leaf {
    match base
    case Inserted => VACANT
    case ReadMissingKey => VACANT
    case Updated(index, value) => Leaf(index, value)
    case Read(index, value) => Leaf(index, value)
  }

  /** One step of pass 2: check an entry against the running root and move to the next root. */
  function FoldEntry(d: nat, meta: StorageLogMetadata, op: Op, root: Hash): Result<Hash, Rejection>
    requires |meta.merklePath| <= d == |op.instruction.key|
  {
    if op.instruction.ReadKey? && meta.rootHash != root then Err(RootMismatch)
    else if op.instruction.ReadKey? != op.base.IsRead() then Err(KindMismatch)
    else if Fold(d, meta.merklePath, op.instruction.key, PrevLeaf(op.base)) != root then Err(PrevHashMismatch)
    else if op.instruction.Write?
         && Fold(d, meta.merklePath, op.instruction.key, op.instruction.leaf) != meta.rootHash
    then Err(NextHashMismatch)
    else Ok(meta.rootHash)
  }

  ghost predicate Foldable(d: nat, metas: seq<StorageLogMetadata>, ops: seq<Op>) {
    |ops| == |metas| && forall i :: 0 <= i < |ops| ==> |metas[i].merklePath| <= d == |ops[i].instruction.key|
  }

  /** Pass 2 over the first `n` entries. */
  ghost function FoldAll(d: nat, metas: seq<StorageLogMetadata>, ops: seq<Op>, root: Hash, n: nat)
    : Result<Hash, Rejection>
    requires Foldable(d, metas, ops) && n <= |ops|
  {
    if n == 0 then Ok(root)
    else
      var prior :- FoldAll(d, metas, ops, root, n - 1);
      FoldEntry(d, metas[n - 1], ops[n - 1], prior)
  }

  ghost predicate KeysAreFull(d: nat, logs: seq<StorageLog>) {
    forall i :: 0 <= i < |logs| ==> |logs[i].key| == d
  }

  ghost function Verify(d: nat, metas: seq<StorageLogMetadata>, logs: seq<StorageLog>, oldRoot: Hash, next: nat)
    : Result<(Hash, nat), Rejection>
    requires KeysAreFull(d, logs)
  {
    if |metas| != |logs| then Err(CountMismatch)
    else if metas == [] then Err(NoEntries)
    else if |metas[0].merklePath| == d then Err(LegacyForm)
    else
      var bound :- Bind(d, metas, logs, next, |metas|);
      BoundOpsFoldable(d, metas, logs, next, |metas|);
      var root :- FoldAll(d, metas, bound.ops, oldRoot, |metas|);
      Ok((root, bound.next))
  }

  lemma {:induction false} BoundOpsFoldable(d: nat, metas: seq<StorageLogMetadata>, logs: seq<StorageLog>, next: nat,
                                            n: nat)
    requires n <= |metas| == |logs| && KeysAreFull(d, logs)
    ensures Bind(d, metas, logs, next, n).Ok? ==> Foldable(d, metas[..n], Bind(d, metas, logs, next, n).value.ops)
    ensures metas[..|metas|] == metas
  {
    if n == 0 {
    } else {
      BoundOpsFoldable(d, metas, logs, next, n - 1);
    }
  }

  /** The streaming verifier as it runs: bind every entry first, then fold one path at a time. */
  method VerifyPathsAndNewRoot(d: nat, metas: seq<StorageLogMetadata>, logs: seq<StorageLog>, oldRoot: Hash,
                               enumerationIndex: nat) returns (r: Result<(Hash, nat), Rejection>)
    requires KeysAreFull(d, logs)
    ensures r == Verify(d, metas, logs, oldRoot, enumerationIndex)
  {
    hide BindEntry, FoldEntry;
    if |metas| != |logs| {
      return Err(CountMismatch);
    }
    if metas == [] {
      return Err(NoEntries);
    }
    if |metas[0].merklePath| == d {
      return Err(LegacyForm);
    }
    var next := enumerationIndex;
    var ops: seq<Op> := [];
    for i := 0 to |metas|
      invariant Bind(d, metas, logs, enumerationIndex, i) == Ok(Bound(next, ops))
    {
      BindFailsOnce(d, metas, logs, enumerationIndex, i + 1, |metas|);
      var bound := BindEntry(d, metas[i], logs[i], next);
      if bound.Err? {
        return Err(bound.error);
      }
      ops, next := ops + [bound.value.0], bound.value.1;
    }
    BoundOpsFoldable(d, metas, logs, enumerationIndex, |metas|);
    var root := oldRoot;
    for i := 0 to |metas|
      invariant FoldAll(d, metas, ops, oldRoot, i) == Ok(root)
    {
      FoldFailsOnce(d, metas, ops, oldRoot, i + 1, |metas|);
      var step := FoldOne(d, metas[i], ops[i], root);
      if step.Err? {
        return Err(step.error);
      }
      root := step.value;
    }
    r := Ok((root, next));
  }

  /** The body of pass 2, folding each path at most twice. */
  method FoldOne(d: nat, meta: StorageLogMetadata, op: Op, root: Hash) returns (r: Result<Hash, Rejection>)
    requires |meta.merklePath| <= d == |op.instruction.key|
    ensures r == FoldEntry(d, meta, op, root)
  {
    if op.instruction.ReadKey? {
      if meta.rootHash != root {
        return Err(RootMismatch);
      }
      if !op.base.IsRead() {
        return Err(KindMismatch);
      }
    } else if op.base.IsRead() {
      return Err(KindMismatch);
    }
    var prevHash := FoldMerklePath(d, meta.merklePath, op.instruction.key, PrevLeaf(op.base));
    if prevHash != root {
      return Err(PrevHashMismatch);
    }
    if op.instruction.Write? {
      var nextHash := FoldMerklePath(d, meta.merklePath, op.instruction.key, op.instruction.leaf);
      if nextHash != meta.rootHash {
        return Err(NextHashMismatch);
      }
    }
    r := Ok(meta.rootHash);
  }

  lemma {:induction false} BindFailsOnce(d: nat, metas: seq<StorageLogMetadata>, logs: seq<StorageLog>, next: nat,
                                         m: nat, n: nat)
    requires m <= n <= |metas| == |logs|
    ensures Bind(d, metas, logs, next, m).Err? ==> Bind(d, metas, logs, next, n) == Bind(d, metas, logs, next, m)
    ensures Bind(d, metas, logs, next, n).Ok? ==>
      && Bind(d, metas, logs, next, m).Ok?
      && |Bind(d, metas, logs, next, m).value.ops| == m
      && m <= |Bind(d, metas, logs, next, n).value.ops| == n
      && Bind(d, metas, logs, next, m).value.ops == Bind(d, metas, logs, next, n).value.ops[..m]
    decreases n
  {
    if n == 0 {
    } else {
      if m == n {
        BindFailsOnce(d, metas, logs, next, n - 1, n - 1);
      } else {
        BindFailsOnce(d, metas, logs, next, m, n - 1);
      }
    }
  }

  lemma {:induction false} BoundOp(d: nat, metas: seq<StorageLogMetadata>, logs: seq<StorageLog>, next: nat, i: nat)
    requires i < |metas| == |logs|
    requires Bind(d, metas, logs, next, |metas|).Ok?
    ensures Bind(d, metas, logs, next, i).Ok?
    ensures BindEntry(d, metas[i], logs[i], Bind(d, metas, logs, next, i).value.next).Ok?
    ensures var ops := Bind(d, metas, logs, next, |metas|).value.ops;
      && |ops| == |metas|
      && ops[i] == BindEntry(d, metas[i], logs[i], Bind(d, metas, logs, next, i).value.next).value.0
  {
    BindFailsOnce(d, metas, logs, next, i, |metas|);
    BindFailsOnce(d, metas, logs, next, i + 1, |metas|);
  }

  lemma {:induction false} FoldFailsOnce(d: nat, metas: seq<StorageLogMetadata>, ops: seq<Op>, root: Hash, m: nat,
                                         n: nat)
    requires Foldable(d, metas, ops) && m <= n <= |ops|
    ensures FoldAll(d, metas, ops, root, m).Err? ==> FoldAll(d, metas, ops, root, n) == FoldAll(d, metas, ops, root, m)
  {
    if m == n {
    } else {
      FoldFailsOnce(d, metas, ops, root, m, n - 1);
    }
  }

  // ----- the reference: a tree driven by VM logs alone

  datatype State = State(tree: Tree, next: nat)

  function ApplyLog(s: State, log: StorageLog): State {
    if !log.isWrite then s
    else if log.key in s.tree then s.(tree := s.tree[log.key := Leaf(s.tree[log.key].index, log.value)])
    else State(s.tree[log.key := Leaf(s.next, log.value)], s.next + 1)
  }

  /** The state after the first `n` logs. */
  function Run(s: State, logs: seq<StorageLog>, n: nat): State
    requires n <= |logs|
  {
    if n == 0 then s else ApplyLog(Run(s, logs, n - 1), logs[n - 1])
  }

  lemma {:induction false} RunPrefix(s: State, logs: seq<StorageLog>, more: seq<StorageLog>, n: nat)
    requires n <= |logs|
    ensures Run(s, logs + more, n) == Run(s, logs, n)
  {
    if n == 0 {
    } else {
      RunPrefix(s, logs, more, n - 1);
    }
  }

  ghost predicate Sane(d: nat, s: State) {
    WellFormed(d, s.tree) && s.next >= 1
  }

  lemma {:induction false} RunStaysSane(d: nat, s: State, logs: seq<StorageLog>, n: nat)
    requires Sane(d, s) && KeysAreFull(d, logs) && n <= |logs|
    ensures Sane(d, Run(s, logs, n))
  {
    if n == 0 {
    } else {
      RunStaysSane(d, s, logs, n - 1);
    }
  }

  /**
   An entry tells the truth about state `s` and the log it is paired with: its key and kind are
   the log's, it is flagged as a first write exactly if it writes a vacant key, its index (unless so
   flagged), previous value, siblings and resulting root are those of the tree, and a read of an
   occupied leaf returned that leaf's value.
   */
  ghost predicate Faithful(d: nat, s: State, meta: StorageLogMetadata, log: StorageLog) {
    && meta.key == log.key
    && meta.isWrite == log.isWrite
    && (meta.firstWrite <==> log.isWrite && log.key !in s.tree)
    && (!meta.firstWrite ==> meta.leafIndex == LeafAt(s.tree, log.key).index)
    && (log.key in s.tree ==> meta.valueRead == s.tree[log.key].value)
    && |meta.merklePath| <= d == |log.key|
    && ExtendPath(d, meta.merklePath) == Siblings(s.tree, log.key)
    && meta.rootHash == Root(d, ApplyLog(s, log).tree)
    && (!log.isWrite && log.key in s.tree ==> log.value == s.tree[log.key].value)
  }

  /** One entry: it binds and folds exactly when it is faithful, and then both passes advance as the tree does. */
  lemma {:induction false} EntryAcceptedIffFaithful(d: nat, s: State, meta: StorageLogMetadata, log: StorageLog)
    requires Sane(d, s) && |log.key| == d
    ensures Faithful(d, s, meta, log) ==>
      && BindEntry(d, meta, log, s.next).Ok?
      && BindEntry(d, meta, log, s.next).value.1 == ApplyLog(s, log).next
    ensures BindEntry(d, meta, log, s.next).Ok? ==>
      var op := BindEntry(d, meta, log, s.next).value.0;
      && |meta.merklePath| <= d && op.instruction.key == log.key
      && (FoldEntry(d, meta, op, Root(d, s.tree)).Ok? <==> Faithful(d, s, meta, log))
      && (Faithful(d, s, meta, log) ==>
            FoldEntry(d, meta, op, Root(d, s.tree)) == Ok(Root(d, ApplyLog(s, log).tree)))
  {
    var bound := BindEntry(d, meta, log, s.next);
    if bound.Ok? {
      var op := bound.value.0;
      FoldAuthenticates(d, s.tree, meta.merklePath, log.key, PrevLeaf(op.base));
      if op.instruction.Write? {
        var after := s.tree[log.key := op.instruction.leaf];
        FoldAuthenticates(d, after, meta.merklePath, log.key, op.instruction.leaf);
        SiblingsFrame(s.tree, log.key, op.instruction.leaf);
      }
    }
  }

  ghost predicate AllFaithful(d: nat, s: State, metas: seq<StorageLogMetadata>, logs: seq<StorageLog>, n: nat)
    requires n <= |metas| == |logs|
  {
    forall i {:trigger Run(s, logs, i)} :: 0 <= i < n ==> Faithful(d, Run(s, logs, i), metas[i], logs[i])
  }

  lemma {:induction false} FaithfulEntriesBind(d: nat, s: State, metas: seq<StorageLogMetadata>,
                                               logs: seq<StorageLog>, n: nat)
    requires Sane(d, s) && KeysAreFull(d, logs) && n <= |metas| == |logs|
    requires AllFaithful(d, s, metas, logs, n)
    ensures Bind(d, metas, logs, s.next, n).Ok?
    ensures Bind(d, metas, logs, s.next, n).value.next == Run(s, logs, n).next
  {
    hide Faithful, BindEntry, ApplyLog, FoldEntry, WellFormed;
    if n == 0 {
    } else {
      FaithfulEntriesBind(d, s, metas, logs, n - 1);
      RunStaysSane(d, s, logs, n - 1);
      EntryAcceptedIffFaithful(d, Run(s, logs, n - 1), metas[n - 1], logs[n - 1]);
    }
  }

  /** Once every entry is bound, the folds of the first `n` succeed exactly when those entries are faithful. */
  lemma {:induction false} FoldsIffFaithful(d: nat, s: State, metas: seq<StorageLogMetadata>, logs: seq<StorageLog>,
                                            n: nat)
    requires Sane(d, s) && KeysAreFull(d, logs) && n <= |metas| == |logs|
    requires Bind(d, metas, logs, s.next, |metas|).Ok?
    requires Foldable(d, metas, Bind(d, metas, logs, s.next, |metas|).value.ops)
    ensures var folded := FoldAll(d, metas, Bind(d, metas, logs, s.next, |metas|).value.ops, Root(d, s.tree), n);
      && (folded.Ok? <==> AllFaithful(d, s, metas, logs, n))
      && (folded.Ok? ==> folded.value == Root(d, Run(s, logs, n).tree))
  {
    hide Faithful, BindEntry, ApplyLog, FoldEntry, WellFormed, Bind, Root;
    if n == 0 {
    } else {
      FoldsIffFaithful(d, s, metas, logs, n - 1);
      RunStaysSane(d, s, logs, n - 1);
      EntryAcceptedIffFaithful(d, Run(s, logs, n - 1), metas[n - 1], logs[n - 1]);
      BoundOp(d, metas, logs, s.next, n - 1);
      if AllFaithful(d, s, metas, logs, n - 1) {
        FaithfulEntriesBind(d, s, metas, logs, n - 1);
      }
    }
  }

  ghost predicate GuardsPass(d: nat, metas: seq<StorageLogMetadata>, logs: seq<StorageLog>) {
    |metas| == |logs| && metas != [] && |metas[0].merklePath| != d
  }

  /**
   The verifier against the tree of the old root: it accepts exactly the witnesses whose every
   entry is faithful to the running tree, and what it returns is the root and enumeration
   index of the tree with all VM writes applied in order.
   */
  lemma {:induction false} AcceptsIffFaithful(d: nat, s: State, metas: seq<StorageLogMetadata>, logs: seq<StorageLog>)
    requires Sane(d, s) && KeysAreFull(d, logs)
    ensures var r := Verify(d, metas, logs, Root(d, s.tree), s.next);
      && (r.Ok? <==> GuardsPass(d, metas, logs) && AllFaithful(d, s, metas, logs, |metas|))
      && (r.Ok? ==> var after := Run(s, logs, |logs|); r.value == (Root(d, after.tree), after.next))
  {
    if GuardsPass(d, metas, logs) {
      var n := |metas|;
      if AllFaithful(d, s, metas, logs, n) {
        FaithfulEntriesBind(d, s, metas, logs, n);
      }
      if Bind(d, metas, logs, s.next, n).Ok? {
        BoundOpsFoldable(d, metas, logs, s.next, n);
        FoldsIffFaithful(d, s, metas, logs, n);
        if AllFaithful(d, s, metas, logs, n) {
          FaithfulEntriesBind(d, s, metas, logs, n);
        }
      }
    }
  }

  /**
   The flags of an accepted batch are true: an entry is marked as a first write exactly if it writes
   a key that is vacant by then, and otherwise carries the index of the leaf by then.
   */
  lemma {:induction false} AcceptedFlagsAreTrue(d: nat, s: State, metas: seq<StorageLogMetadata>,
                                                logs: seq<StorageLog>, i: nat)
    requires Sane(d, s) && KeysAreFull(d, logs)
    requires Verify(d, metas, logs, Root(d, s.tree), s.next).Ok? && i < |metas|
    ensures |logs| == |metas|
    ensures var tree := Run(s, logs, i).tree;
      && (metas[i].firstWrite <==> logs[i].isWrite && logs[i].key !in tree)
      && (!metas[i].firstWrite ==> metas[i].leafIndex == LeafAt(tree, logs[i].key).index)
  {
    hide Verify, Root, Siblings, ExtendPath;
    AcceptsIffFaithful(d, s, metas, logs);
    assert Faithful(d, Run(s, logs, i), metas[i], logs[i]);
  }

  /** What the logs leave at a key: the value last written and the index it had, or the next one, or what was there. */
  lemma {:induction false} LastWriteWins(s: State, logs: seq<StorageLog>, n: nat, key: Key, last: nat)
    requires n <= |logs| && last <= n
    requires last > 0 ==> logs[last - 1].isWrite && logs[last - 1].key == key
    requires forall i :: last <= i < n ==> !logs[i].isWrite || logs[i].key != key
    ensures last == 0 ==> LeafAt(Run(s, logs, n).tree, key) == LeafAt(s.tree, key)
    ensures last > 0 ==> key in Run(s, logs, n).tree && Run(s, logs, n).tree[key].value == logs[last - 1].value
    ensures key in s.tree ==> key in Run(s, logs, n).tree && Run(s, logs, n).tree[key].index == s.tree[key].index
    decreases n
  {
    if n == 0 {
    } else if last < n {
      LastWriteWins(s, logs, n - 1, key, last);
    } else if key in s.tree {
      IndexIsKept(s, logs, n - 1, key);
    }
  }

  lemma {:induction false} IndexIsKept(s: State, logs: seq<StorageLog>, n: nat, key: Key)
    requires n <= |logs| && key in s.tree
    ensures key in Run(s, logs, n).tree && Run(s, logs, n).tree[key].index == s.tree[key].index
  {
    if n == 0 {
    } else {
      IndexIsKept(s, logs, n - 1, key);
    }
  }

  // ----- read values

  /**
   In an accepted batch a read log carries the value of the leaf it read exactly when the leaf
   is occupied or the logged value is zero: a read of a missing key is never compared.
   */
  lemma {:induction false} ReadValueExact(d: nat, s: State, metas: seq<StorageLogMetadata>, logs: seq<StorageLog>,
                                          i: nat)
    requires Sane(d, s) && KeysAreFull(d, logs)
    requires Verify(d, metas, logs, Root(d, s.tree), s.next).Ok?
    requires i < |logs| && !logs[i].isWrite
    ensures var tree := Run(s, logs, i).tree;
      logs[i].value == LeafAt(tree, logs[i].key).value <==> logs[i].key in tree || logs[i].value == 0
  {
    AcceptsIffFaithful(d, s, metas, logs);
  }

  /** The exception is real: on the empty tree a missing-key read is accepted whatever value the log claims. */
  lemma {:induction false} MissingReadValueIsUnchecked(d: nat, key: Key,
                                                       claimed: Word) returns (meta: StorageLogMetadata)
    requires d == |key| >= 1
    ensures Verify(d, [meta], [StorageLog(false, key, claimed)], Root(d, map[]), 1) == Ok((Root(d, map[]), 1))
  {
    meta := StorageLogMetadata(Root(d, map[]), false, false, [], key, 0, 0, 0);
    var s, logs := State(map[], 1), [StorageLog(false, key, claimed)];
    forall j | 0 <= j < d
      ensures Siblings(map[], key)[j] == Empty(j)
    {
      AllVacant(map[], j, [!key[j]] + key[j + 1..]);
    }
    assert ExtendPath(d, []) == Siblings(map[], key);
    assert Run(s, logs, 0) == s && Run(s, logs, 1) == s;
    AcceptsIffFaithful(d, s, [meta], logs);
  }

  // ----- enumeration indices

  /** The occupied leaves are numbered 1 .. next - 1, each number used once. */
  ghost predicate Enumerated(s: State) {
    && s.next >= 1
    && (forall k :: k in s.tree ==> 1 <= s.tree[k].index < s.next)
    && (forall k, l :: k in s.tree && l in s.tree && s.tree[k].index == s.tree[l].index ==> k == l)
    && (forall i :: 1 <= i < s.next ==> Numbered(s.tree, i))
  }

  ghost predicate Numbered(t: Tree, i: nat) {
    exists k :: k in t && t[k].index == i
  }

  lemma {:induction false} ApplyKeepsEnumeration(s: State, log: StorageLog)
    requires Enumerated(s)
    ensures Enumerated(ApplyLog(s, log))
  {
    var after := ApplyLog(s, log);
    assert forall k :: k in s.tree ==> k in after.tree && after.tree[k].index == s.tree[k].index;
    assert forall k :: k in after.tree && k !in s.tree ==> k == log.key && after.tree[k].index == s.next;
    forall i | 1 <= i < after.next
      ensures Numbered(after.tree, i)
    {
      if i < s.next {
        assert Numbered(s.tree, i);
        var k :| k in s.tree && s.tree[k].index == i;
        assert k in after.tree && after.tree[k].index == i;
      } else {
        assert log.key in after.tree && after.tree[log.key].index == i;
      }
    }
  }

  lemma {:induction false} RunKeepsEnumeration(s: State, logs: seq<StorageLog>, n: nat)
    requires Enumerated(s) && n <= |logs|
    ensures Enumerated(Run(s, logs, n))
  {
    if n == 0 {
    } else {
      RunKeepsEnumeration(s, logs, n - 1);
      ApplyKeepsEnumeration(Run(s, logs, n - 1), logs[n - 1]);
    }
  }

  /** Entries of the first `n` that claim to insert. */
  function Insertions(metas: seq<StorageLogMetadata>, n: nat): nat
    requires n <= |metas|
  {
    if n == 0 then 0
    else Insertions(metas, n - 1) + if metas[n - 1].isWrite && metas[n - 1].firstWrite then 1 else 0
  }

  lemma FaithfulStepCounts(d: nat, s: State, meta: StorageLogMetadata, log: StorageLog)
    requires Sane(d, s) && Faithful(d, s, meta, log)
    ensures ApplyLog(s, log).next == s.next + if meta.isWrite && meta.firstWrite then 1 else 0
    ensures meta.isWrite && meta.firstWrite ==>
      log.key !in s.tree && LeafAt(ApplyLog(s, log).tree, log.key) == Leaf(s.next, log.value)
  {
  }

  lemma {:induction false} NextCountsInsertions(d: nat, s: State, metas: seq<StorageLogMetadata>,
                                                logs: seq<StorageLog>, n: nat)
    requires Sane(d, s) && KeysAreFull(d, logs) && n <= |metas| == |logs|
    requires AllFaithful(d, s, metas, logs, n)
    ensures Run(s, logs, n).next == s.next + Insertions(metas, n)
  {
    hide Faithful, ApplyLog, WellFormed;
    if n == 0 {
    } else {
      NextCountsInsertions(d, s, metas, logs, n - 1);
      RunStaysSane(d, s, logs, n - 1);
      FaithfulStepCounts(d, Run(s, logs, n - 1), metas[n - 1], logs[n - 1]);
    }
  }

  /** An accepted batch keeps the numbering, and advances the index by the number of entries that insert. */
  lemma {:induction false} AcceptedBatchNumbersLeaves(d: nat, s: State, metas: seq<StorageLogMetadata>,
                                                      logs: seq<StorageLog>)
    requires Sane(d, s) && KeysAreFull(d, logs) && Enumerated(s)
    requires Verify(d, metas, logs, Root(d, s.tree), s.next).Ok?
    ensures Enumerated(Run(s, logs, |logs|))
    ensures Verify(d, metas, logs, Root(d, s.tree), s.next).value.1 == s.next + Insertions(metas, |metas|)
  {
    hide Faithful, ApplyLog, WellFormed, Verify, Enumerated;
    AcceptsIffFaithful(d, s, metas, logs);
    RunKeepsEnumeration(s, logs, |logs|);
    NextCountsInsertions(d, s, metas, logs, |metas|);
  }

  /** Entry `i` inserts only a vacant key, and gives it the next number after the insertions before it. */
  lemma {:induction false} InsertionsAreConsecutive(d: nat, s: State, metas: seq<StorageLogMetadata>,
                                                    logs: seq<StorageLog>, i: nat)
    requires Sane(d, s) && KeysAreFull(d, logs)
    requires Verify(d, metas, logs, Root(d, s.tree), s.next).Ok?
    requires i < |metas| && metas[i].isWrite && metas[i].firstWrite
    ensures |logs| == |metas| && logs[i].key !in Run(s, logs, i).tree
    ensures LeafAt(Run(s, logs, i + 1).tree, logs[i].key) == Leaf(s.next + Insertions(metas, i), logs[i].value)
  {
    hide Faithful, ApplyLog, WellFormed, Verify;
    AcceptsIffFaithful(d, s, metas, logs);
    RunStaysSane(d, s, logs, i);
    NextCountsInsertions(d, s, metas, logs, i);
    FaithfulStepCounts(d, Run(s, logs, i), metas[i], logs[i]);
  }
}
