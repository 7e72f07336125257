/**
 The earlier three-step verification kept as a test oracle: `get_bowp`,
 `generate_tree_instructions`, `verify_proofs` and `root_hash`. The streaming verifier fuses
 these steps; here the two are shown to be one function of their inputs.
 */
module Oracle {
  import opened Wrappers
  import opened SparseTree
  import opened Witness
  import opened Verifier

  /** A tree log with its proof. */
  datatype ProofLog = ProofLog(base: TreeLogEntry, path: seq<Hash>, root: Hash)

  datatype Generated = Generated(next: nat, instructions: seq<TreeInstruction>)

  /** Step 1: classify every entry and expand every path, or fail as a whole; which error is reported is left open. */
  ghost function GetBowp(d: nat, metas: seq<StorageLogMetadata>): Result<seq<ProofLog>, Rejection> {
    if forall i :: 0 <= i < |metas| ==> BaseOf(metas[i]).Ok? then
      Ok(seq(|metas|, i requires 0 <= i < |metas| =>
        ProofLog(BaseOf(metas[i]).value, Expanded(d, metas)[i].merklePath, metas[i].rootHash)))
    else Err(ReadMarkedFirstWrite)
  }

  function GenerateOne(base: TreeLogEntry, key: Key, log: StorageLog, next: nat)
    : Result<(TreeInstruction, nat), Rejection>
  {
    if key != log.key then Err(KeyMismatch) else MapLogTree(log, base, next)
  }

  /** Step 2 over the first `n` logs. */
  function GenerateTreeInstructions(bowp: seq<ProofLog>, keys: seq<Key>, logs: seq<StorageLog>, next: nat, n: nat)
    : Result<Generated, Rejection>
    requires n <= |bowp| == |keys| == |logs|
  {
    if n == 0 then Ok(Generated(next, []))
    else
      var prior :- GenerateTreeInstructions(bowp, keys, logs, next, n - 1);
      var one :- GenerateOne(bowp[n - 1].base, keys[n - 1], logs[n - 1], prior.next);
      Ok(Generated(one.1, prior.instructions + [one.0]))
  }

  /** Step 3 for one log: the running root after it. */
  function VerifyProof(d: nat, log: ProofLog, instruction: TreeInstruction, root: Hash): Result<Hash, Rejection>
    requires |instruction.key| == d
  {
    if |log.path| > d then Err(LongPath)
    else if instruction.ReadKey? && log.root != root then Err(RootMismatch)
    else if instruction.ReadKey? != log.base.IsRead() then Err(KindMismatch)
    else if Fold(d, log.path, instruction.key, PrevLeaf(log.base)) != root then Err(PrevHashMismatch)
    else if instruction.Write?
         && Fold(d, log.path, instruction.key, instruction.leaf) != log.root then Err(NextHashMismatch)
    else Ok(log.root)
  }

  ghost predicate FullKeys(d: nat, instructions: seq<TreeInstruction>) {
    forall i :: 0 <= i < |instructions| ==> |instructions[i].key| == d
  }

  ghost function VerifyProofs(d: nat, bowp: seq<ProofLog>, instructions: seq<TreeInstruction>, root: Hash, n: nat)
    : Result<Hash, Rejection>
    requires n <= |bowp| == |instructions| && FullKeys(d, instructions)
  {
    if n == 0 then Ok(root)
    else
      var prior :- VerifyProofs(d, bowp, instructions, root, n - 1);
      VerifyProof(d, bowp[n - 1], instructions[n - 1], prior)
  }

  function InsertedLogs(bowp: seq<ProofLog>, n: nat): nat
    requires n <= |bowp|
  {
    if n == 0 then 0 else InsertedLogs(bowp, n - 1) + if bowp[n - 1].base.Inserted? then 1 else 0
  }

  ghost function KeysOf(metas: seq<StorageLogMetadata>): seq<Key> {
    seq(|metas|, i requires 0 <= i < |metas| => metas[i].key)
  }

  ghost function Reference(d: nat, metas: seq<StorageLogMetadata>, logs: seq<StorageLog>, oldRoot: Hash, next: nat)
    : Result<(Hash, nat), Rejection>
    requires KeysAreFull(d, logs)
  {
    var bowp :- GetBowp(d, metas);
    if |logs| != |bowp| then Err(CountMismatch)
    else
      var generated :- GenerateTreeInstructions(bowp, KeysOf(metas), logs, next, |bowp|);
      GeneratedKeys(d, bowp, KeysOf(metas), logs, next, |bowp|);
      var _ :- VerifyProofs(d, bowp, generated.instructions, oldRoot, |bowp|);
      if bowp == [] then Err(NoEntries)
      else Ok((bowp[|bowp| - 1].root, next + InsertedLogs(bowp, |bowp|)))
  }

  lemma {:induction false} GeneratedKeys(d: nat, bowp: seq<ProofLog>, keys: seq<Key>, logs: seq<StorageLog>,
                                         next: nat, n: nat)
    requires n <= |bowp| == |keys| == |logs| && KeysAreFull(d, logs)
    ensures var g := GenerateTreeInstructions(bowp, keys, logs, next, n);
      g.Ok? ==> |g.value.instructions| == n && FullKeys(d, g.value.instructions)
                && g.value.next == next + InsertedLogs(bowp, n)
  {
    if n == 0 {
    } else {
      GeneratedKeys(d, bowp, keys, logs, next, n - 1);
    }
  }

  ghost predicate ShortPaths(d: nat, metas: seq<StorageLogMetadata>, n: nat)
    requires n <= |metas|
  {
    forall i :: 0 <= i < n ==> |metas[i].merklePath| <= d
  }

  lemma {:induction false} BindImpliesShape(d: nat, metas: seq<StorageLogMetadata>, logs: seq<StorageLog>, next: nat,
                                            n: nat)
    requires n <= |metas| == |logs|
    requires Bind(d, metas, logs, next, n).Ok?
    ensures ShortPaths(d, metas, n)
    ensures forall i :: 0 <= i < n ==> BaseOf(metas[i]).Ok?
    ensures var ops := Bind(d, metas, logs, next, n).value.ops;
      |ops| == n && forall i :: 0 <= i < n ==> ops[i].base == BaseOf(metas[i]).value
  {
    hide BaseOf, MapLogTree;
    if n == 0 {
    } else {
      BindImpliesShape(d, metas, logs, next, n - 1);
    }
  }

  /** On classified entries, binding them one by one is generating instructions for them. */
  lemma {:induction false} BindingIsGenerating(d: nat, metas: seq<StorageLogMetadata>, logs: seq<StorageLog>,
                                               next: nat, n: nat)
    requires n <= |metas| == |logs| && ShortPaths(d, metas, |metas|)
    requires GetBowp(d, metas).Ok?
    ensures var bound := Bind(d, metas, logs, next, n);
      var generated := GenerateTreeInstructions(GetBowp(d, metas).value, KeysOf(metas), logs, next, n);
      && (bound.Ok? <==> generated.Ok?)
      && (bound.Ok? ==>
            && bound.value.next == generated.value.next
            && |bound.value.ops| == |generated.value.instructions| == n
            && forall i :: 0 <= i < n ==> bound.value.ops[i].instruction == generated.value.instructions[i])
  {
    hide BaseOf, MapLogTree, Expanded;
    if n == 0 {
    } else {
      BindingIsGenerating(d, metas, logs, next, n - 1);
    }
  }

  /**
   The interleaved pass is the two-stage one: on a witness with no over-long path it succeeds
   exactly when classification and instruction generation do, with the same instructions.
   */
  lemma {:induction false} PassesAgree(d: nat, metas: seq<StorageLogMetadata>, logs: seq<StorageLog>, next: nat)
    requires |metas| == |logs| && ShortPaths(d, metas, |metas|)
    ensures var bound := Bind(d, metas, logs, next, |metas|);
      var bowp := GetBowp(d, metas);
      && (bound.Ok? <==>
          && bowp.Ok? && |bowp.value| == |metas|
          && GenerateTreeInstructions(bowp.value, KeysOf(metas), logs, next, |metas|).Ok?)
      && (bound.Ok? ==>
            var generated := GenerateTreeInstructions(bowp.value, KeysOf(metas), logs, next, |metas|).value;
            && bound.value.next == generated.next
            && |bound.value.ops| == |generated.instructions| == |metas|
            && forall i :: 0 <= i < |metas| ==> bound.value.ops[i].instruction == generated.instructions[i])
  {
    hide BaseOf, MapLogTree, Bind, GenerateTreeInstructions;
    if GetBowp(d, metas).Ok? {
      BindingIsGenerating(d, metas, logs, next, |metas|);
    } else if Bind(d, metas, logs, next, |metas|).Ok? {
      BindImpliesShape(d, metas, logs, next, |metas|);
    }
  }

  /** After pass 1 the read/write kind of every instruction is that of its log, so pass 2 cannot fail on it. */
  lemma {:induction false} BoundKindsMatch(d: nat, metas: seq<StorageLogMetadata>, logs: seq<StorageLog>, next: nat,
                                           i: nat, root: Hash)
    requires i < |metas| == |logs| && KeysAreFull(d, logs)
    requires Bind(d, metas, logs, next, |metas|).Ok?
    ensures var ops := Bind(d, metas, logs, next, |metas|).value.ops;
      && i < |ops| && |metas[i].merklePath| <= d == |ops[i].instruction.key|
      && ops[i].instruction.ReadKey? == ops[i].base.IsRead()
      && FoldEntry(d, metas[i], ops[i], root) != Err(KindMismatch)
  {
    BoundOp(d, metas, logs, next, i);
  }

  /** Checking an expanded path is checking the stored one. */
  lemma {:induction false} ProofIsEntry(d: nat, meta: StorageLogMetadata, op: Op, log: ProofLog, root: Hash)
    requires |meta.merklePath| <= d == |op.instruction.key|
    requires log == ProofLog(op.base, ExtendPath(d, meta.merklePath), meta.rootHash)
    ensures VerifyProof(d, log, op.instruction, root) == FoldEntry(d, meta, op, root)
  {
    assert ExtendPath(d, log.path) == log.path;
  }

  lemma {:induction false} FoldsAgree(d: nat, metas: seq<StorageLogMetadata>, ops: seq<Op>, bowp: seq<ProofLog>,
                                      instructions: seq<TreeInstruction>, root: Hash, n: nat)
    requires Foldable(d, metas, ops) && n <= |ops| == |bowp| == |instructions| && FullKeys(d, instructions)
    requires forall i :: 0 <= i < |ops| ==>
      && instructions[i] == ops[i].instruction
      && bowp[i] == ProofLog(ops[i].base, ExtendPath(d, metas[i].merklePath), metas[i].rootHash)
    ensures VerifyProofs(d, bowp, instructions, root, n) == FoldAll(d, metas, ops, root, n)
    ensures n > 0 && FoldAll(d, metas, ops, root, n).Ok? ==> FoldAll(d, metas, ops, root, n).value == bowp[n - 1].root
  {
    hide FoldEntry, VerifyProof, ExtendPath;
    if n == 0 {
    } else {
      FoldsAgree(d, metas, ops, bowp, instructions, root, n - 1);
      var prior := FoldAll(d, metas, ops, root, n - 1);
      if prior.Ok? {
        ProofIsEntry(d, metas[n - 1], ops[n - 1], bowp[n - 1], prior.value);
        EntryReturnsItsRoot(d, metas[n - 1], ops[n - 1], prior.value);
      }
    }
  }

  lemma EntryReturnsItsRoot(d: nat, meta: StorageLogMetadata, op: Op, root: Hash)
    requires |meta.merklePath| <= d == |op.instruction.key|
    ensures FoldEntry(d, meta, op, root).Ok? ==> FoldEntry(d, meta, op, root).value == meta.rootHash
  {
  }

  lemma {:induction false} ProvenPathsAreShort(d: nat, bowp: seq<ProofLog>, instructions: seq<TreeInstruction>,
                                               root: Hash, n: nat)
    requires n <= |bowp| == |instructions| && FullKeys(d, instructions)
    requires VerifyProofs(d, bowp, instructions, root, n).Ok?
    ensures forall i :: 0 <= i < n ==> |bowp[i].path| <= d
  {
    hide Fold;
    if n == 0 {
    } else {
      ProvenPathsAreShort(d, bowp, instructions, root, n - 1);
    }
  }

  /** An entry of the expanded output, when its stored path is no longer than the tree is deep. */
  lemma {:induction false} BowpEntry(d: nat, metas: seq<StorageLogMetadata>, i: nat)
    requires GetBowp(d, metas).Ok? && i < |metas|
    ensures |GetBowp(d, metas).value| == |metas|
    ensures |metas[i].merklePath| <= d ==>
      GetBowp(d, metas).value[i] ==
      ProofLog(BaseOf(metas[i]).value, ExtendPath(d, metas[i].merklePath), metas[i].rootHash)
    ensures |metas[i].merklePath| > d ==> |GetBowp(d, metas).value[i].path| > d
  {
    if |metas[i].merklePath| == d {
      assert ExtendPath(d, metas[i].merklePath) == metas[i].merklePath;
    }
  }

  /** An over-long path makes both reject. */
  lemma {:induction false} LongPathRejectedByBoth(d: nat, metas: seq<StorageLogMetadata>, logs: seq<StorageLog>,
                                                  oldRoot: Hash, next: nat, i: nat)
    requires KeysAreFull(d, logs) && i < |metas| && |metas[i].merklePath| > d
    ensures Verify(d, metas, logs, oldRoot, next).Err?
    ensures Reference(d, metas, logs, oldRoot, next).Err?
  {
    hide BaseOf, MapLogTree, VerifyProof, Expanded;
    if Reference(d, metas, logs, oldRoot, next).Ok? {
      var bowp := GetBowp(d, metas).value;
      BowpEntry(d, metas, i);
      GeneratedKeys(d, bowp, KeysOf(metas), logs, next, |bowp|);
      var g := GenerateTreeInstructions(bowp, KeysOf(metas), logs, next, |bowp|).value;
      ProvenPathsAreShort(d, bowp, g.instructions, oldRoot, |bowp|);
    }
    if |metas| == |logs| && Bind(d, metas, logs, next, |metas|).Ok? {
      BindImpliesShape(d, metas, logs, next, |metas|);
    }
  }

  /** With every entry classified and every path short, the two fold the same checks in the same order. */
  lemma {:induction false} ChecksAgree(d: nat, metas: seq<StorageLogMetadata>, logs: seq<StorageLog>, oldRoot: Hash,
                                       next: nat)
    requires KeysAreFull(d, logs) && |metas| == |logs| && metas != []
    requires ShortPaths(d, metas, |metas|) && GetBowp(d, metas).Ok?
    requires Bind(d, metas, logs, next, |metas|).Ok?
    ensures var bowp := GetBowp(d, metas).value;
      var bound := Bind(d, metas, logs, next, |metas|).value;
      var g := GenerateTreeInstructions(bowp, KeysOf(metas), logs, next, |bowp|);
      && g.Ok? && |g.value.instructions| == |bowp| == |metas| && FullKeys(d, g.value.instructions)
      && Foldable(d, metas, bound.ops)
      && VerifyProofs(d, bowp, g.value.instructions, oldRoot, |bowp|) == FoldAll(d, metas, bound.ops, oldRoot, |metas|)
      && bound.next == next + InsertedLogs(bowp, |bowp|)
      && (FoldAll(d, metas, bound.ops, oldRoot, |metas|).Ok? ==>
            FoldAll(d, metas, bound.ops, oldRoot, |metas|).value == bowp[|bowp| - 1].root)
  {
    hide BaseOf, MapLogTree, Expanded, FoldEntry, VerifyProof, ExtendPath, Bind, GenerateTreeInstructions, InsertedLogs,
         VerifyProofs, FoldAll, GetBowp;
    var bowp := GetBowp(d, metas).value;
    var ops := Bind(d, metas, logs, next, |metas|).value.ops;
    BindingIsGenerating(d, metas, logs, next, |metas|);
    BindImpliesShape(d, metas, logs, next, |metas|);
    BoundOpsFoldable(d, metas, logs, next, |metas|);
    forall i | 0 <= i < |metas|
      ensures |bowp| == |metas|
      ensures bowp[i] == ProofLog(ops[i].base, ExtendPath(d, metas[i].merklePath), metas[i].rootHash)
    {
      BowpEntry(d, metas, i);
    }
    BowpEntry(d, metas, 0);
    GeneratedKeys(d, bowp, KeysOf(metas), logs, next, |bowp|);
    var g := GenerateTreeInstructions(bowp, KeysOf(metas), logs, next, |bowp|).value;
    FoldsAgree(d, metas, ops, bowp, g.instructions, oldRoot, |metas|);
  }

  /**
   On every input the streaming verifier accepts exactly when the reference does and the witness
   is not in the legacy form, and then returns the same root and index.
   */
  lemma {:induction false} StreamingIsReference(d: nat, metas: seq<StorageLogMetadata>, logs: seq<StorageLog>,
                                                oldRoot: Hash, next: nat)
    requires KeysAreFull(d, logs)
    ensures var streamed := Verify(d, metas, logs, oldRoot, next);
      var reference := Reference(d, metas, logs, oldRoot, next);
      && (streamed.Ok? <==> reference.Ok? && !IsLegacyDeltaForm(d, metas))
      && (streamed.Ok? ==> streamed.value == reference.value)
  {
    hide BaseOf, Expanded, Bind, GenerateTreeInstructions, InsertedLogs, VerifyProofs, FoldAll;
    if i :| 0 <= i < |metas| && |metas[i].merklePath| > d {
      LongPathRejectedByBoth(d, metas, logs, oldRoot, next, i);
    } else if metas != [] && |metas| == |logs| {
      if Bind(d, metas, logs, next, |metas|).Ok? {
        BindImpliesShape(d, metas, logs, next, |metas|);
        ChecksAgree(d, metas, logs, oldRoot, next);
      } else if GetBowp(d, metas).Ok? {
        PassesAgree(d, metas, logs, next);
      }
    }
  }
}
