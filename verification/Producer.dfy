/**
 The honest witness producer (`process_l1_batch_full` in crates/merkle_tree/src/domain.rs) and
 the completeness of the verifier for it. The tree's `extend_with_proofs` enters through what it
 promises: for each instruction in turn, the log entry, a path that stands for the true
 siblings, and the root after it.
 */
module Producer {
  import opened SparseTree
  import opened Witness
  import opened Verifier
  import opened Oracle

  /** The tree applies a write as instructed; it does not check the index it is given. */
  function Instruct(s: State, instruction: TreeInstruction): State {
    match instruction
    case ReadKey(_) => s
    case Write(key, leaf) => State(s.tree[key := leaf], if key in s.tree then s.next else s.next + 1)
  }

  function InstructAll(s: State, instructions: seq<TreeInstruction>, n: nat): State
    requires n <= |instructions|
  {
    if n == 0 then s else Instruct(InstructAll(s, instructions, n - 1), instructions[n - 1])
  }

  /** An honest instruction keeps an occupied leaf's index and gives a new leaf the next one. */
  ghost predicate HonestInstruction(d: nat, s: State, instruction: TreeInstruction) {
    && |instruction.key| == d
    && (instruction.Write? ==>
          instruction.leaf.index == if instruction.key in s.tree then s.tree[instruction.key].index else s.next)
  }

  ghost predicate HonestOutput(d: nat, s: State, instruction: TreeInstruction, log: ProofLog) {
    var key := instruction.key;
    var leaf := LeafAt(s.tree, key);
    && |log.path| <= d == |key|
    && ExtendPath(d, log.path) == Siblings(s.tree, key)
    && log.root == Root(d, Instruct(s, instruction).tree)
    && log.base == match instruction
         case ReadKey(_) => if key in s.tree then Read(leaf.index, leaf.value) else ReadMissingKey
         case Write(_, _) => if key in s.tree then Updated(leaf.index, leaf.value) else Inserted
  }

  ghost predicate Honest(d: nat, s: State, instructions: seq<TreeInstruction>, logs: seq<ProofLog>, n: nat)
    requires n <= |instructions| == |logs|
  {
    forall i {:trigger InstructAll(s, instructions, i)} :: 0 <= i < n ==>
      && HonestInstruction(d, InstructAll(s, instructions, i), instructions[i])
      && HonestOutput(d, InstructAll(s, instructions, i), instructions[i], logs[i])
  }

  /** An update that writes back the value already there. */
  predicate IsNoOp(instruction: TreeInstruction, log: ProofLog) {
    log.base.Updated? && log.base.previousValue == if instruction.Write? then instruction.leaf.value else 0
  }

  function MetadataFor(instruction: TreeInstruction, log: ProofLog): StorageLogMetadata {
    StorageLogMetadata(
      log.root,
      !log.base.IsRead(),
      log.base.Inserted?,
      log.path,
      instruction.key,
      match instruction
        case Write(_, leaf) => leaf.index
        case ReadKey(_) => if log.base.Read? then log.base.leafIndex else 0,
      if instruction.Write? then instruction.leaf.value else 0,
      match log.base
        case Updated(_, value) => value
        case Read(_, value) => value
        case _ => 0)
  }

  function Produced(d: nat, instructions: seq<TreeInstruction>, logs: seq<ProofLog>, n: nat): seq<StorageLogMetadata>
    requires n <= |instructions| == |logs|
  {
    if n == 0 then []
    else
      var prior := Produced(d, instructions, logs, n - 1);
      if IsNoOp(instructions[n - 1], logs[n - 1]) then prior
      else
        var meta := MetadataFor(instructions[n - 1], logs[n - 1]);
        prior + [meta.(merklePath := Strip(d, meta.merklePath))]
  }

  datatype TreeMetadata = TreeMetadata(rootHash: Hash, rollupLastLeafIndex: nat)

  /** What the batch is reported to end with: the root after its last instruction, if it has any. */
  function MetadataOf(startingRootHash: Hash, logs: seq<ProofLog>, leafCount: nat): TreeMetadata {
    TreeMetadata(if logs == [] then startingRootHash else logs[|logs| - 1].root, leafCount + 1)
  }

  /** The starting values are read before the tree is extended; `logs` and `leafCount` are what extending it returns. */
  method ProcessL1BatchFull(d: nat, startingRootHash: Hash, startingLeafCount: nat, instructions: seq<TreeInstruction>,
                            logs: seq<ProofLog>, leafCount: nat)
    returns (w: WitnessInputMerklePaths, metadata: TreeMetadata)
    requires |instructions| == |logs|
    ensures fresh(w) && w.depth == d
    ensures w.nextEnumerationIndex == startingLeafCount + 1
    ensures w.merklePaths == Produced(d, instructions, logs, |logs|)
    ensures metadata == MetadataOf(startingRootHash, logs, leafCount)
  {
    hide Strip, IsNoOp, MetadataFor;
    w := new WitnessInputMerklePaths(d, startingLeafCount + 1);
    for i := 0 to |logs|
      invariant fresh(w)
      invariant w.merklePaths == Produced(d, instructions, logs, i)
    {
      if !IsNoOp(instructions[i], logs[i]) {
        w.PushMerklePath(MetadataFor(instructions[i], logs[i]));
      }
    }
    metadata := MetadataOf(startingRootHash, logs, leafCount);
  }

  /** A write of the leaf that is already there. */
  predicate Redundant(s: State, instruction: TreeInstruction) {
    instruction.Write? && instruction.key in s.tree && s.tree[instruction.key] == instruction.leaf
  }

  /** The log of a VM that executed the instruction on this tree. */
  function VmLog(s: State, instruction: TreeInstruction): StorageLog {
    match instruction
    case Write(key, leaf) => StorageLog(true, key, leaf.value)
    case ReadKey(key) => StorageLog(false, key, LeafAt(s.tree, key).value)
  }

  /** The deduplicated logs of the first `n` instructions: a write of what is already there leaves none. */
  function VmLogs(s: State, instructions: seq<TreeInstruction>, n: nat): seq<StorageLog>
    requires n <= |instructions|
  {
    if n == 0 then []
    else
      var here := InstructAll(s, instructions, n - 1);
      VmLogs(s, instructions, n - 1)
      + if Redundant(here, instructions[n - 1]) then [] else [VmLog(here, instructions[n - 1])]
  }

  /** The witness entry of an instruction, from the tree alone. */
  ghost function EntryOf(d: nat, s: State, instruction: TreeInstruction): StorageLogMetadata {
    var key, after := instruction.key, Instruct(s, instruction);
    StorageLogMetadata(
      Root(d, after.tree),
      instruction.Write?,
      instruction.Write? && key !in s.tree,
      Strip(d, Siblings(s.tree, key)),
      key,
      LeafAt(after.tree, key).index,
      if instruction.Write? then instruction.leaf.value else 0,
      LeafAt(s.tree, key).value)
  }

  /** The witness of the first `n` instructions, from the tree alone: one entry for each that is not redundant. */
  ghost function EntriesOf(d: nat, s: State, instructions: seq<TreeInstruction>, n: nat): seq<StorageLogMetadata>
    requires n <= |instructions|
  {
    if n == 0 then []
    else
      var here := InstructAll(s, instructions, n - 1);
      EntriesOf(d, s, instructions, n - 1)
      + if Redundant(here, instructions[n - 1]) then [] else [EntryOf(d, here, instructions[n - 1])]
  }

  /** One honest instruction yields an entry if and only if it is not redundant, and that entry is the tree's. */
  lemma {:induction false} HonestEntryIsExact(d: nat, s: State, instruction: TreeInstruction, log: ProofLog)
    requires HonestInstruction(d, s, instruction) && HonestOutput(d, s, instruction, log)
    ensures IsNoOp(instruction, log) <==> Redundant(s, instruction)
    ensures !IsNoOp(instruction, log) ==>
      var meta := MetadataFor(instruction, log);
      meta.(merklePath := Strip(d, meta.merklePath)) == EntryOf(d, s, instruction)
  {
    hide Root, Siblings, Strip, ExtendPath;
    var siblings := Siblings(s.tree, instruction.key);
    SiblingsAreFull(d, s.tree, instruction.key);
    StripIsCanonical(d, log.path, siblings);
  }

  lemma SiblingsAreFull(d: nat, t: Tree, key: Key)
    requires |key| == d
    ensures |Siblings(t, key)| == d && ExtendPath(d, Siblings(t, key)) == Siblings(t, key)
  {
  }

  /** The producer's witness is determined by the tree and the instructions. */
  lemma {:induction false} ProducedIsExact(d: nat, s: State, instructions: seq<TreeInstruction>, logs: seq<ProofLog>,
                                           n: nat)
    requires n <= |instructions| == |logs| && Honest(d, s, instructions, logs, n)
    ensures Produced(d, instructions, logs, n) == EntriesOf(d, s, instructions, n)
  {
    hide HonestInstruction, HonestOutput, IsNoOp, MetadataFor, Redundant, EntryOf, Strip, Instruct;
    if n == 0 {
    } else {
      ProducedIsExact(d, s, instructions, logs, n - 1);
      HonestEntryIsExact(d, InstructAll(s, instructions, n - 1), instructions[n - 1], logs[n - 1]);
    }
  }

  /** The keys that the first `n` instructions read. */
  function KeysRead(instructions: seq<TreeInstruction>, n: nat): seq<Key>
    requires n <= |instructions|
  {
    if n == 0 then []
    else KeysRead(instructions, n - 1) + if instructions[n - 1].ReadKey? then [instructions[n - 1].key] else []
  }

  function KeysReadIn(metas: seq<StorageLogMetadata>): seq<Key> {
    if metas == [] then []
    else
      var last := metas[|metas| - 1];
      KeysReadIn(metas[..|metas| - 1]) + if last.isWrite then [] else [last.key]
  }

  /** No read is dropped: the witness has an entry for each, in order. */
  lemma {:induction false} EveryReadIsWitnessed(d: nat, s: State, instructions: seq<TreeInstruction>, n: nat)
    requires n <= |instructions|
    ensures KeysReadIn(EntriesOf(d, s, instructions, n)) == KeysRead(instructions, n)
  {
    hide Root, Strip, Siblings;
    if n == 0 {
    } else {
      EveryReadIsWitnessed(d, s, instructions, n - 1);
      var prior, all := EntriesOf(d, s, instructions, n - 1), EntriesOf(d, s, instructions, n);
      if |all| > |prior| {
        assert all[..|all| - 1] == prior;
      } else {
        assert all == prior;
      }
    }
  }

  /** One honest instruction: a redundant one changes nothing; any other yields a faithful entry for its log. */
  lemma {:induction false} HonestEntryIsFaithful(d: nat, s: State, instruction: TreeInstruction, log: ProofLog)
    requires Sane(d, s) && HonestInstruction(d, s, instruction) && HonestOutput(d, s, instruction, log)
    ensures Sane(d, Instruct(s, instruction))
    ensures IsNoOp(instruction, log) <==> Redundant(s, instruction)
    ensures Redundant(s, instruction) ==> Instruct(s, instruction) == s
    ensures !Redundant(s, instruction) ==>
      var meta := MetadataFor(instruction, log);
      var stored := meta.(merklePath := Strip(d, meta.merklePath));
      && |VmLog(s, instruction).key| == d
      && Faithful(d, s, stored, VmLog(s, instruction))
      && ApplyLog(s, VmLog(s, instruction)) == Instruct(s, instruction)
  {
    StripKeepsMeaning(d, log.path);
    if Redundant(s, instruction) {
      assert s.tree[instruction.key := instruction.leaf] == s.tree;
    }
  }

  lemma {:induction false} FaithfulAppend(d: nat, s: State, metas: seq<StorageLogMetadata>, logs: seq<StorageLog>,
                                          meta: StorageLogMetadata, log: StorageLog)
    requires |metas| == |logs| && AllFaithful(d, s, metas, logs, |metas|)
    requires Faithful(d, Run(s, logs, |logs|), meta, log)
    ensures AllFaithful(d, s, metas + [meta], logs + [log], |metas| + 1)
    ensures Run(s, logs + [log], |logs| + 1) == ApplyLog(Run(s, logs, |logs|), log)
  {
    hide Faithful, ApplyLog;
    RunPrefix(s, logs, [log], |logs|);
    forall i {:trigger Run(s, logs + [log], i)} | 0 <= i < |metas| + 1
      ensures Faithful(d, Run(s, logs + [log], i), (metas + [meta])[i], (logs + [log])[i])
    {
      RunPrefix(s, logs, [log], i);
    }
  }

  lemma {:induction false} ProducedIsFaithful(d: nat, s: State, instructions: seq<TreeInstruction>,
                                              logs: seq<ProofLog>, n: nat)
    requires n <= |instructions| == |logs|
    requires Sane(d, s) && Honest(d, s, instructions, logs, n)
    ensures Sane(d, InstructAll(s, instructions, n))
    ensures var metas := Produced(d, instructions, logs, n);
      var vmLogs := VmLogs(s, instructions, n);
      && |metas| == |vmLogs| && KeysAreFull(d, vmLogs)
      && AllFaithful(d, s, metas, vmLogs, |metas|)
      && Run(s, vmLogs, |vmLogs|) == InstructAll(s, instructions, n)
  {
    hide Faithful, Instruct, HonestInstruction, HonestOutput, IsNoOp, MetadataFor, VmLog, ApplyLog, Strip, Redundant;
    hide WellFormed;
    if n == 0 {
    } else {
      hide AllFaithful, Run;
      ProducedIsFaithful(d, s, instructions, logs, n - 1);
      var here := InstructAll(s, instructions, n - 1);
      var instruction, log := instructions[n - 1], logs[n - 1];
      HonestEntryIsFaithful(d, here, instruction, log);
      if !Redundant(here, instruction) {
        var meta := MetadataFor(instruction, log);
        FaithfulAppend(d, s, Produced(d, instructions, logs, n - 1), VmLogs(s, instructions, n - 1),
                       meta.(merklePath := Strip(d, meta.merklePath)), VmLog(here, instruction));
      } else {
        assert VmLogs(s, instructions, n) == VmLogs(s, instructions, n - 1);
      }
    }
  }

  /**
   Completeness, and its limit: the honest witness is accepted exactly when some entry is left
   after dropping no-ops and entry 0's populated depth is not the full depth; then the verifier
   returns the root and next index of the tree after all instructions.
   */
  lemma {:induction false} HonestWitnessAccepted(d: nat, s: State, instructions: seq<TreeInstruction>,
                                                 logs: seq<ProofLog>)
    requires |instructions| == |logs| && Sane(d, s) && Honest(d, s, instructions, logs, |logs|)
    ensures KeysAreFull(d, VmLogs(s, instructions, |instructions|))
    ensures var metas := Produced(d, instructions, logs, |logs|);
      var r := Verify(d, metas, VmLogs(s, instructions, |instructions|), Root(d, s.tree), s.next);
      var after := InstructAll(s, instructions, |instructions|);
      && (r.Ok? <==> metas != [] && |metas[0].merklePath| != d)
      && (r.Ok? ==> r.value == (Root(d, after.tree), after.next))
  {
    hide Verify, Faithful, Produced, VmLogs, InstructAll, Run, WellFormed;
    ProducedIsFaithful(d, s, instructions, logs, |logs|);
    AcceptsIffFaithful(d, s, Produced(d, instructions, logs, |logs|), VmLogs(s, instructions, |instructions|));
  }

  /** An accepted honest batch ends, for the verifier, with exactly what the producer reported. */
  lemma {:induction false} ReportedStateIsVerified(d: nat, s: State, instructions: seq<TreeInstruction>,
                                                   logs: seq<ProofLog>, leafCount: nat)
    requires |instructions| == |logs| && Sane(d, s) && Honest(d, s, instructions, logs, |logs|)
    requires leafCount + 1 == InstructAll(s, instructions, |instructions|).next
    ensures KeysAreFull(d, VmLogs(s, instructions, |instructions|))
    ensures var metas := Produced(d, instructions, logs, |logs|);
      var r := Verify(d, metas, VmLogs(s, instructions, |instructions|), Root(d, s.tree), s.next);
      var reported := MetadataOf(Root(d, s.tree), logs, leafCount);
      r.Ok? ==> r.value == (reported.rootHash, reported.rollupLastLeafIndex)
    ensures var after := InstructAll(s, instructions, |instructions|);
      MetadataOf(Root(d, s.tree), logs, leafCount) == TreeMetadata(Root(d, after.tree), after.next)
  {
    hide Verify, Produced, VmLogs, Instruct, WellFormed, HonestInstruction, Root;
    HonestWitnessAccepted(d, s, instructions, logs);
    var n := |logs|;
    if n > 0 {
      assert HonestOutput(d, InstructAll(s, instructions, n - 1), instructions[n - 1], logs[n - 1]);
    }
  }

  lemma {:induction false} ProducedIsStripped(d: nat, instructions: seq<TreeInstruction>, logs: seq<ProofLog>, n: nat,
                                              i: nat)
    requires n <= |instructions| == |logs|
    requires forall j :: 0 <= j < |logs| ==> |logs[j].path| <= d
    requires i < |Produced(d, instructions, logs, n)|
    ensures var path := Produced(d, instructions, logs, n)[i].merklePath; |path| <= d && EmptyPrefixLen(d, path) == 0
  {
    hide IsNoOp, EmptyPrefixLen;
    if i < |Produced(d, instructions, logs, n - 1)| {
      ProducedIsStripped(d, instructions, logs, n - 1, i);
    } else {
      StripIsCanonical(d, logs[n - 1].path, logs[n - 1].path);
    }
  }

  /** The key that differs from `key` in the lowest bit only. */
  function LowestSibling(key: Key): Key
    requires key != []
  {
    [!key[0]] + key[1..]
  }

  /** A stripped honest path has full depth exactly when the neighbouring leaf is occupied. */
  lemma {:induction false} FullDepthIffNeighbour(d: nat, t: Tree, key: Key, path: seq<Hash>)
    requires WellFormed(d, t) && |path| <= d == |key| && d >= 1
    requires ExtendPath(d, path) == Siblings(t, key) && EmptyPrefixLen(d, path) == 0
    ensures |path| == d <==> LowestSibling(key) in t
  {
    hide EmptyPrefixLen, ExtendPath;
    var n := StripShape(d, path);
    var full := ExtendPath(d, path);
    assert full[0] == LeafHash(LeafAt(t, LowestSibling(key)));
    assert Empty(0) == LeafHash(VACANT);
  }

  /**
   The limit of completeness in terms of the tree: the honest witness is accepted exactly when some
   entry is left and the neighbour of the first entry's key is vacant.
   */
  lemma {:induction false} HonestWitnessAcceptedIff(d: nat, s: State, instructions: seq<TreeInstruction>,
                                                    logs: seq<ProofLog>)
    requires |instructions| == |logs| && Sane(d, s) && Honest(d, s, instructions, logs, |logs|) && d >= 1
    ensures KeysAreFull(d, VmLogs(s, instructions, |instructions|))
    ensures var metas := Produced(d, instructions, logs, |logs|);
      var r := Verify(d, metas, VmLogs(s, instructions, |instructions|), Root(d, s.tree), s.next);
      r.Ok? <==> metas != [] && metas[0].key != [] && LowestSibling(metas[0].key) !in s.tree
  {
    hide Verify, Produced, VmLogs, InstructAll, WellFormed, EmptyPrefixLen, HonestInstruction, Root;
    HonestWitnessAccepted(d, s, instructions, logs);
    ProducedIsFaithful(d, s, instructions, logs, |logs|);
    var metas, vmLogs := Produced(d, instructions, logs, |logs|), VmLogs(s, instructions, |instructions|);
    if metas != [] {
      assert Run(s, vmLogs, 0) == s && Faithful(d, s, metas[0], vmLogs[0]);
      forall j | 0 <= j < |logs|
        ensures |logs[j].path| <= d
      {
        assert HonestOutput(d, InstructAll(s, instructions, j), instructions[j], logs[j]);
      }
      ProducedIsStripped(d, instructions, logs, |logs|, 0);
      FullDepthIffNeighbour(d, s.tree, metas[0].key, metas[0].merklePath);
    }
  }

  /** The exception is real: an honest read of a vacant key beside an occupied leaf is rejected. */
  lemma {:induction false} HonestWitnessRejected(d: nat, key: Key, leaf: Leaf)
    requires d == |key| >= 1 && leaf.index == 1
    ensures var s := State(map[LowestSibling(key) := leaf], 2);
      var instructions := [ReadKey(key)];
      var logs := [ProofLog(ReadMissingKey, Siblings(s.tree, key), Root(d, s.tree))];
      && Sane(d, s) && Honest(d, s, instructions, logs, 1) && KeysAreFull(d, VmLogs(s, instructions, 1))
      && Verify(d, Produced(d, instructions, logs, 1), VmLogs(s, instructions, 1), Root(d, s.tree), s.next).Err?
  {
    hide Verify, Strip, Root;
    var s := State(map[LowestSibling(key) := leaf], 2);
    var instructions := [ReadKey(key)];
    var logs := [ProofLog(ReadMissingKey, Siblings(s.tree, key), Root(d, s.tree))];
    assert key != LowestSibling(key) by {
      assert LowestSibling(key)[0] != key[0];
    }
    assert ExtendPath(d, Siblings(s.tree, key)) == Siblings(s.tree, key);
    assert InstructAll(s, instructions, 0) == s;
    assert Honest(d, s, instructions, logs, 1);
    HonestWitnessAcceptedIff(d, s, instructions, logs);
    assert Produced(d, instructions, logs, 0) == [];
    assert Produced(d, instructions, logs, 1)[0].key == key;
  }

  /** Normalisation before verification leaves a produced witness alone, or rejects what the fold would reject. */
  lemma {:induction false} NormalizeLeavesProduced(d: nat, instructions: seq<TreeInstruction>, logs: seq<ProofLog>)
    requires |instructions| == |logs| && forall j :: 0 <= j < |logs| ==> |logs[j].path| <= d
    ensures var metas := Produced(d, instructions, logs, |logs|);
      && (Normalizable(d, metas) <==> metas == [] || |metas[0].merklePath| != d)
      && (Normalizable(d, metas) ==> Normalized(d, metas) == metas)
  {
    hide EmptyPrefixLen, Produced;
    var metas := Produced(d, instructions, logs, |logs|);
    forall i | 0 <= i < |metas|
      ensures |metas[i].merklePath| <= d && EmptyPrefixLen(d, metas[i].merklePath) == 0
    {
      ProducedIsStripped(d, instructions, logs, |logs|, i);
    }
  }

  /** The same batch written by the legacy encoder is read back as the very same witness. */
  lemma {:induction false} LegacyEncodingReadsBackProduced(d: nat, instructions: seq<TreeInstruction>,
                                                           logs: seq<ProofLog>)
    requires |instructions| == |logs| && forall j :: 0 <= j < |logs| ==> |logs[j].path| <= d
    requires var metas := Produced(d, instructions, logs, |logs|); metas != [] && |metas[0].merklePath| != d
    ensures var metas := Produced(d, instructions, logs, |logs|);
      && FullDepth(d, Expanded(d, metas))
      && Normalizable(d, LegacyEncoded(d, Expanded(d, metas)))
      && Normalized(d, LegacyEncoded(d, Expanded(d, metas))) == metas
  {
    hide EmptyPrefixLen, Produced, LegacyEncoded, Normalized, Normalizable;
    var metas := Produced(d, instructions, logs, |logs|);
    forall i | 0 <= i < |metas|
      ensures |metas[i].merklePath| <= d && Strip(d, Expanded(d, metas)[i].merklePath) == metas[i].merklePath
    {
      ProducedIsStripped(d, instructions, logs, |logs|, i);
      var path := metas[i].merklePath;
      assert ExtendPath(d, ExtendPath(d, path)) == ExtendPath(d, path);
      assert |path| == d ==> ExtendPath(d, path) == path;
      StripIsCanonical(d, ExtendPath(d, path), path);
    }
    var full := Expanded(d, metas);
    assert PerPath(d, full) == metas;
    LegacyRoundTrip(d, full);
  }
}
