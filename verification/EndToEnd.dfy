/**
 From the sequencer's tree to the proved commitment: which batches of an honest producer
 (crates/merkle_tree/src/domain.rs) the verifier (crates/airbender_verifier/src/lib.rs) proves.
 */
module EndToEnd {
  import opened SparseTree
  import opened Witness
  import opened Verifier
  import opened Oracle
  import opened StorageView
  import opened Blobs
  import Producer
  import Chain

  /** The batch carries the witness and the logs of an honest producer's instructions on `s`. */
  ghost predicate FromProducer(d: nat, s: State, instructions: seq<TreeInstruction>, b: Chain.Batch) {
    && b.merklePaths == Producer.EntriesOf(d, s, instructions, |instructions|)
    && b.vmLogs == Producer.VmLogs(s, instructions, |instructions|)
  }

  /**
   Completeness of the whole verifier: over a committed state, a batch from an honest producer is
   proved if and only if its other claims are honest, an instruction is left to witness, the
   neighbour of the first witnessed key is vacant and no log touches a key that an earlier one
   changed. It then commits to the state after all instructions.
   */
  lemma {:induction false} ProducedBatchProvedIff(d: nat, keccak: Keccak, s: State,
                                                  instructions: seq<TreeInstruction>, logs: seq<ProofLog>,
                                                  b: Chain.Batch)
    requires Sane(d, s) && d >= 1 && IsDigest(keccak) && Chain.CommitsTo(d, b.prevBatchCommitment, s)
    requires |instructions| == |logs| && Producer.Honest(d, s, instructions, logs, |logs|)
    requires FromProducer(d, s, instructions, b)
    ensures KeysAreFull(d, b.vmLogs)
    ensures Chain.ProveBatch(d, keccak, b).Ok? <==>
      && Chain.HonestClaims(d, keccak, s, b)
      && b.merklePaths != [] && b.merklePaths[0].key != []
      && Producer.LowestSibling(b.merklePaths[0].key) !in s.tree
      && NoneTouchedAfterChange(s, b.vmLogs)
    ensures Chain.ProveBatch(d, keccak, b).Ok? ==>
      var after := Producer.InstructAll(s, instructions, |instructions|);
      Chain.ProveBatch(d, keccak, b).value == Chain.CommitmentTo(d, after, b.metadataHash, b.auxiliaryHash)
  {
    hide Chain.ProveBatch, Chain.HonestClaims, Chain.CommitsTo, Chain.CommitmentTo, Verify, AllFaithful, Root, Run;
    hide Producer.Produced, Producer.EntriesOf, Producer.VmLogs, Producer.InstructAll, Normalized, Normalizable;
    hide NoneTouchedAfterChange, WellFormed, Producer.HonestInstruction, Producer.LowestSibling;
    Producer.ProducedIsExact(d, s, instructions, logs, |logs|);
    Producer.ProducedIsFaithful(d, s, instructions, logs, |logs|);
    Producer.HonestWitnessAccepted(d, s, instructions, logs);
    Producer.HonestWitnessAcceptedIff(d, s, instructions, logs);
    forall j | 0 <= j < |logs|
      ensures |logs[j].path| <= d
    {
      assert Producer.HonestOutput(d, Producer.InstructAll(s, instructions, j), instructions[j], logs[j]);
    }
    Producer.NormalizeLeavesProduced(d, instructions, logs);
    Chain.ProvedIffHonest(d, keccak, s, b);
  }

  ghost predicate DistinctKeys(instructions: seq<TreeInstruction>) {
    forall i, j :: 0 <= i < j < |instructions| ==> instructions[i].key != instructions[j].key
  }

  lemma {:induction false} LogsComeFrom(s: State, instructions: seq<TreeInstruction>, n: nat, j: nat)
    requires n <= |instructions| && j < |Producer.VmLogs(s, instructions, n)|
    ensures exists i :: 0 <= i < n && instructions[i].key == Producer.VmLogs(s, instructions, n)[j].key
  {
    if n > 0 && j < |Producer.VmLogs(s, instructions, n - 1)| {
      LogsComeFrom(s, instructions, n - 1, j);
    }
  }

  lemma {:induction false} DistinctLogs(s: State, instructions: seq<TreeInstruction>, n: nat, i: nat, j: nat)
    requires DistinctKeys(instructions) && n <= |instructions| && i < j < |Producer.VmLogs(s, instructions, n)|
    ensures Producer.VmLogs(s, instructions, n)[i].key != Producer.VmLogs(s, instructions, n)[j].key
  {
    var prior := Producer.VmLogs(s, instructions, n - 1);
    if j < |prior| {
      DistinctLogs(s, instructions, n - 1, i, j);
    } else {
      LogsComeFrom(s, instructions, n - 1, i);
    }
  }

  lemma {:induction false} UntouchedLeaf(s: State, logs: seq<StorageLog>, n: nat, key: Key)
    requires n <= |logs| && forall j :: 0 <= j < n ==> logs[j].key != key
    ensures LeafAt(Run(s, logs, n).tree, key) == LeafAt(s.tree, key)
  {
    if n == 0 {
    } else {
      UntouchedLeaf(s, logs, n - 1, key);
    }
  }

  /** Deduplicated instructions never meet the last exception: each key is instructed once. */
  lemma {:induction false} DeduplicatedIsUntouched(s: State, instructions: seq<TreeInstruction>)
    requires DistinctKeys(instructions)
    ensures NoneTouchedAfterChange(s, Producer.VmLogs(s, instructions, |instructions|))
  {
    hide Producer.VmLogs, DistinctKeys, Run, LeafAt;
    var logs := Producer.VmLogs(s, instructions, |instructions|);
    forall i {:trigger Run(s, logs, i)} | 0 <= i < |logs|
      ensures LeafAt(Run(s, logs, i).tree, logs[i].key) == LeafAt(s.tree, logs[i].key)
    {
      forall j | 0 <= j < i
        ensures logs[j].key != logs[i].key
      {
        DistinctLogs(s, instructions, |instructions|, j, i);
      }
      UntouchedLeaf(s, logs, i, logs[i].key);
    }
  }
}
