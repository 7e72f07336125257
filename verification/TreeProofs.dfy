/**
 A batch with proofs on the stored tree (crates/merkle_tree/src/storage/proofs.rs, one instruction
 after the other) and what becomes of it in `process_l1_batch_full`
 (crates/merkle_tree/src/domain.rs): what the tree returns is what an honest witness is made of.
 */
module TreeProofs {
  import opened SparseTree
  import opened Jellyfish
  import opened TreeUpdate
  import opened StoredVersions
  import opened TreeHistory
  import opened MerklePaths
  import VersionedStore
  import Verifier
  import Oracle
  import Producer
  import Witness

  // ----- a batch with proofs

  /** The root hash of a working set. */
  function RootHashOf(d: nat, places: Places): Hash {
    if [] in places then NodeHashAt(d, places[[]], []) else Empty(d)
  }

  lemma {:induction false} RootHashIsRoot(d: nat, base: Places, places: Places, v: nat, t: Tree)
    requires Finished(d, base, places, v, t)
    ensures RootHashOf(d, places) == Root(d, t)
  {
    hide Editing, HashedFrom, Finished, ValidateNode, DbOf, ViewOf, Find, SparseTree.Node;
    FinishedIsEdited(d, base, places, v, t);
    if [] in places {
      FinishedIsTree(d, base, places, v, 0, t);
      ValidatedHash(d, DbOf(ViewOf(places, v, 0)), places[[]], VersionedStore.RootKey(v));
    } else {
      EmptyIffEmpty(d, base, places, v, t);
      AllVacant(t, d, []);
    }
  }

  /** The entry for a key that is only read. */
  function ReadLog(t: Tree, key: Key): Verifier.TreeLogEntry {
    if key in t then Verifier.Read(t[key].index, t[key].value) else Verifier.ReadMissingKey
  }

  /** One instruction, with hashes kept up to date and the path read off afterwards. */
  method ProveInstruction(updater: TreeUpdater, instruction: Verifier.TreeInstruction) returns (log: Oracle.ProofLog)
    requires updater.Valid() && HashedFrom(updater.d, updater.places, NIBBLE) && |instruction.key| == updater.d
    modifies updater
    ensures updater.Valid() && HashedFrom(updater.d, updater.places, NIBBLE)
    ensures updater.contents ==
            if instruction.Write? then old(updater.contents)[instruction.key := instruction.leaf]
            else old(updater.contents)
    ensures forall next: nat ::
      Producer.HonestOutput(updater.d, Verifier.State(old(updater.contents), next), instruction, log)
  {
    hide Editing, HashedFrom, PathBelow, Root;
    ghost var d, t := updater.d, updater.contents;
    var base;
    match instruction {
      case Write(key, leaf) =>
        base := updater.Insert(key, leaf);
        updater.Finalize();
        SiblingsFrame(t, key, leaf);
      case ReadKey(key) =>
        base := Lookup(updater, key);
    }
    PathIsHonest(d, updater.base, updater.places, updater.version, updater.contents, instruction.key);
    RootHashIsRoot(d, updater.base, updater.places, updater.version, updater.contents);
    log := Oracle.ProofLog(base, PathBelow(updater.d, updater.places, [], instruction.key),
                           RootHashOf(updater.d, updater.places));
  }

  method Lookup(updater: TreeUpdater, key: Key) returns (log: Verifier.TreeLogEntry)
    requires updater.Valid() && |key| == updater.d
    ensures log == ReadLog(updater.contents, key)
  {
    hide Editing;
    var outcome := updater.Traverse(key);
    TraversalDecides(updater.d, updater.base, updater.places, updater.version, updater.contents, outcome, key);
    log := if outcome.LeafMatch? then Verifier.Read(outcome.leaf.index, outcome.leaf.value)
           else Verifier.ReadMissingKey;
  }

  lemma {:induction false} TraversalDecides(d: nat, base: Places, places: Places, v: nat, t: Tree,
                                            outcome: TraverseOutcome, key: Key)
    requires Editing(d, base, places, v, [], [], t) && Under(d, outcome.place, key)
    requires outcome.LeafMatch? ==>
      IsLeafAt(places, outcome.place, key) && places[outcome.place].leaf == outcome.leaf
    requires outcome.LeafMismatch? ==>
      && outcome.place in places && outcome.fullKey != key
      && places[outcome.place] == LeafNode(outcome.fullKey, outcome.leaf)
    requires outcome.MissingChild? ==>
      && outcome.place !in places
      && if outcome.place == [] then places == map[]
         else |outcome.place| >= NIBBLE && outcome.place[NIBBLE..] in places
              && places[outcome.place[NIBBLE..]].InternalNode?
    ensures outcome.LeafMatch? <==> key in t
    ensures outcome.LeafMatch? ==> t[key] == outcome.leaf
  {
    match outcome
    case LeafMatch(place, _) =>
      LeafIsContained(places, t, place);
    case LeafMismatch(place, _, _) =>
      NoLeafOfKey(d, base, places, v, t, place, key);
    case MissingChild(place) =>
      if key in t {
        assert HasLeaf(places, key);
        var q :| IsLeafAt(places, q, key);
        if place != [] {
          LeafIsElsewhere(d, places, place, key, q);
        }
      }
  }

  lemma {:induction false} BaseIsHashed(d: nat, base: Places, v: nat, t: Tree)
    requires IsBase(d, base, v, t)
    ensures Finished(d, base, base, v, t)
  {
    forall p | p in base && Linked(base, p)
      ensures RefHashed(d, base, p)
    {
      assert RefFine(d, base, base, v, [], [], p) && RefTo(base, p).version < v;
    }
  }

  /** A batch, one instruction after the other: what the tree returns for it is honest. */
  method ExtendWithProofs(d: nat, v: nat, base: Places, instructions: seq<Verifier.TreeInstruction>,
                          ghost s: Verifier.State) returns (places: Places, logs: seq<Oracle.ProofLog>)
    requires IsBase(d, base, v, s.tree)
    requires HonestInstructions(d, s, instructions)
    ensures |logs| == |instructions| && Producer.Honest(d, s, instructions, logs, |logs|)
    ensures Finished(d, base, places, v, Producer.InstructAll(s, instructions, |instructions|).tree)
  {
    hide Editing, HashedFrom, Producer.HonestOutput, Producer.InstructAll;
    BaseIsHashed(d, base, v, s.tree);
    var updater := new TreeUpdater(d, v, base, s.tree);
    logs := [];
    InstructOneMore(s, instructions, 0);
    for i := 0 to |instructions|
      invariant fresh(updater) && updater.Valid() && HashedFrom(d, updater.places, NIBBLE)
      invariant updater.contents == Producer.InstructAll(s, instructions, i).tree
      invariant |logs| == i
      invariant forall j {:trigger logs[j]} :: 0 <= j < i ==>
        Producer.HonestOutput(d, Producer.InstructAll(s, instructions, j), instructions[j], logs[j])
    {
      assert Producer.HonestInstruction(d, Producer.InstructAll(s, instructions, i), instructions[i]);
      InstructOneMore(s, instructions, i);
      ghost var before := Producer.InstructAll(s, instructions, i);
      assert before == Verifier.State(updater.contents, before.next);
      var log := ProveInstruction(updater, instructions[i]);
      logs := logs + [log];
    }
    places := updater.places;
  }

  ghost predicate HonestInstructions(d: nat, s: Verifier.State, instructions: seq<Verifier.TreeInstruction>) {
    forall i {:trigger Producer.InstructAll(s, instructions, i)} :: 0 <= i < |instructions| ==>
      Producer.HonestInstruction(d, Producer.InstructAll(s, instructions, i), instructions[i])
  }

  lemma InstructOneMore(s: Verifier.State, instructions: seq<Verifier.TreeInstruction>, n: nat)
    requires n <= |instructions|
    ensures n == 0 ==> Producer.InstructAll(s, instructions, n) == s
    ensures n < |instructions| ==>
      var before, instruction := Producer.InstructAll(s, instructions, n), instructions[n];
      Producer.InstructAll(s, instructions, n + 1).tree ==
      if instruction.Write? then before.tree[instruction.key := instruction.leaf] else before.tree
  {
  }


  /** The number of leaves after a batch, counted from its logs. */
  method CountLeaves(d: nat, leafCount: nat, instructions: seq<Verifier.TreeInstruction>, logs: seq<Oracle.ProofLog>,
                     ghost s: Verifier.State) returns (count: nat)
    requires |logs| == |instructions| && Producer.Honest(d, s, instructions, logs, |logs|)
    requires leafCount == |s.tree| && s.next == leafCount + 1
    ensures var after := Producer.InstructAll(s, instructions, |instructions|);
      count == |after.tree| && after.next == count + 1
  {
    hide Producer.InstructAll, Producer.HonestInstruction;
    count := leafCount;
    InstructOneMore(s, instructions, 0);
    for i := 0 to |logs|
      invariant var after := Producer.InstructAll(s, instructions, i);
        count == |after.tree| && after.next == count + 1
    {
      InstructCounts(d, s, instructions, logs, i);
      if logs[i].base.Inserted? {
        count := count + 1;
      }
    }
  }

  lemma {:induction false} InstructCounts(d: nat, s: Verifier.State, instructions: seq<Verifier.TreeInstruction>,
                                          logs: seq<Oracle.ProofLog>, n: nat)
    requires n < |logs| == |instructions| && Producer.Honest(d, s, instructions, logs, |logs|)
    ensures var before, after := Producer.InstructAll(s, instructions, n), Producer.InstructAll(s, instructions, n + 1);
      var added := if logs[n].base.Inserted? then 1 else 0;
      |after.tree| == |before.tree| + added && after.next == before.next + added
  {
    var before, instruction := Producer.InstructAll(s, instructions, n), instructions[n];
    assert Producer.HonestOutput(d, before, instruction, logs[n]);
    if instruction.Write? {
      SizeAfter(before.tree, Entry(instruction.key, instruction.leaf));
    }
  }

  /**
   `process_l1_batch_full` on the stored tree, from instructions to metadata: with the matching VM
   logs the witness is accepted, but for the two known exceptions, and the verifier then computes
   what the batch reports. Nothing is assumed about the tree but that it was itself built this way.
   */
  method ProcessBatch(d: nat, v: nat, base: Places, leafCount: nat, instructions: seq<Verifier.TreeInstruction>,
                      ghost s: Verifier.State)
    returns (places: Places, w: Witness.WitnessInputMerklePaths, metadata: Producer.TreeMetadata,
             logs: seq<Oracle.ProofLog>)
    requires IsBase(d, base, v, s.tree) && HonestInstructions(d, s, instructions)
    requires Verifier.Sane(d, s) && d >= 1 && leafCount == |s.tree| && s.next == leafCount + 1
    ensures Finished(d, base, places, v, Producer.InstructAll(s, instructions, |instructions|).tree)
    ensures fresh(w) && w.nextEnumerationIndex == s.next && |logs| == |instructions|
    ensures w.merklePaths == Producer.EntriesOf(d, s, instructions, |instructions|)
    ensures Verifier.KeysAreFull(d, Producer.VmLogs(s, instructions, |instructions|))
    ensures var vmLogs := Producer.VmLogs(s, instructions, |instructions|);
      var r := Verifier.Verify(d, w.merklePaths, vmLogs, Root(d, s.tree), s.next);
      && (r.Ok? <==> w.merklePaths != [] && w.merklePaths[0].key != []
                     && Producer.LowestSibling(w.merklePaths[0].key) !in s.tree)
      && (r.Ok? ==> r.value == (metadata.rootHash, metadata.rollupLastLeafIndex))
  {
    hide Editing, HashedFrom, Finished, Root, HonestInstructions, Verifier.Verify;
    hide Producer.Honest, Producer.InstructAll, Producer.Produced, Producer.VmLogs, Producer.LowestSibling;
    hide Producer.EntriesOf;
    BaseIsHashed(d, base, v, s.tree);
    RootHashIsRoot(d, base, base, v, s.tree);
    places, logs := ExtendWithProofs(d, v, base, instructions, s);
    var count := CountLeaves(d, leafCount, instructions, logs, s);
    w, metadata := Producer.ProcessL1BatchFull(d, RootHashOf(d, base), leafCount, instructions, logs, count);
    Producer.ProducedIsExact(d, s, instructions, logs, |logs|);
    Producer.HonestWitnessAcceptedIff(d, s, instructions, logs);
    Producer.ReportedStateIsVerified(d, s, instructions, logs, count);
  }
}
