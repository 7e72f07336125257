/**
 Batches linked by commitments: the tree part of `execute` followed by `verify_commitment`
 (crates/airbender_verifier/src/lib.rs) with the hashes of
 crates/airbender_verifier/src/commitment.rs. The VM enters as the storage logs it produced.
 */
module Chain {
  import opened Wrappers
  import opened SparseTree
  import opened Witness
  import opened Verifier
  import opened StorageView
  import opened Blobs

  const ZERO_HASH: Hash := Unhashed(0)

  const ZKPORTER_IS_AVAILABLE: bool := false

  datatype RootState = RootState(lastLeafIndex: nat, rootHash: Hash)

  /** Keccak digests of the fixed-width serialisations used by the commitment; equal only for equal preimages. */
  datatype Digest =
    | PassThroughDigest(sharedStates: seq<RootState>)
    | CommitmentDigest(passThrough: Digest, metadata: Digest, auxiliary: Digest)
    | OtherDigest(id: nat)

  function PassThroughDataHash(enumerationIndex: nat, root: Hash): Digest {
    PassThroughDigest([RootState(enumerationIndex, root), RootState(0, ZERO_HASH)])
  }

  const TOTAL_BLOBS_IN_COMMITMENT: nat := 16

  /** A batch's witness, what its VM produced, and the commitment input. */
  datatype Batch = Batch(
    merklePaths: seq<StorageLogMetadata>,
    vmLogs: seq<StorageLog>,
    pubdata: Option<Bytes>,
    oldRoot: Hash,
    prevEnumerationIndex: nat,
    zkPorterAvailable: bool,
    versionedHashes: seq<Bytes>,
    blobHashes: seq<BlobHash>,
    metadataHash: Digest,
    auxiliaryHash: Digest,
    prevMetaHash: Digest,
    prevAuxHash: Digest,
    prevBatchCommitment: Digest)

  datatype BatchError =
    | WireRejected
    | ViewRejected
    | TreeRejected(why: Rejection)
    | PorterMismatch
    | PrevMismatch
    | PubdataMissing
    | BlobMismatch
    | BlobCountMismatch

  /** The current batch's commitment, once the claimed previous one is recomputed from the old root and index. */
  ghost function VerifyCommitment(keccak: Keccak, b: Batch, newRoot: Hash, newEnumerationIndex: nat)
    : Result<Digest, BatchError>
    requires IsDigest(keccak)
  {
    if b.zkPorterAvailable != ZKPORTER_IS_AVAILABLE then Err(PorterMismatch)
    else if CommitmentDigest(PassThroughDataHash(b.prevEnumerationIndex, b.oldRoot), b.prevMetaHash, b.prevAuxHash)
         != b.prevBatchCommitment then Err(PrevMismatch)
    else if b.pubdata.None? then Err(PubdataMissing)
    else if !BlobsVerify(keccak, b.pubdata.value, b.versionedHashes, b.blobHashes) then Err(BlobMismatch)
    else if |b.blobHashes| != TOTAL_BLOBS_IN_COMMITMENT then Err(BlobCountMismatch)
    else Ok(CommitmentDigest(PassThroughDataHash(newEnumerationIndex, newRoot), b.metadataHash, b.auxiliaryHash))
  }

  ghost function ProveBatch(d: nat, keccak: Keccak, b: Batch): Result<Digest, BatchError>
    requires KeysAreFull(d, b.vmLogs) && IsDigest(keccak)
  {
    if !Normalizable(d, b.merklePaths) then Err(WireRejected)
    else
      var metas := Normalized(d, b.merklePaths);
      if !(AllWellFlagged(metas) && Consistent(metas)) then Err(ViewRejected)
      else
        var verified := Verify(d, metas, b.vmLogs, b.oldRoot, b.prevEnumerationIndex);
        if verified.Err? then Err(TreeRejected(verified.error))
        else VerifyCommitment(keccak, b, verified.value.0, verified.value.1)
  }

  /** The whole proof of a batch as it runs: normalise, build the view, fold, check blobs, commit. */
  method VerifyBatch(d: nat, keccak: Keccak, b: Batch) returns (r: Result<Digest, BatchError>)
    requires KeysAreFull(d, b.vmLogs) && IsDigest(keccak)
    ensures r == ProveBatch(d, keccak, b)
  {
    hide Verify, Normalized, Normalizable, AllWellFlagged, Consistent, BlobsVerify;
    var w := new WitnessInputMerklePaths(d, b.prevEnumerationIndex);
    w.merklePaths := b.merklePaths;
    var normalized := w.NormalizeStoredPaths();
    if normalized.Err? {
      return Err(WireRejected);
    }
    var view := BuildViewFromMerklePaths(w.merklePaths);
    if view.Err? {
      return Err(ViewRejected);
    }
    var verified := VerifyPathsAndNewRoot(d, w.merklePaths, b.vmLogs, b.oldRoot, b.prevEnumerationIndex);
    if verified.Err? {
      return Err(TreeRejected(verified.error));
    }
    if b.zkPorterAvailable {
      return Err(PorterMismatch);
    }
    var prevPassThrough := PassThroughDataHash(b.prevEnumerationIndex, b.oldRoot);
    if CommitmentDigest(prevPassThrough, b.prevMetaHash, b.prevAuxHash) != b.prevBatchCommitment {
      return Err(PrevMismatch);
    }
    if b.pubdata.None? {
      return Err(PubdataMissing);
    }
    var blobs := VerifyBlobHashes(keccak, b.pubdata.value, b.versionedHashes, b.blobHashes);
    if blobs.Err? {
      return Err(BlobMismatch);
    }
    if |b.blobHashes| != TOTAL_BLOBS_IN_COMMITMENT {
      return Err(BlobCountMismatch);
    }
    var passThrough := PassThroughDataHash(verified.value.1, verified.value.0);
    r := Ok(CommitmentDigest(passThrough, b.metadataHash, b.auxiliaryHash));
  }

  // ----- which batches are proved

  /** The commitment to a state: index and root in the first shared state, the reserved one zero. */
  ghost function CommitmentTo(d: nat, s: State, metadata: Digest, auxiliary: Digest): Digest {
    var states := [RootState(s.next, Root(d, s.tree)), RootState(0, Unhashed(0))];
    CommitmentDigest(PassThroughDigest(states), metadata, auxiliary)
  }

  ghost predicate CommitsTo(d: nat, digest: Digest, s: State) {
    exists metadata, auxiliary :: digest == CommitmentTo(d, s, metadata, auxiliary)
  }

  /** What the batch claims besides its witness: state `s` as where it starts, and blobs that carry its pubdata. */
  ghost predicate HonestClaims(d: nat, keccak: Keccak, s: State, b: Batch)
    requires IsDigest(keccak)
  {
    && !b.zkPorterAvailable
    && b.oldRoot == Root(d, s.tree) && b.prevEnumerationIndex == s.next
    && b.prevBatchCommitment == CommitmentTo(d, s, b.prevMetaHash, b.prevAuxHash)
    && b.pubdata.Some? && |b.blobHashes| == 16
    && BlobsVerify(keccak, b.pubdata.value, b.versionedHashes, b.blobHashes)
  }

  /** The batch is an honest successor of state `s`: everything it claims is true of `s` and of its VM's output. */
  ghost predicate HonestBatch(d: nat, keccak: Keccak, s: State, b: Batch)
    requires KeysAreFull(d, b.vmLogs) && IsDigest(keccak)
  {
    && HonestClaims(d, keccak, s, b)
    && Normalizable(d, b.merklePaths)
    && var metas := Normalized(d, b.merklePaths);
       && GuardsPass(d, metas, b.vmLogs) && AllFaithful(d, s, metas, b.vmLogs, |metas|)
       && NoneTouchedAfterChange(s, b.vmLogs)
  }

  /**
   Exactness: if the claimed previous commitment is one to `s`, a batch is proved if and only if it is
   an honest successor of `s`, and the commitment is then to `s` with its writes applied, with its own
   metadata and auxiliary hashes in their places.
   */
  lemma {:induction false} ProvedIffHonest(d: nat, keccak: Keccak, s: State, b: Batch)
    requires Sane(d, s) && KeysAreFull(d, b.vmLogs) && IsDigest(keccak)
    requires CommitsTo(d, b.prevBatchCommitment, s)
    ensures ProveBatch(d, keccak, b).Ok? <==> HonestBatch(d, keccak, s, b)
    ensures ProveBatch(d, keccak, b).Ok? ==>
      && ProveBatch(d, keccak, b).value ==
         CommitmentTo(d, Run(s, b.vmLogs, |b.vmLogs|), b.metadataHash, b.auxiliaryHash)
      && Sane(d, Run(s, b.vmLogs, |b.vmLogs|))
  {
    hide Verify, Normalized, Normalizable, AllWellFlagged, Consistent, Run, WellFormed, Root, BlobsVerify, AllFaithful;
    hide NoneTouchedAfterChange;
    var metadata, auxiliary :| b.prevBatchCommitment == CommitmentTo(d, s, metadata, auxiliary);
    var prev := CommitmentDigest(PassThroughDataHash(b.prevEnumerationIndex, b.oldRoot), b.prevMetaHash, b.prevAuxHash);
    if prev == b.prevBatchCommitment {
      PassThroughIsInjective(b.prevEnumerationIndex, b.oldRoot, s.next, Root(d, s.tree));
    }
    if Normalizable(d, b.merklePaths) {
      var metas := Normalized(d, b.merklePaths);
      AcceptsIffFaithful(d, s, metas, b.vmLogs);
      if Verify(d, metas, b.vmLogs, Root(d, s.tree), s.next).Ok? {
        ConsistentIffUntouched(d, s, metas, b.vmLogs);
      }
    }
    RunStaysSane(d, s, b.vmLogs, |b.vmLogs|);
  }

  ghost predicate KeysAreFullInAll(d: nat, batches: seq<Batch>) {
    forall i :: 0 <= i < |batches| ==> KeysAreFull(d, batches[i].vmLogs)
  }

  /** Every batch is proved, and claims as its predecessor's commitment the one that was proved. */
  ghost predicate Linked(d: nat, keccak: Keccak, batches: seq<Batch>)
    requires KeysAreFullInAll(d, batches) && IsDigest(keccak)
  {
    forall i :: 0 <= i < |batches| ==> LinkedAt(d, keccak, batches, i)
  }

  ghost predicate LinkedAt(d: nat, keccak: Keccak, batches: seq<Batch>, i: nat)
    requires KeysAreFullInAll(d, batches) && IsDigest(keccak) && i < |batches|
  {
    && ProveBatch(d, keccak, batches[i]).Ok?
    && (i > 0 ==> Ok(batches[i].prevBatchCommitment) == ProveBatch(d, keccak, batches[i - 1]))
  }

  /** The state after the logs of the first `n` batches. */
  function Replay(s: State, batches: seq<Batch>, n: nat): State
    requires n <= |batches|
  {
    if n == 0 then s
    else Run(Replay(s, batches, n - 1), batches[n - 1].vmLogs, |batches[n - 1].vmLogs|)
  }

  /** All logs of the first `n` batches, in order. */
  function History(batches: seq<Batch>, n: nat): seq<StorageLog>
    requires n <= |batches|
  {
    if n == 0 then [] else History(batches, n - 1) + batches[n - 1].vmLogs
  }

  /** A proved batch whose claimed predecessor commits to `s` starts from `s` and ends with its writes applied to it. */
  lemma {:induction false} ProvedBatchAdvances(d: nat, keccak: Keccak, s: State, b: Batch)
    requires Sane(d, s) && KeysAreFull(d, b.vmLogs) && IsDigest(keccak)
    requires ProveBatch(d, keccak, b).Ok? && CommitsTo(d, b.prevBatchCommitment, s)
    ensures b.oldRoot == Root(d, s.tree) && b.prevEnumerationIndex == s.next
    ensures CommitsTo(d, ProveBatch(d, keccak, b).value, Run(s, b.vmLogs, |b.vmLogs|))
    ensures Sane(d, Run(s, b.vmLogs, |b.vmLogs|))
  {
    hide ProveBatch, WellFormed, Run, CommitmentTo;
    ProvedIffHonest(d, keccak, s, b);
  }

  lemma {:induction false} PassThroughIsInjective(i: nat, root: Hash, j: nat, other: Hash)
    requires PassThroughDataHash(i, root) == PassThroughDataHash(j, other)
    ensures i == j && root == other
  {
    assert PassThroughDataHash(i, root).sharedStates[0] == PassThroughDataHash(j, other).sharedStates[0];
  }

  lemma {:induction false} ChainStates(d: nat, keccak: Keccak, s: State, batches: seq<Batch>, n: nat)
    requires Sane(d, s) && KeysAreFullInAll(d, batches) && IsDigest(keccak)
    requires Linked(d, keccak, batches) && n <= |batches|
    requires |batches| > 0 ==> CommitsTo(d, batches[0].prevBatchCommitment, s)
    ensures Sane(d, Replay(s, batches, n))
    ensures n < |batches| ==> CommitsTo(d, batches[n].prevBatchCommitment, Replay(s, batches, n))
    ensures n > 0 ==>
      && ProveBatch(d, keccak, batches[n - 1]).Ok?
      && CommitsTo(d, ProveBatch(d, keccak, batches[n - 1]).value, Replay(s, batches, n))
  {
    hide ProveBatch, CommitsTo, WellFormed, Run, Linked;
    if n == 0 {
    } else {
      ChainStates(d, keccak, s, batches, n - 1);
      LinkedMeansProved(d, keccak, batches, n - 1);
      if n < |batches| {
        LinkedMeansProved(d, keccak, batches, n);
      }
      ProvedBatchAdvances(d, keccak, Replay(s, batches, n - 1), batches[n - 1]);
    }
  }

  /**
   Chain safety. Trusting only the first predecessor commitment, batch `n` of any linked run
   starts from exactly the root and index batch `n - 1` ended with, and its proof commits to the
   first tree with every write of every batch up to it applied in order.
   */
  lemma {:induction false} ChainIsLinearHistory(d: nat, keccak: Keccak, s: State, batches: seq<Batch>, n: nat)
    requires Sane(d, s) && KeysAreFullInAll(d, batches) && IsDigest(keccak)
    requires Linked(d, keccak, batches) && n < |batches| && CommitsTo(d, batches[0].prevBatchCommitment, s)
    ensures var before := Run(s, History(batches, n), |History(batches, n)|);
      var after := Run(s, History(batches, n + 1), |History(batches, n + 1)|);
      && batches[n].oldRoot == Root(d, before.tree) && batches[n].prevEnumerationIndex == before.next
      && ProveBatch(d, keccak, batches[n]).Ok?
      && CommitsTo(d, ProveBatch(d, keccak, batches[n]).value, after)
      && (Enumerated(s) ==> Enumerated(after))
  {
    hide ProveBatch, CommitsTo, WellFormed, Run, Enumerated, Replay, Linked;
    ChainStates(d, keccak, s, batches, n);
    ChainStates(d, keccak, s, batches, n + 1);
    LinkedMeansProved(d, keccak, batches, n);
    ProvedBatchAdvances(d, keccak, Replay(s, batches, n), batches[n]);
    ReplayIsHistory(s, batches, n);
    ReplayIsHistory(s, batches, n + 1);
    if Enumerated(s) {
      RunKeepsEnumeration(s, History(batches, n + 1), |History(batches, n + 1)|);
    }
  }

  lemma {:induction false} LinkedMeansProved(d: nat, keccak: Keccak, batches: seq<Batch>, n: nat)
    requires KeysAreFullInAll(d, batches) && IsDigest(keccak) && Linked(d, keccak, batches) && n < |batches|
    ensures ProveBatch(d, keccak, batches[n]).Ok?
    ensures n > 0 ==> Ok(batches[n].prevBatchCommitment) == ProveBatch(d, keccak, batches[n - 1])
  {
    assert LinkedAt(d, keccak, batches, n);
  }

  /** Every batch is an honest successor of the states before it and quotes its predecessor's hashes. */
  ghost predicate HonestChain(d: nat, keccak: Keccak, s: State, batches: seq<Batch>)
    requires KeysAreFullInAll(d, batches) && IsDigest(keccak)
  {
    forall i :: 0 <= i < |batches| ==> HonestAt(d, keccak, s, batches, i)
  }

  ghost predicate HonestAt(d: nat, keccak: Keccak, s: State, batches: seq<Batch>, i: nat)
    requires KeysAreFullInAll(d, batches) && IsDigest(keccak) && i < |batches|
  {
    HonestBatch(d, keccak, Replay(s, batches, i), batches[i]) && (i > 0 ==> Quotes(batches[i], batches[i - 1]))
  }

  predicate Quotes(b: Batch, prev: Batch) {
    b.prevMetaHash == prev.metadataHash && b.prevAuxHash == prev.auxiliaryHash
  }

  lemma {:induction false} ReplayStaysSane(d: nat, s: State, batches: seq<Batch>, n: nat)
    requires Sane(d, s) && KeysAreFullInAll(d, batches) && n <= |batches|
    ensures Sane(d, Replay(s, batches, n))
  {
    hide WellFormed;
    if n == 0 {
    } else {
      ReplayStaysSane(d, s, batches, n - 1);
      RunStaysSane(d, Replay(s, batches, n - 1), batches[n - 1].vmLogs, |batches[n - 1].vmLogs|);
    }
  }

  /** One batch of a chain, once the one before it stands for the state it starts from. */
  lemma {:induction false} NextProvedIffHonest(d: nat, keccak: Keccak, s: State, prev: Batch, b: Batch)
    requires Sane(d, s) && KeysAreFull(d, prev.vmLogs) && KeysAreFull(d, b.vmLogs) && IsDigest(keccak)
    requires HonestBatch(d, keccak, s, prev)
    ensures ProveBatch(d, keccak, prev).Ok?
    ensures var after := Run(s, prev.vmLogs, |prev.vmLogs|);
      ProveBatch(d, keccak, b).Ok? && b.prevBatchCommitment == ProveBatch(d, keccak, prev).value <==>
      HonestBatch(d, keccak, after, b) && Quotes(b, prev)
  {
    hide ProveBatch, WellFormed, Run, Root, AllFaithful, BlobsVerify, NoneTouchedAfterChange, Normalizable;
    assert CommitsTo(d, prev.prevBatchCommitment, s);
    ProvedIffHonest(d, keccak, s, prev);
    var after := Run(s, prev.vmLogs, |prev.vmLogs|);
    var commitment := CommitmentTo(d, after, prev.metadataHash, prev.auxiliaryHash);
    if b.prevBatchCommitment == commitment {
      ProvedIffHonest(d, keccak, after, b);
    }
  }

  /**
   Chain exactness. Trusting only the first predecessor commitment, a run of batches is proved and
   linked if and only if each is an honest successor of the history before it.
   */
  lemma {:induction false} ChainProvedIffHonest(d: nat, keccak: Keccak, s: State, batches: seq<Batch>)
    requires Sane(d, s) && KeysAreFullInAll(d, batches) && IsDigest(keccak)
    requires |batches| > 0 ==> CommitsTo(d, batches[0].prevBatchCommitment, s)
    ensures Linked(d, keccak, batches) <==> HonestChain(d, keccak, s, batches)
  {
    hide ProveBatch, HonestBatch, WellFormed, Run, CommitsTo;
    if Linked(d, keccak, batches) {
      forall i | 0 <= i < |batches|
        ensures HonestAt(d, keccak, s, batches, i)
      {
        LinkedIsHonest(d, keccak, s, batches, i);
      }
    } else if HonestChain(d, keccak, s, batches) {
      forall i | 0 <= i < |batches|
        ensures LinkedAt(d, keccak, batches, i)
      {
        HonestIsLinked(d, keccak, s, batches, i);
      }
    }
  }

  lemma {:induction false} LinkedIsHonest(d: nat, keccak: Keccak, s: State, batches: seq<Batch>, n: nat)
    requires Sane(d, s) && KeysAreFullInAll(d, batches) && IsDigest(keccak)
    requires Linked(d, keccak, batches) && n < |batches| && CommitsTo(d, batches[0].prevBatchCommitment, s)
    ensures HonestAt(d, keccak, s, batches, n)
  {
    hide ProveBatch, HonestBatch, WellFormed, Run, CommitsTo, Linked;
    LinkedMeansProved(d, keccak, batches, n);
    if n == 0 {
      ProvedIffHonest(d, keccak, s, batches[0]);
    } else {
      LinkedIsHonest(d, keccak, s, batches, n - 1);
      ReplayStaysSane(d, s, batches, n - 1);
      NextProvedIffHonest(d, keccak, Replay(s, batches, n - 1), batches[n - 1], batches[n]);
    }
  }

  lemma {:induction false} HonestIsLinked(d: nat, keccak: Keccak, s: State, batches: seq<Batch>, n: nat)
    requires Sane(d, s) && KeysAreFullInAll(d, batches) && IsDigest(keccak)
    requires HonestChain(d, keccak, s, batches) && n < |batches| && CommitsTo(d, batches[0].prevBatchCommitment, s)
    ensures LinkedAt(d, keccak, batches, n)
  {
    hide ProveBatch, HonestBatch, WellFormed, Run, CommitsTo;
    assert HonestAt(d, keccak, s, batches, n) && (n > 0 ==> HonestAt(d, keccak, s, batches, n - 1));
    if n == 0 {
      ProvedIffHonest(d, keccak, s, batches[0]);
    } else {
      ReplayStaysSane(d, s, batches, n - 1);
      NextProvedIffHonest(d, keccak, Replay(s, batches, n - 1), batches[n - 1], batches[n]);
    }
  }

  lemma {:induction false} ReplayIsHistory(s: State, batches: seq<Batch>, n: nat)
    requires n <= |batches|
    ensures Replay(s, batches, n) == Run(s, History(batches, n), |History(batches, n)|)
  {
    if n == 0 {
    } else {
      ReplayIsHistory(s, batches, n - 1);
      RunConcat(s, History(batches, n - 1), batches[n - 1].vmLogs, |batches[n - 1].vmLogs|);
    }
  }

  lemma {:induction false} RunConcat(s: State, first: seq<StorageLog>, second: seq<StorageLog>, n: nat)
    requires n <= |second|
    ensures Run(s, first + second, |first| + n) == Run(Run(s, first, |first|), second, n)
  {
    if n == 0 {
      RunPrefix(s, first, second, |first|);
    } else {
      RunConcat(s, first, second, n - 1);
    }
  }

  /** In a linked run, a batch's VM was shown for a witnessed key that key's leaf in the history before the batch. */
  lemma {:induction false} ChainViewsAreAuthentic(d: nat, keccak: Keccak, s: State, batches: seq<Batch>, n: nat, j: nat)
    requires Sane(d, s) && KeysAreFullInAll(d, batches) && IsDigest(keccak)
    requires Linked(d, keccak, batches) && n < |batches| && CommitsTo(d, batches[0].prevBatchCommitment, s)
    requires Normalizable(d, batches[n].merklePaths) && j < |Normalized(d, batches[n].merklePaths)|
    ensures var meta := Normalized(d, batches[n].merklePaths)[j];
      Claim(meta) == ViewAt(Run(s, History(batches, n), |History(batches, n)|).tree, meta.key)
  {
    hide CommitsTo, WellFormed, Run, Replay, Linked, Claim, ViewAt, Normalized, Normalizable, Consistent, BlobsVerify;
    hide AllWellFlagged;
    ChainStates(d, keccak, s, batches, n);
    LinkedMeansProved(d, keccak, batches, n);
    ProvedBatchAdvances(d, keccak, Replay(s, batches, n), batches[n]);
    ReplayIsHistory(s, batches, n);
    var metas := Normalized(d, batches[n].merklePaths);
    AcceptsIffFaithful(d, Replay(s, batches, n), metas, batches[n].vmLogs);
    ViewIsPreBatchState(d, Replay(s, batches, n), metas, batches[n].vmLogs, j, 0);
  }
}
