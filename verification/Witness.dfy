/**
 The Merkle-path witness and its two wire forms (crates/merkle_tree/src/witness.rs).

 The per-path form stores every path without its leading run of empty-subtree hashes. The
 legacy form stores entry 0 at full depth and cuts every later path at its common prefix with
 entry 0, a prefix that may run into real sibling hashes.
 */
module Witness {
  import opened Wrappers
  import opened SparseTree

  datatype StorageLogMetadata = StorageLogMetadata(
    rootHash: Hash,
    isWrite: bool,
    firstWrite: bool,
    merklePath: seq<Hash>,
    key: Key,
    leafIndex: nat,
    valueWritten: Word,
    valueRead: Word)

  datatype WireError = PathTooLong | NotPaddedLegacyForm

  /** The number of leading hashes the fold would regenerate; none for an over-long path. */
  function EmptyPrefixLen(d: nat, path: seq<Hash>): (n: nat)
    ensures n <= |path|
  {
    if |path| > d then 0 else EmptyRun(d, path, 0)
  }

  function EmptyRun(d: nat, path: seq<Hash>, from: nat): (n: nat)
    requires from <= |path| <= d
    ensures from + n <= |path|
    decreases |path| - from
  {
    if from < |path| && path[from] == Empty(d - |path| + from) then 1 + EmptyRun(d, path, from + 1) else 0
  }

  lemma {:induction false} EmptyRunIsMaximal(d: nat, path: seq<Hash>, from: nat)
    requires from <= |path| <= d
    ensures forall i :: from <= i < from + EmptyRun(d, path, from) ==> path[i] == Empty(d - |path| + i)
    ensures var n := from + EmptyRun(d, path, from);
      n < |path| ==> path[n] != Empty(d - |path| + n)
    decreases |path| - from
  {
    if from == |path| || path[from] != Empty(d - |path| + from) {
    } else {
      EmptyRunIsMaximal(d, path, from + 1);
    }
  }

  /**
   The counted run is the longest: each hash in it is the empty one of its level, the next is
   not. An over-long path is left whole.
   */
  lemma {:induction false} EmptyPrefixIsMaximal(d: nat, path: seq<Hash>)
    ensures |path| <= d ==> forall i :: 0 <= i < EmptyPrefixLen(d, path) ==> path[i] == Empty(d - |path| + i)
    ensures var n := EmptyPrefixLen(d, path);
      |path| <= d && n < |path| ==> path[n] != Empty(d - |path| + n)
    ensures |path| > d ==> Strip(d, path) == path
  {
    if |path| <= d {
      EmptyRunIsMaximal(d, path, 0);
    }
  }

  /** A path cut down to its own populated depth. */
  function Strip(d: nat, path: seq<Hash>): seq<Hash> {
    path[EmptyPrefixLen(d, path)..]
  }

  /** Stripping is invisible to every fold, for honest and adversarial paths alike. */
  lemma {:induction false} StripKeepsMeaning(d: nat, path: seq<Hash>)
    requires |path| <= d
    ensures |Strip(d, path)| <= d
    ensures ExtendPath(d, Strip(d, path)) == ExtendPath(d, path)
  {
    EmptyPrefixIsMaximal(d, path);
  }

  /** A stripped path starts at the lowest level whose sibling is not an empty subtree. */
  lemma {:induction false} StripShape(d: nat, path: seq<Hash>) returns (n: nat)
    requires |path| <= d
    ensures n == d - |Strip(d, path)| && Strip(d, path) == ExtendPath(d, path)[n..]
    ensures forall i {:trigger ExtendPath(d, path)[i]} :: 0 <= i < n ==> ExtendPath(d, path)[i] == Empty(i)
    ensures n < d ==> ExtendPath(d, path)[n] != Empty(n)
  {
    EmptyPrefixIsMaximal(d, path);
    n := d - |Strip(d, path)|;
    var base, full := d - |path|, ExtendPath(d, path);
    assert full[base..] == path;
    assert full[n..] == full[base..][n - base..];
    forall i {:trigger full[i]} | 0 <= i < n
      ensures full[i] == Empty(i)
    {
      if i >= base {
        assert full[i] == path[i - base];
      }
    }
  }

  /** Two paths of one meaning have one stripped form, and stripping it again changes nothing. */
  lemma {:induction false} StripIsCanonical(d: nat, p: seq<Hash>, q: seq<Hash>)
    requires |p| <= d && |q| <= d
    requires ExtendPath(d, p) == ExtendPath(d, q)
    ensures Strip(d, p) == Strip(d, q)
    ensures EmptyPrefixLen(d, Strip(d, p)) == 0
  {
    var n := StripShape(d, p);
    var m := StripShape(d, q);
    assert n == m;
    EmptyPrefixIsMaximal(d, Strip(d, p));
    if n < d {
      assert Strip(d, p)[0] == ExtendPath(d, p)[n];
    }
  }

  predicate IsLegacyDeltaForm(d: nat, logs: seq<StorageLogMetadata>) {
    |logs| > 0 && |logs[0].merklePath| == d
  }

  /** The wire forms that normalisation accepts. */
  predicate Normalizable(d: nat, logs: seq<StorageLogMetadata>) {
    && (forall i :: 0 <= i < |logs| ==> |logs[i].merklePath| <= d)
    && (IsLegacyDeltaForm(d, logs) ==> EmptyPrefixLen(d, logs[0].merklePath) > 0)
  }

  /** What a stored path of an accepted witness stands for at full depth, in either wire form. */
  ghost function Meaning(d: nat, logs: seq<StorageLogMetadata>, i: nat): seq<Hash>
    requires Normalizable(d, logs) && i < |logs|
  {
    var path := logs[i].merklePath;
    if IsLegacyDeltaForm(d, logs) then logs[0].merklePath[..d - |path|] + path else ExtendPath(d, path)
  }

  /** Entry `i` with the populated part of its cut prefix put back from entry 0. */
  function Respliced(d: nat, logs: seq<StorageLogMetadata>, i: nat): seq<Hash>
    requires Normalizable(d, logs) && i < |logs|
  {
    var path := logs[i].merklePath;
    var populatedFrom := EmptyPrefixLen(d, logs[0].merklePath);
    if IsLegacyDeltaForm(d, logs) && i > 0 && d - |path| > populatedFrom then
      logs[0].merklePath[populatedFrom..d - |path|] + path
    else path
  }

  function AllRespliced(d: nat, logs: seq<StorageLogMetadata>): seq<StorageLogMetadata>
    requires Normalizable(d, logs)
  {
    seq(|logs|, i requires 0 <= i < |logs| => logs[i].(merklePath := Respliced(d, logs, i)))
  }

  /** The form that pushing the paths one by one builds. */
  function PerPath(d: nat, logs: seq<StorageLogMetadata>): seq<StorageLogMetadata> {
    seq(|logs|, i requires 0 <= i < |logs| => logs[i].(merklePath := Strip(d, logs[i].merklePath)))
  }

  function Normalized(d: nat, logs: seq<StorageLogMetadata>): seq<StorageLogMetadata>
    requires Normalizable(d, logs)
  {
    PerPath(d, AllRespliced(d, logs))
  }

  function Stored(logs: seq<StorageLogMetadata>, n: nat): nat
    requires n <= |logs|
  {
    if n == 0 then 0 else Stored(logs, n - 1) + |logs[n - 1].merklePath|
  }

  function Restored(d: nat, logs: seq<StorageLogMetadata>, n: nat): nat
    requires Normalizable(d, logs) && n <= |logs|
  {
    if n == 0 then 0
    else Restored(d, logs, n - 1) + |Respliced(d, logs, n - 1)| - |logs[n - 1].merklePath|
  }

  function Padding(d: nat, logs: seq<StorageLogMetadata>, n: nat): nat
    requires n <= |logs|
  {
    if n == 0 then 0 else Padding(d, logs, n - 1) + EmptyPrefixLen(d, logs[n - 1].merklePath)
  }

  function Reclaimed(d: nat, logs: seq<StorageLogMetadata>, n: nat): nat
    requires Normalizable(d, logs) && n <= |logs|
  {
    Padding(d, AllRespliced(d, logs), n)
  }

  method TrimPath(d: nat, path: seq<Hash>) returns (trimmed: seq<Hash>, dropped: nat)
    ensures trimmed == Strip(d, path)
    ensures dropped == EmptyPrefixLen(d, path) == |path| - |trimmed|
  {
    trimmed, dropped := path, EmptyPrefixLen(d, path);
    if dropped > 0 {
      trimmed := path[dropped..];
    }
  }

  class WitnessInputMerklePaths {
    const depth: nat
    const nextEnumerationIndex: nat
    var merklePaths: seq<StorageLogMetadata>

    constructor (depth: nat, nextEnumerationIndex: nat)
      ensures this.depth == depth && this.nextEnumerationIndex == nextEnumerationIndex
      ensures merklePaths == []
    {
      this.depth, this.nextEnumerationIndex := depth, nextEnumerationIndex;
      merklePaths := [];
    }

    method PushMerklePath(path: StorageLogMetadata)
      modifies this
      ensures merklePaths == old(merklePaths) + [path.(merklePath := Strip(depth, path.merklePath))]
      ensures |path.merklePath| > depth ==> merklePaths == old(merklePaths) + [path]
    {
      var trimmed, _ := TrimPath(depth, path.merklePath);
      merklePaths := merklePaths + [path.(merklePath := trimmed)];
    }

    /** Rewrites every stored path in place; a rejected witness is left as it was. */
    method NormalizeStoredPaths() returns (r: Result<(nat, nat), WireError>)
      modifies this
      ensures r.Ok? <==> Normalizable(depth, old(merklePaths))
      ensures r.Err? ==> merklePaths == old(merklePaths)
      ensures r.Ok? ==>
        var was := old(merklePaths);
        && merklePaths == Normalized(depth, was)
        && r.value == (Reclaimed(depth, was, |was|), Restored(depth, was, |was|))
    {
      for i := 0 to |merklePaths|
        invariant forall j :: 0 <= j < i ==> |merklePaths[j].merklePath| <= depth
      {
        if |merklePaths[i].merklePath| > depth {
          return Err(PathTooLong);
        }
      }
      var restored := 0;
      if IsLegacyDeltaForm(depth, merklePaths) {
        if EmptyPrefixLen(depth, merklePaths[0].merklePath) == 0 {
          return Err(NotPaddedLegacyForm);
        }
        restored := RestorePrefixes();
      } else {
        NothingRestored(depth, merklePaths, |merklePaths|);
      }
      assert merklePaths == AllRespliced(depth, old(merklePaths));
      var reclaimed := ReclaimPadding();
      r := Ok((reclaimed, restored));
    }

    /** First loop: put back what the delta encoder cut, reading entry 0 before anything changes. */
    method RestorePrefixes() returns (restored: nat)
      requires Normalizable(depth, merklePaths) && IsLegacyDeltaForm(depth, merklePaths)
      modifies this
      ensures merklePaths == AllRespliced(depth, old(merklePaths))
      ensures restored == Restored(depth, old(merklePaths), |old(merklePaths)|)
    {
      hide EmptyPrefixLen, Restored, Respliced;
      var prefix := merklePaths[0].merklePath;
      var populatedFrom := EmptyPrefixLen(depth, prefix);
      ghost var was := merklePaths;
      restored := 0;
      RestoredStep(depth, was, 0);
      for i := 1 to |merklePaths|
        invariant |merklePaths| == |was|
        invariant forall j :: 0 <= j < i ==> merklePaths[j] == was[j].(merklePath := Respliced(depth, was, j))
        invariant forall j :: i <= j < |was| ==> merklePaths[j] == was[j]
        invariant restored == Restored(depth, was, i)
      {
        RestoredStep(depth, was, i);
        var log := merklePaths[i];
        var firstUnique := depth - |log.merklePath|;
        if firstUnique > populatedFrom {
          merklePaths := merklePaths[i := log.(merklePath := prefix[populatedFrom..firstUnique] + log.merklePath)];
          restored := restored + firstUnique - populatedFrom;
        }
      }
    }

    /** Second loop: drop every path's leading empty-subtree run. */
    method ReclaimPadding() returns (reclaimed: nat)
      modifies this
      ensures merklePaths == PerPath(depth, old(merklePaths))
      ensures reclaimed == Padding(depth, old(merklePaths), |old(merklePaths)|)
    {
      hide EmptyPrefixLen, Strip;
      reclaimed := 0;
      ghost var was := merklePaths;
      for i := 0 to |merklePaths|
        invariant |merklePaths| == |was|
        invariant forall j :: 0 <= j < i ==> merklePaths[j] == PerPath(depth, was)[j]
        invariant forall j :: i <= j < |was| ==> merklePaths[j] == was[j]
        invariant reclaimed == Padding(depth, was, i)
      {
        var log := merklePaths[i];
        assert log == was[i];
        var trimmed, emptyPrefix := TrimPath(depth, log.merklePath);
        merklePaths := merklePaths[i := log.(merklePath := trimmed)];
        reclaimed := reclaimed + emptyPrefix;
        assert merklePaths[i] == PerPath(depth, was)[i];
      }
    }
  }

  /** What the first loop does to entry `i` of a legacy witness, entry 0 being kept whole. */
  lemma RestoredStep(d: nat, logs: seq<StorageLogMetadata>, i: nat)
    requires Normalizable(d, logs) && IsLegacyDeltaForm(d, logs) && i < |logs|
    ensures i == 0 ==> Restored(d, logs, 0) == 0
    ensures Restored(d, logs, i + 1) == Restored(d, logs, i) + |Respliced(d, logs, i)| - |logs[i].merklePath|
    ensures var path, populatedFrom := logs[i].merklePath, EmptyPrefixLen(d, logs[0].merklePath);
      Respliced(d, logs, i) ==
        if i > 0 && d - |path| > populatedFrom then logs[0].merklePath[populatedFrom..d - |path|] + path else path
  {
  }

  lemma {:induction false} NothingRestored(d: nat, logs: seq<StorageLogMetadata>, n: nat)
    requires Normalizable(d, logs) && !IsLegacyDeltaForm(d, logs) && n <= |logs|
    ensures Restored(d, logs, n) == 0
  {
    if n == 0 {
    } else {
      NothingRestored(d, logs, n - 1);
    }
  }

  lemma {:induction false} RespliceKeepsMeaning(d: nat, logs: seq<StorageLogMetadata>, i: nat)
    requires Normalizable(d, logs) && i < |logs|
    ensures |Respliced(d, logs, i)| <= d
    ensures ExtendPath(d, Respliced(d, logs, i)) == Meaning(d, logs, i)
  {
    hide EmptyPrefixLen, ExtendPath;
    if IsLegacyDeltaForm(d, logs) {
      ResplicedPath(d, logs[0].merklePath, logs[i].merklePath);
    }
  }

  /** Putting back only the populated part of a cut prefix is enough: the fold regenerates the rest. */
  lemma {:induction false} ResplicedPath(d: nat, base: seq<Hash>, path: seq<Hash>)
    requires |path| <= d == |base|
    ensures var cut, populatedFrom := d - |path|, EmptyPrefixLen(d, base);
      var spliced := if cut > populatedFrom then base[populatedFrom..cut] + path else path;
      |spliced| <= d && ExtendPath(d, spliced) == base[..cut] + path
  {
    EmptyPrefixIsMaximal(d, base);
    hide EmptyPrefixLen;
    var cut, populatedFrom := d - |path|, EmptyPrefixLen(d, base);
    if cut <= populatedFrom {
      assert ExtendPath(d, path) == base[..cut] + path;
    } else {
      var spliced := base[populatedFrom..cut] + path;
      assert ExtendPath(d, spliced)[..populatedFrom] == base[..populatedFrom];
      assert ExtendPath(d, spliced) == base[..populatedFrom] + spliced;
    }
  }

  /** Every entry of an accepted witness, in either form, keeps its full-depth meaning and all other fields. */
  lemma {:induction false} NormalizeKeepsMeaning(d: nat, logs: seq<StorageLogMetadata>, i: nat)
    requires Normalizable(d, logs) && i < |logs|
    ensures |Normalized(d, logs)[i].merklePath| <= d
    ensures ExtendPath(d, Normalized(d, logs)[i].merklePath) == Meaning(d, logs, i)
    ensures Normalized(d, logs)[i].(merklePath := logs[i].merklePath) == logs[i]
  {
    RespliceKeepsMeaning(d, logs, i);
    StripKeepsMeaning(d, Respliced(d, logs, i));
  }

  lemma {:induction false} NoPaddingLeft(d: nat, logs: seq<StorageLogMetadata>, n: nat)
    requires n <= |logs|
    requires forall i :: 0 <= i < |logs| ==> EmptyPrefixLen(d, logs[i].merklePath) == 0
    ensures Padding(d, logs, n) == 0
  {
    if n == 0 {
    } else {
      NoPaddingLeft(d, logs, n - 1);
    }
  }

  /** A normalised witness passes the length and legacy-form guards of the fold and is a fixed point. */
  lemma {:induction false} NormalizeIsIdempotent(d: nat, logs: seq<StorageLogMetadata>)
    requires Normalizable(d, logs)
    ensures var out := Normalized(d, logs);
      && Normalizable(d, out) && !IsLegacyDeltaForm(d, out)
      && (|out| > 0 ==> |out[0].merklePath| < d)
      && Normalized(d, out) == out
      && Reclaimed(d, out, |out|) == 0 && Restored(d, out, |out|) == 0
  {
    var out := Normalized(d, logs);
    forall i | 0 <= i < |out|
      ensures |out[i].merklePath| <= d && EmptyPrefixLen(d, out[i].merklePath) == 0
    {
      NormalizeKeepsMeaning(d, logs, i);
      StripIsCanonical(d, Respliced(d, logs, i), Respliced(d, logs, i));
    }
    NothingRestored(d, out, |out|);
    assert AllRespliced(d, out) == out;
    NoPaddingLeft(d, out, |out|);
  }

  lemma {:induction false} StrippingConservesHashes(d: nat, logs: seq<StorageLogMetadata>, n: nat)
    requires n <= |logs|
    ensures Stored(PerPath(d, logs), n) + Padding(d, logs, n) == Stored(logs, n)
  {
    hide EmptyPrefixLen;
    if n == 0 {
    } else {
      StrippingConservesHashes(d, logs, n - 1);
    }
  }

  lemma {:induction false} RestoringAddsHashes(d: nat, logs: seq<StorageLogMetadata>, n: nat)
    requires Normalizable(d, logs) && n <= |logs|
    ensures Stored(AllRespliced(d, logs), n) == Stored(logs, n) + Restored(d, logs, n)
  {
    if n == 0 {
    } else {
      RestoringAddsHashes(d, logs, n - 1);
    }
  }

  /** Hashes are neither lost nor invented: what is stored after equals before plus restored less reclaimed. */
  lemma {:induction false} NormalizeConservesHashes(d: nat, logs: seq<StorageLogMetadata>)
    requires Normalizable(d, logs)
    ensures Stored(Normalized(d, logs), |logs|) + Reclaimed(d, logs, |logs|)
         == Stored(logs, |logs|) + Restored(d, logs, |logs|)
  {
    StrippingConservesHashes(d, AllRespliced(d, logs), |logs|);
    RestoringAddsHashes(d, logs, |logs|);
  }

  // ----- the legacy encoder

  /** Position of the first difference, or the common length when there is none. */
  function CommonPrefix(p: seq<Hash>, q: seq<Hash>): (n: nat)
    requires |p| == |q|
    ensures n <= |p| && p[..n] == q[..n]
    ensures n < |p| ==> p[n] != q[n]
  {
    if |p| > 0 && p[0] == q[0] then
      var n := 1 + CommonPrefix(p[1..], q[1..]);
      assert p[..n] == [p[0]] + p[1..][..n - 1] && q[..n] == [q[0]] + q[1..][..n - 1];
      n
    else 0
  }

  ghost predicate FullDepth(d: nat, logs: seq<StorageLogMetadata>) {
    forall i :: 0 <= i < |logs| ==> |logs[i].merklePath| == d
  }

  ghost function LegacyEncoded(d: nat, logs: seq<StorageLogMetadata>): seq<StorageLogMetadata>
    requires |logs| > 0 && FullDepth(d, logs)
  {
    seq(|logs|, i requires 0 <= i < |logs| =>
      if i == 0 then logs[0]
      else logs[i].(merklePath := logs[i].merklePath[CommonPrefix(logs[i].merklePath, logs[0].merklePath)..]))
  }

  /** Every path at full depth; an over-long one passes through. */
  function Expanded(d: nat, logs: seq<StorageLogMetadata>): seq<StorageLogMetadata> {
    seq(|logs|, i requires 0 <= i < |logs| =>
      if |logs[i].merklePath| < d then logs[i].(merklePath := ExtendPath(d, logs[i].merklePath)) else logs[i])
  }

  /**
   A witness the legacy encoder wrote is accepted exactly when its first path is padded, and is
   then read back as the per-path form and expands to the original paths, wherever the
   common prefixes ended.
   */
  lemma {:induction false} LegacyRoundTrip(d: nat, logs: seq<StorageLogMetadata>)
    requires |logs| > 0 && FullDepth(d, logs)
    ensures IsLegacyDeltaForm(d, LegacyEncoded(d, logs))
    ensures Normalizable(d, LegacyEncoded(d, logs)) <==> EmptyPrefixLen(d, logs[0].merklePath) > 0
    ensures EmptyPrefixLen(d, logs[0].merklePath) > 0 ==>
      && Normalized(d, LegacyEncoded(d, logs)) == PerPath(d, logs)
      && Expanded(d, Normalized(d, LegacyEncoded(d, logs))) == logs
  {
    if EmptyPrefixLen(d, logs[0].merklePath) > 0 {
      forall i | 0 <= i < |logs|
        ensures Normalized(d, LegacyEncoded(d, logs))[i] == PerPath(d, logs)[i]
        ensures Expanded(d, PerPath(d, logs))[i] == logs[i]
      {
        DecodedEntry(d, logs, i);
        ExpandedEntry(d, logs, i);
      }
    }
  }

  lemma {:induction false} DecodedEntry(d: nat, logs: seq<StorageLogMetadata>, i: nat)
    requires i < |logs| && FullDepth(d, logs)
    requires EmptyPrefixLen(d, logs[0].merklePath) > 0
    ensures Normalized(d, LegacyEncoded(d, logs))[i] == PerPath(d, logs)[i]
  {
    var wire := LegacyEncoded(d, logs);
    var path := logs[i].merklePath;
    RespliceKeepsMeaning(d, wire, i);
    DecodedPath(d, logs, i);
    assert ExtendPath(d, path) == path;
    StripIsCanonical(d, Respliced(d, wire, i), path);
    assert Normalized(d, wire)[i] == wire[i].(merklePath := Strip(d, Respliced(d, wire, i)));
  }

  lemma {:induction false} ExpandedEntry(d: nat, logs: seq<StorageLogMetadata>, i: nat)
    requires i < |logs| && FullDepth(d, logs)
    ensures Expanded(d, PerPath(d, logs))[i] == logs[i]
  {
    var path := logs[i].merklePath;
    StripKeepsMeaning(d, path);
    assert ExtendPath(d, path) == path;
    assert |Strip(d, path)| == d ==> Strip(d, path) == path;
  }

  lemma {:induction false} DecodedPath(d: nat, logs: seq<StorageLogMetadata>, i: nat)
    requires i < |logs| && FullDepth(d, logs)
    requires EmptyPrefixLen(d, logs[0].merklePath) > 0
    ensures Meaning(d, LegacyEncoded(d, logs), i) == logs[i].merklePath
  {
    var path := logs[i].merklePath;
    if i > 0 {
      var n := CommonPrefix(path, logs[0].merklePath);
      assert path == path[..n] + path[n..];
    }
  }
}
