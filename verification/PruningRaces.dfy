/**
 Two schedules in which a truncation meets a prune under way and goes wrong (the accesses of
 `prune_up_to` in crates/merkle_tree/src/pruning.rs against `truncate_recent_versions` in
 crates/merkle_tree/src/lib.rs). Both start from an empty database.
 */
module PruningRaces {
  import opened Wrappers
  import opened VersionedStore
  import opened Pruning

  // ----- runs from an empty database

  /** Writing single-node trees, one version each. */
  ghost function WriteSteps(roots: seq<Stored>): seq<Step> {
    seq(|roots|, i requires 0 <= i < |roots| => Step.Extend(RootOnly(roots[i], i), RecordedFor(roots, i)))
  }

  lemma {:induction false} WritingLeads(limit: nat, roots: seq<Stored>)
    requires forall i :: 0 <= i < |roots| ==> IsLoneRoot(roots[i])
    ensures Leads(limit, START, WriteSteps(roots), State(RootOnlyStore(roots), Idle))
  {
    hide Leads, IsLoneRoot, ExtendsHistory, Inv, RootOnly, RecordedRoot, Extended;
    if roots == [] {
      LeadsNowhere(limit, START);
    } else {
      var last := |roots| - 1;
      var front := roots[..last];
      WritingLeads(limit, front);
      RootOnlyStoreIsExact(front);
      var prev := if last == 0 then EmptyRoot else roots[last - 1];
      ExtendRootOnly(RootOnlyStore(front), prev, roots[last]);
      var step := Step.Extend(RootOnly(roots[last], last), RecordedFor(roots, last));
      assert WriteSteps(roots) == WriteSteps(front) + [step];
      LeadsOn(limit, START, WriteSteps(front), State(RootOnlyStore(front), Idle), step);
    }
  }

  lemma {:induction false} AfterConcat(s: State, a: seq<Step>, b: seq<Step>, n: nat)
    requires n <= |b|
    ensures After(s, a + b, |a| + n) == After(After(s, a, |a|), b, n)
  {
    hide Next;
    if n == 0 {
      AfterFront(s, a, b, |a|);
    } else {
      AfterConcat(s, a, b, n - 1);
    }
  }

  lemma {:induction false} RunThen(limit: nat, s: State, a: seq<Step>, s': State, b: seq<Step>)
    requires Leads(limit, s, a, s') && Run(limit, s', b)
    ensures Leads(limit, s, a + b, After(s', b, |b|))
  {
    hide Enabled, After;
    forall i {:trigger After(s, a + b, i)} | 0 <= i < |a + b|
      ensures Enabled(limit, After(s, a + b, i), (a + b)[i])
    {
      if i < |a| {
        AfterFront(s, a, b, i);
        assert After(s, a, i) == After(s, a + b, i);
      } else {
        AfterConcat(s, a, b, i - |a|);
        assert After(s', b, i - |a|) == After(s, a + b, i);
      }
    }
    AfterConcat(s, a, b, |b|);
  }

  /** The steps of `a` and then those of `b`. */
  lemma {:induction false} LeadsThen(limit: nat, s: State, a: seq<Step>, s': State, b: seq<Step>, s'': State)
    requires Leads(limit, s, a, s') && Leads(limit, s', b, s'')
    ensures Leads(limit, s, a + b, s'')
  {
    RunThen(limit, s, a, s', b);
  }

  // ----- a gap

  /** Back at version 0, versions 1, 2 and 3 are written anew: empty, filled, filled. */
  lemma {:induction false} GapRewrites(limit: nat, s: State) returns (steps: seq<Step>, s': State)
    requires Inv(s.store) && s.store.views == [RootOnly(EmptyRoot, 0)] && RecordsAt(s.store.stale, 0) == []
    ensures Leads(limit, s, steps, s') && Inv(s'.store) && s'.pruner == s.pruner && s'.store.pruned == s.store.pruned
    ensures |s'.store.views| == 4 && RootOf(s'.store.views[2], 2) == ONE_LEAF
    ensures RecordsAt(s'.store.stale, 1) != [] && RecordsAt(s'.store.stale, 2) == []
    ensures RecordsAt(s'.store.stale, 3) == [RootKey(2)]
  {
    hide Inv, RootOnly, ExtendsHistory, NodesWith, Leads;
    var a, b, c := RootOnly(EmptyRoot, 1), RootOnly(ONE_LEAF, 2), RootOnly(ONE_LEAF, 3);
    LeadsNowhere(limit, s);
    ExtendRootOnly(s.store, EmptyRoot, EmptyRoot);
    var s1 := State(Extended(s.store, a, [RootKey(0)]), s.pruner);
    LeadsOn(limit, s, [], s, Step.Extend(a, [RootKey(0)]));
    ExtendRootOnly(s1.store, EmptyRoot, ONE_LEAF);
    var s2 := State(Extended(s1.store, b, []), s.pruner);
    LeadsOn(limit, s, [] + [Step.Extend(a, [RootKey(0)])], s1, Step.Extend(b, []));
    ExtendRootOnly(s2.store, ONE_LEAF, ONE_LEAF);
    s' := State(Extended(s2.store, c, [RootKey(2)]), s.pruner);
    steps := [] + [Step.Extend(a, [RootKey(0)])] + [Step.Extend(b, [])];
    LeadsOn(limit, s, steps, s2, Step.Extend(c, [RootKey(2)]));
    steps := steps + [Step.Extend(c, [RootKey(2)])];
    RootOfLone(ONE_LEAF, 2);
  }

  lemma RootOfLone(node: Stored, version: nat)
    ensures RootOf(RootOnly(node, version), version) == node
  {
  }

  /** The rest of a prune of versions 2 and 3, without interruption. */
  lemma {:induction false} PruneTwoAndThree(limit: nat, s: State) returns (steps: seq<Step>, s': State)
    requires Inv(s.store) && s.pruner == FoundMin(3, 2) && |s.store.views| == 4 && limit > 0
    requires RecordsAt(s.store.stale, 2) == [] && RecordsAt(s.store.stale, 3) == [RootKey(2)]
    ensures Leads(limit, s, steps, s')
    ensures s'.store == Pruned(s.store, PrunePatch([RootKey(2)], 2, 4))
  {
    hide Pruned, RecordsAt, Leads, Inv;
    var s1, s2 := State(s.store, Collecting(2, 3, 2, [])), State(s.store, Collecting(2, 3, 3, []));
    var s3 := State(s.store, Collecting(2, 3, 4, [RootKey(2)]));
    assert [] + RecordsAt(s.store.stale, 2) == [] && [] + RecordsAt(s.store.stale, 3) == [RootKey(2)];
    LeadsNowhere(limit, s);
    LeadsOn(limit, s, [], s, ReadManifest);
    LeadsOn(limit, s, [] + [ReadManifest], s1, ReadRecords);
    LeadsOn(limit, s, [] + [ReadManifest] + [ReadRecords], s2, ReadRecords);
    steps := [] + [ReadManifest] + [ReadRecords] + [ReadRecords];
    LeadsOn(limit, s, steps, s3, WritePatch);
    s' := Next(s3, WritePatch);
    steps := steps + [WritePatch];
  }

  /**
   A permitted run from an empty database, though not a calm one. The pruner reads 2 as the least
   stale version; the tree goes back to version 0 and writes versions 1, 2 and 3 anew; the record of
   version 1 is then below what is pruned. The reported version 0 is readable, but version 2 is lost.
   */
  lemma {:induction false} TruncationCanLeaveGap(limit: nat) returns (steps: seq<Step>)
    requires limit > 0
    ensures Run(limit, START, steps) && !Calm(START, steps)
    ensures var s := After(START, steps, |steps|).store;
      FirstRetained(s) == Some(0) && !Readable(s, 2)
  {
    hide RootOnlyStore, RootOnly, MinStale, Inv, Readable, Leads, Pruned, Extended;
    var roots := [EmptyRoot, ONE_LEAF, ONE_LEAF];
    var s0 := State(RootOnlyStore(roots), Idle);
    WritingLeads(limit, roots);
    RootOnlyStoreIsExact(roots);
    RootOnlyRecords(roots, 0);
    RootOnlyRecords(roots, 1);
    RootOnlyRecords(roots, 2);
    MinStaleIsLeast(s0.store);
    var s1 := State(s0.store, FoundMin(3, 2));
    LeadsOn(limit, START, WriteSteps(roots), s0, ReadMin(3));
    var first := WriteSteps(roots) + [ReadMin(3)];
    PrunedUpToIsReadable(s0.store, 0);
    TruncationIsExact(s0.store, 1);
    var s2 := State(Truncated(s0.store, 1), FoundMin(3, 2));
    LeadsOn(limit, START, first, s1, Truncate(1));
    var second, s3 := GapRewrites(limit, s2);
    LeadsThen(limit, START, first + [Truncate(1)], s2, second, s3);
    var third, s4 := PruneTwoAndThree(limit, s3);
    LeadsThen(limit, START, first + [Truncate(1)] + second, s3, third, s4);
    steps := first + [Truncate(1)] + second + third;
    GapIsReported(limit, s3.store, steps, s4);
    NotCalm(limit, first, s1, second + third, steps);
  }

  lemma {:induction false} GapIsReported(limit: nat, s: Store, steps: seq<Step>, end: State)
    requires Leads(limit, START, steps, end) && end.store == Pruned(s, PrunePatch([RootKey(2)], 2, 4))
    requires Inv(s) && |s.views| == 4 && RootOf(s.views[2], 2) == ONE_LEAF && RecordsAt(s.stale, 1) != []
    ensures Run(limit, START, steps) && After(START, steps, |steps|) == end
    ensures FirstRetained(end.store) == Some(0) && !Readable(end.store, 2)
  {
    hide Inv, Readable, MinStale, After, Run;
    StartIsFine();
    RunKeepsInv(limit, START, steps, |steps|);
    var after := end.store;
    assert 3 in after.pruned && RecordsAt(after.stale, 1) == RecordsAt(s.stale, 1);
    PrunedSuccessor(after, 2);
    MinStaleIsLeast(after);
  }

  lemma {:induction false} NotCalm(limit: nat, first: seq<Step>, s: State, rest: seq<Step>, steps: seq<Step>)
    requires Leads(limit, START, first, s) && s.pruner.FoundMin? && steps == first + [Truncate(1)] + rest
    ensures !Calm(START, steps)
  {
    hide Run;
    AfterFront(START, first, [Truncate(1)] + rest, |first|);
    assert steps == first + ([Truncate(1)] + rest);
    assert steps[|first|] == Truncate(1) && After(START, steps, |first|) == s;
  }

  // ----- a forgotten record

  /** The store at the end: version 2's new record is gone although its node is not. */
  ghost function Forgetful(s: Store): Store {
    Pruned(Extended(Truncated(s, 2), RootOnly(ONE_LEAF, 2), [RootKey(1)]), PrunePatch([RootKey(0)], 1, 3))
  }

  /** The pruner finds nothing for version 2, the tree writes version 2 anew, the pruner writes. */
  lemma {:induction false} ForgetGoesOn(limit: nat, s: Store) returns (steps: seq<Step>)
    requires Inv(s) && |s.views| == 3 && s.pruned == {} && limit > 1 && s.views[1] == RootOnly(ONE_LEAF, 1)
    ensures Leads(limit, State(Truncated(s, 2), Collecting(1, 2, 2, [RootKey(0)])), steps, State(Forgetful(s), Idle))
  {
    hide Inv, RootOnly, ExtendsHistory, Leads, Pruned, Extended;
    var s0 := State(Truncated(s, 2), Collecting(1, 2, 2, [RootKey(0)]));
    var write := Step.Extend(RootOnly(ONE_LEAF, 2), [RootKey(1)]);
    PrunedUpToIsReadable(s, 1);
    TruncationIsExact(s, 2);
    ExtendRootOnly(s0.store, ONE_LEAF, ONE_LEAF);
    assert [RootKey(0)] + RecordsAt(s0.store.stale, 2) == [RootKey(0)];
    var s1 := State(s0.store, Collecting(1, 2, 3, [RootKey(0)]));
    LeadsNowhere(limit, s0);
    LeadsOn(limit, s0, [], s0, ReadRecords);
    LeadsOn(limit, s0, [] + [ReadRecords], s1, write);
    steps := [] + [ReadRecords] + [write];
    LeadsOn(limit, s0, steps, Next(s1, write), WritePatch);
    steps := steps + [WritePatch];
  }

  lemma {:induction false} ForgottenFirst(s: Store)
    requires |s.views| == 3 && RecordsAt(s.stale, 0) == []
    ensures FirstRetained(Forgetful(s)) == Some(2)
  {
    hide RootOnly, NodesWith;
    var end := Forgetful(s);
    LeastRecordIsLeast(end.stale, 0, 3);
    assert RecordsAt(end.stale, 0) == [] && RecordsAt(end.stale, 1) == [] && RecordsAt(end.stale, 2) == [];
  }

  lemma {:induction false} ForgottenIsReadable(s: Store)
    requires Inv(s) && |s.views| == 3 && s.pruned == {} && s.views[1] == RootOnly(ONE_LEAF, 1)
    ensures Readable(Forgetful(s), 1) && !Orphan(Forgetful(s).views, 1)
  {
    hide History, RecordsExact, ContentsExact, ReadableIn;
    var end := Forgetful(s);
    assert end.views[1] == RootOnly(ONE_LEAF, 1);
    assert RootOf(end.views[1], 1) == ONE_LEAF;
    StoredUnlessLost(s, 1, RootKey(1));
    assert RootKey(1) in end.nodes && end.nodes[RootKey(1)] == ONE_LEAF;
    hide Inv;
    RootOnlyIsTree(ONE_LEAF, 1);
    hide TreeOf;
    ReadableIffIncluded(end.nodes, end.views[1], 1);
  }

  /**
   A run from an empty database with a truncation to version 1, which is readable and beyond which
   nothing was gathered, but not permitted because the pruner aims at version 2. In the end version 2
   is reported as the first, although version 1 is readable and no orphan, and no prune will ever
   delete it.
   */
  lemma {:induction false} TruncationCanForget(limit: nat) returns (before: seq<Step>, after: seq<Step>)
    requires limit > 1
    ensures Run(limit, START, before)
    ensures var s := After(START, before, |before|);
      && StateInv(s) && s.pruner == Collecting(1, 2, 2, [RootKey(0)])
      && Readable(s.store, 1) && !MayTruncate(s, 2)
      && Run(limit, Next(s, Truncate(2)), after)
      && var end := After(Next(s, Truncate(2)), after, |after|).store;
         FirstRetained(end) == Some(2) && Readable(end, 1) && !Orphan(end.views, 1) && !Inv(end)
  {
    hide RootOnlyStore, RootOnly, MinStale, Inv, Readable, Orphan, FirstRetained, Forgetful, After, Run;
    var roots := [ONE_LEAF, ONE_LEAF, ONE_LEAF];
    var s0 := State(RootOnlyStore(roots), Idle);
    WritingLeads(limit, roots);
    RootOnlyStoreIsExact(roots);
    RootOnlyRecords(roots, 0);
    RootOnlyRecords(roots, 1);
    MinStaleIsLeast(s0.store);
    LeadsOn(limit, START, WriteSteps(roots), s0, ReadMin(2));
    before := WriteSteps(roots) + [ReadMin(2)];
    LeadsOn(limit, START, before, State(s0.store, FoundMin(2, 1)), ReadManifest);
    before := before + [ReadManifest];
    assert [] + RecordsAt(s0.store.stale, 1) == [RootKey(0)];
    LeadsOn(limit, START, before, State(s0.store, Collecting(1, 2, 1, [])), ReadRecords);
    before := before + [ReadRecords];
    StartIsFine();
    RunKeepsInv(limit, START, before, |before|);
    PrunedUpToIsReadable(s0.store, 1);
    after := ForgetGoesOn(limit, s0.store);
    ForgottenFirst(s0.store);
    ForgottenIsReadable(s0.store);
    if Inv(Forgetful(s0.store)) {
      FirstRetainedIsExact(Forgetful(s0.store));
    }
  }
}
