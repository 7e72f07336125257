/**
 The pruner as it runs beside the tree (crates/merkle_tree/src/pruning.rs and the pruning part of
 crates/merkle_tree/src/lib.rs). A prune is several database accesses: read the least stale
 version, read the manifest, read the records of one version after the other, write. The tree
 thread may extend or truncate between any two of them, so a whole system is a run of single
 accesses; `Database` is the sequential code, each of whose accesses is one step of a run.
 */
module Pruning {
  import opened Wrappers
  import opened VersionedStore
  import Jellyfish

  type NodeKey = Jellyfish.NodeKey

  // ----- single steps

  /** Where the pruner is: `next` is the first version whose records were not read yet. */
  datatype Pruner =
    | Idle
    | FoundMin(target: nat, min: nat)
    | Collecting(min: nat, effective: nat, next: nat, keys: seq<NodeKey>)

  datatype State = State(store: Store, pruner: Pruner)

  datatype Step =
    | Extend(view: Nodes, replaced: seq<NodeKey>)
    | Truncate(count: nat)
    | ReadMin(target: nat)
    | ReadManifest
    | ReadRecords
    | WritePatch

  /** The collecting loop goes on: a version of the range is left and the key limit not reached. */
  predicate ReadsOn(limit: nat, p: Pruner)
    requires p.Collecting?
  {
    p.next <= p.effective && (p.next == p.min || |p.keys| < limit)
  }

  /**
   What the caller of a truncation has to see to: the version gone back to is readable, and a
   prune under way was not aimed beyond it.
   */
  ghost predicate MayTruncate(s: State, count: nat) {
    count < |s.store.views| ==>
      && (0 < count ==> Readable(s.store, count - 1))
      && (s.pruner.Collecting? ==> s.pruner.effective < count)
  }

  ghost predicate Enabled(limit: nat, s: State, step: Step) {
    match step
    case Extend(view, replaced) => ExtendsHistory(s.store.views, view, replaced)
    case Truncate(count) => MayTruncate(s, count)
    case ReadMin(_) => s.pruner.Idle?
    case ReadManifest => s.pruner.FoundMin?
    case ReadRecords => s.pruner.Collecting? && ReadsOn(limit, s.pruner)
    case WritePatch => s.pruner.Collecting? && !ReadsOn(limit, s.pruner)
  }

  ghost function PrunerNext(s: State, step: Step): Pruner {
    match (step, s.pruner)
    case (ReadMin(target), _) => if MinStale(s.store).Some? then FoundMin(target, MinStale(s.store).value) else Idle
    case (ReadManifest, FoundMin(target, min)) =>
      var effective := if |s.store.views| - 1 <= target then |s.store.views| - 1 else target;
      if s.store.views == [] || effective < min then Idle else Collecting(min, effective, min, [])
    case (ReadRecords, Collecting(min, effective, next, keys)) =>
      Collecting(min, effective, next + 1, keys + RecordsAt(s.store.stale, next))
    case (WritePatch, _) => Idle
    case _ => s.pruner
  }

  ghost function StoreNext(s: State, step: Step): Store {
    match (step, s.pruner)
    case (Extend(view, replaced), _) => Extended(s.store, view, replaced)
    case (Truncate(count), _) => Truncated(s.store, count)
    case (WritePatch, Collecting(min, _, next, keys)) =>
      if keys == [] then s.store else Pruned(s.store, PrunePatch(keys, min, next))
    case _ => s.store
  }

  ghost function Next(s: State, step: Step): State {
    State(StoreNext(s, step), PrunerNext(s, step))
  }

  // ----- what every step keeps

  /** What the pruner has read is still what the store records, and lies within the history. */
  ghost predicate PrunerInv(s: State) {
    match s.pruner
    case Idle => true
    case FoundMin(_, min) => 0 < min
    case Collecting(min, effective, next, keys) =>
      && 0 < min <= next <= effective + 1 && min <= effective < |s.store.views|
      && Gathered(s.store.stale, keys, min, next)
  }

  ghost predicate StateInv(s: State) {
    Inv(s.store) && PrunerInv(s)
  }

  lemma {:induction false} StepKeepsInv(limit: nat, s: State, step: Step)
    requires StateInv(s) && Enabled(limit, s, step)
    ensures StateInv(Next(s, step))
  {
    hide Inv, Readable, ExtendsHistory;
    match step
    case Extend(view, replaced) =>
      ExtendKeepsInv(s.store, view, replaced);
      if s.pruner.Collecting? {
        SameRecordsGathered(s.store.stale, Next(s, step).store.stale, s.pruner.keys, s.pruner.min, s.pruner.next);
      }
    case Truncate(count) =>
      TruncationIsExact(s.store, count);
      if s.pruner.Collecting? {
        SameRecordsGathered(s.store.stale, Next(s, step).store.stale, s.pruner.keys, s.pruner.min, s.pruner.next);
      }
    case ReadMin(_) =>
      MinStaleIsLeast(s.store);
    case ReadManifest =>
    case ReadRecords =>
      GatheredOneMore(s.store.stale, s.pruner.keys, s.pruner.min, s.pruner.next);
    case WritePatch =>
      PruneKeepsInv(s.store, PrunePatch(s.pruner.keys, s.pruner.min, s.pruner.next));
  }

  /**
   A truncation, at any point of a prune, leaves store and pruner in order if and only if it was
   permitted: what the pruner aims at must survive even if it has not read that far.
   */
  lemma {:induction false} TruncationStepIsExact(s: State, count: nat)
    requires StateInv(s)
    ensures StateInv(Next(s, Truncate(count))) <==> MayTruncate(s, count)
  {
    hide Inv, Readable;
    TruncationIsExact(s.store, count);
    if MayTruncate(s, count) {
      StepKeepsInv(0, s, Truncate(count));
    }
  }

  lemma {:induction false} SameRecordsGathered(stale: StaleKeys, stale': StaleKeys, keys: seq<NodeKey>, from: nat,
                                               to: nat)
    requires Gathered(stale, keys, from, to)
    requires forall v: nat :: from <= v < to ==> RecordsAt(stale, v) == RecordsAt(stale', v)
    ensures Gathered(stale', keys, from, to)
  {
    forall k
      ensures RecordedIn(stale, k, from, to) <==> RecordedIn(stale', k, from, to)
    {
    }
  }

  lemma {:induction false} GatheredOneMore(stale: StaleKeys, keys: seq<NodeKey>, from: nat, to: nat)
    requires from <= to && Gathered(stale, keys, from, to)
    ensures Gathered(stale, keys + RecordsAt(stale, to), from, to + 1)
  {
    forall k
      ensures RecordedIn(stale, k, from, to + 1) <==> RecordedIn(stale, k, from, to) || k in RecordsAt(stale, to)
    {
    }
  }

  // ----- whole runs

  ghost function After(s: State, steps: seq<Step>, n: nat): State
    requires n <= |steps|
  {
    if n == 0 then s else Next(After(s, steps, n - 1), steps[n - 1])
  }

  lemma AfterOneMore(s: State, steps: seq<Step>, n: nat)
    requires n <= |steps|
    ensures n == 0 ==> After(s, steps, n) == s
    ensures n < |steps| ==> After(s, steps, n + 1) == Next(After(s, steps, n), steps[n])
  {
  }

  /** Every step is possible in the state the steps before it lead to. */
  ghost predicate Run(limit: nat, s: State, steps: seq<Step>) {
    forall i {:trigger After(s, steps, i)} :: 0 <= i < |steps| ==> Enabled(limit, After(s, steps, i), steps[i])
  }

  lemma {:induction false} RunKeepsInv(limit: nat, s: State, steps: seq<Step>, n: nat)
    requires StateInv(s) && Run(limit, s, steps) && n <= |steps|
    ensures StateInv(After(s, steps, n))
  {
    hide StateInv, Enabled, Next;
    if n == 0 {
    } else {
      RunKeepsInv(limit, s, steps, n - 1);
      StepKeepsInv(limit, After(s, steps, n - 1), steps[n - 1]);
    }
  }

  lemma {:induction false} AfterFront(s: State, a: seq<Step>, b: seq<Step>, n: nat)
    requires n <= |a|
    ensures After(s, a + b, n) == After(s, a, n)
  {
    hide Next;
    if n == 0 {
    } else {
      AfterFront(s, a, b, n - 1);
    }
  }

  /** The steps lead from one state to another. */
  ghost predicate Leads(limit: nat, s: State, steps: seq<Step>, s': State) {
    Run(limit, s, steps) && After(s, steps, |steps|) == s'
  }

  lemma {:induction false} LeadsNowhere(limit: nat, s: State)
    ensures Leads(limit, s, [], s)
  {
    hide Enabled;
  }

  lemma {:induction false} LeadsOn(limit: nat, s: State, steps: seq<Step>, s': State, step: Step)
    requires Leads(limit, s, steps, s') && Enabled(limit, s', step)
    ensures Leads(limit, s, steps + [step], Next(s', step))
  {
    hide Enabled, Next;
    forall i {:trigger After(s, steps + [step], i)} | 0 <= i < |steps + [step]|
      ensures Enabled(limit, After(s, steps + [step], i), (steps + [step])[i])
    {
      AfterFront(s, steps, [step], i);
    }
    AfterFront(s, steps, [step], |steps|);
  }

  /** Every prune of the run is aimed at `target` or less. */
  ghost predicate TargetsUpTo(steps: seq<Step>, target: nat) {
    forall i :: 0 <= i < |steps| && steps[i].ReadMin? ==> steps[i].target <= target
  }

  /** Nothing above `target` is pruned or going to be. */
  ghost predicate Within(s: State, target: nat) {
    && (forall p :: p in s.store.pruned ==> p <= target)
    && match s.pruner
       case Idle => true
       case FoundMin(t, _) => t <= target
       case Collecting(_, effective, next, _) => next <= effective + 1 && effective <= target
  }

  lemma {:induction false} StepStaysWithin(limit: nat, s: State, step: Step, target: nat)
    requires Within(s, target) && Enabled(limit, s, step) && (step.ReadMin? ==> step.target <= target)
    ensures Within(Next(s, step), target)
  {
    hide ExtendsHistory, Readable;
  }

  lemma {:induction false} RunStaysWithin(limit: nat, s: State, steps: seq<Step>, target: nat, n: nat)
    requires Within(s, target) && TargetsUpTo(steps, target) && Run(limit, s, steps) && n <= |steps|
    ensures Within(After(s, steps, n), target)
  {
    hide Within, Enabled, Next;
    if n == 0 {
    } else {
      RunStaysWithin(limit, s, steps, target, n - 1);
      StepStaysWithin(limit, After(s, steps, n - 1), steps[n - 1], target);
    }
  }

  const START: State := State(NEW_STORE, Idle)

  lemma {:induction false} StartIsFine()
    ensures StateInv(START)
  {
    NewStoreIsExact();
  }

  /**
   The safety promise over every run: however extensions, truncations and the single accesses of
   prunes interleave, the latest version and all versions from the highest target on are readable.
   */
  lemma {:induction false} RunIsSafe(limit: nat, steps: seq<Step>, target: nat, n: nat, version: nat)
    requires Run(limit, START, steps) && TargetsUpTo(steps, target) && n <= |steps|
    requires var views := After(START, steps, n).store.views;
      version < |views| && (target <= version || version == |views| - 1)
    ensures StateInv(After(START, steps, n)) && Readable(After(START, steps, n).store, version)
  {
    hide After, Enabled, Readable;
    StartIsFine();
    RunKeepsInv(limit, START, steps, n);
    RunStaysWithin(limit, START, steps, target, n);
    PrunedUpToIsReadable(After(START, steps, n).store, version);
  }

  // ----- gaps

  /** No truncation comes between reading the least stale version and reading the manifest. */
  ghost predicate Calm(s: State, steps: seq<Step>) {
    forall i {:trigger After(s, steps, i)} ::
      0 <= i < |steps| && After(s, steps, i).pruner.FoundMin? ==> !steps[i].Truncate?
  }

  /** There is no gap, and the least stale version the pruner has read is still the least. */
  ghost predicate GapInv(s: State) {
    && Gapless(s.store)
    && match s.pruner
       case Idle => true
       case FoundMin(_, min) => StaleFrom(s.store.stale, min) && min < |s.store.views|
       case Collecting(min, _, _, _) => StaleFrom(s.store.stale, min)
  }

  lemma {:induction false} StepKeepsGapless(limit: nat, s: State, step: Step)
    requires StateInv(s) && GapInv(s) && Enabled(limit, s, step)
    requires s.pruner.FoundMin? ==> !step.Truncate?
    ensures GapInv(Next(s, step))
  {
    hide Readable, ExtendsHistory, History, ContentsExact, RecordsExact, Replaces, Gapless, NodesWith;
    match step
    case Extend(view, replaced) =>
      GaplessExtended(s.store, view, replaced);
    case Truncate(count) =>
      GaplessTruncated(s.store, count);
    case ReadMin(_) =>
      MinStaleIsLeast(s.store);
    case ReadManifest =>
    case ReadRecords =>
    case WritePatch =>
      GaplessPruned(s.store, PrunePatch(s.pruner.keys, s.pruner.min, s.pruner.next));
  }

  lemma {:induction false} GaplessExtended(s: Store, view: Nodes, replaced: seq<NodeKey>)
    requires Inv(s) && Gapless(s)
    ensures Gapless(Extended(s, view, replaced))
    ensures forall from: nat :: from <= |s.views| && StaleFrom(s.stale, from) ==>
      StaleFrom(Extended(s, view, replaced).stale, from)
  {
    hide History, ContentsExact, RecordsExact, Replaces, NodesWith;
    var after := Extended(s, view, replaced);
    assert forall v: nat :: v == |s.views| || RecordsAt(after.stale, v) == RecordsAt(s.stale, v);
    forall p, k, v: nat | p in after.pruned && Replaces(after.views, p, k) && v < p
      ensures RecordsAt(after.stale, v) == []
    {
      ReplacesIsLocal(s.views, [view], p, k);
      assert RecordsAt(s.stale, v) == [];
    }
  }

  lemma {:induction false} GaplessTruncated(s: Store, count: nat)
    requires Inv(s) && Gapless(s)
    ensures Gapless(Truncated(s, count))
    ensures forall from: nat :: StaleFrom(s.stale, from) ==> StaleFrom(Truncated(s, count).stale, from)
  {
    hide Inv, Replaces;
    var after := Truncated(s, count);
    if count < |s.views| {
      TruncatedRecords(s, count);
      assert forall v: nat :: RecordsAt(after.stale, v) in [[], RecordsAt(s.stale, v)];
      forall p, k, v: nat | p in after.pruned && Replaces(after.views, p, k) && v < p
        ensures RecordsAt(after.stale, v) == []
      {
        assert Replaces(s.views, p, k) && RecordsAt(s.stale, v) == [];
      }
    }
  }

  lemma {:induction false} GaplessPruned(s: Store, patch: PrunePatch)
    requires Gapless(s) && StaleFrom(s.stale, patch.from)
    ensures Gapless(Pruned(s, patch))
  {
    hide Replaces;
    var after := Pruned(s, patch);
    forall p, k, v: nat | p in after.pruned && Replaces(after.views, p, k) && v < p
      ensures RecordsAt(after.stale, v) == []
    {
      assert RecordsAt(after.stale, v) == if patch.Covers(v) then [] else RecordsAt(s.stale, v);
    }
  }

  lemma {:induction false} CalmRunIsGapless(limit: nat, s: State, steps: seq<Step>, n: nat)
    requires StateInv(s) && GapInv(s) && Run(limit, s, steps) && Calm(s, steps) && n <= |steps|
    ensures GapInv(After(s, steps, n))
  {
    hide StateInv, GapInv, Enabled, Next;
    if n == 0 {
    } else {
      CalmRunIsGapless(limit, s, steps, n - 1);
      RunKeepsInv(limit, s, steps, n - 1);
      StepKeepsGapless(limit, After(s, steps, n - 1), steps[n - 1]);
    }
  }

  /**
   In a calm run exactly the reported first version, all later ones and the orphaned empty roots
   are readable, at any time.
   */
  lemma {:induction false} CalmRunReportsReadable(limit: nat, steps: seq<Step>, n: nat, version: nat)
    requires Run(limit, START, steps) && Calm(START, steps) && n <= |steps|
    requires version < |After(START, steps, n).store.views|
    ensures var s := After(START, steps, n).store;
      && FirstRetained(s).Some?
      && (Readable(s, version) <==> FirstRetained(s).value <= version || Orphan(s.views, version))
  {
    hide After, Enabled, Readable, FirstRetained, Orphan;
    StartIsFine();
    RunKeepsInv(limit, START, steps, n);
    CalmRunIsGapless(limit, START, steps, n);
    FirstRetainedIsExact(After(START, steps, n).store);
  }

  // ----- progress

  /** How many of the versions 1 .. target are pruned. */
  ghost function PrunedCount(pruned: set<nat>, target: nat): (n: nat)
    ensures n <= target
  {
    if target == 0 then 0 else PrunedCount(pruned, target - 1) + if target in pruned then 1 else 0
  }

  lemma {:induction false} PrunedCountGrows(pruned: set<nat>, pruned': set<nat>, target: nat)
    requires pruned <= pruned'
    ensures PrunedCount(pruned, target) <= PrunedCount(pruned', target)
    ensures (exists v :: v in pruned' && v !in pruned && 0 < v <= target) ==>
      PrunedCount(pruned, target) < PrunedCount(pruned', target)
  {
    if target == 0 {
    } else {
      PrunedCountGrows(pruned, pruned', target - 1);
    }
  }

  /** How many of the first `n` steps deleted something. */
  ghost function Deletions(s: State, steps: seq<Step>, n: nat): nat
    requires n <= |steps|
  {
    if n == 0 then 0
    else
      var before := After(s, steps, n - 1).pruner;
      Deletions(s, steps, n - 1) + if steps[n - 1].WritePatch? && before.Collecting? && before.keys != [] then 1 else 0
  }

  /** No truncation goes back behind a pruned version. */
  ghost predicate KeepsPruned(s: State, steps: seq<Step>) {
    forall i, p {:trigger p in After(s, steps, i).store.pruned} ::
      0 <= i < |steps| && steps[i].Truncate? && p in After(s, steps, i).store.pruned ==> p < steps[i].count
  }

  lemma {:induction false} StepPrunesMore(limit: nat, s: State, step: Step, target: nat)
    requires StateInv(s) && Enabled(limit, s, step) && Within(s, target)
    requires step.Truncate? ==> forall p :: p in s.store.pruned ==> p < step.count
    ensures PrunedCount(s.store.pruned, target) <= PrunedCount(Next(s, step).store.pruned, target)
    ensures step.WritePatch? && s.pruner.keys != [] ==>
      PrunedCount(s.store.pruned, target) < PrunedCount(Next(s, step).store.pruned, target)
  {
    hide Readable, ExtendsHistory, History, ContentsExact, Replaces, NodesWith;
    PrunedCountGrows(s.store.pruned, Next(s, step).store.pruned, target);
    if step.WritePatch? && s.pruner.keys != [] {
      var p := s.pruner;
      var k := p.keys[0];
      assert k in p.keys && RecordedIn(s.store.stale, k, p.min, p.next);
      var v: nat :| p.min <= v < p.next && k in RecordsAt(s.store.stale, v);
      assert v in Next(s, step).store.pruned && v !in s.store.pruned;
    }
  }

  lemma {:induction false} DeletionsAreBounded(limit: nat, s: State, steps: seq<Step>, target: nat, n: nat)
    requires StateInv(s) && Within(s, target) && Run(limit, s, steps) && n <= |steps|
    requires TargetsUpTo(steps, target) && KeepsPruned(s, steps)
    ensures Deletions(s, steps, n) + PrunedCount(s.store.pruned, target) <=
            PrunedCount(After(s, steps, n).store.pruned, target)
  {
    hide StateInv, Within, Enabled, Next;
    if n == 0 {
    } else {
      DeletionsAreBounded(limit, s, steps, target, n - 1);
      RunKeepsInv(limit, s, steps, n - 1);
      RunStaysWithin(limit, s, steps, target, n - 1);
      DeletionStep(limit, s, steps, target, n - 1);
    }
  }

  lemma {:induction false} DeletionStep(limit: nat, s: State, steps: seq<Step>, target: nat, n: nat)
    requires n < |steps| && StateInv(After(s, steps, n)) && Within(After(s, steps, n), target)
    requires Enabled(limit, After(s, steps, n), steps[n]) && KeepsPruned(s, steps)
    ensures Deletions(s, steps, n + 1) - Deletions(s, steps, n) <=
            PrunedCount(After(s, steps, n + 1).store.pruned, target)
            - PrunedCount(After(s, steps, n).store.pruned, target)
  {
    hide StateInv, Within, Next, After, Readable, ExtendsHistory;
    AfterOneMore(s, steps, n);
    StepPrunesMore(limit, After(s, steps, n), steps[n], target);
  }

  /**
   A burst of prunes ends, whatever the tree does meanwhile: with targets up to `target` and no
   truncation behind a pruned version, a run deletes at most `target` times.
   */
  lemma {:induction false} BurstEnds(limit: nat, steps: seq<Step>, target: nat)
    requires Run(limit, START, steps) && TargetsUpTo(steps, target) && KeepsPruned(START, steps)
    ensures Deletions(START, steps, |steps|) <= target
  {
    hide After, Enabled, Deletions;
    StartIsFine();
    DeletionsAreBounded(limit, START, steps, target, |steps|);
  }

  // ----- the sequential code

  /** The nodes that are not recorded for a version below `end`. */
  ghost function Without(nodes: Nodes, stale: StaleKeys, end: nat): Nodes {
    map k | k in nodes && !RecordedIn(stale, k, 0, end) :: nodes[k]
  }

  /** The number of keys recorded for versions below `end`. */
  function RecordCount(stale: StaleKeys, end: nat): nat {
    if end == 0 then 0 else RecordCount(stale, end - 1) + |RecordsAt(stale, end - 1)|
  }

  lemma {:induction false} NothingToCount(stale: StaleKeys, end: nat)
    requires StaleFrom(stale, end)
    ensures RecordCount(stale, end) == 0
  {
    if end == 0 {
    } else {
      NothingToCount(stale, end - 1);
      assert RecordsAt(stale, end - 1) == [];
    }
  }

  lemma RecordCountStep(stale: StaleKeys, end: nat)
    ensures RecordCount(stale, end + 1) == RecordCount(stale, end) + |RecordsAt(stale, end)|
  {
  }

  ghost predicate RecordsCut(stale: StaleKeys, stale': StaleKeys, end: nat) {
    forall v: nat :: RecordsAt(stale', v) == if v < end then [] else RecordsAt(stale, v)
  }

  datatype PruningStats = PruningStats(targetRetainedVersion: nat, prunedKeyCount: nat, deletedEnd: nat) {
    predicate HasMoreWork() {
      targetRetainedVersion + 1 > deletedEnd
    }
  }

  class Database {
    var nodes: Nodes
    var staleKeys: StaleKeys
    var versionCount: nat
    ghost var views: seq<Nodes>
    ghost var pruned: set<nat>

    ghost function Now(): Store
      reads this
    {
      Store(nodes, staleKeys, views, pruned)
    }

    ghost predicate Valid()
      reads this
    {
      |views| == versionCount && Inv(Now())
    }

    constructor ()
      ensures Valid() && Now() == NEW_STORE
    {
      nodes, staleKeys, versionCount := map[], map[], 0;
      views, pruned := [], {};
      new;
      NewStoreIsExact();
    }

    /** Writes a new version over any leftovers under its number, and records what it replaced. */
    method Extend(view: Nodes, replaced: seq<NodeKey>)
      requires Valid() && ExtendsHistory(views, view, replaced)
      modifies this
      ensures Valid() && Now() == Extended(old(Now()), view, replaced)
    {
      hide Inv, ExtendsHistory;
      ExtendKeepsInv(Now(), view, replaced);
      nodes := NodesWith(nodes, view, versionCount);
      staleKeys := staleKeys[versionCount := replaced];
      versionCount := versionCount + 1;
      views := views + [view];
    }

    /** Drops the most recent versions; all stays well exactly when the version gone back to was still readable. */
    method TruncateRecentVersions(retainedVersionCount: nat)
      requires Valid()
      modifies this
      ensures |views| == versionCount && Now() == Truncated(old(Now()), retainedVersionCount)
      ensures Valid() <==>
        (0 < retainedVersionCount < old(versionCount) ==> old(Readable(Now(), retainedVersionCount - 1)))
    {
      hide Inv, Readable;
      TruncationIsExact(Now(), retainedVersionCount);
      if versionCount > retainedVersionCount {
        staleKeys := map v | v in staleKeys && !(retainedVersionCount <= v < versionCount) :: staleKeys[v];
        versionCount := retainedVersionCount;
        views := views[..retainedVersionCount];
        pruned := set p | p in pruned && p < retainedVersionCount;
      }
    }

    /** The least version with recorded stale keys. */
    method MinStaleKeyVersion() returns (min: Option<nat>)
      requires Valid()
      ensures min == MinStale(Now())
    {
      hide Inv;
      var v := 0;
      while v < versionCount
        invariant v <= versionCount && LeastRecord(staleKeys, v, versionCount) == MinStale(Now())
      {
        if v in staleKeys && staleKeys[v] != [] {
          return Some(v);
        }
        v := v + 1;
      }
      min := None;
    }

    method StaleKeysOf(version: nat) returns (keys: seq<NodeKey>)
      ensures keys == RecordsAt(staleKeys, version)
    {
      keys := if version in staleKeys then staleKeys[version] else [];
    }

    /** Deletes the gathered nodes and their records in one write. */
    method Prune(patch: PrunePatch)
      requires Valid() && 0 < patch.from <= patch.to <= versionCount
      requires Gathered(staleKeys, patch.keys, patch.from, patch.to)
      modifies this
      ensures Valid() && Now() == Pruned(old(Now()), patch)
    {
      hide Inv, Gathered;
      PruneKeepsInv(Now(), patch);
      nodes := nodes - (set k | k in patch.keys);
      staleKeys := map v | v in staleKeys && !patch.Covers(v) :: staleKeys[v];
      pruned := pruned + set v: nat | v < patch.to && patch.Covers(v);
    }

    /**
     One prune with nothing in between. No statistics means that nothing prunable is left;
     otherwise exactly the nodes recorded below the reported end are gone, some were, and that end is
     the first at which their number reaches the limit, or lies behind the target.
     */
    method PruneUpTo(target: nat, limit: nat) returns (stats: Option<PruningStats>, ghost steps: seq<Step>)
      requires Valid()
      modifies this
      ensures Valid() && views == old(views)
      ensures Leads(limit, State(old(Now()), Idle), steps, State(Now(), Idle)) && TargetsUpTo(steps, target)
      ensures stats.None? ==> Now() == old(Now()) && StaleFrom(staleKeys, target + 1)
      ensures stats.Some? ==>
        && versionCount > 0 && stats.value.prunedKeyCount > 0
        && stats.value.prunedKeyCount == RecordCount(old(staleKeys), stats.value.deletedEnd)
        && (stats.value.prunedKeyCount >= limit || stats.value.deletedEnd == stats.value.targetRetainedVersion + 1)
        && (forall e: nat {:trigger RecordCount(old(staleKeys), e)} ::
              e < stats.value.deletedEnd && !StaleFrom(old(staleKeys), e) ==> RecordCount(old(staleKeys), e) < limit)
        && stats.value.targetRetainedVersion == (if versionCount - 1 <= target then versionCount - 1 else target)
        && stats.value.deletedEnd <= stats.value.targetRetainedVersion + 1
        && !StaleFrom(old(staleKeys), stats.value.deletedEnd)
        && nodes == Without(old(nodes), old(staleKeys), stats.value.deletedEnd)
        && RecordsCut(old(staleKeys), staleKeys, stats.value.deletedEnd)
    {
      hide Inv, Leads, Gathered, MinStale, Pruned, RecordCount;
      ghost var s := State(Now(), Idle);
      LeadsNowhere(limit, s);
      var min := MinStaleKeyVersion();
      MinStaleIsLeast(Now());
      LeadsOn(limit, s, [], s, ReadMin(target));
      steps := [] + [ReadMin(target)];
      if min.None? {
        return None, steps;
      }
      var effective := if versionCount - 1 <= target then versionCount - 1 else target;
      LeadsOn(limit, s, steps, State(Now(), FoundMin(target, min.value)), ReadManifest);
      steps := steps + [ReadManifest];
      if effective < min.value {
        return None, steps;
      }
      var keys: seq<NodeKey> := [];
      var next := min.value;
      NothingGathered(staleKeys, next);
      NothingToCount(staleKeys, next);
      while next <= effective && (next == min.value || |keys| < limit)
        invariant Valid() && Now() == s.store && min.value <= next <= effective + 1
        invariant Leads(limit, s, steps, State(Now(), Collecting(min.value, effective, next, keys)))
        invariant TargetsUpTo(steps, target)
        invariant Gathered(staleKeys, keys, min.value, next)
        invariant next > min.value ==> keys != []
        invariant |keys| == RecordCount(staleKeys, next)
        invariant forall e: nat {:trigger RecordCount(staleKeys, e)} ::
          min.value < e < next ==> RecordCount(staleKeys, e) < limit
      {
        RecordCountStep(staleKeys, next);
        LeadsOn(limit, s, steps, State(Now(), Collecting(min.value, effective, next, keys)), ReadRecords);
        GatheredOneMore(staleKeys, keys, min.value, next);
        var more := StaleKeysOf(next);
        keys := keys + more;
        next := next + 1;
        steps := steps + [ReadRecords];
      }
      LeadsOn(limit, s, steps, State(Now(), Collecting(min.value, effective, next, keys)), WritePatch);
      var patch := PrunePatch(keys, min.value, next);
      PrunedIsCut(Now(), patch);
      Prune(patch);
      steps := steps + [WritePatch];
      stats := Some(PruningStats(effective, |keys|, next));
    }

    /** The pruner's run between two sleeps, for a fixed target: it ends, and leaves nothing prunable. */
    method PruneBurst(target: nat, limit: nat)
      requires Valid()
      modifies this
      ensures Valid() && views == old(views)
      ensures nodes == Without(old(nodes), old(staleKeys), target + 1)
      ensures RecordsCut(old(staleKeys), staleKeys, target + 1)
    {
      hide Inv, Leads, TargetsUpTo;
      ghost var done := 0;
      assert nodes == Without(nodes, staleKeys, done);
      hide Without;
      while true
        invariant Valid() && views == old(views) && done <= target + 1
        invariant nodes == Without(old(nodes), old(staleKeys), done)
        invariant RecordsCut(old(staleKeys), staleKeys, done)
        decreases target + 1 - done
      {
        ghost var before := staleKeys;
        var stats, _ := PruneUpTo(target, limit);
        if stats.None? {
          CutIsIdle(old(nodes), old(staleKeys), staleKeys, done, target + 1);
          break;
        }
        CutTwice(old(nodes), old(staleKeys), before, staleKeys, done, stats.value.deletedEnd);
        done := stats.value.deletedEnd;
        if !stats.value.HasMoreWork() {
          LatestIsLast(Now(), target + 1);
          CutIsIdle(old(nodes), old(staleKeys), staleKeys, done, target + 1);
          break;
        }
      }
    }

    method FirstRetainedVersion() returns (first: Option<nat>)
      requires Valid()
      ensures first == FirstRetained(Now())
    {
      hide Inv, MinStale;
      var min := MinStaleKeyVersion();
      if min.Some? {
        first := if min.value == 0 then None else Some(min.value - 1);
      } else {
        first := if versionCount == 0 then None else Some(versionCount - 1);
      }
    }
  }

  /** Cutting up to `done` and then up to `end` is cutting up to `end`, which then lies further on. */
  lemma {:induction false} CutTwice(nodes: Nodes, stale: StaleKeys, left: StaleKeys, left': StaleKeys, done: nat,
                                    end: nat)
    requires RecordsCut(stale, left, done) && RecordsCut(left, left', end) && !StaleFrom(left, end)
    ensures done < end && RecordsCut(stale, left', end)
    ensures Without(Without(nodes, stale, done), left, end) == Without(nodes, stale, end)
  {
    var u: nat :| RecordsAt(left, u) != [] && u < end;
    forall v: nat
      ensures RecordsAt(left', v) == if v < end then [] else RecordsAt(stale, v)
    {
      assert RecordsAt(left, v) == if v < done then [] else RecordsAt(stale, v);
    }
    forall k
      ensures RecordedIn(stale, k, 0, end) <==> RecordedIn(stale, k, 0, done) || RecordedIn(left, k, 0, end)
    {
      if v: nat :| v < end && k in RecordsAt(stale, v) {
        assert RecordsAt(left, v) == if v < done then [] else RecordsAt(stale, v);
      }
      if v: nat :| v < end && k in RecordsAt(left, v) {
        assert RecordsAt(left, v) == if v < done then [] else RecordsAt(stale, v);
      }
    }
  }

  lemma {:induction false} CutIsIdle(nodes: Nodes, stale: StaleKeys, left: StaleKeys, done: nat, end: nat)
    requires RecordsCut(stale, left, done) && done <= end && StaleFrom(left, end)
    ensures RecordsCut(stale, left, end) && Without(nodes, stale, done) == Without(nodes, stale, end)
  {
    forall v: nat
      ensures done <= v < end ==> RecordsAt(stale, v) == []
    {
      assert RecordsAt(left, v) == if v < done then [] else RecordsAt(stale, v);
    }
    forall k
      ensures RecordedIn(stale, k, 0, end) <==> RecordedIn(stale, k, 0, done)
    {
    }
  }

  lemma {:induction false} LatestIsLast(s: Store, version: nat)
    requires Inv(s)
    ensures StaleFrom(s.stale, |s.views|) ==> StaleFrom(s.stale, version)
  {
    hide Inv;
    forall v: nat
      ensures RecordsAt(s.stale, v) != [] ==> v < |s.views|
    {
      RecordsAreCurrent(s, v);
    }
  }

  lemma NothingGathered(stale: StaleKeys, from: nat)
    ensures Gathered(stale, [], from, from)
  {
  }

  lemma {:induction false} PrunedIsCut(s: Store, patch: PrunePatch)
    requires Gathered(s.stale, patch.keys, patch.from, patch.to) && StaleFrom(s.stale, patch.from)
    ensures Pruned(s, patch).nodes == Without(s.nodes, s.stale, patch.to) && Pruned(s, patch).views == s.views
    ensures RecordsCut(s.stale, Pruned(s, patch).stale, patch.to)
  {
    forall k
      ensures RecordedIn(s.stale, k, patch.from, patch.to) <==> RecordedIn(s.stale, k, 0, patch.to)
    {
    }
    forall v: nat
      ensures RecordsAt(Pruned(s, patch).stale, v) == if v < patch.to then [] else RecordsAt(s.stale, v)
    {
      assert RecordsAt(s.stale, v) != [] ==> v >= patch.from;
    }
  }
}
