/**
 The leaf-index check of the parallel consistency walk (`LeafConsistencyData` and
 `AtomicBitSet` in crates/merkle_tree/src/consistency.rs), as a state machine of tasks that
 share a bit set and a counter. A task checks its leaf's index, sets its bit in one atomic
 step, and bumps the counter in another; tasks interleave freely between steps.
 */
module LeafIndices {

  const BITS: nat := 64

  const ZERO_WORD: Word := seq(BITS, _ => false)

  /** One atomic 64-bit word, bit by bit. */
  type Word = w: seq<bool> | |w| == BITS witness seq(BITS, _ => false)

  predicate TestBit(words: seq<Word>, i: nat)
    requires i < BITS * |words|
  {
    words[i / BITS][i % BITS]
  }

  /** `fetch_or` with the mask of one bit: the new words and the previous value of the bit. */
  function FetchOr(words: seq<Word>, i: nat): (seq<Word>, bool)
    requires i < BITS * |words|
  {
    var atomic := words[i / BITS];
    (words[i / BITS := atomic[i % BITS := true]], atomic[i % BITS])
  }

  /** Setting bit `i` sets that bit and no other, across word boundaries. */
  lemma {:induction false} FetchOrSetsOneBit(words: seq<Word>, i: nat, j: nat)
    requires i < BITS * |words| && j < BITS * |words|
    ensures |FetchOr(words, i).0| == |words|
    ensures TestBit(FetchOr(words, i).0, j) <==> j == i || TestBit(words, j)
  {
    assert i / BITS == j / BITS && i % BITS == j % BITS ==> i == j;
  }

  // ----- the state machine

  datatype Task = Waiting | Marked | Counted | Failed

  datatype State = State(words: seq<Word>, count: nat, tasks: seq<Task>)

  predicate Holds(task: Task) {
    task == Marked || task == Counted
  }

  function Init(expected: nat, leaves: seq<nat>): State {
    State(seq((expected + BITS - 1) / BITS, _ => ZERO_WORD), 0, seq(|leaves|, _ => Waiting))
  }

  /** One atomic step of task `t`, whose leaf has index `leaves[t]`. */
  ghost predicate Step(expected: nat, leaves: seq<nat>, s: State, s': State, t: nat)
    requires |s.words| == (expected + BITS - 1) / BITS
  {
    && t < |leaves| == |s.tasks|
    && match s.tasks[t]
       case Waiting =>
         if leaves[t] == 0 || leaves[t] > expected then s' == s.(tasks := s.tasks[t := Failed])
         else
           var (words, wasSet) := FetchOr(s.words, leaves[t] - 1);
           s' == s.(words := words, tasks := s.tasks[t := if wasSet then Failed else Marked])
       case Marked => s' == s.(count := s.count + 1, tasks := s.tasks[t := Counted])
       case _ => false
  }

  function Counts(tasks: seq<Task>, n: nat): nat
    requires n <= |tasks|
  {
    if n == 0 then 0 else Counts(tasks, n - 1) + if tasks[n - 1] == Counted then 1 else 0
  }

  ghost predicate Clash(expected: nat, leaves: seq<nat>, t: nat)
    requires t < |leaves|
  {
    || leaves[t] == 0
    || leaves[t] > expected
    || exists u :: 0 <= u < |leaves| && u != t && leaves[u] == leaves[t]
  }

  ghost predicate Inv(expected: nat, leaves: seq<nat>, s: State) {
    && |s.words| == (expected + BITS - 1) / BITS && |s.tasks| == |leaves|
    && s.count == Counts(s.tasks, |s.tasks|)
    && (forall t :: 0 <= t < |leaves| && Holds(s.tasks[t]) ==> 1 <= leaves[t] <= expected)
    && (forall t, u :: 0 <= t < u < |leaves| && Holds(s.tasks[t]) && Holds(s.tasks[u]) ==> leaves[t] != leaves[u])
    && (forall i :: 0 <= i < BITS * |s.words| ==> (TestBit(s.words, i) <==> Taken(leaves, s.tasks, i + 1)))
    && (forall t :: 0 <= t < |leaves| && s.tasks[t] == Failed ==> Clash(expected, leaves, t))
  }

  /** Some task has marked this index. */
  ghost predicate Taken(leaves: seq<nat>, tasks: seq<Task>, index: nat)
    requires |leaves| == |tasks|
  {
    exists t :: 0 <= t < |leaves| && Holds(tasks[t]) && leaves[t] == index
  }

  lemma {:induction false} InitHolds(expected: nat, leaves: seq<nat>)
    ensures Inv(expected, leaves, Init(expected, leaves))
  {
    NothingCounted(Init(expected, leaves).tasks, |leaves|);
  }

  lemma {:induction false} NothingCounted(tasks: seq<Task>, n: nat)
    requires n <= |tasks| && forall t :: 0 <= t < |tasks| ==> tasks[t] == Waiting
    ensures Counts(tasks, n) == 0
  {
    if n == 0 {
    } else {
      NothingCounted(tasks, n - 1);
    }
  }

  lemma {:induction false} CountsUpdated(tasks: seq<Task>, t: nat, task: Task, n: nat)
    requires t < |tasks| && n <= |tasks| && tasks[t] != Counted
    ensures Counts(tasks[t := task], n) == Counts(tasks, n) + if t < n && task == Counted then 1 else 0
  {
    if n == 0 {
    } else {
      CountsUpdated(tasks, t, task, n - 1);
    }
  }

  lemma {:induction false} StepKeepsInv(expected: nat, leaves: seq<nat>, s: State, s': State, t: nat)
    requires Inv(expected, leaves, s) && Step(expected, leaves, s, s', t)
    ensures Inv(expected, leaves, s')
  {
    hide FetchOr, TestBit;
    CountsUpdated(s.tasks, t, s'.tasks[t], |s.tasks|);
    if s.tasks[t] == Waiting && 1 <= leaves[t] <= expected {
      MarkKeepsInv(expected, leaves, s, s', t);
    } else if s.tasks[t] == Marked {
      SameHolders(leaves, s.tasks, s'.tasks);
    } else {
      SameHolders(leaves, s.tasks, s'.tasks);
    }
  }

  lemma SameHolders(leaves: seq<nat>, tasks: seq<Task>, tasks': seq<Task>)
    requires |leaves| == |tasks| == |tasks'|
    requires forall t :: 0 <= t < |tasks| ==> (Holds(tasks[t]) <==> Holds(tasks'[t]))
    ensures forall i :: Taken(leaves, tasks, i) <==> Taken(leaves, tasks', i)
  {
  }

  lemma {:induction false} MarkKeepsInv(expected: nat, leaves: seq<nat>, s: State, s': State, t: nat)
    requires Inv(expected, leaves, s) && Step(expected, leaves, s, s', t)
    requires s.tasks[t] == Waiting && 1 <= leaves[t] <= expected
    requires s'.count == Counts(s'.tasks, |s'.tasks|)
    ensures Inv(expected, leaves, s')
  {
    hide TestBit, FetchOr;
    var bit := leaves[t] - 1;
    MarkedBits(s.words, bit);
    if TestBit(s.words, bit) {
      var u :| 0 <= u < |leaves| && Holds(s.tasks[u]) && leaves[u] == leaves[t];
      SameHolders(leaves, s.tasks, s'.tasks);
    } else {
      OneMoreHolder(leaves, s.tasks, s'.tasks, t);
      assert !Taken(leaves, s.tasks, bit + 1);
    }
  }

  lemma {:induction false} OneMoreHolder(leaves: seq<nat>, tasks: seq<Task>, tasks': seq<Task>, t: nat)
    requires |tasks| == |tasks'| == |leaves| && t < |leaves|
    requires forall u :: 0 <= u < |tasks| ==> (Holds(tasks'[u]) <==> u == t || Holds(tasks[u]))
    ensures forall i: nat :: Taken(leaves, tasks', i) <==> i == leaves[t] || Taken(leaves, tasks, i)
  {
    forall i: nat
      ensures Taken(leaves, tasks', i) <==> i == leaves[t] || Taken(leaves, tasks, i)
    {
      assert Holds(tasks'[t]);
      if u :| 0 <= u < |leaves| && Holds(tasks[u]) && leaves[u] == i {
        assert Holds(tasks'[u]);
      }
    }
  }

  lemma {:induction false} MarkedBits(words: seq<Word>, bit: nat)
    requires bit < BITS * |words|
    ensures var (words', wasSet) := FetchOr(words, bit);
      && |words'| == |words| && wasSet == TestBit(words, bit)
      && forall i :: 0 <= i < BITS * |words| ==> (TestBit(words', i) <==> i == bit || TestBit(words, i))
  {
    forall i | 0 <= i < BITS * |words|
      ensures TestBit(FetchOr(words, bit).0, i) <==> i == bit || TestBit(words, i)
    {
      FetchOrSetsOneBit(words, bit, i);
    }
  }

  // ----- whole runs

  /** A run from the initial state, each state one task's step after the last. */
  ghost predicate Run(expected: nat, leaves: seq<nat>, states: seq<State>) {
    && |states| > 0 && states[0] == Init(expected, leaves)
    && forall i :: 0 < i < |states| ==> Advances(expected, leaves, states, i)
  }

  ghost predicate Advances(expected: nat, leaves: seq<nat>, states: seq<State>, i: nat)
    requires 0 < i < |states|
  {
    |states[i - 1].words| == (expected + BITS - 1) / BITS && Next(expected, leaves, states[i - 1], states[i])
  }

  ghost predicate Next(expected: nat, leaves: seq<nat>, s: State, s': State)
    requires |s.words| == (expected + BITS - 1) / BITS
  {
    exists t: nat :: Step(expected, leaves, s, s', t)
  }

  lemma {:induction false} NextKeepsInv(expected: nat, leaves: seq<nat>, s: State, s': State)
    requires |s.words| == (expected + BITS - 1) / BITS && Inv(expected, leaves, s) && Next(expected, leaves, s, s')
    ensures Inv(expected, leaves, s')
  {
    hide Inv;
    var t: nat :| Step(expected, leaves, s, s', t);
    StepKeepsInv(expected, leaves, s, s', t);
  }

  lemma {:induction false} RunKeepsInv(expected: nat, leaves: seq<nat>, states: seq<State>, n: nat)
    requires Run(expected, leaves, states) && n < |states|
    ensures Inv(expected, leaves, states[n])
  {
    hide Step, Inv, Init;
    if n == 0 {
      InitHolds(expected, leaves);
    } else {
      RunKeepsInv(expected, leaves, states, n - 1);
      assert Advances(expected, leaves, states, n);
      NextKeepsInv(expected, leaves, states[n - 1], states[n]);
    }
  }

  /** The indices are 1 .. expected, each once. */
  ghost predicate Permutation(expected: nat, leaves: seq<nat>) {
    && |leaves| == expected
    && (forall t :: 0 <= t < |leaves| ==> 1 <= leaves[t] <= expected)
    && (forall t, u :: 0 <= t < u < |leaves| ==> leaves[t] != leaves[u])
  }

  /** Every number in range is then the index of some leaf. */
  lemma {:induction false} PermutationCovers(expected: nat, leaves: seq<nat>, index: nat)
    requires Permutation(expected, leaves) && 1 <= index <= expected
    ensures index in leaves
  {
    var used := set t | 0 <= t < |leaves| :: leaves[t];
    DistinctSize(leaves, |leaves|);
    RangeSize(expected);
    if index !in used {
      Subset(used, Range(expected) - {index});
      assert false;
    }
  }

  /** Distinct indices that cover the range, and no more, are a permutation of it. */
  lemma {:induction false} CoveringIsPermutation(expected: nat, leaves: seq<nat>)
    requires forall t :: 0 <= t < |leaves| ==> 1 <= leaves[t] <= expected
    requires forall t, u :: 0 <= t < u < |leaves| ==> leaves[t] != leaves[u]
    requires forall index :: 1 <= index <= expected ==> index in leaves
    ensures Permutation(expected, leaves)
  {
    var used := set t | 0 <= t < |leaves| :: leaves[t];
    DistinctSize(leaves, |leaves|);
    RangeSize(expected);
    forall index | index in Range(expected)
      ensures index in used
    {
      assert index in leaves;
    }
    assert used == Range(expected);
  }

  ghost function Range(n: nat): set<nat> {
    if n == 0 then {} else Range(n - 1) + {n}
  }

  lemma {:induction false} Subset(a: set<nat>, b: set<nat>)
    requires a <= b
    ensures |a| <= |b|
  {
    if a == {} {
    } else {
      var x :| x in a;
      Subset(a - {x}, b - {x});
    }
  }

  lemma {:induction false} DistinctSize(leaves: seq<nat>, n: nat)
    requires n <= |leaves| && forall t, u :: 0 <= t < u < |leaves| ==> leaves[t] != leaves[u]
    ensures |set t | 0 <= t < n :: leaves[t]| == n
  {
    if n == 0 {
    } else {
      DistinctSize(leaves, n - 1);
      assert (set t | 0 <= t < n :: leaves[t]) == (set t | 0 <= t < n - 1 :: leaves[t]) + {leaves[n - 1]};
    }
  }

  lemma {:induction false} RangeSize(n: nat)
    ensures |Range(n)| == n
    ensures forall i :: i in Range(n) <==> 1 <= i <= n
  {
    if n == 0 {
    } else {
      RangeSize(n - 1);
    }
  }

  lemma {:induction false} AllCounted(tasks: seq<Task>, n: nat)
    requires n <= |tasks| && forall t :: 0 <= t < |tasks| ==> tasks[t] == Counted
    ensures Counts(tasks, n) == n
  {
    if n == 0 {
    } else {
      AllCounted(tasks, n - 1);
    }
  }

  ghost predicate Finished(s: State) {
    forall t :: 0 <= t < |s.tasks| ==> s.tasks[t] == Counted || s.tasks[t] == Failed
  }

  ghost predicate Passes(expected: nat, s: State) {
    (forall t :: 0 <= t < |s.tasks| ==> s.tasks[t] == Counted) && s.count == expected
  }

  /** However the tasks interleave, the check passes exactly when the indices are a permutation of 1 .. expected. */
  lemma {:induction false} CheckIsExact(expected: nat, leaves: seq<nat>, states: seq<State>)
    requires Run(expected, leaves, states) && Finished(states[|states| - 1])
    ensures Passes(expected, states[|states| - 1]) <==> Permutation(expected, leaves)
  {
    hide TestBit, Init, Advances;
    var last := states[|states| - 1];
    RunKeepsInv(expected, leaves, states, |states| - 1);
    if Permutation(expected, leaves) || Passes(expected, last) {
      forall t | 0 <= t < |last.tasks|
        ensures last.tasks[t] == Counted
      {
      }
      AllCounted(last.tasks, |last.tasks|);
    }
  }

  /** A task fails only on a real fault, at any point of any run, so stopping at the first failure is sound. */
  lemma {:induction false} FailureIsReal(expected: nat, leaves: seq<nat>, states: seq<State>, n: nat, t: nat)
    requires Run(expected, leaves, states) && n < |states|
    requires t < |states[n].tasks| && states[n].tasks[t] == Failed
    ensures t < |leaves| && Clash(expected, leaves, t) && !Permutation(expected, leaves)
  {
    hide Run, TestBit;
    RunKeepsInv(expected, leaves, states, n);
  }
}
