/**
 Driving the VM through a batch (`execute_vm`, `execute_tx` and `ensure_not_halted` in
 crates/airbender_verifier/src/lib.rs). The VM itself is a deterministic step function with a
 stack of snapshots; rolling back restores the latest snapshot and pops it.
 */
module BatchExecution {
  import opened Wrappers

  datatype ExecutionResult = Success | Revert | Halt

  /** The state after an attempt, whether its bytecodes could be compressed, and how the execution went. */
  datatype Outcome<S> = Outcome(state: S, compressed: bool, result: ExecutionResult)

  datatype Block<Tx> = Block(number: nat, txs: seq<Tx>)

  datatype BatchError = LastBlockHasTxs | CompressionFailed | TxHalted | TipFailed

  /** The VM's transitions: run a transaction (compressing or not), open a block, finalise the batch. */
  datatype Machine<!S, !Tx> = Machine(
    execute: (S, Tx, bool) -> Outcome<S>,
    openBlock: (S, Block<Tx>) -> S,
    finish: S -> (S, ExecutionResult))

  class Vm<S, Tx> {
    const machine: Machine<S, Tx>
    var state: S
    var snapshots: seq<S>

    constructor (machine: Machine<S, Tx>, state: S)
      ensures this.machine == machine && this.state == state && snapshots == []
    {
      this.machine, this.state, snapshots := machine, state, [];
    }

    method MakeSnapshot()
      modifies this
      ensures state == old(state) && snapshots == old(snapshots) + [state]
    {
      snapshots := snapshots + [state];
    }

    method PopSnapshotNoRollback()
      requires snapshots != []
      modifies this
      ensures state == old(state) && snapshots == old(snapshots)[..|old(snapshots)| - 1]
    {
      snapshots := snapshots[..|snapshots| - 1];
    }

    method RollbackToTheLatestSnapshot()
      requires snapshots != []
      modifies this
      ensures state == old(snapshots)[|old(snapshots)| - 1] && snapshots == old(snapshots)[..|old(snapshots)| - 1]
    {
      state := snapshots[|snapshots| - 1];
      snapshots := snapshots[..|snapshots| - 1];
    }

    method ExecuteTransaction(tx: Tx, withCompression: bool) returns (compressed: bool, result: ExecutionResult)
      modifies this`state
      ensures Outcome(state, compressed, result) == machine.execute(old(state), tx, withCompression)
    {
      var outcome := machine.execute(state, tx, withCompression);
      state, compressed, result := outcome.state, outcome.compressed, outcome.result;
    }
  }

  // ----- what a batch means

  datatype Event<Tx> = RunTx(tx: Tx) | OpenBlock(block: Block<Tx>)

  /** A transaction runs compressed from `s` if that works, else uncompressed from the same `s`; a halt is fatal. */
  function TxEffect<S, Tx>(m: Machine<S, Tx>, s: S, tx: Tx): Result<S, BatchError> {
    var attempt := m.execute(s, tx, true);
    var outcome := if attempt.compressed then attempt else m.execute(s, tx, false);
    if !outcome.compressed then Err(CompressionFailed)
    else if outcome.result == Halt then Err(TxHalted)
    else Ok(outcome.state)
  }

  function EventEffect<S, Tx>(m: Machine<S, Tx>, s: S, event: Event<Tx>): Result<S, BatchError> {
    match event
    case RunTx(tx) => TxEffect(m, s, tx)
    case OpenBlock(block) => Ok(m.openBlock(s, block))
  }

  /** The state after the first `n` events, each applied to the state its predecessor left. */
  function Replay<S, Tx>(m: Machine<S, Tx>, s: S, events: seq<Event<Tx>>, n: nat): Result<S, BatchError>
    requires n <= |events|
  {
    if n == 0 then Ok(s)
    else
      var prior :- Replay(m, s, events, n - 1);
      EventEffect(m, prior, events[n - 1])
  }

  function TxEvents<Tx>(txs: seq<Tx>): seq<Event<Tx>> {
    seq(|txs|, i requires 0 <= i < |txs| => RunTx(txs[i]))
  }

  /** The events of the first `n` blocks: each block's transactions, then the opening of the next block. */
  function Script<Tx>(blocks: seq<Block<Tx>>, n: nat): seq<Event<Tx>>
    requires n < |blocks| || n == 0
  {
    if n == 0 then [] else Script(blocks, n - 1) + TxEvents(blocks[n - 1].txs) + [OpenBlock(blocks[n])]
  }

  function BatchScript<Tx>(blocks: seq<Block<Tx>>): seq<Event<Tx>> {
    if blocks == [] then [] else Script(blocks, |blocks| - 1)
  }

  function TxsOf<Tx>(events: seq<Event<Tx>>): seq<Tx> {
    if events == [] then []
    else
      var last := events[|events| - 1];
      TxsOf(events[..|events| - 1]) + if last.RunTx? then [last.tx] else []
  }

  function AllTxs<Tx>(blocks: seq<Block<Tx>>, n: nat): seq<Tx>
    requires n <= |blocks|
  {
    if n == 0 then [] else AllTxs(blocks, n - 1) + blocks[n - 1].txs
  }

  predicate LastBlockIsEmpty<Tx(==)>(blocks: seq<Block<Tx>>) {
    blocks == [] || blocks[|blocks| - 1].txs == []
  }

  lemma {:induction false} TxsOfAppend<Tx>(events: seq<Event<Tx>>, more: seq<Event<Tx>>)
    ensures TxsOf(events + more) == TxsOf(events) + TxsOf(more)
  {
    if more == [] {
      assert events + more == events;
    } else {
      var front := more[..|more| - 1];
      assert (events + more)[..|events + more| - 1] == events + front;
      TxsOfAppend(events, front);
    }
  }

  lemma {:induction false} TxsOfTxEvents<Tx>(txs: seq<Tx>)
    ensures TxsOf(TxEvents(txs)) == txs
  {
    if txs == [] {
    } else {
      var front := txs[..|txs| - 1];
      assert TxEvents(txs)[..|txs| - 1] == TxEvents(front);
      TxsOfTxEvents(front);
    }
  }

  lemma {:induction false} ScriptRunsAll<Tx>(blocks: seq<Block<Tx>>, n: nat)
    requires n < |blocks|
    ensures TxsOf(Script(blocks, n)) == AllTxs(blocks, n)
  {
    if n > 0 {
      ScriptRunsAll(blocks, n - 1);
      ScriptStep(blocks, n - 1);
      hide Script, TxEvents, TxsOf;
      TxsOfStep(Script(blocks, n - 1), blocks[n - 1].txs, blocks[n]);
    } else {
      ScriptStarts(blocks);
    }
  }

  lemma {:induction false} TxsOfStep<Tx>(before: seq<Event<Tx>>, txs: seq<Tx>, block: Block<Tx>)
    ensures TxsOf(before + TxEvents(txs) + [OpenBlock(block)]) == TxsOf(before) + txs
  {
    var events := before + TxEvents(txs);
    assert (events + [OpenBlock(block)])[..|events|] == events;
    hide TxEvents;
    TxsOfAppend(before, TxEvents(txs));
    TxsOfTxEvents(txs);
  }

  /** Every transaction of the witness is run exactly once, in order, when the last block is empty as required. */
  lemma {:induction false} BatchScriptRunsEveryTx<Tx>(blocks: seq<Block<Tx>>)
    requires LastBlockIsEmpty(blocks)
    ensures TxsOf(BatchScript(blocks)) == AllTxs(blocks, |blocks|)
  {
    hide TxsOf, Script;
    var count := |blocks|;
    if count == 0 {
      ScriptStarts(blocks);
    } else {
      ScriptRunsAll(blocks, count - 1);
      assert AllTxs(blocks, count) == AllTxs(blocks, count - 1);
    }
  }

  function BlocksOf<Tx>(events: seq<Event<Tx>>): seq<Block<Tx>> {
    if events == [] then []
    else
      var last := events[|events| - 1];
      BlocksOf(events[..|events| - 1]) + if last.OpenBlock? then [last.block] else []
  }

  lemma {:induction false} BlocksOfTxEvents<Tx>(before: seq<Event<Tx>>, txs: seq<Tx>)
    ensures BlocksOf(before + TxEvents(txs)) == BlocksOf(before)
  {
    if txs == [] {
      assert before + TxEvents(txs) == before;
    } else {
      var front := txs[..|txs| - 1];
      var events := before + TxEvents(txs);
      assert events[..|events| - 1] == before + TxEvents(front);
      BlocksOfTxEvents(before, front);
    }
  }

  lemma {:induction false} BlocksOfStep<Tx>(before: seq<Event<Tx>>, txs: seq<Tx>, block: Block<Tx>)
    ensures BlocksOf(before + TxEvents(txs) + [OpenBlock(block)]) == BlocksOf(before) + [block]
  {
    var events := before + TxEvents(txs);
    assert (events + [OpenBlock(block)])[..|events|] == events;
    hide TxEvents;
    BlocksOfTxEvents(before, txs);
  }

  /** The events of `n` blocks open the blocks after the first up to block `n`, each once, in order. */
  lemma {:induction false} ScriptOpensAll<Tx>(blocks: seq<Block<Tx>>, n: nat)
    requires n < |blocks|
    ensures BlocksOf(Script(blocks, n)) == blocks[1..n + 1]
  {
    if n == 0 {
      ScriptStarts(blocks);
    } else {
      ScriptOpensAll(blocks, n - 1);
      ScriptStep(blocks, n - 1);
      hide Script, TxEvents, BlocksOf;
      BlocksOfStep(Script(blocks, n - 1), blocks[n - 1].txs, blocks[n]);
      assert blocks[1..n + 1] == blocks[1..n] + [blocks[n]];
    }
  }

  /** Every block but the first is opened exactly once, in order. */
  lemma {:induction false} BatchScriptOpensEveryBlock<Tx>(blocks: seq<Block<Tx>>)
    ensures BlocksOf(BatchScript(blocks)) == if blocks == [] then [] else blocks[1..]
  {
    hide Script;
    if blocks == [] {
    } else {
      ScriptOpensAll(blocks, |blocks| - 1);
    }
  }

  lemma ReplayStep<S, Tx>(m: Machine<S, Tx>, s: S, events: seq<Event<Tx>>, n: nat)
    requires n <= |events|
    ensures n == 0 ==> Replay(m, s, events, n) == Ok(s)
    ensures n < |events| && Replay(m, s, events, n).Ok? ==>
      Replay(m, s, events, n + 1) == EventEffect(m, Replay(m, s, events, n).value, events[n])
  {
  }

  lemma {:induction false} ReplayFailsOnce<S, Tx>(m: Machine<S, Tx>, s: S, events: seq<Event<Tx>>, k: nat, n: nat)
    requires k <= n <= |events|
    ensures Replay(m, s, events, k).Err? ==> Replay(m, s, events, n) == Replay(m, s, events, k)
  {
    if k == n {
    } else {
      ReplayFailsOnce(m, s, events, k, n - 1);
    }
  }

  // ----- the driver

  /**
   One transaction: kept is the compressed attempt if it compressed and otherwise the uncompressed
   one, each from the state before; on success the VM is where the kept one leaves it, with the
   snapshot stack as it was.
   */
  method ExecuteTx<S, Tx>(tx: Tx, vm: Vm<S, Tx>) returns (r: Result<(), BatchError>)
    modifies vm
    ensures var attempt := vm.machine.execute(old(vm.state), tx, true);
      var kept := if attempt.compressed then attempt else vm.machine.execute(old(vm.state), tx, false);
      && (r.Ok? <==> kept.compressed && kept.result != Halt)
      && (r.Ok? ==> vm.state == kept.state && vm.snapshots == old(vm.snapshots))
      && (r.Err? ==> r.error == if kept.compressed then TxHalted else CompressionFailed)
  {
    vm.MakeSnapshot();
    var compressed, result := vm.ExecuteTransaction(tx, true);
    if compressed {
      if result == Halt {
        return Err(TxHalted);
      }
      vm.PopSnapshotNoRollback();
      return Ok(());
    }
    vm.RollbackToTheLatestSnapshot();
    compressed, result := vm.ExecuteTransaction(tx, false);
    if !compressed {
      return Err(CompressionFailed);
    }
    if result == Halt {
      return Err(TxHalted);
    }
    r := Ok(());
  }

  /**
   The whole batch: succeeds exactly when the last block has no transactions, every event of the
   script succeeds in turn and the tip is finalised, and then the VM is where the script and the
   finalisation leave it, with its snapshot stack as it began.
   */
  method ExecuteVm<S, Tx(==)>(blocks: seq<Block<Tx>>, vm: Vm<S, Tx>) returns (r: Result<(), BatchError>)
    modifies vm
    ensures var ran := Replay(vm.machine, old(vm.state), BatchScript(blocks), |BatchScript(blocks)|);
      && (r.Ok? <==> LastBlockIsEmpty(blocks) && ran.Ok? && vm.machine.finish(ran.value).1 == Success)
      && (r.Ok? ==> vm.state == vm.machine.finish(ran.value).0 && vm.snapshots == old(vm.snapshots))
  {
    hide Script, TxEvents, TxEffect, Replay;
    ScriptStarts(blocks);
    if blocks != [] && blocks[|blocks| - 1].txs != [] {
      return Err(LastBlockHasTxs);
    }
    ghost var m, s, script := vm.machine, vm.state, BatchScript(blocks);
    ghost var done: nat := 0;
    ReplayStep(m, s, script, 0);
    var i: nat := 0;
    while i + 1 < |blocks|
      invariant if blocks == [] then i == 0 else i < |blocks|
      invariant done == |Script(blocks, i)| <= |script|
      invariant Replay(m, s, script, done) == Ok(vm.state) && vm.snapshots == old(vm.snapshots)
    {
      ScriptExtends(blocks, i);
      var txs := blocks[i].txs;
      for j := 0 to |txs|
        invariant done + |txs| < |script| && script[done..done + |txs|] == TxEvents(txs)
        invariant Replay(m, s, script, done + j) == Ok(vm.state) && vm.snapshots == old(vm.snapshots)
      {
        TxEventAt(txs, j);
        assert script[done + j] == script[done..done + |txs|][j];
        ReplayStep(m, s, script, done + j);
        ReplayFailsOnce(m, s, script, done + j + 1, |script|);
        TxEffectUnfolds(m, vm.state, txs[j]);
        var ran := ExecuteTx(txs[j], vm);
        if ran.Err? {
          return Err(ran.error);
        }
      }
      done := done + |txs|;
      ReplayStep(m, s, script, done);
      vm.state := vm.machine.openBlock(vm.state, blocks[i + 1]);
      done := done + 1;
      i := i + 1;
    }
    var (finalState, tip) := vm.machine.finish(vm.state);
    vm.state := finalState;
    if tip != Success {
      return Err(TipFailed);
    }
    r := Ok(());
  }

  lemma TxEffectUnfolds<S, Tx>(m: Machine<S, Tx>, s: S, tx: Tx)
    ensures var attempt := m.execute(s, tx, true);
      var kept := if attempt.compressed then attempt else m.execute(s, tx, false);
      TxEffect(m, s, tx) ==
      if !kept.compressed then Err(CompressionFailed) else if kept.result == Halt then Err(TxHalted) else Ok(kept.state)
  {
  }

  /** Where the events of block `i` sit in the whole script. */
  lemma {:induction false} ScriptExtends<Tx>(blocks: seq<Block<Tx>>, i: nat)
    requires i + 1 < |blocks|
    ensures var script := BatchScript(blocks);
      && |Script(blocks, i)| + |blocks[i].txs| < |script|
      && |Script(blocks, i + 1)| == |Script(blocks, i)| + |blocks[i].txs| + 1 <= |script|
      && script[|Script(blocks, i)|..|Script(blocks, i)| + |blocks[i].txs|] == TxEvents(blocks[i].txs)
      && script[|Script(blocks, i)| + |blocks[i].txs|] == OpenBlock(blocks[i + 1])
  {
    ScriptPrefix(blocks, i + 1, |blocks| - 1);
    ScriptStep(blocks, i);
    hide Script, TxEvents;
    SlicesOfPrefix(BatchScript(blocks), Script(blocks, i), TxEvents(blocks[i].txs), OpenBlock(blocks[i + 1]));
  }

  lemma {:induction false} SlicesOfPrefix<T>(whole: seq<T>, a: seq<T>, b: seq<T>, x: T)
    requires |a + b + [x]| <= |whole| && whole[..|a + b + [x]|] == a + b + [x]
    ensures whole[|a|..|a| + |b|] == b && whole[|a| + |b|] == x
  {
    var next := a + b + [x];
    assert forall k :: 0 <= k < |next| ==> whole[k] == next[k];
  }

  lemma ScriptStep<Tx>(blocks: seq<Block<Tx>>, i: nat)
    requires i + 1 < |blocks|
    ensures Script(blocks, i + 1) == Script(blocks, i) + TxEvents(blocks[i].txs) + [OpenBlock(blocks[i + 1])]
    ensures |TxEvents(blocks[i].txs)| == |blocks[i].txs|
  {
  }

  lemma TxEventAt<Tx>(txs: seq<Tx>, j: nat)
    requires j < |txs|
    ensures |TxEvents(txs)| == |txs| && TxEvents(txs)[j] == RunTx(txs[j])
  {
  }

  lemma ScriptStarts<Tx>(blocks: seq<Block<Tx>>)
    ensures Script(blocks, 0) == [] && TxsOf<Tx>([]) == []
  {
  }

  lemma {:induction false} ScriptPrefix<Tx>(blocks: seq<Block<Tx>>, i: nat, n: nat)
    requires i <= n < |blocks|
    ensures |Script(blocks, i)| <= |Script(blocks, n)| && Script(blocks, n)[..|Script(blocks, i)|] == Script(blocks, i)
  {
    if i == n {
    } else {
      ScriptPrefix(blocks, i, n - 1);
    }
  }

  // ----- what a machine that records its calls has to show

  /** A call that took effect. */
  datatype Call<Tx> = Ran(tx: Tx, withCompression: bool) | Opened(block: Block<Tx>) | Finalized

  /** How attempts turn out, whatever was run before: whether the bytecodes compress, and the result. */
  type Outcomes<!Tx> = (seq<Call<Tx>>, Tx, bool) -> (bool, ExecutionResult)

  /** A machine whose state is the list of calls that led to it. */
  function Recorder<Tx>(outcomes: Outcomes<Tx>, tip: seq<Call<Tx>> -> ExecutionResult): Machine<seq<Call<Tx>>, Tx> {
    Machine(
      (calls: seq<Call<Tx>>, tx: Tx, flag: bool) =>
        Outcome(calls + [Ran(tx, flag)], outcomes(calls, tx, flag).0, outcomes(calls, tx, flag).1),
      (calls: seq<Call<Tx>>, block: Block<Tx>) => calls + [Opened(block)],
      (calls: seq<Call<Tx>>) => (calls + [Finalized], tip(calls)))
  }

  /** Call `k` runs `tx`, with compression exactly if that worked from the calls before it, and did not halt. */
  ghost predicate KeptRun<Tx(!new)>(outcomes: Outcomes<Tx>, calls: seq<Call<Tx>>, k: nat, tx: Tx)
    requires k < |calls|
  {
    var compresses := outcomes(calls[..k], tx, true).0;
    && calls[k] == Ran(tx, compresses)
    && outcomes(calls[..k], tx, compresses).0
    && outcomes(calls[..k], tx, compresses).1 != Halt
  }

  /** Where each block's calls begin: after the transactions of the block before and one opening. */
  ghost predicate Starts<Tx(!new)>(blocks: seq<Block<Tx>>, starts: seq<nat>) {
    && |starts| == |blocks| && (|blocks| > 0 ==> starts[0] == 0)
    && forall i {:trigger starts[i + 1]} :: 0 <= i < |blocks| - 1 ==> starts[i + 1] == starts[i] + |blocks[i].txs| + 1
  }

  /**
   The calls are those of the batch: in each block but the last, a kept run of each transaction in
   order and then the opening of the next block; nothing else.
   */
  ghost predicate IsRecord<Tx(!new)>(outcomes: Outcomes<Tx>, blocks: seq<Block<Tx>>, calls: seq<Call<Tx>>,
                                     starts: seq<nat>)
  {
    && Starts(blocks, starts)
    && |calls| == (if blocks == [] then 0 else starts[|blocks| - 1])
    && forall i :: 0 <= i < |blocks| - 1 ==> BlockRecorded(outcomes, blocks, calls, i, starts[i])
  }

  /** From call `start` on: the kept runs of block `i`, then the opening of the next block. */
  ghost predicate BlockRecorded<Tx(!new)>(outcomes: Outcomes<Tx>, blocks: seq<Block<Tx>>, calls: seq<Call<Tx>>, i: nat,
                                          start: nat)
    requires i + 1 < |blocks|
  {
    var txs := blocks[i].txs;
    && start + |txs| < |calls|
    && (forall j :: 0 <= j < |txs| ==> KeptRun(outcomes, calls, start + j, txs[j]))
    && calls[start + |txs|] == Opened(blocks[i + 1])
  }

  /** The first `n` calls answer the first `n` events. */
  ghost predicate Answers<Tx(!new)>(outcomes: Outcomes<Tx>, events: seq<Event<Tx>>, calls: seq<Call<Tx>>) {
    && |calls| <= |events|
    && forall k :: 0 <= k < |calls| ==> AnswersAt(outcomes, events[k], calls, k)
  }

  ghost predicate AnswersAt<Tx(!new)>(outcomes: Outcomes<Tx>, event: Event<Tx>, calls: seq<Call<Tx>>, k: nat)
    requires k < |calls|
  {
    match event
    case RunTx(tx) => KeptRun(outcomes, calls, k, tx)
    case OpenBlock(block) => calls[k] == Opened(block)
  }

  lemma {:induction false} AnswersFront<Tx(!new)>(outcomes: Outcomes<Tx>, event: Event<Tx>, calls: seq<Call<Tx>>,
                                                  call: Call<Tx>, k: nat)
    requires k < |calls|
    ensures AnswersAt(outcomes, event, calls + [call], k) <==> AnswersAt(outcomes, event, calls, k)
  {
    assert (calls + [call])[..k] == calls[..k];
  }

  /** A recorder gets through the first `n` events if and only if some calls answer them, and then holds those. */
  lemma {:induction false} ReplayIsAnswered<Tx(!new)>(outcomes: Outcomes<Tx>, tip: seq<Call<Tx>> -> ExecutionResult,
                                                      events: seq<Event<Tx>>, n: nat)
    requires n <= |events|
    ensures var ran := Replay(Recorder(outcomes, tip), [], events, n);
      && (ran.Ok? ==> |ran.value| == n && Answers(outcomes, events, ran.value))
      && forall calls :: |calls| == n && Answers(outcomes, events, calls) ==> ran == Ok(calls)
  {
    hide AnswersAt;
    var m := Recorder(outcomes, tip);
    ReplayStep(m, [], events, n);
    if n == 0 {
    } else {
      ReplayIsAnswered(outcomes, tip, events, n - 1);
      ReplayStep(m, [], events, n - 1);
      ReplayFailsOnce(m, [], events, n - 1, n);
      var prior := Replay(m, [], events, n - 1);
      hide Replay;
      forall calls | |calls| == n && Answers(outcomes, events, calls)
        ensures Replay(m, [], events, n) == Ok(calls)
      {
        var front := calls[..n - 1];
        assert calls == front + [calls[n - 1]];
        forall k | 0 <= k < n - 1
          ensures AnswersAt(outcomes, events[k], front, k)
        {
          AnswersFront(outcomes, events[k], front, calls[n - 1], k);
        }
        assert prior == Ok(front);
        assert AnswersAt(outcomes, events[n - 1], calls, n - 1);
        EventIsAnswered(outcomes, tip, front, events[n - 1]);
        AnsweredEvent(outcomes, tip, front, events[n - 1], calls[n - 1]);
      }
      if prior.Ok? && Replay(m, [], events, n).Ok? {
        EventIsAnswered(outcomes, tip, prior.value, events[n - 1]);
        var calls := Replay(m, [], events, n).value;
        forall k | 0 <= k < n
          ensures AnswersAt(outcomes, events[k], calls, k)
        {
          if k < n - 1 {
            AnswersFront(outcomes, events[k], prior.value, calls[n - 1], k);
          }
        }
      }
    }
  }

  /** One event on a recorder: success appends one call that answers it. */
  lemma {:induction false} EventIsAnswered<Tx(!new)>(outcomes: Outcomes<Tx>, tip: seq<Call<Tx>> -> ExecutionResult,
                                                     calls: seq<Call<Tx>>, event: Event<Tx>)
    ensures var after := EventEffect(Recorder(outcomes, tip), calls, event);
      after.Ok? ==>
        && |after.value| == |calls| + 1 && after.value[..|calls|] == calls
        && after.value == calls + [after.value[|calls|]]
        && AnswersAt(outcomes, event, after.value, |calls|)
  {
    var after := EventEffect(Recorder(outcomes, tip), calls, event);
    if after.Ok? {
      assert after.value[..|calls|] == calls;
    }
  }

  /** And a call that answers it is the one appended. */
  lemma {:induction false} AnsweredEvent<Tx(!new)>(outcomes: Outcomes<Tx>, tip: seq<Call<Tx>> -> ExecutionResult,
                                                   calls: seq<Call<Tx>>, event: Event<Tx>, call: Call<Tx>)
    requires AnswersAt(outcomes, event, calls + [call], |calls|)
    ensures EventEffect(Recorder(outcomes, tip), calls, event) == Ok(calls + [call])
  {
    assert (calls + [call])[..|calls|] == calls;
  }

  lemma {:induction false} StartsAreLengths<Tx(!new)>(blocks: seq<Block<Tx>>, starts: seq<nat>, i: nat)
    requires Starts(blocks, starts) && i < |blocks|
    ensures starts[i] == |Script(blocks, i)|
  {
    if i == 0 {
    } else {
      StartsAreLengths(blocks, starts, i - 1);
      ScriptStep(blocks, i - 1);
      assert starts[(i - 1) + 1] == starts[i - 1] + |blocks[i - 1].txs| + 1;
    }
  }

  lemma {:induction false} StartsExist<Tx(!new)>(blocks: seq<Block<Tx>>) returns (starts: seq<nat>)
    ensures Starts(blocks, starts)
  {
    starts := seq(|blocks|, i requires 0 <= i < |blocks| => |Script(blocks, i)|);
    forall i {:trigger starts[i + 1]} | 0 <= i < |blocks| - 1
      ensures starts[i + 1] == starts[i] + |blocks[i].txs| + 1
    {
      ScriptStep(blocks, i);
    }
    if |blocks| > 0 {
      ScriptStarts(blocks);
    }
  }

  /** One block: its calls answer its part of the script exactly if it is recorded. */
  lemma {:induction false} BlockAnswers<Tx(!new)>(outcomes: Outcomes<Tx>, blocks: seq<Block<Tx>>, calls: seq<Call<Tx>>,
                                                  i: nat)
    requires i + 1 < |blocks| && |calls| == |BatchScript(blocks)|
    ensures |Script(blocks, i)| <= |Script(blocks, i + 1)| <= |calls|
    ensures (forall k :: |Script(blocks, i)| <= k < |Script(blocks, i + 1)| ==>
               AnswersAt(outcomes, BatchScript(blocks)[k], calls, k)) <==>
            BlockRecorded(outcomes, blocks, calls, i, |Script(blocks, i)|)
  {
    hide Script, BatchScript, TxEvents, KeptRun;
    ScriptExtends(blocks, i);
    var script, start, txs := BatchScript(blocks), |Script(blocks, i)|, blocks[i].txs;
    forall j | 0 <= j < |txs|
      ensures script[start + j] == RunTx(txs[j])
    {
      TxEventAt(txs, j);
      assert script[start + j] == script[start..start + |txs|][j];
    }
    if forall k :: start <= k < |Script(blocks, i + 1)| ==> AnswersAt(outcomes, script[k], calls, k) {
      forall j | 0 <= j < |txs|
        ensures KeptRun(outcomes, calls, start + j, txs[j])
      {
        assert AnswersAt(outcomes, script[start + j], calls, start + j);
      }
      assert AnswersAt(outcomes, script[start + |txs|], calls, start + |txs|);
    }
    if BlockRecorded(outcomes, blocks, calls, i, start) {
      forall k | start <= k < |Script(blocks, i + 1)|
        ensures AnswersAt(outcomes, script[k], calls, k)
      {
        if k < start + |txs| {
          assert script[k] == RunTx(txs[k - start]) && KeptRun(outcomes, calls, start + (k - start), txs[k - start]);
        }
      }
    }
  }

  lemma {:induction false} RecordedUpTo<Tx(!new)>(outcomes: Outcomes<Tx>, blocks: seq<Block<Tx>>,
                                                  calls: seq<Call<Tx>>, n: nat)
    requires n < |blocks| && |calls| == |BatchScript(blocks)|
    ensures |Script(blocks, n)| <= |calls|
    ensures (forall k :: 0 <= k < |Script(blocks, n)| ==> AnswersAt(outcomes, BatchScript(blocks)[k], calls, k)) <==>
            (forall i :: 0 <= i < n ==> BlockRecorded(outcomes, blocks, calls, i, |Script(blocks, i)|))
  {
    hide BatchScript, AnswersAt, BlockRecorded;
    if n == 0 {
    } else {
      RecordedUpTo(outcomes, blocks, calls, n - 1);
      hide Script;
      BlockAnswers(outcomes, blocks, calls, n - 1);
    }
  }

  /** The calls that answer the script are the records of the batch. */
  lemma {:induction false} RecordIffAnswers<Tx(!new)>(outcomes: Outcomes<Tx>, blocks: seq<Block<Tx>>,
                                                      calls: seq<Call<Tx>>, starts: seq<nat>)
    requires Starts(blocks, starts)
    ensures |calls| == |BatchScript(blocks)| && Answers(outcomes, BatchScript(blocks), calls) <==>
            IsRecord(outcomes, blocks, calls, starts)
  {
    hide AnswersAt, BlockRecorded;
    if blocks != [] {
      forall i | 0 <= i < |blocks|
        ensures starts[i] == |Script(blocks, i)|
      {
        StartsAreLengths(blocks, starts, i);
      }
      if |calls| == |BatchScript(blocks)| {
        RecordedUpTo(outcomes, blocks, calls, |blocks| - 1);
        if Answers(outcomes, BatchScript(blocks), calls) {
          forall i | 0 <= i < |blocks| - 1
            ensures BlockRecorded(outcomes, blocks, calls, i, starts[i])
          {
            assert BlockRecorded(outcomes, blocks, calls, i, |Script(blocks, i)|);
          }
        }
        if IsRecord(outcomes, blocks, calls, starts) {
          forall i | 0 <= i < |blocks| - 1
            ensures BlockRecorded(outcomes, blocks, calls, i, |Script(blocks, i)|)
          {
            assert BlockRecorded(outcomes, blocks, calls, i, starts[i]);
          }
        }
      }
    }
  }

  /**
   A batch on a machine that records its calls, whatever its attempts come to: it succeeds exactly
   when the last block is empty, there is a record of kept calls for the whole batch and the tip
   succeeds after it, and then the machine has made exactly those calls and the finalisation. No
   trace is left of an attempt that was rolled back.
   */
  method RecordBatch<Tx(==, !new)>(blocks: seq<Block<Tx>>, outcomes: Outcomes<Tx>,
                                   tip: seq<Call<Tx>> -> ExecutionResult)
    returns (r: Result<(), BatchError>, calls: seq<Call<Tx>>)
    ensures r.Ok? <==>
      && LastBlockIsEmpty(blocks)
      && exists kept, starts :: IsRecord(outcomes, blocks, kept, starts) && tip(kept) == Success
    ensures r.Ok? ==>
      exists kept, starts :: IsRecord(outcomes, blocks, kept, starts) && calls == kept + [Finalized]
  {
    hide BatchScript, IsRecord, Answers, Starts;
    var vm := new Vm(Recorder(outcomes, tip), []);
    r := ExecuteVm(blocks, vm);
    calls := vm.state;
    ghost var script := BatchScript(blocks);
    ghost var ran := Replay(vm.machine, [], script, |script|);
    ReplayIsAnswered(outcomes, tip, script, |script|);
    if ran.Ok? {
      ghost var starts := StartsExist(blocks);
      RecordIffAnswers(outcomes, blocks, ran.value, starts);
    }
    forall kept, starts | IsRecord(outcomes, blocks, kept, starts)
      ensures ran == Ok(kept)
    {
      RecordStarts(outcomes, blocks, kept, starts);
      RecordIffAnswers(outcomes, blocks, kept, starts);
    }
  }

  lemma RecordStarts<Tx(!new)>(outcomes: Outcomes<Tx>, blocks: seq<Block<Tx>>, calls: seq<Call<Tx>>, starts: seq<nat>)
    requires IsRecord(outcomes, blocks, calls, starts)
    ensures Starts(blocks, starts)
  {
  }
}
