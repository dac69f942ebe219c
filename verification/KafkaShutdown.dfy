/** Closing a standalone subscription: one goroutine per partition sends to a shared channel while
    Close cancels, waits for all of them and only then closes that channel. */
module KafkaShutdown {
  import opened Text

  /** Where a partition goroutine stands: at the outer select, sending a message (or giving up on
      cancellation), sending an error (no way out but a receiver), closing its partition consumer,
      back from `consumePartition`, or past `wg.Done`. */
  datatype Routine = Selecting | Offering | Reporting | Closing | Returned | Finished

  datatype Closer = NotCalled | Cancelled | Waited | ChannelClosed | AllClosed

  datatype System = System(
    routines: seq<Routine>, consumerClosed: seq<bool>, wg: int, closer: Closer, sentOnClosed: bool)

  datatype Step =
    | MessageArrives(i: nat)
    | ErrorArrives(i: nat)
    | Send(i: nat)
    | Stop(i: nat)
    | CloseConsumer(i: nat)
    | Done(i: nat)
    | Cancel
    | WaitOver
    | CloseChannel
    | CloseClient

  predicate IsClosed(s: System) {
    s.closer == ChannelClosed || s.closer == AllClosed
  }

  predicate At(s: System, i: nat, r: Routine) {
    i < |s.routines| && s.routines[i] == r
  }

  predicate Enabled(s: System, e: Step) {
    match e
    case MessageArrives(i) => At(s, i, Selecting)
    case ErrorArrives(i) => At(s, i, Selecting)
    case Send(i) => At(s, i, Offering) || At(s, i, Reporting)
    case Stop(i) => s.closer != NotCalled && (At(s, i, Selecting) || At(s, i, Offering))
    case CloseConsumer(i) => At(s, i, Closing) && i < |s.consumerClosed|
    case Done(i) => At(s, i, Returned)
    case Cancel => s.closer == NotCalled
    case WaitOver => s.closer == Cancelled && s.wg == 0
    case CloseChannel => s.closer == Waited
    case CloseClient => s.closer == ChannelClosed
  }

  function Next(s: System, e: Step): System
    requires Enabled(s, e)
  {
    match e
    case MessageArrives(i) => s.(routines := s.routines[i := Offering])
    case ErrorArrives(i) => s.(routines := s.routines[i := Reporting])
    case Send(i) => s.(routines := s.routines[i := Selecting], sentOnClosed := s.sentOnClosed || IsClosed(s))
    case Stop(i) => s.(routines := s.routines[i := Closing])
    case CloseConsumer(i) =>
      s.(routines := s.routines[i := Returned], consumerClosed := s.consumerClosed[i := true])
    case Done(i) => s.(routines := s.routines[i := Finished], wg := s.wg - 1)
    case Cancel => s.(closer := Cancelled)
    case WaitOver => s.(closer := Waited)
    case CloseChannel => s.(closer := ChannelClosed)
    case CloseClient => s.(closer := AllClosed)
  }

  /** `newConsumerSubscription` for a topic with `n` partitions. */
  function Start(n: nat): System {
    System(seq(n, _ => Selecting), seq(n, _ => false), n, NotCalled, false)
  }

  function RunFrom(s: System, steps: seq<Step>): Option<System>
    decreases |steps|
  {
    if steps == [] then Some(s)
    else if Enabled(s, steps[0]) then RunFrom(Next(s, steps[0]), steps[1..])
    else None
  }

  // ---- safety ------------------------------------------------------------

  function Unfinished(rs: seq<Routine>): nat {
    if rs == [] then 0 else (if rs[0] == Finished then 0 else 1) + Unfinished(rs[1..])
  }

  lemma {:induction false} UnfinishedUpdate(rs: seq<Routine>, i: nat, r: Routine)
    requires i < |rs|
    ensures Unfinished(rs[i := r]) ==
      Unfinished(rs) - (if rs[i] == Finished then 0 else 1) + (if r == Finished then 0 else 1)
  {
    if i == 0 {
      assert rs[0 := r][1..] == rs[1..];
    } else {
      UnfinishedUpdate(rs[1..], i - 1, r);
      assert rs[i := r][1..] == rs[1..][i - 1 := r];
    }
  }

  lemma {:induction false} NoneUnfinished(rs: seq<Routine>)
    ensures Unfinished(rs) == 0 <==> forall i :: 0 <= i < |rs| ==> rs[i] == Finished
  {
    if rs != [] {
      NoneUnfinished(rs[1..]);
      assert forall i :: 1 <= i < |rs| ==> rs[i] == rs[1..][i - 1];
    }
  }

  ghost predicate Inv(s: System) {
    && |s.routines| == |s.consumerClosed|
    && s.wg == Unfinished(s.routines)
    && (forall i :: 0 <= i < |s.routines| && s.routines[i] in {Returned, Finished} ==> s.consumerClosed[i])
    && (forall i :: 0 <= i < |s.routines| && s.routines[i] in {Closing, Returned, Finished} ==> s.closer != NotCalled)
    && (s.closer in {Waited, ChannelClosed, AllClosed} ==> s.wg == 0)
    && !s.sentOnClosed
  }

  lemma StepKeepsInv(s: System, e: Step)
    requires Inv(s) && Enabled(s, e)
    ensures Inv(Next(s, e))
  {
    NoneUnfinished(s.routines);
    hide Unfinished;
    match e {
      case MessageArrives(i) => UnfinishedUpdate(s.routines, i, Offering);
      case ErrorArrives(i) => UnfinishedUpdate(s.routines, i, Reporting);
      case Send(i) => UnfinishedUpdate(s.routines, i, Selecting);
      case Stop(i) => UnfinishedUpdate(s.routines, i, Closing);
      case CloseConsumer(i) => UnfinishedUpdate(s.routines, i, Returned);
      case Done(i) => UnfinishedUpdate(s.routines, i, Finished);
      case _ =>
    }
  }

  lemma {:induction false} RunKeepsInv(s: System, steps: seq<Step>)
    requires Inv(s) && RunFrom(s, steps).Some?
    ensures Inv(RunFrom(s, steps).value)
    ensures |RunFrom(s, steps).value.routines| == |s.routines|
    decreases |steps|
  {
    if steps != [] {
      StepKeepsInv(s, steps[0]);
      RunKeepsInv(Next(s, steps[0]), steps[1..]);
    }
  }

  lemma {:induction false} AllSelecting(n: nat)
    ensures Unfinished(seq(n, _ => Selecting)) == n
  {
    if n > 0 {
      AllSelecting(n - 1);
      assert seq(n, _ => Selecting)[1..] == seq(n - 1, _ => Selecting);
    }
  }

  /** For any number of partitions and any interleaving with Close: nothing is ever sent on the
      closed channel, and when it is closed every goroutine has closed its consumer and returned. */
  lemma ClosedOnlyAfterAllReturned(n: nat, steps: seq<Step>)
    requires RunFrom(Start(n), steps).Some?
    ensures var s := RunFrom(Start(n), steps).value;
            && !s.sentOnClosed
            && |s.routines| == |s.consumerClosed| == n
            && (IsClosed(s) ==> forall i :: 0 <= i < |s.routines| ==> s.routines[i] == Finished && s.consumerClosed[i])
  {
    AllSelecting(n);
    RunKeepsInv(Start(n), steps);
    NoneUnfinished(RunFrom(Start(n), steps).value.routines);
  }

  // ---- when Close can return ---------------------------------------------

  /** Close returns on its own: no receiver takes anything from the channel any more. */
  ghost predicate CanFinishAlone(s: System) {
    exists steps :: Alone(s, steps)
  }

  ghost predicate NoSend(steps: seq<Step>) {
    forall e :: e in steps ==> !e.Send?
  }

  ghost predicate Alone(s: System, steps: seq<Step>) {
    && NoSend(steps)
    && RunFrom(s, steps).Some? && RunFrom(s, steps).value.closer == AllClosed
  }

  ghost predicate NobodyReporting(s: System) {
    forall i :: 0 <= i < |s.routines| ==> s.routines[i] != Reporting
  }

  lemma {:induction false} ReportingBlocks(s: System, steps: seq<Step>, i: nat)
    requires Inv(s) && At(s, i, Reporting)
    requires NoSend(steps) && RunFrom(s, steps).Some?
    ensures RunFrom(s, steps).value.closer != AllClosed
    decreases |steps|
  {
    NoneUnfinished(s.routines);
    if steps != [] {
      StepKeepsInv(s, steps[0]);
      ReportingBlocks(Next(s, steps[0]), steps[1..], i);
    }
  }

  function Distance(r: Routine): nat {
    match r
    case Selecting => 3
    case Offering => 3
    case Reporting => 4
    case Closing => 2
    case Returned => 1
    case Finished => 0
  }

  function Remaining(rs: seq<Routine>): nat {
    if rs == [] then 0 else Distance(rs[0]) + Remaining(rs[1..])
  }

  lemma {:induction false} RemainingUpdate(rs: seq<Routine>, i: nat, r: Routine)
    requires i < |rs|
    ensures Remaining(rs[i := r]) == Remaining(rs) - Distance(rs[i]) + Distance(r)
  {
    if i == 0 {
      assert rs[0 := r][1..] == rs[1..];
    } else {
      RemainingUpdate(rs[1..], i - 1, r);
      assert rs[i := r][1..] == rs[1..][i - 1 := r];
    }
  }

  function CloserDistance(c: Closer): nat {
    match c
    case NotCalled => 4
    case Cancelled => 3
    case Waited => 2
    case ChannelClosed => 1
    case AllClosed => 0
  }

  lemma Prepend(s: System, e: Step, steps: seq<Step>)
    requires Enabled(s, e) && !e.Send? && Alone(Next(s, e), steps)
    ensures Alone(s, [e] + steps)
  {
    assert ([e] + steps)[1..] == steps;
  }

  /** The next step of a shutdown that nobody holds up, and that it brings the end closer. */
  lemma NextShutdownStep(s: System) returns (e: Step)
    requires Inv(s) && NobodyReporting(s) && s.closer != AllClosed
    ensures Enabled(s, e) && !e.Send? && NobodyReporting(Next(s, e))
    ensures Remaining(Next(s, e).routines) + CloserDistance(Next(s, e).closer)
          < Remaining(s.routines) + CloserDistance(s.closer)
  {
    hide Unfinished, Remaining;
    NoneUnfinished(s.routines);
    if s.closer == NotCalled {
      e := Cancel;
    } else if s.closer == Waited {
      e := CloseChannel;
    } else if s.closer == ChannelClosed {
      e := CloseClient;
    } else if s.wg == 0 {
      e := WaitOver;
    } else {
      var i: nat :| i < |s.routines| && s.routines[i] != Finished;
      var r := if s.routines[i] == Closing then Returned else if s.routines[i] == Returned then Finished else Closing;
      e := if r == Returned then CloseConsumer(i) else if r == Finished then Done(i) else Stop(i);
      RemainingUpdate(s.routines, i, r);
    }
  }

  lemma {:induction false} FinishAlone(s: System) returns (steps: seq<Step>)
    requires Inv(s) && NobodyReporting(s)
    ensures Alone(s, steps)
    decreases Remaining(s.routines) + CloserDistance(s.closer)
  {
    hide Inv, Remaining, NobodyReporting, Next;
    if s.closer == AllClosed {
      steps := [];
      assert RunFrom(s, []) == Some(s);
    } else {
      var e := NextShutdownStep(s);
      StepKeepsInv(s, e);
      var rest := FinishAlone(Next(s, e));
      Prepend(s, e, rest);
      steps := [e] + rest;
    }
  }

  lemma CanFinishExactly(s: System)
    requires Inv(s)
    ensures CanFinishAlone(s) <==> NobodyReporting(s)
  {
    if NobodyReporting(s) {
      var more := FinishAlone(s);
    } else {
      var i: nat :| i < |s.routines| && s.routines[i] == Reporting;
      forall more | Alone(s, more)
        ensures false
      {
        ReportingBlocks(s, more, i);
      }
    }
  }

  /** Close can return without anybody receiving, if things go well, exactly if no goroutine is reporting
      an error: that send has no cancellation branch. */
  lemma CloseReturnsAloneExactly(n: nat, steps: seq<Step>)
    requires RunFrom(Start(n), steps).Some?
    ensures var s := RunFrom(Start(n), steps).value;
            CanFinishAlone(s) <==> NobodyReporting(s)
  {
    AllSelecting(n);
    RunKeepsInv(Start(n), steps);
    CanFinishExactly(RunFrom(Start(n), steps).value);
  }

  /** A run on which Close hangs: the only partition reports an error, then Close cancels. */
  lemma ReportingHoldsUpClose()
    ensures var r := RunFrom(Start(1), [ErrorArrives(0), Cancel]);
            r.Some? && r.value.closer == Cancelled && !CanFinishAlone(r.value)
  {
    var s := Next(Start(1), ErrorArrives(0));
    assert [ErrorArrives(0), Cancel][1..] == [Cancel];
    assert RunFrom(s, [Cancel]) == Some(Next(s, Cancel));
    var steps := [ErrorArrives(0), Cancel];
    assert RunFrom(Start(1), steps) == Some(Next(s, Cancel));
    assert At(Next(s, Cancel), 0, Reporting);
    CloseReturnsAloneExactly(1, steps);
  }

  // ---- when Close must return --------------------------------------------

  /** Whatever happens without a receiver, Close can still return afterwards. */
  ghost predicate SurelyFinishesAlone(s: System) {
    forall steps :: NoSend(steps) && RunFrom(s, steps).Some? ==> CanFinishAlone(RunFrom(s, steps).value)
  }

  /** No goroutine is at the outer select, where it may still pick up an error, or reporting one. */
  ghost predicate NobodyCanReport(s: System) {
    forall i :: 0 <= i < |s.routines| ==> s.routines[i] != Selecting && s.routines[i] != Reporting
  }

  lemma {:induction false} NobodyStartsReporting(s: System, steps: seq<Step>)
    requires NobodyCanReport(s) && NoSend(steps) && RunFrom(s, steps).Some?
    ensures NobodyCanReport(RunFrom(s, steps).value)
    decreases |steps|
  {
    if steps != [] {
      NobodyStartsReporting(Next(s, steps[0]), steps[1..]);
    }
  }

  /** From every reachable state: Close returns without a receiver, whatever else happens, if and only if
      every goroutine is past the outer select and none is reporting an error.  A goroutine at the outer
      select may take a queued error although the context is done. */
  lemma CloseSurelyReturnsExactly(n: nat, steps: seq<Step>)
    requires RunFrom(Start(n), steps).Some?
    ensures var s := RunFrom(Start(n), steps).value;
            SurelyFinishesAlone(s) <==> NobodyCanReport(s)
  {
    AllSelecting(n);
    RunKeepsInv(Start(n), steps);
    var s := RunFrom(Start(n), steps).value;
    if NobodyCanReport(s) {
      forall more | NoSend(more) && RunFrom(s, more).Some?
        ensures CanFinishAlone(RunFrom(s, more).value)
      {
        NobodyStartsReporting(s, more);
        RunKeepsInv(s, more);
        CanFinishExactly(RunFrom(s, more).value);
      }
    } else {
      var i: nat :| i < |s.routines| && (s.routines[i] == Selecting || s.routines[i] == Reporting);
      var more := if s.routines[i] == Selecting then [ErrorArrives(i)] else [];
      assert more != [] ==> more[1..] == [];
      RunKeepsInv(s, more);
      assert At(RunFrom(s, more).value, i, Reporting);
      CanFinishExactly(RunFrom(s, more).value);
    }
  }

  /** The likely hang: Close cancels first, nobody is reporting, Close could return, and then the
      goroutine takes a queued error instead of the cancellation. */
  lemma ErrorAfterCancelHangs()
    ensures var r := RunFrom(Start(1), [Cancel]);
            && r.Some? && CanFinishAlone(r.value) && !SurelyFinishesAlone(r.value)
            && Enabled(r.value, ErrorArrives(0)) && !CanFinishAlone(Next(r.value, ErrorArrives(0)))
  {
    assert [Cancel][1..] == [];
    var s := Next(Start(1), Cancel);
    assert RunFrom(Start(1), [Cancel]) == Some(s);
    CloseReturnsAloneExactly(1, [Cancel]);
    assert s.routines[0] == Selecting;
    CloseSurelyReturnsExactly(1, [Cancel]);
    AllSelecting(1);
    RunKeepsInv(Start(1), [Cancel]);
    StepKeepsInv(s, ErrorArrives(0));
    assert At(Next(s, ErrorArrives(0)), 0, Reporting);
    CanFinishExactly(Next(s, ErrorArrives(0)));
  }

  /** Steps left if nobody receives: each one brings its goroutine, or Close, closer to the end. */
  function Budget(r: Routine): nat {
    match r
    case Selecting => 4
    case Offering => 3
    case Reporting => 3
    case Closing => 2
    case Returned => 1
    case Finished => 0
  }

  function TotalBudget(rs: seq<Routine>): nat {
    if rs == [] then 0 else Budget(rs[0]) + TotalBudget(rs[1..])
  }

  lemma {:induction false} BudgetUpdate(rs: seq<Routine>, i: nat, r: Routine)
    requires i < |rs|
    ensures TotalBudget(rs[i := r]) == TotalBudget(rs) - Budget(rs[i]) + Budget(r)
  {
    if i == 0 {
      assert rs[0 := r][1..] == rs[1..];
    } else {
      BudgetUpdate(rs[1..], i - 1, r);
      assert rs[i := r][1..] == rs[1..][i - 1 := r];
    }
  }

  lemma StepSpends(s: System, e: Step)
    requires Enabled(s, e) && !e.Send?
    ensures TotalBudget(Next(s, e).routines) + CloserDistance(Next(s, e).closer)
          < TotalBudget(s.routines) + CloserDistance(s.closer)
  {
    hide TotalBudget;
    match e {
      case MessageArrives(i) => BudgetUpdate(s.routines, i, Offering);
      case ErrorArrives(i) => BudgetUpdate(s.routines, i, Reporting);
      case Stop(i) => BudgetUpdate(s.routines, i, Closing);
      case CloseConsumer(i) => BudgetUpdate(s.routines, i, Returned);
      case Done(i) => BudgetUpdate(s.routines, i, Finished);
      case _ =>
    }
  }

  lemma {:induction false} AloneRunsAreShort(s: System, steps: seq<Step>)
    requires NoSend(steps) && RunFrom(s, steps).Some?
    ensures |steps| <= TotalBudget(s.routines) + CloserDistance(s.closer)
    decreases |steps|
  {
    if steps != [] {
      StepSpends(s, steps[0]);
      AloneRunsAreShort(Next(s, steps[0]), steps[1..]);
    }
  }

  /** Nothing more can happen without a receiver. */
  ghost predicate Stuck(s: System) {
    forall e :: Enabled(s, e) ==> e.Send?
  }

  /** Without a receiver every run ends, after a bounded number of steps; where it ends, Close has
      returned if and only if no goroutine is reporting an error, which is certain if nobody could report
      one at the start. */
  lemma AloneRunsEnd(n: nat, steps: seq<Step>, more: seq<Step>)
    requires RunFrom(Start(n), steps).Some?
    requires NoSend(more) && RunFrom(RunFrom(Start(n), steps).value, more).Some?
    ensures var s := RunFrom(Start(n), steps).value;
            var end := RunFrom(s, more).value;
            && |more| <= TotalBudget(s.routines) + CloserDistance(s.closer)
            && (Stuck(end) ==> (end.closer == AllClosed <==> NobodyReporting(end)))
            && (Stuck(end) && NobodyCanReport(s) ==> end.closer == AllClosed)
  {
    AllSelecting(n);
    RunKeepsInv(Start(n), steps);
    var s := RunFrom(Start(n), steps).value;
    AloneRunsAreShort(s, more);
    RunKeepsInv(s, more);
    if NobodyCanReport(s) {
      NobodyStartsReporting(s, more);
    }
    var end := RunFrom(s, more).value;
    NoneUnfinished(end.routines);
    if NobodyReporting(end) && end.closer != AllClosed {
      var e := NextShutdownStep(end);
    }
  }
}
