/** The file ingestion task around the step machine: credits, compensation, retries. */
module FileTask {
  import opened Steps

  const PROCESS := 1
  const TOKEN_COST := 2
  const CLEANUP := 3

  /** What the credit service raises when it cannot refund. */
  const REFUND_FAILED := Failure("refund")

  /** What leaves the worker: the document refund, the token charge (the last statement of
      the token step) and the deletion of the file (the cleanup body). */
  datatype Effect = Refund | Charge | DeleteFile | Body(index: int, compensating: bool)

  /** How the foreign code behaves in one call of the task: the bodies of the main run, the
      credit refund, and the bodies of the compensation run. */
  datatype Call = Call(main: nat -> BodyEnd, refundWorks: bool, compensation: nat -> BodyEnd)

  datatype CallResult = CallResult(saved: Record, effects: seq<Effect>, outcome: Outcome)

  function EffectOf(e: Event, compensating: bool): seq<Effect> {
    match e
    case Start(i) => [Body(i, compensating)]
    case Finish(i) => if i == TOKEN_COST then [Charge] else if i == CLEANUP then [DeleteFile] else []
  }

  function EffectsOf(trace: seq<Event>, compensating: bool): seq<Effect> {
    if trace == [] then []
    else EffectsOf(trace[..|trace| - 1], compensating) + EffectOf(trace[|trace| - 1], compensating)
  }

  /** `refund`: give the document credits back when processing never finished, and run the
      task again from "everything but the cleanup is done" when the cleanup did not. */
  function Compensate(current: int, call: Call, stamped: bool): (seq<Effect>, Outcome) {
    var refunds := current < PROCESS;
    var effects := if refunds && call.refundWorks then [Refund] else [];
    if refunds && !call.refundWorks then ([], Threw(REFUND_FAILED))
    else if current < CLEANUP then
      var run := RunTask(Record(CLEANUP - 1, map[]), CLEANUP, call.compensation, stamped);
      (effects + EffectsOf(run.trace, true), run.outcome)
    else (effects, Done)
  }

  /** The registered wrapper.  A `Retry` of the main run saves the record; any other
      exception compensates and is raised again, unless the compensation raises itself. */
  function CallTask(saved: Record, call: Call, stamped: bool): CallResult {
    var run := RunTask(saved, CLEANUP, call.main, stamped);
    var effects := EffectsOf(run.trace, false);
    if run.outcome == Done then CallResult(saved, effects, Done)
    else if run.outcome == Threw(Retry) then CallResult(run.record, effects, Threw(Retry))
    else
      var (more, end) := Compensate(run.record.current, call, stamped);
      CallResult(saved, effects + more, if end.Threw? then end else run.outcome)
  }

  /** The job: whenever `Retry` comes out of the wrapper the task is called again with the
      saved record. */
  function Job(saved: Record, calls: seq<Call>, stamped: bool): seq<Effect>
    decreases |calls|
  {
    if calls == [] then []
    else
      var r := CallTask(saved, calls[0], stamped);
      if r.outcome == Threw(Retry) then r.effects + Job(r.saved, calls[1..], stamped) else r.effects
  }

  /** The `refund` of the file task. */
  method RefundTask(current: int, call: Call, stamped: bool) returns (effects: seq<Effect>, end: Outcome)
    ensures (effects, end) == Compensate(current, call, stamped)
  {
    effects, end := [], Done;
    if current < PROCESS {
      if !call.refundWorks {
        return [], Threw(REFUND_FAILED);
      }
      effects := [Refund];
    }
    if current < CLEANUP {
      var again := new Step(Record(CLEANUP - 1, map[]));
      var trace;
      trace, end := RunSteps(again, CLEANUP, call.compensation, stamped);
      effects := effects + EffectsOf(trace, true);
    }
  }

  /** The wrapper itself. */
  method Wrapper(saved: Record, call: Call, stamped: bool) returns (r: CallResult)
    ensures r == CallTask(saved, call, stamped)
  {
    var step := new Step(saved);
    var trace, outcome := RunSteps(step, CLEANUP, call.main, stamped);
    var effects := EffectsOf(trace, false);
    if outcome == Done {
      return CallResult(saved, effects, Done);
    }
    if outcome == Threw(Retry) {
      return CallResult(step.Value(), effects, Threw(Retry));
    }
    var more, end := RefundTask(step.current, call, stamped);
    r := CallResult(saved, effects + more, if end.Threw? then end else outcome);
  }

  /* ---------- counting ---------- */

  function Count(effects: seq<Effect>, e: Effect): nat {
    if effects == [] then 0
    else Count(effects[..|effects| - 1], e) + (if effects[|effects| - 1] == e then 1 else 0)
  }

  lemma {:induction false} CountConcat(a: seq<Effect>, b: seq<Effect>, e: Effect)
    ensures Count(a + b, e) == Count(a, e) + Count(b, e)
    decreases |b|
  {
    if b == [] {
      assert a + b == a;
    } else {
      assert (a + b)[..|a + b| - 1] == a + b[..|b| - 1];
      CountConcat(a, b[..|b| - 1], e);
    }
  }

  lemma {:induction false} EffectsConcat(a: seq<Event>, b: seq<Event>, compensating: bool)
    ensures EffectsOf(a + b, compensating) == EffectsOf(a, compensating) + EffectsOf(b, compensating)
    decreases |b|
  {
    if b == [] {
      assert a + b == a;
    } else {
      assert (a + b)[..|a + b| - 1] == a + b[..|b| - 1];
      EffectsConcat(a, b[..|b| - 1], compensating);
    }
  }

  /** An effect of a run is counted exactly when some event of the run emits it. */
  lemma {:induction false} CountIffEmitted(trace: seq<Event>, compensating: bool, x: Effect)
    ensures Count(EffectsOf(trace, compensating), x) > 0 <==> Emitted(trace, compensating, x)
  {
    if trace != [] {
      var n := |trace| - 1;
      CountIffEmitted(trace[..n], compensating, x);
      CountSnoc(trace, compensating, x);
      EmittedSnoc(trace, compensating, x);
    }
  }

  ghost predicate Emitted(trace: seq<Event>, compensating: bool, x: Effect) {
    exists k :: 0 <= k < |trace| && EffectOf(trace[k], compensating) == [x]
  }

  lemma EmittedSnoc(trace: seq<Event>, compensating: bool, x: Effect)
    requires trace != []
    ensures var n := |trace| - 1;
            Emitted(trace, compensating, x) <==>
              Emitted(trace[..n], compensating, x) || EffectOf(trace[n], compensating) == [x]
  {
    var n := |trace| - 1;
    assert forall k :: 0 <= k < n ==> trace[..n][k] == trace[k];
  }

  lemma CountSnoc(trace: seq<Event>, compensating: bool, x: Effect)
    requires trace != []
    ensures Count(EffectsOf(trace, compensating), x)
         == Count(EffectsOf(trace[..|trace| - 1], compensating), x)
          + (if EffectOf(trace[|trace| - 1], compensating) == [x] then 1 else 0)
  {
    var n := |trace| - 1;
    CountConcat(EffectsOf(trace[..n], compensating), EffectOf(trace[n], compensating), x);
    OneEffect(trace[n], compensating, x);
  }

  /** What only one event emits is counted at most once. */
  lemma {:induction false} CountAtMostOnce(trace: seq<Event>, compensating: bool, x: Effect)
    requires forall j, k :: 0 <= j < k < |trace| ==>
      !(EffectOf(trace[j], compensating) == [x] && EffectOf(trace[k], compensating) == [x])
    ensures Count(EffectsOf(trace, compensating), x) <= 1
  {
    if trace != [] {
      var n := |trace| - 1;
      CountSnoc(trace, compensating, x);
      CountIffEmitted(trace[..n], compensating, x);
      assert forall k :: 0 <= k < n ==> trace[..n][k] == trace[k];
      CountAtMostOnce(trace[..n], compensating, x);
    }
  }

  /** No effect of a run is the refund, and a charge or a deletion is the finish of its step. */
  lemma EffectsMeaning(trace: seq<Event>, compensating: bool)
    ensures var effects := EffectsOf(trace, compensating);
            && Count(effects, Refund) == 0
            && (Count(effects, Charge) > 0 <==> Finish(TOKEN_COST) in trace)
            && (Count(effects, DeleteFile) > 0 <==> Finish(CLEANUP) in trace)
  {
    CountIffEmitted(trace, compensating, Refund);
    CountIffEmitted(trace, compensating, Charge);
    CountIffEmitted(trace, compensating, DeleteFile);
    EmittedIffFinished(trace, compensating, Charge, TOKEN_COST);
    EmittedIffFinished(trace, compensating, DeleteFile, CLEANUP);
    NeverEmitted(trace, compensating);
  }

  lemma EmittedIffFinished(trace: seq<Event>, compensating: bool, x: Effect, step: int)
    requires (x == Charge && step == TOKEN_COST) || (x == DeleteFile && step == CLEANUP)
    ensures Emitted(trace, compensating, x) <==> Finish(step) in trace
  {
    if Emitted(trace, compensating, x) {
      var k :| 0 <= k < |trace| && EffectOf(trace[k], compensating) == [x];
      assert trace[k] == Finish(step);
    }
    if Finish(step) in trace {
      var k :| 0 <= k < |trace| && trace[k] == Finish(step);
      assert EffectOf(trace[k], compensating) == [x];
    }
  }

  lemma NeverEmitted(trace: seq<Event>, compensating: bool)
    ensures !Emitted(trace, compensating, Refund)
  {
    forall k | 0 <= k < |trace| ensures EffectOf(trace[k], compensating) != [Refund] {
      var effects := EffectOf(trace[k], compensating);
      assert effects == [] || effects[0] != Refund;
    }
  }

  lemma {:induction false} FinishIsListed(trace: seq<Event>, k: nat)
    requires k < |trace| && trace[k].Finish?
    ensures trace[k].index in Finishes(trace)
  {
    var n := |trace| - 1;
    if k < n {
      FinishIsListed(trace[..n], k);
    }
  }

  /** Steps finish in increasing order, so no step finishes twice. */
  lemma {:induction false} FinishesDiffer(trace: seq<Event>, j: nat, k: nat)
    requires Increasing(Finishes(trace)) && j < k < |trace| && trace[j].Finish?
    ensures trace[j] != trace[k]
  {
    var n := |trace| - 1;
    var before := Finishes(trace[..n]);
    assert Finishes(trace)[..|before|] == before;
    if k < n {
      FinishesDiffer(trace[..n], j, k);
    } else if trace[n].Finish? {
      FinishIsListed(trace[..n], j);
      var m :| 0 <= m < |before| && before[m] == trace[j].index;
      assert Finishes(trace)[m] < Finishes(trace)[|before|];
    }
  }

  lemma ChargesOnce(trace: seq<Event>, compensating: bool)
    requires Increasing(Finishes(trace))
    ensures Count(EffectsOf(trace, compensating), Charge) <= 1
  {
    forall j, k | 0 <= j < k < |trace|
      ensures !(EffectOf(trace[j], compensating) == [Charge] && EffectOf(trace[k], compensating) == [Charge])
    {
      if trace[j].Finish? {
        FinishesDiffer(trace, j, k);
      }
    }
    CountAtMostOnce(trace, compensating, Charge);
  }

  lemma CountOne(x: Effect, e: Effect)
    ensures Count([x], e) == (if x == e then 1 else 0)
  {
    assert [x][..0] == [];
  }

  lemma EffectsOne(e: Event, compensating: bool)
    ensures EffectsOf([e], compensating) == EffectOf(e, compensating)
  {
    assert [e][..0] == [];
  }

  lemma OneEffect(e: Event, compensating: bool, x: Effect)
    ensures Count(EffectOf(e, compensating), x) == (if EffectOf(e, compensating) == [x] then 1 else 0)
  {
    if EffectOf(e, compensating) != [] {
      CountOne(EffectOf(e, compensating)[0], x);
    }
  }

  /* ---------- the main results ---------- */

  /** A run above step k finishes the token step only when it may still be entered. */
  lemma ChargeNeedsEntry(saved: Record, k: nat, after: Record, trace: seq<Event>)
    requires ReachedStep(saved, k) && AllAbove(Finishes(trace), k) && AllWithin(Finishes(trace), after.current)
    ensures Finish(TOKEN_COST) in trace ==> Enters(saved, TOKEN_COST) && after.current >= TOKEN_COST
  {
    if Finish(TOKEN_COST) in trace {
      var j :| 0 <= j < |trace| && trace[j] == Finish(TOKEN_COST);
      FinishIsListed(trace, j);
    }
  }

  /** What one main run leaves for the accounts. */
  lemma MainRun(saved: Record, k: nat, body: nat -> BodyEnd) returns (k': nat)
    requires ReachedStep(saved, k)
    ensures var run := RunTask(saved, CLEANUP, body, true);
            var effects := EffectsOf(run.trace, false);
            && ReachedStep(run.record, k') && run.record.current >= saved.current
            && Count(effects, Refund) == 0
            && Count(effects, Charge) <= (if Enters(saved, TOKEN_COST) then 1 else 0)
            && (Count(effects, Charge) > 0 ==> run.record.current >= TOKEN_COST)
  {
    var run := RunTask(saved, CLEANUP, body, true);
    EffectsMeaning(run.trace, false);
    if body(0).Raises? {
      k' := k;
    } else {
      k' := RunKeeps(saved, k, 1, CLEANUP, body);
      ChargesOnce(run.trace, false);
      ChargeNeedsEntry(saved, k, run.record, run.trace);
    }
  }

  /** What a compensation run is: nothing when the code before the steps raises, else the
      cleanup body alone. */
  lemma CompensationTrace(call: Call)
    ensures var run := RunTask(Record(CLEANUP - 1, map[]), CLEANUP, call.compensation, true);
            var last := call.compensation(CLEANUP);
            if call.compensation(0).Raises?
            then run.trace == [] && run.outcome == Threw(call.compensation(0).e)
            else && run.trace == (if last == Normal then [Start(CLEANUP), Finish(CLEANUP)] else [Start(CLEANUP)])
                 && run.outcome == (if last.Raises? then Threw(last.e) else Done)
  {
    if !call.compensation(0).Raises? {
      CompensationSkips(Record(CLEANUP - 1, map[]), 1, CLEANUP, call.compensation);
    }
  }

  /** The compensation run executes the cleanup body and no other, unless the code before
      the steps raises; it deletes the file exactly when that body succeeds. */
  lemma CompensationRunsCleanupOnly(call: Call)
    ensures var run := RunTask(Record(CLEANUP - 1, map[]), CLEANUP, call.compensation, true);
            var effects := EffectsOf(run.trace, true);
            && (forall e :: e in run.trace ==> e.index == CLEANUP)
            && (Start(CLEANUP) in run.trace <==> !call.compensation(0).Raises?)
            && Count(effects, Charge) == 0 && Count(effects, Refund) == 0
            && (Count(effects, DeleteFile) > 0 <==>
                  !call.compensation(0).Raises? && call.compensation(CLEANUP) == Normal)
            && (run.outcome == Threw(Retry) <==>
                  call.compensation(0) == Raises(Retry)
                  || (!call.compensation(0).Raises? && call.compensation(CLEANUP) == Raises(Retry)))
  {
    CompensationTrace(call);
    var trace := RunTask(Record(CLEANUP - 1, map[]), CLEANUP, call.compensation, true).trace;
    EffectsMeaning(trace, true);
    CleanupEvents(trace);
  }

  lemma CleanupEvents(trace: seq<Event>)
    requires trace == [] || trace == [Start(CLEANUP)] || trace == [Start(CLEANUP), Finish(CLEANUP)]
    ensures forall e :: e in trace ==> e.index == CLEANUP
    ensures Start(CLEANUP) in trace <==> trace != []
    ensures Finish(CLEANUP) in trace <==> |trace| == 2
    ensures Finish(TOKEN_COST) !in trace
  {
    assert trace != [] ==> trace[0] == Start(CLEANUP);
    assert |trace| == 2 ==> trace[1] == Finish(CLEANUP);
  }

  /** The compensation of this call does not end by asking for a retry. */
  ghost predicate NoRetryInCompensation(call: Call) {
    call.compensation(0) != Raises(Retry) && call.compensation(CLEANUP) != Raises(Retry)
  }

  lemma CompensateEffects(current: int, call: Call)
    ensures var (effects, end) := Compensate(current, call, true);
            && Count(effects, Charge) == 0
            && Count(effects, Refund) == (if current < PROCESS && call.refundWorks then 1 else 0)
            && (NoRetryInCompensation(call) ==> end != Threw(Retry))
  {
    CompensationRunsCleanupOnly(call);
    var run := RunTask(Record(CLEANUP - 1, map[]), CLEANUP, call.compensation, true);
    var effects := EffectsOf(run.trace, true);
    CountOne(Refund, Refund);
    CountOne(Refund, Charge);
    CountConcat([Refund], effects, Refund);
    CountConcat([Refund], effects, Charge);
    assert [] + effects == effects;
  }

  /** The main run asks for a retry. */
  predicate MainRetries(saved: Record, call: Call) {
    RunTask(saved, CLEANUP, call.main, true).outcome == Threw(Retry)
  }

  /** One call of the task: it does at most one of refunding and charging.  When its main run
      asks for a retry it did not refund, and having charged it left a record that rules out
      charging or refunding again; a retry out of the compensation leaves the old record. */
  lemma OneCall(saved: Record, k: nat, call: Call) returns (k': nat)
    requires ReachedStep(saved, k)
    ensures var r := CallTask(saved, call, true);
            && Count(r.effects, Refund) <= (if saved.current < PROCESS then 1 else 0)
            && Count(r.effects, Charge) <= (if Enters(saved, TOKEN_COST) then 1 else 0)
            && Count(r.effects, Refund) + Count(r.effects, Charge) <= 1
            && (r.outcome == Threw(Retry) && MainRetries(saved, call) ==>
                  ReachedStep(r.saved, k') && r.saved.current >= saved.current && Count(r.effects, Refund) == 0
                  && (Count(r.effects, Charge) > 0 ==> r.saved.current >= TOKEN_COST)
                  && (Enters(r.saved, TOKEN_COST) ==> Enters(saved, TOKEN_COST)))
            && (r.outcome == Threw(Retry) && !MainRetries(saved, call) ==> r.saved == saved)
            && (NoRetryInCompensation(call) && r.outcome == Threw(Retry) ==> MainRetries(saved, call))
  {
    k' := MainRun(saved, k, call.main);
    EntersBackwards(saved, k, call.main);
    var run := RunTask(saved, CLEANUP, call.main, true);
    var effects := EffectsOf(run.trace, false);
    if run.outcome.Threw? && run.outcome != Threw(Retry) {
      CompensateEffects(run.record.current, call);
      var (more, end) := Compensate(run.record.current, call, true);
      CountConcat(effects, more, Refund);
      CountConcat(effects, more, Charge);
    }
  }

  /** A step that may be entered after a run could be entered before it. */
  lemma EntersBackwards(saved: Record, k: nat, body: nat -> BodyEnd)
    requires ReachedStep(saved, k)
    ensures Enters(RunTask(saved, CLEANUP, body, true).record, TOKEN_COST) ==> Enters(saved, TOKEN_COST)
  {
    if !body(0).Raises? {
      var k' := RunKeeps(saved, k, 1, CLEANUP, body);
    }
  }

  /** For every job, from a fresh record and for every way the foreign code behaves: the
      document is refunded at most once, tokens are charged at most once, and never both,
      provided no compensation ends by asking for a retry. */
  lemma RefundExcludesCharge(calls: seq<Call>)
    requires forall c :: c in calls ==> NoRetryInCompensation(c)
    ensures var effects := Job(FRESH_RECORD, calls, true);
            Count(effects, Refund) + Count(effects, Charge) <= 1
  {
    JobAccounts(FRESH_RECORD, 0, calls);
  }

  lemma {:induction false} JobAccounts(saved: Record, k: nat, calls: seq<Call>)
    requires ReachedStep(saved, k) && forall c :: c in calls ==> NoRetryInCompensation(c)
    ensures var effects := Job(saved, calls, true);
            && Count(effects, Refund) <= (if saved.current < PROCESS then 1 else 0)
            && Count(effects, Charge) <= (if Enters(saved, TOKEN_COST) then 1 else 0)
            && Count(effects, Refund) + Count(effects, Charge) <= 1
    decreases |calls|
  {
    if calls != [] {
      var k' := OneCall(saved, k, calls[0]);
      var r := CallTask(saved, calls[0], true);
      if r.outcome == Threw(Retry) {
        JobAccounts(r.saved, k', calls[1..]);
        CountConcat(r.effects, Job(r.saved, calls[1..], true), Refund);
        CountConcat(r.effects, Job(r.saved, calls[1..], true), Charge);
      }
    }
  }

  /* ---------- how a call ends ---------- */

  /** Body i is the first to raise. */
  predicate FirstRaises(body: nat -> BodyEnd, i: nat) {
    i <= CLEANUP && body(i).Raises? && forall k :: 0 <= k < i ==> !body(k).Raises?
  }

  /** What comes out of a call of a new job whose body i is the first to raise, with an exception
      that is no `Retry`: what the refund raises when it is needed and fails, else what the
      compensation raises, else the exception itself. */
  function RaisedOut(call: Call, i: nat): Exception
    requires call.main(i).Raises?
  {
    if (forall k :: 1 <= k < i ==> call.main(k) != Normal) && !call.refundWorks then REFUND_FAILED
    else if call.compensation(0).Raises? then call.compensation(0).e
    else if call.compensation(CLEANUP).Raises? then call.compensation(CLEANUP).e
    else call.main(i).e
  }

  lemma NoneRaises(body: nat -> BodyEnd)
    requires forall i :: 0 <= i <= CLEANUP ==> !body(i).Raises?
    ensures RunTask(FRESH_RECORD, CLEANUP, body, true).outcome == Done
  {
    assert !body(0).Raises? && !body(1).Raises? && !body(2).Raises? && !body(3).Raises?;
    var r1 := StepOnce(FRESH_RECORD, 1, body(1), true);
    var r2 := StepOnce(r1.record, 2, body(2), true);
    var r3 := StepOnce(r2.record, 3, body(3), true);
    assert RunFrom(r3.record, 4, CLEANUP, body, true) == Run(r3.record, [], Done);
  }

  /** The run stops at the first body that raises; its last step that counted is below that. */
  lemma StopsAtFirst(body: nat -> BodyEnd, i: nat)
    requires FirstRaises(body, i)
    ensures var run := RunTask(FRESH_RECORD, CLEANUP, body, true);
      && run.outcome == Threw(body(i).e) && run.record.current < CLEANUP
      && (run.record.current < PROCESS <==> forall k :: 1 <= k < i ==> body(k) != Normal)
  {
    if i > 0 {
      assert !body(0).Raises?;
      var r1 := StepOnce(FRESH_RECORD, 1, body(1), true);
      var r2 := StepOnce(r1.record, 2, body(2), true);
      assert i > 1 ==> !body(1).Raises?;
      assert i > 2 ==> !body(2).Raises?;
      assert RunFrom(r2.record, 3, CLEANUP, body, true) == StepOnce(r2.record, 3, body(3), true) || i < 3;
    }
  }

  lemma CompensationEnds(current: int, call: Call)
    requires current < CLEANUP
    ensures Compensate(current, call, true).1 ==
      if current < PROCESS && !call.refundWorks then Threw(REFUND_FAILED)
      else if call.compensation(0).Raises? then Threw(call.compensation(0).e)
      else if call.compensation(CLEANUP).Raises? then Threw(call.compensation(CLEANUP).e)
      else Done
  {
    CompensationTrace(call);
  }

  /** A call of a new job ends well exactly when no body raises.  Else it raises: `Retry` when that
      is what the first body to raise asks for, and any failure after its compensation, whose
      own exception comes first. */
  lemma CallEnds(call: Call)
    ensures var outcome := CallTask(FRESH_RECORD, call, true).outcome;
      && (outcome == Done <==> forall i :: 0 <= i <= CLEANUP ==> !call.main(i).Raises?)
      && (forall i :: FirstRaises(call.main, i) ==>
            outcome == Threw(if call.main(i).e == Retry then Retry else RaisedOut(call, i)))
  {
    if forall i :: 0 <= i <= CLEANUP ==> !call.main(i).Raises? {
      NoneRaises(call.main);
    } else {
      var i := First(call.main);
      RaisingCallEnds(call, i);
    }
    forall i | FirstRaises(call.main, i)
      ensures CallTask(FRESH_RECORD, call, true).outcome
           == Threw(if call.main(i).e == Retry then Retry else RaisedOut(call, i))
    {
      RaisingCallEnds(call, i);
    }
  }

  lemma First(body: nat -> BodyEnd) returns (i: nat)
    requires exists k :: 0 <= k <= CLEANUP && body(k).Raises?
    ensures FirstRaises(body, i)
  {
    i := 0;
    while !body(i).Raises?
      invariant i <= CLEANUP && forall k :: 0 <= k < i ==> !body(k).Raises?
      invariant exists k :: i <= k <= CLEANUP && body(k).Raises?
      decreases CLEANUP - i
    {
      i := i + 1;
    }
  }

  lemma RaisingCallEnds(call: Call, i: nat)
    requires FirstRaises(call.main, i)
    ensures CallTask(FRESH_RECORD, call, true).outcome
         == Threw(if call.main(i).e == Retry then Retry else RaisedOut(call, i))
  {
    StopsAtFirst(call.main, i);
    CompensationEnds(RunTask(FRESH_RECORD, CLEANUP, call.main, true).record.current, call);
  }

  /** A failure is reported: whatever exception but `Retry` the first body to raise ends with comes
      out of the call when the refund works and the compensation is quiet. */
  lemma FailureComesOut(call: Call, i: nat)
    requires FirstRaises(call.main, i) && call.main(i).e != Retry && call.refundWorks
    requires !call.compensation(0).Raises? && !call.compensation(CLEANUP).Raises?
    ensures CallTask(FRESH_RECORD, call, true).outcome == Threw(call.main(i).e)
  {
    RaisingCallEnds(call, i);
  }

  /* ---------- retries out of a compensation ---------- */

  ghost predicate AtMostOne(effects: seq<Effect>) {
    Count(effects, Refund) + Count(effects, Charge) <= 1
  }

  /** The call refunds or charges, and then its compensation asks for a retry. */
  ghost predicate RetriesSettled(call: Call) {
    var r := CallTask(FRESH_RECORD, call, true);
    && r.outcome == Threw(Retry) && !MainRetries(FRESH_RECORD, call)
    && Count(r.effects, Refund) + Count(r.effects, Charge) > 0
  }

  /** A job that begins with this call and goes on without retries out of compensations. */
  ghost predicate ContinuesRight(call: Call, rest: seq<Call>) {
    (forall c :: c in rest ==> NoRetryInCompensation(c)) ==> AtMostOne(Job(FRESH_RECORD, [call] + rest, true))
  }

  predicate Fails(end: BodyEnd) {
    end.Raises? && end.e != Retry
  }

  /** The run stops with an exception that is no `Retry` before any step counts. */
  predicate FailsBeforeCounting(body: nat -> BodyEnd) {
    || Fails(body(0))
    || (!body(0).Raises? && (
          || Fails(body(PROCESS))
          || (body(PROCESS) == Skip && Fails(body(TOKEN_COST)))
          || (body(PROCESS) == body(TOKEN_COST) == Skip && Fails(body(CLEANUP)))))
  }

  /** The tokens are charged for and the cleanup body stops with an exception that is no `Retry`. */
  predicate FailsAfterCharging(body: nat -> BodyEnd) {
    !body(0).Raises? && !body(PROCESS).Raises? && body(TOKEN_COST) == Normal && Fails(body(CLEANUP))
  }

  predicate CompensationRetries(call: Call) {
    || call.compensation(0) == Raises(Retry)
    || (!call.compensation(0).Raises? && call.compensation(CLEANUP) == Raises(Retry))
  }

  /** The same in terms of how the bodies end. */
  predicate EndsSettled(call: Call) {
    CompensationRetries(call)
    && ((FailsBeforeCounting(call.main) && call.refundWorks) || FailsAfterCharging(call.main))
  }

  /** For every call of a new job: however the job goes on, refund and charge together happen
      at most once, exactly if the call does not first refund or charge and then ask for a
      retry out of its compensation, which the ends of its bodies tell. */
  lemma ContinuesRightIff(call: Call)
    ensures (forall rest :: ContinuesRight(call, rest)) <==> !EndsSettled(call)
  {
    RetriesSettledIff(call);
    if RetriesSettled(call) {
      var plain := StopsContinuing(call);
      assert !ContinuesRight(call, [plain]);
    } else {
      forall rest ensures ContinuesRight(call, rest) {
        KeepsContinuing(call, rest);
      }
    }
  }

  lemma RetriesSettledIff(call: Call)
    ensures RetriesSettled(call) <==> EndsSettled(call)
  {
    var run := RunTask(FRESH_RECORD, CLEANUP, call.main, true);
    var effects := EffectsOf(run.trace, false);
    FreshRun(call.main);
    EffectsMeaning(run.trace, false);
    if run.outcome.Threw? && run.outcome != Threw(Retry) {
      CompensateEffects(run.record.current, call);
      CompensateRetries(run.record.current, call);
      var (more, end) := Compensate(run.record.current, call, true);
      CountConcat(effects, more, Refund);
      CountConcat(effects, more, Charge);
    }
  }

  lemma CompensateRetries(current: int, call: Call)
    ensures Compensate(current, call, true).1 == Threw(Retry)
      <==> (current < PROCESS ==> call.refundWorks) && current < CLEANUP && CompensationRetries(call)
  {
    CompensationTrace(call);
  }

  /** A run from a fresh record, by the ends of its bodies. */
  lemma FreshRun(body: nat -> BodyEnd)
    ensures var run := RunTask(FRESH_RECORD, CLEANUP, body, true);
      && (run.outcome.Threw? && run.outcome != Threw(Retry) && run.record.current < PROCESS
          <==> FailsBeforeCounting(body))
      && (run.outcome.Threw? && run.outcome != Threw(Retry) && Finish(TOKEN_COST) in run.trace
          <==> FailsAfterCharging(body))
      && (run.outcome.Threw? && run.outcome != Threw(Retry) ==> run.record.current < CLEANUP)
  {
    var r1 := StepOnce(FRESH_RECORD, 1, body(1), true);
    var r2 := StepOnce(r1.record, 2, body(2), true);
    var r3 := StepOnce(r2.record, 3, body(3), true);
    assert RunFrom(r3.record, 4, CLEANUP, body, true) == Run(r3.record, [], Done);
  }

  lemma KeepsContinuing(call: Call, rest: seq<Call>)
    requires !RetriesSettled(call)
    ensures ContinuesRight(call, rest)
  {
    if forall c :: c in rest ==> NoRetryInCompensation(c) {
      NeverSettledTwice(call, rest);
    }
  }

  lemma StopsContinuing(call: Call) returns (plain: Call)
    requires RetriesSettled(call)
    ensures !ContinuesRight(call, [plain])
  {
    plain := Call(_ => Normal, true, _ => Normal);
    SettledTwice(call, plain);
    assert [call] + [plain] == [call, plain];
  }

  lemma NeverSettledTwice(call: Call, rest: seq<Call>)
    requires !RetriesSettled(call) && forall c :: c in rest ==> NoRetryInCompensation(c)
    ensures AtMostOne(Job(FRESH_RECORD, [call] + rest, true))
  {
    var k' := OneCall(FRESH_RECORD, 0, call);
    var r := CallTask(FRESH_RECORD, call, true);
    assert ([call] + rest)[1..] == rest;
    if r.outcome == Threw(Retry) {
      JobAccounts(r.saved, if MainRetries(FRESH_RECORD, call) then k' else 0, rest);
      CountConcat(r.effects, Job(r.saved, rest, true), Refund);
      CountConcat(r.effects, Job(r.saved, rest, true), Charge);
    }
  }

  predicate Plain(call: Call) {
    && call.main(0) == call.main(1) == call.main(2) == call.main(3) == Normal
    && call.compensation(0) == call.compensation(CLEANUP) == Normal
  }

  lemma PlainCallCharges(plain: Call)
    requires Plain(plain)
    ensures var r := CallTask(FRESH_RECORD, plain, true); r.outcome == Done && Count(r.effects, Charge) > 0
  {
    PlainRunCharges(FRESH_RECORD, plain.main);
    EffectsMeaning(RunTask(FRESH_RECORD, CLEANUP, plain.main, true).trace, false);
  }

  /** After such a call a plain one charges. */
  lemma SettledTwice(call: Call, plain: Call)
    requires RetriesSettled(call) && Plain(plain)
    ensures NoRetryInCompensation(plain) && !AtMostOne(Job(FRESH_RECORD, [call, plain], true))
    ensures Count(Job(FRESH_RECORD, [call, plain], true), Charge) > 0
  {
    var first, second := CallTask(FRESH_RECORD, call, true), CallTask(FRESH_RECORD, plain, true);
    PlainCallCharges(plain);
    TwoCalls(call, plain);
    CountConcat(first.effects, second.effects, Refund);
    CountConcat(first.effects, second.effects, Charge);
  }

  lemma TwoCalls(call: Call, plain: Call)
    requires var r := CallTask(FRESH_RECORD, call, true);
             r.outcome == Threw(Retry) && !MainRetries(FRESH_RECORD, call)
    requires CallTask(FRESH_RECORD, plain, true).outcome == Done
    ensures Job(FRESH_RECORD, [call, plain], true)
         == CallTask(FRESH_RECORD, call, true).effects + CallTask(FRESH_RECORD, plain, true).effects
  {
    var k' := OneCall(FRESH_RECORD, 0, call);
    assert [call, plain][1..] == [plain] && [plain][1..] == [];
  }

  function FailingProcess(i: nat): BodyEnd {
    if i == PROCESS then Raises(Failure("process")) else Normal
  }

  function RetryingCleanup(i: nat): BodyEnd {
    if i == CLEANUP then Raises(Retry) else Normal
  }

  /** Such a call: the process body fails, the refund works, and the cleanup of the
      compensation asks for a retry.  Its document is refunded and may then be charged for. */
  lemma RetryInCompensationChargesToo()
    ensures var call := Call(FailingProcess, true, RetryingCleanup);
            RetriesSettled(call) && Refund in CallTask(FRESH_RECORD, call, true).effects
  {
    FailsThenRetries(Call(FailingProcess, true, RetryingCleanup));
  }

  lemma FailsThenRetries(call: Call)
    requires call.main(0) == Normal && Fails(call.main(1)) && call.refundWorks
    requires call.compensation(0) == Normal && call.compensation(CLEANUP) == Raises(Retry)
    ensures RetriesSettled(call) && Refund in CallTask(FRESH_RECORD, call, true).effects
  {
    FirstBodyFails(call.main);
    RefundsThenRetries(call);
    var (more, end) := Compensate(0, call, true);
    var before := EffectsOf([Start(1)], false);
    assert CallTask(FRESH_RECORD, call, true) == CallResult(FRESH_RECORD, before + more, Threw(Retry));
    assert (before + more)[|before|] == Refund;
    InCount(before + more, Refund);
  }

  lemma FirstBodyFails(body: nat -> BodyEnd)
    requires body(0) == Normal && Fails(body(1))
    ensures var run := RunTask(FRESH_RECORD, CLEANUP, body, true);
            run.trace == [Start(1)] && run.outcome == Threw(body(1).e) && run.record.current == 0
  {
    assert RunTask(FRESH_RECORD, CLEANUP, body, true) == StepOnce(FRESH_RECORD, 1, body(1), true);
  }

  lemma RefundsThenRetries(call: Call)
    requires call.refundWorks && call.compensation(0) == Normal && call.compensation(CLEANUP) == Raises(Retry)
    ensures var (effects, end) := Compensate(0, call, true);
            effects != [] && effects[0] == Refund && end == Threw(Retry)
  {
    CompensationTrace(call);
  }

  /** As the task calls its set-up today it raises in every call, and in every compensation:
      then no step body ever runs, and a job is its first call with the refund alone. */
  lemma SetUpAlwaysFails(calls: seq<Call>, stamped: bool)
    requires calls != [] && Fails(calls[0].main(0)) && Fails(calls[0].compensation(0))
    ensures Job(FRESH_RECORD, calls, stamped) == if calls[0].refundWorks then [Refund] else []
  {
    var none: seq<Effect> := [];
    assert none + [Refund] == [Refund] && [Refund] + none == [Refund] && none + none == none;
  }

  lemma PlainRunCharges(saved: Record, body: nat -> BodyEnd)
    requires saved.current < PROCESS && saved.steps == map[]
    requires body(0) == body(1) == body(2) == body(3) == Normal
    ensures var run := RunTask(saved, CLEANUP, body, true);
            run.outcome == Done && Finish(TOKEN_COST) in run.trace
  {
    var r1 := StepOnce(saved, 1, Normal, true);
    var r2 := StepOnce(r1.record, 2, Normal, true);
    var r3 := StepOnce(r2.record, 3, Normal, true);
    assert RunFrom(r3.record, 4, CLEANUP, body, true) == Run(r3.record, [], Done);
    assert RunFrom(r2.record, 3, CLEANUP, body, true) == Run(r3.record, r3.trace + [], Done);
    assert RunFrom(r1.record, 2, CLEANUP, body, true).trace == r2.trace + (r3.trace + []);
    assert Finish(2) in r2.trace;
  }

  lemma {:induction false} InCount(effects: seq<Effect>, e: Effect)
    ensures Count(effects, e) > 0 <==> e in effects
  {
    if effects != [] {
      var n := |effects| - 1;
      InCount(effects[..n], e);
      assert effects == effects[..n] + [effects[n]];
    }
  }

  /** As the code stands, where no step can be recorded, no job ever charges tokens or
      deletes its file; a call whose first code succeeds starts the process body, and
      refunds the document if the refund works, whatever that body did. */
  lemma AsWrittenCall(call: Call)
    requires !call.main(0).Raises?
    ensures var r := CallTask(FRESH_RECORD, call, false);
            r.effects == [Body(PROCESS, false)] + (if call.refundWorks then [Refund] else [])
  {
    AsWrittenNothingIsRecorded(FRESH_RECORD, CLEANUP, call.main);
    var run := RunTask(FRESH_RECORD, CLEANUP, call.main, false);
    EffectsOne(Start(1), false);
    AsWrittenCompensation(call);
  }

  lemma AsWrittenCompensation(call: Call)
    ensures EffectsOf(RunTask(Record(CLEANUP - 1, map[]), CLEANUP, call.compensation, false).trace, true) == []
  {
    if !call.compensation(0).Raises? {
      AsWrittenNothingIsRecorded(Record(CLEANUP - 1, map[]), CLEANUP, call.compensation);
    }
  }

  lemma {:induction false} AsWrittenNeverCharges(calls: seq<Call>)
    ensures var effects := Job(FRESH_RECORD, calls, false);
            Count(effects, Charge) == 0 && Count(effects, DeleteFile) == 0
    decreases |calls|
  {
    if calls != [] {
      var r := CallTask(FRESH_RECORD, calls[0], false);
      AsWrittenNeverCharges(calls[1..]);
      AsWrittenEffects(calls[0]);
      CountConcat(r.effects, Job(FRESH_RECORD, calls[1..], false), Charge);
      CountConcat(r.effects, Job(FRESH_RECORD, calls[1..], false), DeleteFile);
    }
  }

  lemma AsWrittenEffects(call: Call)
    ensures var r := CallTask(FRESH_RECORD, call, false);
            Count(r.effects, Charge) == 0 && Count(r.effects, DeleteFile) == 0 && r.saved == FRESH_RECORD
  {
    AsWrittenCompensation(call);
    var refund := [Refund];
    CountOne(Refund, Charge);
    CountOne(Refund, DeleteFile);
    if !call.main(0).Raises? {
      AsWrittenCall(call);
      AsWrittenNothingIsRecorded(FRESH_RECORD, CLEANUP, call.main);
      var one := [Body(PROCESS, false)];
      CountOne(one[0], Charge);
      CountOne(one[0], DeleteFile);
      CountConcat(one, refund, Charge);
      CountConcat(one, refund, DeleteFile);
      assert one + [] == one;
    } else {
      assert [] + refund == refund && refund + [] == refund;
    }
  }
}
