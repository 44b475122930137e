/** The resumable step machine of the ingestion tasks.

    `Record` is the saved step record.  A run goes through the steps 1..n in order; how
    each body ends is decided outside (`body`).  Leaving a step records it whether its
    body finished, was skipped or raised.

    `stamped` says whether leaving a step manages to read its time stamp.  The code reads
    it from a local name that it only assigns later, so as written it never does
    (`AsWrittenNothingIsRecorded`); with it set the machine is the intended one. */
module Steps {

  datatype Exception = Retry | Failure(name: string) | UnboundName

  /** How a step body ends: normally, with the internal skip, or with an exception. */
  datatype BodyEnd = Normal | Skip | Raises(e: Exception)

  datatype Record = Record(current: int, steps: map<int, bool>)

  const FRESH_RECORD := Record(0, map[])

  datatype Event = Start(index: int) | Finish(index: int)

  datatype Outcome = Done | Threw(e: Exception)

  datatype Run = Run(record: Record, trace: seq<Event>, outcome: Outcome)

  /** `__aenter__` lets the body run. */
  predicate Enters(r: Record, i: int) {
    i !in r.steps && r.current < i
  }

  /** The record when a step has been left. */
  function Left(r: Record, i: int, end: BodyEnd): Record {
    match end
    case Normal => Record(i, r.steps[i := true])
    case Skip => r.(steps := r.steps[i := true])
    case Raises(_) => r.(steps := r.steps[i := false])
  }

  /** One step: what it records, what happens, and what it lets through. */
  function StepOnce(r: Record, i: int, end: BodyEnd, stamped: bool): Run {
    var end' := if Enters(r, i) then end else Skip;
    var start := if Enters(r, i) then [Start(i)] else [];
    if !stamped then Run(r, start, Threw(UnboundName))
    else
      Run(Left(r, i, end'),
          start + (if end' == Normal then [Finish(i)] else []),
          if end'.Raises? then Threw(end'.e) else Done)
  }

  /** The steps i..n, stopping at the first exception. */
  function RunFrom(r: Record, i: nat, n: nat, body: nat -> BodyEnd, stamped: bool): Run
    decreases n + 1 - i
  {
    if i > n then Run(r, [], Done)
    else
      var s := StepOnce(r, i, body(i), stamped);
      if s.outcome.Threw? then s
      else
        var rest := RunFrom(s.record, i + 1, n, body, stamped);
        Run(rest.record, s.trace + rest.trace, rest.outcome)
  }

  /** A run starts with code outside any step, which may raise as well: `body(0)`. */
  function RunTask(r: Record, n: nat, body: nat -> BodyEnd, stamped: bool): Run {
    if body(0).Raises? then Run(r, [], Threw(body(0).e)) else RunFrom(r, 1, n, body, stamped)
  }

  /** The step record as the task holds it. */
  class Step {
    var current: int
    var steps: map<int, bool>

    constructor (r: Record)
      ensures Value() == r
    {
      current, steps := r.current, r.steps;
    }

    function Value(): Record
      reads this
    {
      Record(current, steps)
    }

    method Enter(i: int) returns (skip: bool)
      ensures skip <==> !Enters(Value(), i)
    {
      if i in steps {
        return true;
      }
      if current >= i {
        return true;
      }
      return false;
    }

    /** `__aexit__`: records the step and says what is raised, if anything. */
    method Exit(i: int, end: BodyEnd, stamped: bool) returns (outcome: Outcome)
      modifies this
      ensures !stamped ==> Value() == old(Value()) && outcome == Threw(UnboundName)
      ensures stamped ==> Value() == Left(old(Value()), i, end)
      ensures stamped ==> outcome == if end.Raises? then Threw(end.e) else Done
    {
      if !stamped {
        return Threw(UnboundName);
      }
      steps := steps[i := true];
      if end == Normal {
        current := i;
        return Done;
      }
      if end == Skip {
        return Done;
      }
      steps := steps[i := false];
      return Threw(end.e);
    }
  }

  /** One `async with StepRunner(...)` block. */
  method RunStep(step: Step, i: int, end: BodyEnd, stamped: bool) returns (trace: seq<Event>, outcome: Outcome)
    modifies step
    ensures Run(step.Value(), trace, outcome) == StepOnce(old(step.Value()), i, end, stamped)
  {
    trace := [];
    var skip := step.Enter(i);
    if skip {
      outcome := step.Exit(i, Skip, stamped);
    } else {
      trace := [Start(i)];
      outcome := step.Exit(i, end, stamped);
      if end == Normal && outcome == Done {
        trace := [Start(i)] + [Finish(i)];
      }
    }
  }

  method RunSteps(step: Step, n: nat, body: nat -> BodyEnd, stamped: bool)
    returns (trace: seq<Event>, outcome: Outcome)
    modifies step
    ensures Run(step.Value(), trace, outcome) == RunTask(old(step.Value()), n, body, stamped)
  {
    trace, outcome := [], Done;
    if body(0).Raises? {
      return [], Threw(body(0).e);
    }
    ghost var whole := RunFrom(step.Value(), 1, n, body, stamped);
    var i := 1;
    while i <= n
      invariant 1 <= i <= n + 1 && outcome == Done
      invariant whole == Prepend(trace, RunFrom(step.Value(), i, n, body, stamped))
    {
      ghost var r := step.Value();
      var t;
      t, outcome := RunStep(step, i, body(i), stamped);
      RunUnfolds(trace, r, i, n, body, stamped);
      trace := trace + t;
      if outcome.Threw? {
        return;
      }
      i := i + 1;
    }
    assert trace + [] == trace;
  }

  function Prepend(trace: seq<Event>, run: Run): Run {
    run.(trace := trace + run.trace)
  }

  lemma RunUnfolds(trace: seq<Event>, r: Record, i: nat, n: nat, body: nat -> BodyEnd, stamped: bool)
    requires i <= n
    ensures var s := StepOnce(r, i, body(i), stamped);
            var run := Prepend(trace, RunFrom(r, i, n, body, stamped));
            && (s.outcome.Threw? ==> run == Run(s.record, trace + s.trace, s.outcome))
            && (s.outcome.Done? ==> run == Prepend(trace + s.trace, RunFrom(s.record, i + 1, n, body, stamped)))
  {
    var s := StepOnce(r, i, body(i), stamped);
    if !s.outcome.Threw? {
      var rest := RunFrom(s.record, i + 1, n, body, stamped);
      assert trace + (s.trace + rest.trace) == trace + s.trace + rest.trace;
    }
  }

  /* ---------- what every run keeps ---------- */

  function Starts(trace: seq<Event>): seq<int> {
    if trace == [] then []
    else
      var before := Starts(trace[..|trace| - 1]);
      match trace[|trace| - 1]
      case Start(i) => before + [i]
      case Finish(_) => before
  }

  function Finishes(trace: seq<Event>): seq<int> {
    if trace == [] then []
    else
      var before := Finishes(trace[..|trace| - 1]);
      match trace[|trace| - 1]
      case Start(_) => before
      case Finish(i) => before + [i]
  }

  ghost predicate Increasing(s: seq<int>) {
    forall i, j :: 0 <= i < j < |s| ==> s[i] < s[j]
  }

  ghost predicate AllAbove(s: seq<int>, low: int) {
    forall i :: 0 <= i < |s| ==> s[i] > low
  }

  ghost predicate AllWithin(s: seq<int>, high: int) {
    forall i :: 0 <= i < |s| ==> s[i] <= high
  }

  /** The index of the last step that finished, or `from` when none did. */
  function LastFinished(trace: seq<Event>, from: int): int {
    if trace == [] then from
    else
      match trace[|trace| - 1]
      case Finish(i) => i
      case Start(_) => LastFinished(trace[..|trace| - 1], from)
  }

  lemma {:induction false} StartsConcat(a: seq<Event>, b: seq<Event>)
    ensures Starts(a + b) == Starts(a) + Starts(b)
    decreases |b|
  {
    if b == [] {
      assert a + b == a;
    } else {
      assert (a + b)[..|a + b| - 1] == a + b[..|b| - 1];
      StartsConcat(a, b[..|b| - 1]);
    }
  }

  lemma {:induction false} FinishesConcat(a: seq<Event>, b: seq<Event>)
    ensures Finishes(a + b) == Finishes(a) + Finishes(b)
    decreases |b|
  {
    if b == [] {
      assert a + b == a;
    } else {
      assert (a + b)[..|a + b| - 1] == a + b[..|b| - 1];
      FinishesConcat(a, b[..|b| - 1]);
    }
  }

  lemma {:induction false} LastFinishedConcat(a: seq<Event>, b: seq<Event>, from: int)
    ensures LastFinished(a + b, from) == LastFinished(b, LastFinished(a, from))
    decreases |b|
  {
    if b == [] {
      assert a + b == a;
    } else {
      assert (a + b)[..|a + b| - 1] == a + b[..|b| - 1];
      LastFinishedConcat(a, b[..|b| - 1], from);
    }
  }

  /** The record after the first k steps were left, in this run or an earlier one. */
  ghost predicate ReachedStep(r: Record, k: nat) {
    (forall i :: i in r.steps <==> 1 <= i <= k) && 0 <= r.current <= k
  }

  /** From a record with k steps left a run reached k' of them: its bodies lie above k,
      in order, and the current step is the last one that finished. */
  ghost predicate Advances(r: Record, k: nat, run: Run, k': nat) {
    && k <= k' && ReachedStep(run.record, k')
    && Increasing(Starts(run.trace)) && AllAbove(Starts(run.trace), k) && AllWithin(Starts(run.trace), k')
    && Increasing(Finishes(run.trace)) && AllAbove(Finishes(run.trace), k)
    && AllWithin(Finishes(run.trace), run.record.current)
    && run.record.current == LastFinished(run.trace, r.current) >= r.current
  }

  lemma AdvancesThrough(r: Record, k: nat, first: Run, k1: nat, rest: Run, k': nat)
    requires Advances(r, k, first, k1) && Advances(first.record, k1, rest, k')
    ensures Advances(r, k, Run(rest.record, first.trace + rest.trace, rest.outcome), k')
  {
    StartsConcat(first.trace, rest.trace);
    FinishesConcat(first.trace, rest.trace);
    LastFinishedConcat(first.trace, rest.trace, r.current);
  }

  lemma StepAdvances(r: Record, k: nat, i: nat, end: BodyEnd) returns (k1: nat)
    requires ReachedStep(r, k) && 1 <= i <= k + 1
    ensures Advances(r, k, StepOnce(r, i, end, true), k1) && i <= k1
  {
    StepTrace(r, i, end);
    k1 := if i <= k then k else i;
    StepReaches(r, k, i, end, k1);
    OneStepAdvances(r, k, i, StepOnce(r, i, end, true), k1);
  }

  /** A run of one step, known by its bodies and its record. */
  lemma OneStepAdvances(r: Record, k: nat, i: nat, run: Run, k1: nat)
    requires ReachedStep(r, k) && ReachedStep(run.record, k1) && k <= k1
    requires Starts(run.trace) == [] || (Starts(run.trace) == [i] && k < i <= k1)
    requires Finishes(run.trace) == [] || (Finishes(run.trace) == [i] && k < i == run.record.current)
    requires run.record.current == LastFinished(run.trace, r.current) >= r.current
    ensures Advances(r, k, run, k1)
  {
  }

  lemma StepReaches(r: Record, k: nat, i: nat, end: BodyEnd, k1: nat)
    requires ReachedStep(r, k) && 1 <= i <= k + 1 && k1 == if i <= k then k else i
    ensures ReachedStep(StepOnce(r, i, end, true).record, k1)
  {
  }

  /** From a record with k steps left, the steps i..n start only bodies above k, in
      order, and the current step is always the last one that finished. */
  lemma {:induction false} RunKeeps(r: Record, k: nat, i: nat, n: nat, body: nat -> BodyEnd) returns (k': nat)
    requires ReachedStep(r, k) && 1 <= i <= k + 1
    ensures Advances(r, k, RunFrom(r, i, n, body, true), k')
    decreases n + 1 - i
  {
    if i > n {
      k' := k;
    } else {
      var s := StepOnce(r, i, body(i), true);
      k' := StepAdvances(r, k, i, body(i));
      if !s.outcome.Threw? {
        var k1 := k';
        k' := RunKeeps(s.record, k1, i + 1, n, body);
        AdvancesThrough(r, k, s, k1, RunFrom(s.record, i + 1, n, body, true), k');
      }
    }
  }

  lemma StepTrace(r: Record, i: int, end: BodyEnd)
    ensures var s := StepOnce(r, i, end, true);
            && Starts(s.trace) == (if Enters(r, i) then [i] else [])
            && Finishes(s.trace) == (if Enters(r, i) && end == Normal then [i] else [])
            && LastFinished(s.trace, r.current) == s.record.current
  {
    OneEvent(Start(i));
    OneEvent(Finish(i));
    StartsConcat([Start(i)], [Finish(i)]);
    FinishesConcat([Start(i)], [Finish(i)]);
    LastFinishedConcat([Start(i)], [Finish(i)], r.current);
    var trace := StepOnce(r, i, end, true).trace;
    assert trace == [] || trace == [Start(i)] || trace == [Start(i)] + [Finish(i)];
  }

  lemma OneEvent(e: Event)
    ensures Starts([e]) == (if e.Start? then [e.index] else [])
    ensures Finishes([e]) == (if e.Finish? then [e.index] else [])
    ensures forall from :: LastFinished([e], from) == if e.Finish? then e.index else from
  {
    assert [e][..0] == [];
  }

  /** A job: run after run, as long as the runs end with `Retry`; the record left by one
      run is saved and handed to the next. */
  function Job(r: Record, n: nat, runs: seq<nat -> BodyEnd>): Run
    decreases |runs|
  {
    if runs == [] then Run(r, [], Done)
    else
      var first := RunTask(r, n, runs[0], true);
      if first.outcome != Threw(Retry) then first
      else
        var rest := Job(first.record, n, runs[1..]);
        Run(rest.record, first.trace + rest.trace, rest.outcome)
  }

  /** Over any number of retries and any pattern of failures: bodies start in strictly
      increasing order, so none starts twice, and the current step never decreases and
      is the largest step that finished. */
  lemma {:induction false} JobKeeps(r: Record, k: nat, n: nat, runs: seq<nat -> BodyEnd>) returns (k': nat)
    requires ReachedStep(r, k)
    ensures Advances(r, k, Job(r, n, runs), k')
    decreases |runs|
  {
    k' := k;
    if runs != [] {
      var first := RunTask(r, n, runs[0], true);
      if !runs[0](0).Raises? {
        k' := RunKeeps(r, k, 1, n, runs[0]);
      }
      if first.outcome == Threw(Retry) {
        var k1 := k';
        k' := JobKeeps(first.record, k1, n, runs[1..]);
        AdvancesThrough(r, k, first, k1, Job(first.record, n, runs[1..]), k');
      }
    }
  }

  /** From the fresh record of a new job. */
  lemma FreshJobKeeps(n: nat, runs: seq<nat -> BodyEnd>)
    ensures var job := Job(FRESH_RECORD, n, runs);
            && Increasing(Starts(job.trace))
            && job.record.current == LastFinished(job.trace, 0)
            && AllWithin(Finishes(job.trace), job.record.current)
  {
    var k := JobKeeps(FRESH_RECORD, 0, n, runs);
  }

  /** A run in which body i started and raised ends there and records the step as failed. */
  lemma {:induction false} RaisedIsRecorded(r: Record, k: nat, i: nat, j: nat, n: nat, body: nat -> BodyEnd)
    requires ReachedStep(r, k) && 1 <= j <= k + 1 && body(i).Raises?
    requires Start(i) in RunFrom(r, j, n, body, true).trace
    ensures var run := RunFrom(r, j, n, body, true);
            && run.outcome == Threw(body(i).e) && ReachedStep(run.record, i)
            && i in run.record.steps && !run.record.steps[i] && run.record.current < i
    decreases n + 1 - j
  {
    var s := StepOnce(r, j, body(j), true);
    var k1 := if j <= k then k else j;
    StepReaches(r, k, j, body(j), k1);
    RaisingStep(r, k, i, j, body(j));
    if !s.outcome.Threw? {
      assert Start(i) !in s.trace;
      RaisedIsRecorded(s.record, k1, i, j + 1, n, body);
    }
  }

  lemma RaisingStep(r: Record, k: nat, i: nat, j: nat, end: BodyEnd)
    requires ReachedStep(r, k) && 1 <= j <= k + 1
    ensures var s := StepOnce(r, j, end, true);
            Start(i) in s.trace ==>
              && i == j && (end.Raises? ==> s.outcome == Threw(end.e) && ReachedStep(s.record, i))
              && (end.Raises? ==> i in s.record.steps && !s.record.steps[i] && s.record.current < i)
  {
  }

  /** A step whose body finished is recorded as a success. */
  lemma {:induction false} FinishedIsRecorded(r: Record, k: nat, i: nat, j: nat, n: nat, body: nat -> BodyEnd)
    requires ReachedStep(r, k) && 1 <= j <= k + 1
    requires Finish(i) in RunFrom(r, j, n, body, true).trace
    ensures var run := RunFrom(r, j, n, body, true); i in run.record.steps && run.record.steps[i]
    decreases n + 1 - j
  {
    var s := StepOnce(r, j, body(j), true);
    var k1 := if j <= k then k else j;
    StepReaches(r, k, j, body(j), k1);
    if !s.outcome.Threw? {
      if Finish(i) in s.trace {
        LaterStepsKeep(s.record, k1, i, j + 1, n, body);
      } else {
        FinishedIsRecorded(s.record, k1, i, j + 1, n, body);
      }
    }
  }

  lemma {:induction false} LaterStepsKeep(r: Record, k: nat, i: nat, j: nat, n: nat, body: nat -> BodyEnd)
    requires i < j && i in r.steps
    ensures var run := RunFrom(r, j, n, body, true); i in run.record.steps && run.record.steps[i] == r.steps[i]
    decreases n + 1 - j
  {
    if j <= n {
      LaterStepsKeep(StepOnce(r, j, body(j), true).record, k, i, j + 1, n, body);
    }
  }

  /** Steps that were left are skipped by the next run, which records them as successes. */
  lemma {:induction false} SkippedAreSuccesses(r: Record, k: nat, i: nat, j: nat, n: nat, body: nat -> BodyEnd)
    requires ReachedStep(r, k) && 1 <= j <= k + 1 && 1 <= i <= k && i <= n
    requires j > i ==> r.steps[i]
    ensures var run := RunFrom(r, j, n, body, true); i in run.record.steps && run.record.steps[i]
    decreases n + 1 - j
  {
    if j <= n {
      var s := StepOnce(r, j, body(j), true);
      var k1 := if j <= k then k else j;
      StepReaches(r, k, j, body(j), k1);
      if !s.outcome.Threw? {
        SkippedAreSuccesses(s.record, k1, i, j + 1, n, body);
      }
    }
  }

  /** A step that was left is never tried again: no later run of the job starts or finishes its
      body, and the current step never becomes it.  If the body had raised, every later run
      whose set-up succeeds records it as a success all the same. */
  lemma {:induction false} RaisedStepIsForgotten(r: Record, k: nat, i: nat, n: nat, runs: seq<nat -> BodyEnd>)
    requires ReachedStep(r, k) && 1 <= i <= k && i <= n && r.current != i
    ensures var job := Job(r, n, runs);
            && Start(i) !in job.trace && Finish(i) !in job.trace && job.record.current != i
            && (runs != [] && !runs[0](0).Raises? ==> i in job.record.steps && job.record.steps[i])
            && (i in r.steps && r.steps[i] ==> i in job.record.steps && job.record.steps[i])
    decreases |runs|
  {
    if runs != [] {
      var first := RunTask(r, n, runs[0], true);
      var k1 := k;
      if !runs[0](0).Raises? {
        k1 := RunKeeps(r, k, 1, n, runs[0]);
        NotAgain(r, k, first, k1, i);
        SkippedAreSuccesses(r, k, i, 1, n, runs[0]);
      }
      if first.outcome == Threw(Retry) {
        RaisedStepIsForgotten(first.record, k1, i, n, runs[1..]);
      }
    }
  }

  lemma NotAgain(r: Record, k: nat, run: Run, k1: nat, i: nat)
    requires Advances(r, k, run, k1) && i <= k && r.current != i
    ensures Start(i) !in run.trace && Finish(i) !in run.trace && run.record.current != i
  {
    if e :| e in run.trace && e.index == i {
      var j :| 0 <= j < |run.trace| && run.trace[j] == e;
      EventIsListed(run.trace, j);
    }
    LastIsListed(run.trace, r.current);
  }

  lemma {:induction false} EventIsListed(trace: seq<Event>, j: nat)
    requires j < |trace|
    ensures match trace[j] case Start(i) => i in Starts(trace) case Finish(i) => i in Finishes(trace)
  {
    var n := |trace| - 1;
    if j < n {
      EventIsListed(trace[..n], j);
    }
  }

  lemma {:induction false} LastIsListed(trace: seq<Event>, from: int)
    ensures LastFinished(trace, from) == from || LastFinished(trace, from) in Finishes(trace)
  {
    if trace != [] && trace[|trace| - 1].Start? {
      LastIsListed(trace[..|trace| - 1], from);
    }
  }

  /** A run from a record that says "all steps but the last are done" and nothing else
      runs exactly the last body. */
  lemma {:induction false} CompensationSkips(r: Record, i: nat, n: nat, body: nat -> BodyEnd)
    requires 1 <= i <= n && r.current == n - 1 && (forall j :: j in r.steps ==> j < i)
    ensures var run := RunFrom(r, i, n, body, true);
            && run.trace == (if body(n) == Normal then [Start(n), Finish(n)] else [Start(n)])
            && run.outcome == (if body(n).Raises? then Threw(body(n).e) else Done)
    decreases n - i
  {
    var s := StepOnce(r, i, body(i), true);
    if i < n {
      assert s.trace == [] && s.outcome == Done;
      CompensationSkips(s.record, i + 1, n, body);
      var rest := RunFrom(s.record, i + 1, n, body, true);
      assert s.trace + rest.trace == rest.trace;
    } else {
      assert RunFrom(s.record, n + 1, n, body, true) == Run(s.record, [], Done);
      assert s.trace + [] == s.trace;
      assert [Start(n)] + [Finish(n)] == [Start(n), Finish(n)] && [Start(n)] + [] == [Start(n)];
    }
  }

  /** As the code stands every step that is left raises before anything is recorded, so a
      run changes no record and starts at most one body, which is the first one it may. */
  lemma AsWrittenNothingIsRecorded(r: Record, n: nat, body: nat -> BodyEnd)
    requires n >= 1 && !body(0).Raises?
    ensures RunTask(r, n, body, false)
         == Run(r, if Enters(r, 1) then [Start(1)] else [], Threw(UnboundName))
  {
  }
}
