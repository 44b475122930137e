/** A request that waits for the states its parser awaits, within a time budget. */
module KeepAlive {
  import opened Commons
  import opened StreamParsers

  /** A message of the subject; either part may be missing. */
  datatype Event = Event(state: Option<string>, data: Option<int>)

  datatype Progress = Progress(awaited: seq<string>, value: map<string, int>, error: Option<Error>)

  /** What a message does.  The value is updated before the parser looks at the state, and an
      accepted message clears the error of an earlier one. */
  function OnNext(kind: Kind, p: Progress, e: Event): Progress {
    if e.state.None? then p.(error := Some(KeyError))
    else if e.state.value in p.awaited && e.data.None? then p.(error := Some(KeyError))
    else
      var state := e.state.value;
      var ticked := Tick(kind, p.awaited, state);
      Progress(ticked.awaited, if state in p.awaited then p.value[state := e.data.value] else p.value, ticked.error)
  }

  function Received(kind: Kind, p: Progress, events: seq<Event>): Progress
    decreases |events|
  {
    if events == [] then p else Received(kind, OnNext(kind, p, events[0]), events[1..])
  }

  /** The states of the messages that have all their parts. */
  function WellFormed(events: seq<Event>): seq<string> {
    if events == [] then []
    else if events[0].state.Some? && events[0].data.Some? then [events[0].state.value] + WellFormed(events[1..])
    else WellFormed(events[1..])
  }

  /** Collected or still awaited. */
  function States(p: Progress): set<string> {
    p.value.Keys + set state | state in p.awaited
  }

  lemma OnNextKeepsStates(kind: Kind, p: Progress, e: Event)
    ensures States(OnNext(kind, p, e)) == States(p)
  {
    if e.state.Some? {
      TickRemoves(kind, p.awaited, e.state.value);
    }
  }

  lemma TickRemoves(kind: Kind, awaited: seq<string>, state: string)
    ensures forall x :: x in awaited ==> x in Tick(kind, awaited, state).awaited || x == state
    ensures forall x :: x in Tick(kind, awaited, state).awaited ==> x in awaited
    ensures state !in awaited ==> Tick(kind, awaited, state).awaited == awaited
  {
    if state in awaited && kind == Continuous {
      var rest := RemoveFirst(awaited, state);
      forall x ensures x in rest ==> x in awaited
               ensures x in awaited ==> x in rest || x == state
      {
        CountRemoved(awaited, state, x);
        CountAbsent(awaited, x);
        CountAbsent(rest, x);
      }
    }
  }

  /** Whatever messages come, the initial states are those collected and those awaited. */
  lemma {:induction false} ReceivedKeepsStates(kind: Kind, p: Progress, events: seq<Event>)
    ensures States(Received(kind, p, events)) == States(p)
    decreases |events|
  {
    if events != [] {
      OnNextKeepsStates(kind, p, events[0]);
      ReceivedKeepsStates(kind, OnNext(kind, p, events[0]), events[1..]);
    }
  }

  /** Messages with missing parts make no difference to what is awaited. */
  lemma {:induction false} OnlyWellFormedCount(kind: Kind, p: Progress, events: seq<Event>)
    ensures Received(kind, p, events).awaited == AwaitedAfter(kind, p.awaited, WellFormed(events))
    decreases |events|
  {
    if events != [] {
      OnlyWellFormedCount(kind, OnNext(kind, p, events[0]), events[1..]);
      if events[0].state.Some? {
        TickRemoves(kind, p.awaited, events[0].state.value);
      }
    }
  }

  /** Which runs complete a parser that was not told to be complete, and what it then has. */
  lemma CompleteIff(kind: Kind, states: seq<string>, events: seq<Event>)
    ensures var p := Received(kind, Progress(states, map[], None), events);
      && (p.awaited == [] <==>
            (match kind
             case Continuous => multiset(states) <= multiset(WellFormed(events))
             case Sequential => exists at: seq<nat> :: OccursAt(Reversed(states), WellFormed(events), at)))
      && (p.awaited == [] ==> p.value.Keys == set state | state in states)
  {
    var start := Progress(states, map[], None);
    OnlyWellFormedCount(kind, start, events);
    ReceivedKeepsStates(kind, start, events);
    if kind == Continuous {
      ContinuousCompletes(states, WellFormed(events));
    } else {
      SequentialCompletes(states, WellFormed(events));
    }
  }

  /** Message i brought data for a state awaited at that time. */
  ghost predicate Brings(kind: Kind, p: Progress, events: seq<Event>, x: string, i: nat) {
    && i < |events| && events[i].state == Some(x) && events[i].data.Some?
    && x in Received(kind, p, events[..i]).awaited
  }

  ghost predicate LastBrings(kind: Kind, p: Progress, events: seq<Event>, x: string, i: nat) {
    Brings(kind, p, events, x, i) && forall j: nat :: j > i ==> !Brings(kind, p, events, x, j)
  }

  lemma BringsBefore(kind: Kind, p: Progress, events: seq<Event>, x: string, n: nat, i: nat)
    requires n <= |events|
    ensures Brings(kind, p, events[..n], x, i) <==> i < n && Brings(kind, p, events, x, i)
  {
    assert i < n ==> events[..n][..i] == events[..i];
  }

  /** A message that brings no data for a state leaves what was collected for it. */
  lemma OthersStay(kind: Kind, p: Progress, events: seq<Event>, x: string)
    requires events != [] && !Brings(kind, p, events, x, |events| - 1)
    ensures var before, after := Received(kind, p, events[..|events| - 1]).value, Received(kind, p, events).value;
      (x in after <==> x in before) && (x in after ==> after[x] == before[x])
  {
    ReceivedSnoc(kind, p, events);
  }

  lemma {:induction false} LastIsCollected(kind: Kind, p: Progress, events: seq<Event>, x: string, i: nat)
    requires LastBrings(kind, p, events, x, i)
    ensures var value := Received(kind, p, events).value; x in value && Some(value[x]) == events[i].data
    decreases |events|
  {
    var n := |events| - 1;
    if i == n {
      ReceivedSnoc(kind, p, events);
    } else {
      OthersStay(kind, p, events, x);
      forall j: nat | j >= i ensures Brings(kind, p, events[..n], x, j) <==> j == i {
        BringsBefore(kind, p, events, x, n, j);
      }
      LastIsCollected(kind, p, events[..n], x, i);
    }
  }

  lemma {:induction false} NothingIsCollected(kind: Kind, p: Progress, events: seq<Event>, x: string)
    requires forall i: nat :: !Brings(kind, p, events, x, i)
    ensures var value := Received(kind, p, events).value;
      (x in value <==> x in p.value) && (x in value ==> value[x] == p.value[x])
    decreases |events|
  {
    if events != [] {
      var n := |events| - 1;
      OthersStay(kind, p, events, x);
      forall i: nat ensures !Brings(kind, p, events[..n], x, i) {
        BringsBefore(kind, p, events, x, n, i);
      }
      NothingIsCollected(kind, p, events[..n], x);
    }
  }

  /** What is collected for a state is the data of the last message that brought some while the
      state was awaited; without one it is what was there before, if anything. */
  lemma CollectedIsLast(kind: Kind, p: Progress, events: seq<Event>, x: string)
    ensures var value := Received(kind, p, events).value;
      && (forall i: nat :: LastBrings(kind, p, events, x, i) ==> x in value && Some(value[x]) == events[i].data)
      && ((forall i: nat :: !Brings(kind, p, events, x, i)) ==>
            (x in value <==> x in p.value) && (x in value ==> value[x] == p.value[x]))
  {
    forall i: nat | LastBrings(kind, p, events, x, i)
      ensures var value := Received(kind, p, events).value; x in value && Some(value[x]) == events[i].data
    {
      LastIsCollected(kind, p, events, x, i);
    }
    if forall i: nat :: !Brings(kind, p, events, x, i) {
      NothingIsCollected(kind, p, events, x);
    }
  }

  lemma ReceivedSnoc(kind: Kind, p: Progress, events: seq<Event>)
    requires events != []
    ensures var n := |events| - 1;
      Received(kind, p, events) == OnNext(kind, Received(kind, p, events[..n]), events[n])
  {
    var n := |events| - 1;
    assert events == events[..n] + [events[n]];
    ReceivedConcat(kind, p, events[..n], [events[n]]);
    var last := OnNext(kind, Received(kind, p, events[..n]), events[n]);
    assert [events[n]][1..] == [] && Received(kind, last, []) == last;
  }

  /** The error after some messages is that of the last one, none if it was accepted. */
  lemma ErrorIsOfLast(kind: Kind, p: Progress, events: seq<Event>)
    requires events != []
    ensures var n := |events| - 1;
      var awaited, e, error := Received(kind, p, events[..n]).awaited, events[n], Received(kind, p, events).error;
      && (error == Some(KeyError) <==> e.state.None? || (e.state.value in awaited && e.data.None?))
      && (error == Some(ContinuousStateError) <==>
            kind == Continuous && e.state.Some? && e.state.value !in awaited)
      && (error.Some? && error.value.SequentialStateError? <==>
            kind == Sequential && e.state.Some? && e.data.Some? && e.state.value in awaited
            && awaited[|awaited| - 1] != e.state.value)
      && (error.None? <==>
            (e.state.Some?
             && if e.state.value in awaited
                then e.data.Some? && (kind == Sequential ==> awaited[|awaited| - 1] == e.state.value)
                else kind == Sequential))
  {
    ReceivedSnoc(kind, p, events);
  }

  /* ---------- waiting ---------- */

  /** One wait on the subject: it fails, or ends after some messages and perhaps the completion
      signal; then the clock is read twice. */
  datatype Wake = Wake(failure: Option<Error>, events: seq<Event>, completion: bool, checked: real, restarted: real)

  datatype Answer =
    | Returned(value: map<string, int>)
    | Raised(error: Error)
    | StillWaiting(remaining: real)

  /** The sum of the time between each wake-up and the reading of the clock before it. */
  function Waited(start: real, wakes: seq<Wake>): real {
    if wakes == [] then 0.0
    else Waited(start, wakes[..|wakes| - 1])
         + (wakes[|wakes| - 1].checked - LastReading(start, wakes[..|wakes| - 1]))
  }

  function LastReading(start: real, wakes: seq<Wake>): real {
    if wakes == [] then start else wakes[|wakes| - 1].restarted
  }

  /** The time between the two readings of the clock, which no wait is charged for. */
  function Drift(wakes: seq<Wake>): real {
    if wakes == [] then 0.0
    else Drift(wakes[..|wakes| - 1]) + (wakes[|wakes| - 1].restarted - wakes[|wakes| - 1].checked)
  }

  function AllEvents(wakes: seq<Wake>): seq<Event> {
    if wakes == [] then [] else AllEvents(wakes[..|wakes| - 1]) + wakes[|wakes| - 1].events
  }

  /** The waiting goes on after these wake-ups, unless the time is up: the last wait did not fail,
      the last message was accepted, something is still awaited and nothing has declared the
      parser complete. */
  ghost predicate GoesOn(kind: Kind, p: Progress, complete: bool, wakes: seq<Wake>) {
    var now := Received(kind, p, AllEvents(wakes));
    && wakes != [] && wakes[|wakes| - 1].failure.None? && now.error.None? && now.awaited != []
    && !complete && !Completion(wakes)
  }

  /** Some wake-up came with the completion signal. */
  predicate Completion(wakes: seq<Wake>) {
    wakes != [] && (Completion(wakes[..|wakes| - 1]) || wakes[|wakes| - 1].completion)
  }

  lemma {:induction false} CompletionIff(wakes: seq<Wake>)
    ensures Completion(wakes) <==> exists i :: 0 <= i < |wakes| && wakes[i].completion
  {
    if wakes != [] {
      var n := |wakes| - 1;
      CompletionIff(wakes[..n]);
      assert forall i :: 0 <= i < n ==> wakes[..n][i] == wakes[i];
    }
  }

  /** The waiting went on after each of these wake-ups. */
  ghost predicate WentOn(kind: Kind, p: Progress, complete: bool, wakes: seq<Wake>) {
    wakes == [] || (WentOn(kind, p, complete, wakes[..|wakes| - 1]) && GoesOn(kind, p, complete, wakes))
  }

  lemma {:induction false} WentOnIff(kind: Kind, p: Progress, complete: bool, wakes: seq<Wake>)
    ensures WentOn(kind, p, complete, wakes)
      <==> forall k :: 0 < k <= |wakes| ==> GoesOn(kind, p, complete, wakes[..k])
  {
    if wakes != [] {
      var n := |wakes| - 1;
      WentOnIff(kind, p, complete, wakes[..n]);
      assert forall k :: 0 < k <= n ==> wakes[..n][..k] == wakes[..k];
      assert wakes[..n + 1] == wakes;
      assert forall k :: 0 < k <= |wakes| ==> k <= n || wakes[..k] == wakes;
    }
  }

  lemma {:induction false} ReceivedConcat(kind: Kind, p: Progress, a: seq<Event>, b: seq<Event>)
    ensures Received(kind, p, a + b) == Received(kind, Received(kind, p, a), b)
    decreases |a|
  {
    if a == [] {
      assert a + b == b;
    } else {
      assert (a + b)[1..] == a[1..] + b;
      ReceivedConcat(kind, OnNext(kind, p, a[0]), a[1..], b);
    }
  }

  class KeepAliveManager {
    const timeout: nat
    const parser: StreamParser
    var value: map<string, int>
    var error: Option<Error>

    constructor (timeout: nat, parser: StreamParser)
      ensures this.timeout == timeout && this.parser == parser && Progressed() == Progress(parser.awaited, map[], None)
    {
      this.timeout, this.parser := timeout, parser;
      value, error := map[], None;
    }

    function Progressed(): Progress
      reads this, parser
    {
      Progress(parser.awaited, value, error)
    }

    method Next(e: Event)
      modifies this, parser`awaited
      ensures Progressed() == OnNext(parser.kind, old(Progressed()), e)
    {
      if e.state.None? {
        error := Some(KeyError);
        return;
      }
      var state := e.state.value;
      if state in parser.awaited {
        if e.data.None? {
          error := Some(KeyError);
          return;
        }
        value := value[state := e.data.value];
      }
      error := parser.UpState(state);
    }

    method Receive(events: seq<Event>)
      modifies this, parser`awaited
      ensures Progressed() == Received(parser.kind, old(Progressed()), events)
    {
      var i := 0;
      while i < |events|
        invariant 0 <= i <= |events|
        invariant Received(parser.kind, Progressed(), events[i..]) == Received(parser.kind, old(Progressed()), events)
      {
        assert events[i..][1..] == events[i + 1..];
        Next(events[i]);
        i := i + 1;
      }
    }

    method Complete()
      modifies parser`completedFlag
      ensures parser.completedFlag
    {
      parser.completedFlag := true;
    }

    /** What happens on the subject during one wait. */
    method WakeUp(wake: Wake)
      modifies this, parser
      ensures Progressed() == Received(parser.kind, old(Progressed()), wake.events)
      ensures States(Progressed()) == old(States(Progressed()))
      ensures parser.completedFlag == (old(parser.completedFlag) || wake.completion)
    {
      ReceivedKeepsStates(parser.kind, Progressed(), wake.events);
      Receive(wake.events);
      if wake.completion {
        Complete();
      }
    }

    /** `_compute_delta`. */
    method ComputeDelta(remaining: real, now: real, last: real) returns (r: Option<real>)
      ensures r == if now - last > remaining then None else Some(now - last)
    {
      var delta := now - last;
      return if delta > remaining then None else Some(delta);
    }

    /** The waiting loop, over a list of wake-ups.  While it goes on, the budget left plus the
        time waited is the timeout, and the budget is not negative.  The wake-up it ends at
        decides the answer, and the time is up only when more than the timeout was waited. */
    method WaitFor(start: real, wakes: seq<Wake>) returns (answer: Answer, used: nat)
      modifies this, parser
      ensures used <= |wakes|
      ensures answer.StillWaiting? ==> used == |wakes| && answer.remaining >= 0.0
      ensures answer.StillWaiting? ==> answer.remaining + Waited(start, wakes) == timeout as real
      ensures !answer.StillWaiting? ==> used > 0 && Waited(start, wakes[..used - 1]) <= timeout as real
      ensures WentOn(parser.kind, old(Progressed()), old(parser.completedFlag),
                     wakes[..if answer.StillWaiting? then used else used - 1])
      ensures !answer.StillWaiting? ==>
        if wakes[used - 1].failure.Some? then answer == Raised(wakes[used - 1].failure.value)
        else if error.Some? then answer == Raised(error.value)
        else if parser.completedFlag || parser.awaited == [] then answer == Returned(value)
        else answer == Raised(TimeoutError) && Waited(start, wakes[..used]) > timeout as real
      ensures parser.completedFlag == (old(parser.completedFlag) || Completion(wakes[..used]))
      ensures Progressed() == Received(parser.kind, old(Progressed()), AllEvents(wakes[..used]))
      ensures States(Progressed()) == old(States(Progressed()))
    {
      var remaining, last := timeout as real, start;
      used := 0;
      while used < |wakes|
        invariant 0 <= used <= |wakes|
        invariant remaining + Waited(start, wakes[..used]) == timeout as real && remaining >= 0.0
        invariant last == LastReading(start, wakes[..used])
        invariant States(Progressed()) == old(States(Progressed()))
        invariant Progressed() == Received(parser.kind, old(Progressed()), AllEvents(wakes[..used]))
        invariant parser.completedFlag == (old(parser.completedFlag) || Completion(wakes[..used]))
        invariant WentOn(parser.kind, old(Progressed()), old(parser.completedFlag), wakes[..used])
      {
        var wake := wakes[used];
        assert wakes[..used + 1][..used] == wakes[..used];
        used := used + 1;
        ReceivedConcat(parser.kind, old(Progressed()), AllEvents(wakes[..used - 1]), wake.events);
        WakeUp(wake);
        if wake.failure.Some? {
          return Raised(wake.failure.value), used;
        }
        if error.Some? {
          return Raised(error.value), used;
        }
        if parser.Completed() {
          return Returned(value), used;
        }
        var delta := ComputeDelta(remaining, wake.checked, last);
        if delta.None? {
          return Raised(TimeoutError), used;
        }
        last := wake.restarted;
        remaining := remaining - delta.value;
      }
      assert wakes[..used] == wakes;
      return StillWaiting(remaining), used;
    }
  }

  /** The time waited falls short of the time on the clock by the drift: a wait may last
      longer than the timeout by the sum of the gaps between the two readings. */
  lemma {:induction false} DriftIsFree(start: real, wakes: seq<Wake>)
    ensures Waited(start, wakes) == LastReading(start, wakes) - start - Drift(wakes)
  {
    if wakes != [] {
      DriftIsFree(start, wakes[..|wakes| - 1]);
    }
  }
}
