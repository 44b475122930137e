/** Parsers that tick off a list of awaited states, in any order or from the last to the first. */
module StreamParsers {
  import opened Commons

  datatype Kind = Continuous | Sequential

  datatype Error =
    | KeyError
    | ContinuousStateError
    | SequentialStateError(state: string)
    | TimeoutError
    | SubjectError(name: string)

  /** `awaited.remove(state)`: the first occurrence goes. */
  function RemoveFirst(awaited: seq<string>, state: string): (r: seq<string>)
    requires state in awaited
    ensures |r| == |awaited| - 1
  {
    if awaited[0] == state then awaited[1..] else [awaited[0]] + RemoveFirst(awaited[1..], state)
  }

  datatype Ticked = Ticked(awaited: seq<string>, error: Option<Error>)

  function Tick(kind: Kind, awaited: seq<string>, state: string): Ticked {
    match kind
    case Continuous =>
      if state !in awaited then Ticked(awaited, Some(ContinuousStateError))
      else Ticked(RemoveFirst(awaited, state), None)
    case Sequential =>
      if state !in awaited then Ticked(awaited, None)
      else if awaited[|awaited| - 1] != state then Ticked(awaited, Some(SequentialStateError(state)))
      else Ticked(awaited[..|awaited| - 1], None)
  }

  class StreamParser {
    const kind: Kind
    var awaited: seq<string>
    var completedFlag: bool

    constructor (kind: Kind, states: seq<string>)
      ensures this.kind == kind && awaited == states && !completedFlag
    {
      this.kind, awaited, completedFlag := kind, states, false;
    }

    method UpState(state: string) returns (error: Option<Error>)
      modifies `awaited
      ensures Ticked(awaited, error) == Tick(kind, old(awaited), state)
    {
      if state !in awaited {
        return if kind == Continuous then Some(ContinuousStateError) else None;
      }
      if kind == Continuous {
        awaited := RemoveFirst(awaited, state);
      } else {
        if awaited[|awaited| - 1] != state {
          return Some(SequentialStateError(state));
        }
        awaited := awaited[..|awaited| - 1];
      }
      return None;
    }

    predicate Completed()
      reads this
    {
      completedFlag || |awaited| == 0
    }
  }

  /** What is still awaited after some states, whatever errors they caused. */
  function AwaitedAfter(kind: Kind, awaited: seq<string>, states: seq<string>): seq<string>
    decreases |states|
  {
    if states == [] then awaited else AwaitedAfter(kind, Tick(kind, awaited, states[0]).awaited, states[1..])
  }

  /** `at` are the positions, in increasing order, at which the pattern occurs in the text. */
  ghost predicate OccursAt(pattern: seq<string>, text: seq<string>, at: seq<nat>) {
    && |at| == |pattern|
    && (forall i :: 0 <= i < |at| ==> at[i] < |text| && text[at[i]] == pattern[i])
    && (forall i, j :: 0 <= i < j < |at| ==> at[i] < at[j])
  }

  predicate Scattered(pattern: seq<string>, text: seq<string>) {
    pattern == []
    || (text != [] && Scattered(if pattern[0] == text[0] then pattern[1..] else pattern, text[1..]))
  }

  /** Positions in the text behind its first state, as positions in the text. */
  function Moved(at: seq<nat>): (r: seq<nat>) {
    seq(|at|, i requires 0 <= i < |at| => at[i] + 1)
  }

  lemma OccursOneLater(pattern: seq<string>, text: seq<string>, at: seq<nat>)
    requires text != [] && OccursAt(pattern, text[1..], at)
    ensures OccursAt(pattern, text, Moved(at))
  {
    assert forall i :: 0 <= i < |at| ==> text[Moved(at)[i]] == text[1..][at[i]];
  }

  lemma OccursFromStart(pattern: seq<string>, text: seq<string>, at: seq<nat>)
    requires pattern != [] && text != [] && pattern[0] == text[0]
    requires OccursAt(pattern[1..], text, at) && forall i :: 0 <= i < |at| ==> at[i] > 0
    ensures OccursAt(pattern, text, [0] + at)
  {
    var all := [0] + at;
    forall i | 0 <= i < |all|
      ensures all[i] < |text| && text[all[i]] == pattern[i]
    {
      if i > 0 {
        assert all[i] == at[i - 1] && pattern[i] == pattern[1..][i - 1];
      }
    }
  }

  lemma {:induction false} ScatteredOccurs(pattern: seq<string>, text: seq<string>) returns (at: seq<nat>)
    requires Scattered(pattern, text)
    ensures OccursAt(pattern, text, at)
    decreases |text|
  {
    if pattern == [] {
      at := [];
    } else if pattern[0] == text[0] {
      var rest := ScatteredOccurs(pattern[1..], text[1..]);
      OccursOneLater(pattern[1..], text, rest);
      OccursFromStart(pattern, text, Moved(rest));
      at := [0] + Moved(rest);
    } else {
      var rest := ScatteredOccurs(pattern, text[1..]);
      OccursOneLater(pattern, text, rest);
      at := Moved(rest);
    }
  }

  lemma {:induction false} OccurringIsScattered(pattern: seq<string>, text: seq<string>, at: seq<nat>)
    requires OccursAt(pattern, text, at)
    ensures Scattered(pattern, text)
    decreases |text|
  {
    if pattern != [] {
      assert at[0] < |text|;
      var hit := pattern[0] == text[0];
      var rest := if hit then at[1..] else at;
      if !hit {
        assert at[0] != 0;
      }
      assert forall i :: 0 <= i < |rest| ==> rest[i] > 0;
      var moved: seq<nat> := seq(|rest|, i requires 0 <= i < |rest| => rest[i] - 1);
      assert forall i :: 0 <= i < |rest| ==> text[1..][moved[i]] == text[rest[i]];
      OccurringIsScattered(if hit then pattern[1..] else pattern, text[1..], moved);
    }
  }

  lemma {:induction false} SequentialIsScattered(awaited: seq<string>, states: seq<string>)
    ensures AwaitedAfter(Sequential, awaited, states) == [] <==> Scattered(Reversed(awaited), states)
    decreases |states|
  {
    if states != [] {
      SequentialIsScattered(Tick(Sequential, awaited, states[0]).awaited, states[1..]);
      if awaited != [] {
        assert Reversed(awaited)[0] == awaited[|awaited| - 1];
        assert Reversed(awaited)[1..] == Reversed(awaited[..|awaited| - 1]);
      }
    }
  }

  /** The sequential parser is complete exactly when the reversed list of awaited states can
      be read off the states received, other states in between or not. */
  lemma SequentialCompletes(awaited: seq<string>, states: seq<string>)
    ensures AwaitedAfter(Sequential, awaited, states) == []
      <==> exists at: seq<nat> :: OccursAt(Reversed(awaited), states, at)
  {
    SequentialIsScattered(awaited, states);
    if Scattered(Reversed(awaited), states) {
      var at := ScatteredOccurs(Reversed(awaited), states);
    }
    if at: seq<nat> :| OccursAt(Reversed(awaited), states, at) {
      OccurringIsScattered(Reversed(awaited), states, at);
    }
  }

  function Count(s: seq<string>, x: string): nat {
    if s == [] then 0 else (if s[0] == x then 1 else 0) + Count(s[1..], x)
  }

  lemma {:induction false} CountIsMultiplicity(s: seq<string>, x: string)
    ensures Count(s, x) == multiset(s)[x]
  {
    if s != [] {
      assert s == [s[0]] + s[1..];
      CountIsMultiplicity(s[1..], x);
    }
  }

  lemma {:induction false} CountRemoved(awaited: seq<string>, state: string, x: string)
    requires state in awaited
    ensures Count(RemoveFirst(awaited, state), x) == Count(awaited, x) - (if x == state then 1 else 0)
  {
    if awaited[0] != state {
      assert ([awaited[0]] + RemoveFirst(awaited[1..], state))[1..] == RemoveFirst(awaited[1..], state);
      CountRemoved(awaited[1..], state, x);
    }
  }

  lemma {:induction false} CountAbsent(s: seq<string>, x: string)
    ensures Count(s, x) == 0 <==> x !in s
  {
    if s != [] {
      CountAbsent(s[1..], x);
    }
  }

  /** Each state received ticks off one occurrence as long as there is one. */
  lemma {:induction false} ContinuousLeaves(awaited: seq<string>, states: seq<string>, x: string)
    ensures var left := Count(awaited, x) - Count(states, x);
      Count(AwaitedAfter(Continuous, awaited, states), x) == if left < 0 then 0 else left
    decreases |states|
  {
    if states != [] {
      ContinuousLeaves(Tick(Continuous, awaited, states[0]).awaited, states[1..], x);
      if states[0] in awaited {
        CountRemoved(awaited, states[0], x);
      }
      CountAbsent(awaited, x);
    }
  }

  /** The continuous parser is complete exactly when every awaited state came at least as often
      as it is awaited, in any order and among any others. */
  lemma ContinuousCompletes(awaited: seq<string>, states: seq<string>)
    ensures AwaitedAfter(Continuous, awaited, states) == [] <==> multiset(awaited) <= multiset(states)
  {
    var rest := AwaitedAfter(Continuous, awaited, states);
    forall x ensures x in rest <==> multiset(awaited)[x] > multiset(states)[x] {
      ContinuousLeaves(awaited, states, x);
      CountAbsent(rest, x);
      CountIsMultiplicity(awaited, x);
      CountIsMultiplicity(states, x);
    }
    if rest != [] {
      assert rest[0] in rest;
    }
  }
}
