/** Every call of a stacked callable is accepted by the monitor, and what that means. */
module DecoratorSafety {
  import opened Commons
  import opened DecoratorOrder
  import opened DecoratorRun

  ghost predicate From(o: Outcome, i: nat) {
    o.Raise? ==> o.origin >= i
  }

  /** After these events the top of the stack is f, the rest unchanged. */
  ghost predicate Leads(w: World, code: seq<Instr>, stack: seq<Frame>, events: seq<Event>, f: Frame)
    requires stack != []
  {
    Replay(w.security, code, stack, events) == Some(Pop(stack) + [f])
  }

  lemma LeadsThen(w: World, code: seq<Instr>, stack: seq<Frame>, a: seq<Event>, f: Frame, b: seq<Event>, g: Frame)
    requires stack != [] && Leads(w, code, stack, a, f) && Leads(w, code, Pop(stack) + [f], b, g)
    ensures Leads(w, code, stack, a + b, g)
  {
    ReplayConcat(w.security, code, stack, a, b);
  }

  lemma LeadsNowhere(w: World, code: seq<Instr>, stack: seq<Frame>)
    requires stack != []
    ensures Leads(w, code, stack, [], Top(stack))
  {
    assert stack == Pop(stack) + [Top(stack)];
  }

  /** The frame is at its j-th function and may run all before the n-th. */
  ghost predicate RunsFrom(security: bool, instr: Instr, f: Frame, j: nat, n: nat) {
    && f.count == j && f.stopped.None?
    && forall k :: j <= k < n ==> MayRun(security, instr, f.(count := k), k)
  }

  lemma RunsOn(security: bool, instr: Instr, f: Frame, j: nat, n: nat, reply: Reply)
    requires RunsFrom(security, instr, f, j, n) && j < n && LetsGo(instr, reply)
    ensures RunsFrom(security, instr, Replied(instr, f, reply), j + 1, n)
  {
    var g := Replied(instr, f, reply);
    forall k | j + 1 <= k < n ensures MayRun(security, instr, g.(count := k), k) {
      assert MayRun(security, instr, f.(count := k), k);
    }
  }

  /** What a wrapper makes of a reply agrees with what the monitor expects. */
  lemma JudgedRight(instr: Instr, i: nat, reply: Reply)
    ensures var v := Judge(instr, i, reply);
      && (v.Go? <==> LetsGo(instr, reply))
      && (v.Go? ==> v.update == if instr.PipeIn? then reply.update else map[])
      && (v.Go? && instr.PipeOut? ==> v.value == if reply.Pass? then reply.value else 0)
      && (v.Stop? && instr.Gate? ==> v.outcome == GateEnd(instr.kind, instr.default, i, reply))
      && (v.Stop? && (instr.PipeIn? || instr.PipeOut? || instr.Intercept?) ==> v.outcome == StopEnd(instr, i, reply))
  {
  }

  /** The frame after the functions of a wrapper ran, the last one being the n-th. */
  ghost predicate CheckedRight(instr: Instr, i: nat, n: nat, c: Checked, before: Frame, f: Frame) {
    && f.called == before.called && f.last == before.last && f.kwargs == before.kwargs
    && match c.verdict
       case Go(value, _) =>
         f.count == n && f.stopped.None? && f.shown == c.kwargs && (instr.PipeOut? ==> f.value == value)
       case Stop(outcome) =>
         f.stopped.Some? && From(outcome, i) && c.verdict == Judge(instr, i, f.stopped.value)
         && !LetsGo(instr, f.stopped.value)
  }

  /** The functions of one wrapper run in order until one stops the call. */
  lemma {:induction false} ChecksLead(w: World, code: seq<Instr>, i: nat, j: nat, n: nat, past: seq<Event>,
                                      kwargs: Kwargs, value: int, stack: seq<Frame>)
      returns (f: Frame)
    requires i + 1 == |stack| <= |code| && j <= n && !code[i].Around? && !code[i].Catch?
    requires RunsFrom(w.security, code[i], Top(stack), j, n) && Top(stack).shown == kwargs
    requires code[i].PipeOut? ==> Top(stack).value == value
    ensures Leads(w, code, stack, Checks(w, code[i], i, j, n, past, kwargs, value).events, f)
    ensures CheckedRight(code[i], i, n, Checks(w, code[i], i, j, n, past, kwargs, value), Top(stack), f)
    decreases n - j
  {
    var instr := code[i];
    if j == n {
      f := Top(stack);
      LeadsNowhere(w, code, stack);
    } else {
      var reply := w.check(past, i, j, kwargs);
      var ran := Ran(i, j, kwargs, reply);
      var verdict := Judge(instr, i, reply);
      var g := OneChecked(w, code, i, j, n, kwargs, reply, stack);
      if verdict.Stop? {
        f := g;
      } else {
        var next := Pop(stack) + [g];
        assert Pop(next) == Pop(stack) && Top(next) == g;
        f := ChecksLead(w, code, i, j + 1, n, past + [ran], kwargs + verdict.update, verdict.value, next);
        var rest := Checks(w, instr, i, j + 1, n, past + [ran], kwargs + verdict.update, verdict.value);
        LeadsThen(w, code, stack, [ran], g, rest.events, f);
      }
    }
  }

  /** One of the functions. */
  lemma OneChecked(w: World, code: seq<Instr>, i: nat, j: nat, n: nat, kwargs: Kwargs, reply: Reply, stack: seq<Frame>)
      returns (g: Frame)
    requires i + 1 == |stack| <= |code| && j < n && !code[i].Around? && !code[i].Catch?
    requires RunsFrom(w.security, code[i], Top(stack), j, n) && Top(stack).shown == kwargs
    ensures g == Replied(code[i], Top(stack), reply) && Leads(w, code, stack, [Ran(i, j, kwargs, reply)], g)
    ensures var v := Judge(code[i], i, reply);
      && (v.Stop? ==> g.stopped == Some(reply) && !LetsGo(code[i], reply) && From(v.outcome, i))
      && (v.Go? ==> RunsFrom(w.security, code[i], g, j + 1, n) && g.shown == kwargs + v.update)
      && (v.Go? && code[i].PipeOut? ==> g.value == v.value)
  {
    var instr := code[i];
    JudgedRight(instr, i, reply);
    assert MayRun(w.security, instr, Top(stack).(count := j), j);
    g := Replied(instr, Top(stack), reply);
    LeadsOne(w, code, stack, Ran(i, j, kwargs, reply), g);
    if LetsGo(instr, reply) {
      RunsOn(w.security, instr, Top(stack), j, n, reply);
      assert g.shown == kwargs + Judge(instr, i, reply).update;
    }
  }

  lemma LeadsOne(w: World, code: seq<Instr>, stack: seq<Frame>, e: Event, f: Frame)
    requires stack != [] && Step(w.security, code, stack, e) == Some(Pop(stack) + [f])
    ensures Leads(w, code, stack, [e], f)
  {
    var next := Step(w.security, code, stack, e).value;
    assert [e][1..] == [];
    assert Replay(w.security, code, next, []) == Some(next);
  }

  /** A call from a wrapper that may make it ends in the wrapper, with its outcome noted. */
  lemma {:induction false} ExecAccepted(w: World, code: seq<Instr>, i: nat, past: seq<Event>, kwargs: Kwargs,
                                        stack: seq<Frame>)
    requires i == |stack| <= |code| && CanCall(w.security, code, stack, kwargs)
    ensures var run := Exec(w, code, i, past, kwargs);
      Replay(w.security, code, stack, run.events) == Some(Ended(stack, run.outcome)) && From(run.outcome, i)
    decreases |code| - i, 2, 0
  {
    var run := Exec(w, code, i, past, kwargs);
    if i == |code| {
      assert run.events == [Target(kwargs, run.outcome)];
      assert run.events[1..] == [];
    } else {
      var enter := Enter(i, kwargs);
      var within := stack + [Opened(code[i], kwargs)];
      var body := Body(w, code, i, past + [enter], kwargs);
      var f := BodyAccepted(w, code, i, past + [enter], kwargs, within);
      assert Pop(within) == stack;
      EnterThenExit(w, code, i, stack, kwargs, body, f);
    }
  }

  lemma EnterThenExit(w: World, code: seq<Instr>, i: nat, stack: seq<Frame>, kwargs: Kwargs, body: Run, f: Frame)
    requires i == |stack| < |code| && CanCall(w.security, code, stack, kwargs)
    requires Replay(w.security, code, stack + [Opened(code[i], kwargs)], body.events) == Some(stack + [f])
    requires MayEnd(w.security, code[i], i, f, body.outcome)
    ensures Replay(w.security, code, stack, [Enter(i, kwargs)] + body.events + [Exit(i, body.outcome)])
         == Some(Ended(stack, body.outcome))
  {
    var enter, exit := [Enter(i, kwargs)], [Exit(i, body.outcome)];
    ReplayConcat(w.security, code, stack, enter + body.events, exit);
    ReplayConcat(w.security, code, stack, enter, body.events);
    assert enter[1..] == [] && exit[1..] == [];
    var closing := stack + [f];
    assert Pop(closing) == stack && Top(closing) == f;
  }

  lemma {:induction false} BodyAccepted(w: World, code: seq<Instr>, i: nat, past: seq<Event>, kwargs: Kwargs,
                                        stack: seq<Frame>)
      returns (f: Frame)
    requires i + 1 == |stack| <= |code| && Top(stack) == Opened(code[i], kwargs)
    ensures var body := Body(w, code, i, past, kwargs);
      Leads(w, code, stack, body.events, f) && MayEnd(w.security, code[i], i, f, body.outcome)
    decreases |code| - i, 1, 1
  {
    match code[i]
    case Gate(_, _, _) => f := GateAccepted(w, code, i, past, kwargs, stack);
    case PipeIn(_, _) => f := PipeInAccepted(w, code, i, past, kwargs, stack);
    case PipeOut(_, _) => f := PipeOutAccepted(w, code, i, past, kwargs, stack);
    case Catch(_, _, _, _) => f := CatchAccepted(w, code, i, past, kwargs, stack);
    case Around(_) => f := ActsAccepted(w, code, i, past, kwargs, None, w.limit, stack);
    case Intercept => f := InterceptAccepted(w, code, i, past, kwargs, stack);
  }

  /** The call of the next wrapper from the top of the stack. */
  lemma {:induction false} CallAccepted(w: World, code: seq<Instr>, i: nat, past: seq<Event>, kwargs: Kwargs,
                                        stack: seq<Frame>)
      returns (f: Frame)
    requires i + 1 == |stack| <= |code| && Ready(w.security, code[i], Top(stack), kwargs)
    ensures var run := Exec(w, code, i + 1, past, kwargs);
      && Leads(w, code, stack, run.events, f) && From(run.outcome, i + 1)
      && f == Called(Top(stack), run.outcome)
    decreases |code| - i, 0, 0
  {
    ExecAccepted(w, code, i + 1, past, kwargs, stack);
    var run := Exec(w, code, i + 1, past, kwargs);
    f := Called(Top(stack), run.outcome);
    assert Ended(stack, run.outcome) == Pop(stack) + [f];
  }

  lemma {:induction false} GateAccepted(w: World, code: seq<Instr>, i: nat, past: seq<Event>, kwargs: Kwargs,
                                        stack: seq<Frame>)
      returns (f: Frame)
    requires i + 1 == |stack| <= |code| && Top(stack) == Opened(code[i], kwargs) && code[i].Gate?
    ensures var body := Body(w, code, i, past, kwargs);
      Leads(w, code, stack, body.events, f) && MayEnd(w.security, code[i], i, f, body.outcome)
    decreases |code| - i, 1, 0
  {
    if Needed(w.security, code[i]) == 0 {
      f := CallAccepted(w, code, i, past, kwargs, stack);
    } else if RejectsArguments(w.security, code[i], kwargs) {
      f := Top(stack);
      LeadsNowhere(w, code, stack);
    } else {
      var seen := Top(stack).shown;
      var checked := Checks(w, code[i], i, 0, code[i].parts, past, seen, 0);
      var g := ChecksLead(w, code, i, 0, code[i].parts, past, seen, 0, stack);
      if checked.verdict.Stop? {
        f := g;
        JudgedRight(code[i], i, g.stopped.value);
      } else {
        f := CallAccepted(w, code, i, past + checked.events, kwargs, Pop(stack) + [g]);
        Chain(w, code, stack, checked.events, g, Exec(w, code, i + 1, past + checked.events, kwargs).events, f);
      }
    }
  }

  lemma Chain(w: World, code: seq<Instr>, stack: seq<Frame>, a: seq<Event>, g: Frame, b: seq<Event>, f: Frame)
    requires stack != [] && Leads(w, code, stack, a, g) && Leads(w, code, Pop(stack) + [g], b, f)
    ensures Leads(w, code, stack, a + b, f)
  {
    var next := Pop(stack) + [g];
    assert Pop(next) == Pop(stack);
    LeadsThen(w, code, stack, a, g, b, f);
  }

  lemma {:induction false} PipeInAccepted(w: World, code: seq<Instr>, i: nat, past: seq<Event>, kwargs: Kwargs,
                                          stack: seq<Frame>)
      returns (f: Frame)
    requires i + 1 == |stack| <= |code| && Top(stack) == Opened(code[i], kwargs) && code[i].PipeIn?
    ensures var body := Body(w, code, i, past, kwargs);
      Leads(w, code, stack, body.events, f) && MayEnd(w.security, code[i], i, f, body.outcome)
    decreases |code| - i, 1, 0
  {
    var checked := Checks(w, code[i], i, 0, code[i].parts, past, kwargs, 0);
    var g := ChecksLead(w, code, i, 0, code[i].parts, past, kwargs, 0, stack);
    if checked.verdict.Stop? {
      f := g;
      JudgedRight(code[i], i, g.stopped.value);
    } else {
      f := CallAccepted(w, code, i, past + checked.events, checked.kwargs, Pop(stack) + [g]);
      Chain(w, code, stack, checked.events, g, Exec(w, code, i + 1, past + checked.events, checked.kwargs).events, f);
    }
  }

  lemma {:induction false} PipeOutAccepted(w: World, code: seq<Instr>, i: nat, past: seq<Event>, kwargs: Kwargs,
                                           stack: seq<Frame>)
      returns (f: Frame)
    requires i + 1 == |stack| <= |code| && Top(stack) == Opened(code[i], kwargs) && code[i].PipeOut?
    ensures var body := Body(w, code, i, past, kwargs);
      Leads(w, code, stack, body.events, f) && MayEnd(w.security, code[i], i, f, body.outcome)
    decreases |code| - i, 1, 0
  {
    var run := Exec(w, code, i + 1, past, kwargs);
    var g := CallAccepted(w, code, i, past, kwargs, stack);
    if run.outcome.Raise? {
      f := g;
    } else {
      var next := Pop(stack) + [g];
      var checked := Checks(w, code[i], i, 0, code[i].parts, past + run.events, kwargs, run.outcome.value);
      f := ChecksLead(w, code, i, 0, code[i].parts, past + run.events, kwargs, run.outcome.value, next);
      Chain(w, code, stack, run.events, g, checked.events, f);
      if f.stopped.Some? {
        JudgedRight(code[i], i, f.stopped.value);
      }
    }
  }

  lemma {:induction false} CatchAccepted(w: World, code: seq<Instr>, i: nat, past: seq<Event>, kwargs: Kwargs,
                                         stack: seq<Frame>)
      returns (f: Frame)
    requires i + 1 == |stack| <= |code| && Top(stack) == Opened(code[i], kwargs) && code[i].Catch?
    ensures var body := Body(w, code, i, past, kwargs);
      Leads(w, code, stack, body.events, f) && MayEnd(w.security, code[i], i, f, body.outcome)
    decreases |code| - i, 1, 0
  {
    if code[i].injectMeta && META in kwargs {
      f := Top(stack);
      LeadsNowhere(w, code, stack);
    } else {
      f := CallAccepted(w, code, i, past, if code[i].injectMeta then kwargs[META := 0] else kwargs, stack);
    }
  }

  lemma {:induction false} InterceptAccepted(w: World, code: seq<Instr>, i: nat, past: seq<Event>, kwargs: Kwargs,
                                             stack: seq<Frame>)
      returns (f: Frame)
    requires i + 1 == |stack| <= |code| && Top(stack) == Opened(code[i], kwargs) && code[i].Intercept?
    ensures var body := Body(w, code, i, past, kwargs);
      Leads(w, code, stack, body.events, f) && MayEnd(w.security, code[i], i, f, body.outcome)
    decreases |code| - i, 1, 0
  {
    var before := Checks(w, code[i], i, 0, 1, past, kwargs, 0);
    var g := ChecksLead(w, code, i, 0, 1, past, kwargs, 0, stack);
    if before.verdict.Stop? {
      f := g;
      JudgedRight(code[i], i, g.stopped.value);
    } else {
      var inner := Exec(w, code, i + 1, past + before.events, kwargs - {META});
      var h := CallAccepted(w, code, i, past + before.events, kwargs - {META}, Pop(stack) + [g]);
      Chain(w, code, stack, before.events, g, inner.events, h);
      if inner.outcome.Raise? {
        f := h;
      } else {
        f := InterceptAfter(w, code, i, past, kwargs, stack, before.events + inner.events, h);
        if f.stopped.Some? {
          JudgedRight(code[i], i, f.stopped.value);
        }
      }
    }
  }

  /** The after part of an interceptor, on a value. */
  lemma InterceptAfter(w: World, code: seq<Instr>, i: nat, past: seq<Event>, kwargs: Kwargs,
                       stack: seq<Frame>, events: seq<Event>, h: Frame)
      returns (f: Frame)
    requires i + 1 == |stack| <= |code| && code[i].Intercept? && Leads(w, code, stack, events, h)
    requires h.stopped.None? && h.count == 1 && h.shown == kwargs && h.called == 1
    requires h.last.Some? && h.last.value.Value?
    ensures var after := Checks(w, code[i], i, 1, 2, past + events, kwargs, 0);
      Leads(w, code, stack, events + after.events, f) && CheckedRight(code[i], i, 2, after, h, f)
  {
    var next := Pop(stack) + [h];
    assert Top(next) == h;
    f := ChecksLead(w, code, i, 1, 2, past + events, kwargs, 0, next);
    Chain(w, code, stack, events, h, Checks(w, code[i], i, 1, 2, past + events, kwargs, 0).events, f);
  }

  lemma {:induction false} ActsAccepted(w: World, code: seq<Instr>, i: nat, past: seq<Event>, kwargs: Kwargs,
                                        last: Option<Outcome>, fuel: nat, stack: seq<Frame>)
      returns (f: Frame)
    requires i + 1 == |stack| <= |code| && code[i].Around?
    requires Top(stack).stopped.None? && Top(stack).act.None? && Top(stack).kwargs == kwargs && Top(stack).last == last
    requires last.Some? ==> From(last.value, i)
    ensures var run := Acts(w, code, i, past, kwargs, last, fuel);
      Leads(w, code, stack, run.events, f) && MayEnd(w.security, code[i], i, f, run.outcome)
    decreases |code| - i, 0, fuel + 1
  {
    var act := w.act(past, i, kwargs, last);
    var acted := Acted(i, kwargs, last, act);
    var e := Top(stack).(act := Some(act));
    LeadsOne(w, code, stack, acted, e);
    if act.CallInner? && fuel > 0 {
      var during := Pop(stack) + [e];
      var run := Exec(w, code, i + 1, past + [acted], act.kwargs);
      var g := CallAccepted(w, code, i, past + [acted], act.kwargs, during);
      Chain(w, code, stack, [acted], e, run.events, g);
      f := ActsAccepted(w, code, i, past + [acted] + run.events, kwargs, Some(run.outcome), fuel - 1, Pop(stack) + [g]);
      Chain(w, code, stack, [acted] + run.events, g,
            Acts(w, code, i, past + [acted] + run.events, kwargs, Some(run.outcome), fuel - 1).events, f);
    } else {
      f := e;
    }
  }

  /** The monitor accepts the trace and no wrapper is left open. */
  ghost predicate Accepted(security: bool, code: seq<Instr>, events: seq<Event>) {
    Replay(security, code, [], events) == Some([])
  }

  /** Main result: whatever the endpoint and the functions of the decorators do, the monitor
      accepts the whole call. */
  lemma CallIsAccepted(w: World, code: seq<Instr>, kwargs: Kwargs)
    ensures Accepted(w.security, code, Exec(w, code, 0, [], kwargs).events)
  {
    ExecAccepted(w, code, 0, [], kwargs, []);
  }

  /* ---------- what acceptance means ---------- */

  /** The open wrappers after the first p events of an accepted trace. */
  ghost function After(security: bool, code: seq<Instr>, events: seq<Event>, p: nat): seq<Frame>
    requires p <= |events| && Replay(security, code, [], events).Some?
  {
    PrefixAccepted(security, code, events, p);
    Replay(security, code, [], events[..p]).value
  }

  lemma PrefixAccepted(security: bool, code: seq<Instr>, events: seq<Event>, p: nat)
    requires p <= |events| && Replay(security, code, [], events).Some?
    ensures Replay(security, code, [], events[..p]).Some?
  {
    ReplayConcat(security, code, [], events[..p], events[p..]);
    assert events == events[..p] + events[p..];
  }

  lemma AfterStep(security: bool, code: seq<Instr>, events: seq<Event>, p: nat)
    requires p < |events| && Replay(security, code, [], events).Some?
    ensures Step(security, code, After(security, code, events, p), events[p])
         == Some(After(security, code, events, p + 1))
  {
    PrefixAccepted(security, code, events, p + 1);
    assert events[..p + 1] == events[..p] + [events[p]];
    ReplayConcat(security, code, [], events[..p], [events[p]]);
    assert [events[p]][1..] == [];
  }

  /** Every open wrapper but the innermost was ready to call the next one. */
  ghost predicate BelowReady(security: bool, code: seq<Instr>, stack: seq<Frame>) {
    |stack| <= |code| && forall k :: 0 <= k < |stack| - 1 ==> WasReady(security, code[k], stack[k])
  }

  ghost predicate WasReady(security: bool, instr: Instr, f: Frame) {
    exists kwargs :: Ready(security, instr, f, kwargs)
  }

  lemma {:induction false} AlwaysBelowReady(security: bool, code: seq<Instr>, events: seq<Event>, p: nat)
    requires p <= |events| && Replay(security, code, [], events).Some?
    ensures BelowReady(security, code, After(security, code, events, p))
  {
    if p > 0 {
      AlwaysBelowReady(security, code, events, p - 1);
      AfterStep(security, code, events, p - 1);
      BelowReadyStep(security, code, After(security, code, events, p - 1), events[p - 1],
                     After(security, code, events, p));
    }
  }

  lemma BelowReadyStep(security: bool, code: seq<Instr>, before: seq<Frame>, e: Event, stack: seq<Frame>)
    requires BelowReady(security, code, before) && Step(security, code, before, e) == Some(stack)
    ensures BelowReady(security, code, stack)
  {
  }

  /** Function j of gate k replied so that the call may pass. */
  predicate PassesGate(code: seq<Instr>, e: Event, k: nat, j: nat) {
    e.Ran? && e.i == k < |code| && e.part == j && code[k].Gate? && GatePasses(code[k].kind, e.reply)
  }

  /** It did at q, and the wrapper is still open since then. */
  ghost predicate PassedAt(code: seq<Instr>, events: seq<Event>, p: nat, k: nat, j: nat, q: nat) {
    && q < p <= |events| && PassesGate(code, events[q], k, j)
    && forall r :: q <= r < p ==> !(events[r].Enter? && events[r].i == k) && !(events[r].Exit? && events[r].i == k)
  }

  lemma {:induction false} CountMeansPassed(security: bool, code: seq<Instr>, events: seq<Event>, p: nat,
                                            k: nat, j: nat)
      returns (q: nat)
    requires p <= |events| && Replay(security, code, [], events).Some? && k < |code| && code[k].Gate?
    requires k < |After(security, code, events, p)| && j < After(security, code, events, p)[k].count
    ensures PassedAt(code, events, p, k, j, q)
  {
    AfterStep(security, code, events, p - 1);
    var before := After(security, code, events, p - 1);
    CountStep(security, code, before, events[p - 1], After(security, code, events, p), k, j);
    if PassesGate(code, events[p - 1], k, j) {
      q := p - 1;
    } else {
      q := CountMeansPassed(security, code, events, p - 1, k, j);
      PassedLonger(code, events, p, k, j, q);
    }
  }

  lemma PassedLonger(code: seq<Instr>, events: seq<Event>, p: nat, k: nat, j: nat, q: nat)
    requires 0 < p <= |events| && PassedAt(code, events, p - 1, k, j, q)
    requires !(events[p - 1].Enter? && events[p - 1].i == k) && !(events[p - 1].Exit? && events[p - 1].i == k)
    ensures PassedAt(code, events, p, k, j, q)
  {
  }

  lemma CountStep(security: bool, code: seq<Instr>, before: seq<Frame>, e: Event, stack: seq<Frame>, k: nat, j: nat)
    requires Step(security, code, before, e) == Some(stack) && k < |code| && code[k].Gate?
    requires k < |stack| && j < stack[k].count
    ensures PassesGate(code, e, k, j)
      || (k < |before| && j < before[k].count && !(e.Enter? && e.i == k) && !(e.Exit? && e.i == k))
  {
  }

  /** Function j belongs to a guard, or to a permission and the security flag is on. */
  predicate IsAsked(security: bool, instr: Instr, j: nat) {
    instr.Gate? && j < instr.parts && (instr.kind == Permission ==> security)
  }

  /** No other function of a gate ever runs, and none that a pipe does not have. */
  lemma OnlyAskedRun(w: World, code: seq<Instr>, kwargs: Kwargs, q: nat)
    requires q < |Exec(w, code, 0, [], kwargs).events|
    ensures var e := Exec(w, code, 0, [], kwargs).events[q];
      e.Ran? ==>
        && e.i < |code|
        && (code[e.i].Gate? ==> IsAsked(w.security, code[e.i], e.part))
        && (code[e.i].PipeIn? || code[e.i].PipeOut? ==> e.part < code[e.i].parts)
  {
    CallIsAccepted(w, code, kwargs);
    AfterStep(w.security, code, Exec(w, code, 0, [], kwargs).events, q);
  }

  /** In an accepted trace the endpoint runs only after every function of every gate let the
      call pass since the gate was entered. */
  lemma GuardedTrace(security: bool, code: seq<Instr>, events: seq<Event>, p: nat, k: nat, j: nat) returns (q: nat)
    requires Accepted(security, code, events) && p < |events| && events[p].Target?
    requires k < |code| && IsAsked(security, code[k], j)
    ensures PassedAt(code, events, p, k, j, q)
  {
    AfterStep(security, code, events, p);
    AlwaysBelowReady(security, code, events, p);
    AllPassed(security, code, After(security, code, events, p), events[p], k);
    q := CountMeansPassed(security, code, events, p, k, j);
  }

  lemma AllPassed(security: bool, code: seq<Instr>, stack: seq<Frame>, e: Event, k: nat)
    requires BelowReady(security, code, stack) && e.Target? && Step(security, code, stack, e).Some?
    requires k < |code| && code[k].Gate?
    ensures k < |stack| && stack[k].count == Needed(security, code[k])
  {
    assert k < |stack| - 1 ==> WasReady(security, code[k], stack[k]);
  }

  /* ---------- the replies in a trace are those of the world ---------- */

  /** Whatever an event reports of foreign code is what that code did, after all that came before. */
  predicate Reported(w: World, past: seq<Event>, e: Event) {
    match e
    case Ran(i, part, kwargs, reply) => reply == w.check(past, i, part, kwargs)
    case Acted(i, kwargs, last, act) => act == w.act(past, i, kwargs, last)
    case Target(kwargs, o) =>
      (match w.endpoint(past, kwargs)
       case Returned(value) => o == Value(value)
       case Raised(exn) => o.Raise? && o.exn == exn)
    case _ => true
  }

  ghost predicate Truthful(w: World, past: seq<Event>, events: seq<Event>) {
    forall q :: 0 <= q < |events| ==> Reported(w, past + events[..q], events[q])
  }

  lemma TruthfulOne(w: World, past: seq<Event>, e: Event)
    requires Reported(w, past, e)
    ensures Truthful(w, past, [e])
  {
    assert past + [e][..0] == past;
  }

  lemma TruthfulConcat(w: World, past: seq<Event>, a: seq<Event>, b: seq<Event>)
    requires Truthful(w, past, a) && Truthful(w, past + a, b)
    ensures Truthful(w, past, a + b)
  {
    forall q | 0 <= q < |a + b| ensures Reported(w, past + (a + b)[..q], (a + b)[q]) {
      if q < |a| {
        assert (a + b)[..q] == a[..q];
      } else {
        assert past + (a + b)[..q] == past + a + b[..q - |a|];
      }
    }
  }

  lemma {:induction false} ChecksTruthful(w: World, instr: Instr, i: nat, j: nat, n: nat, past: seq<Event>,
                                          kwargs: Kwargs, value: int)
    requires j <= n
    ensures Truthful(w, past, Checks(w, instr, i, j, n, past, kwargs, value).events)
    decreases n - j
  {
    if j < n {
      var reply := w.check(past, i, j, kwargs);
      var ran := Ran(i, j, kwargs, reply);
      var verdict := Judge(instr, i, reply);
      TruthfulOne(w, past, ran);
      if verdict.Go? {
        ChecksTruthful(w, instr, i, j + 1, n, past + [ran], kwargs + verdict.update, verdict.value);
        var rest := Checks(w, instr, i, j + 1, n, past + [ran], kwargs + verdict.update, verdict.value);
        TruthfulConcat(w, past, [ran], rest.events);
      }
    }
  }

  lemma {:induction false} ExecTruthful(w: World, code: seq<Instr>, i: nat, past: seq<Event>, kwargs: Kwargs)
    requires i <= |code|
    ensures Truthful(w, past, Exec(w, code, i, past, kwargs).events)
    decreases |code| - i, 2, 0
  {
    var run := Exec(w, code, i, past, kwargs);
    if i == |code| {
      TruthfulOne(w, past, run.events[0]);
      assert run.events == [run.events[0]];
    } else {
      var enter := Enter(i, kwargs);
      var body := Body(w, code, i, past + [enter], kwargs);
      TruthfulOne(w, past, enter);
      BodyTruthful(w, code, i, past + [enter], kwargs);
      TruthfulConcat(w, past, [enter], body.events);
      TruthfulOne(w, past + ([enter] + body.events), Exit(i, body.outcome));
      TruthfulConcat(w, past, [enter] + body.events, [Exit(i, body.outcome)]);
    }
  }

  lemma ThenTruthful(w: World, past: seq<Event>, checked: seq<Event>, code: seq<Instr>, i: nat, kwargs: Kwargs)
    requires i < |code| && Truthful(w, past, checked)
    requires Truthful(w, past + checked, Exec(w, code, i + 1, past + checked, kwargs).events)
    ensures Truthful(w, past, checked + Exec(w, code, i + 1, past + checked, kwargs).events)
  {
    TruthfulConcat(w, past, checked, Exec(w, code, i + 1, past + checked, kwargs).events);
  }

  lemma {:induction false} BodyTruthful(w: World, code: seq<Instr>, i: nat, past: seq<Event>, kwargs: Kwargs)
    requires i < |code|
    ensures Truthful(w, past, Body(w, code, i, past, kwargs).events)
    decreases |code| - i, 1, 0
  {
    match code[i]
    case Gate(kind, parts, _) =>
      if Needed(w.security, code[i]) == 0 {
        ExecTruthful(w, code, i + 1, past, kwargs);
      } else if !(kind == Permission && (kwargs == map[] || META in kwargs || CLASS_NAME in kwargs)) {
        var seen := if kind == Permission then kwargs[CLASS_NAME := 0][META := 0] else kwargs;
        var checked := Checks(w, code[i], i, 0, parts, past, seen, 0);
        ChecksTruthful(w, code[i], i, 0, parts, past, seen, 0);
        ExecTruthful(w, code, i + 1, past + checked.events, kwargs);
        ThenTruthful(w, past, checked.events, code, i, kwargs);
      }
    case PipeIn(parts, _) =>
      var checked := Checks(w, code[i], i, 0, parts, past, kwargs, 0);
      ChecksTruthful(w, code[i], i, 0, parts, past, kwargs, 0);
      ExecTruthful(w, code, i + 1, past + checked.events, checked.kwargs);
      ThenTruthful(w, past, checked.events, code, i, checked.kwargs);
    case PipeOut(parts, _) =>
      var run := Exec(w, code, i + 1, past, kwargs);
      ExecTruthful(w, code, i + 1, past, kwargs);
      if run.outcome.Value? {
        ChecksTruthful(w, code[i], i, 0, parts, past + run.events, kwargs, run.outcome.value);
        TruthfulConcat(w, past, run.events,
                       Checks(w, code[i], i, 0, parts, past + run.events, kwargs, run.outcome.value).events);
      }
    case Catch(_, _, _, injectMeta) =>
      if !(injectMeta && META in kwargs) {
        ExecTruthful(w, code, i + 1, past, if injectMeta then kwargs[META := 0] else kwargs);
      }
    case Around(_) => ActsTruthful(w, code, i, past, kwargs, None, w.limit);
    case Intercept =>
      var before := Checks(w, code[i], i, 0, 1, past, kwargs, 0);
      ChecksTruthful(w, code[i], i, 0, 1, past, kwargs, 0);
      if before.verdict.Go? {
        var run := Then(before.events, Exec(w, code, i + 1, past + before.events, kwargs - {META}));
        ExecTruthful(w, code, i + 1, past + before.events, kwargs - {META});
        ThenTruthful(w, past, before.events, code, i, kwargs - {META});
        ChecksTruthful(w, code[i], i, 1, 2, past + run.events, kwargs, 0);
        TruthfulConcat(w, past, run.events, Checks(w, code[i], i, 1, 2, past + run.events, kwargs, 0).events);
      }
  }

  lemma {:induction false} ActsTruthful(w: World, code: seq<Instr>, i: nat, past: seq<Event>, kwargs: Kwargs,
                                        last: Option<Outcome>, fuel: nat)
    requires i < |code|
    ensures Truthful(w, past, Acts(w, code, i, past, kwargs, last, fuel).events)
    decreases |code| - i, 0, fuel
  {
    var act := w.act(past, i, kwargs, last);
    var acted := Acted(i, kwargs, last, act);
    TruthfulOne(w, past, acted);
    if act.CallInner? && fuel > 0 {
      var run := Exec(w, code, i + 1, past + [acted], act.kwargs);
      ExecTruthful(w, code, i + 1, past + [acted], act.kwargs);
      TruthfulConcat(w, past, [acted], run.events);
      assert past + [acted] + run.events == past + ([acted] + run.events);
      ActsTruthful(w, code, i, past + [acted] + run.events, kwargs, Some(run.outcome), fuel - 1);
      TruthfulConcat(w, past, [acted] + run.events,
                     Acts(w, code, i, past + [acted] + run.events, kwargs, Some(run.outcome), fuel - 1).events);
    }
  }

  /** Whatever the trace of a call reports of the functions of the decorators and the endpoint
      is what they did, given all that happened before. */
  lemma CallIsTruthful(w: World, code: seq<Instr>, kwargs: Kwargs, q: nat)
    requires q < |Exec(w, code, 0, [], kwargs).events|
    ensures var events := Exec(w, code, 0, [], kwargs).events; Reported(w, events[..q], events[q])
  {
    var events := Exec(w, code, 0, [], kwargs).events;
    ExecTruthful(w, code, 0, [], kwargs);
    assert [] + events[..q] == events[..q];
  }

  /** The endpoint runs only after every function of every guard, and of every permission with
      the security flag on, let the call pass since the guard or permission was entered:
      asked with some arguments after all that had happened, it replied so. */
  lemma TargetIsGuarded(w: World, code: seq<Instr>, kwargs: Kwargs, p: nat, k: nat, j: nat) returns (q: nat)
    requires var events := Exec(w, code, 0, [], kwargs).events; p < |events| && events[p].Target?
    requires k < |code| && IsAsked(w.security, code[k], j)
    ensures var events := Exec(w, code, 0, [], kwargs).events;
      && PassedAt(code, events, p, k, j, q)
      && var reply := w.check(events[..q], k, j, events[q].kwargs);
         reply.Pass? || (code[k].kind == Permission && reply.Bad?)
  {
    CallIsAccepted(w, code, kwargs);
    q := GuardedTrace(w.security, code, Exec(w, code, 0, [], kwargs).events, p, k, j);
    CallIsTruthful(w, code, kwargs, q);
  }

  /** Function j of gate k refuses or raises whatever it is given. */
  ghost predicate AlwaysStops(w: World, k: nat, j: nat) {
    forall past, kwargs :: w.check(past, k, j, kwargs).Refuse? || w.check(past, k, j, kwargs).Throw?
  }

  /** Then the endpoint never runs, whatever the other functions do. */
  lemma StoppedNeverRuns(w: World, code: seq<Instr>, kwargs: Kwargs, k: nat, j: nat, p: nat)
    requires k < |code| && IsAsked(w.security, code[k], j) && AlwaysStops(w, k, j)
    requires p < |Exec(w, code, 0, [], kwargs).events|
    ensures !Exec(w, code, 0, [], kwargs).events[p].Target?
  {
    var events := Exec(w, code, 0, [], kwargs).events;
    if events[p].Target? {
      var q := TargetIsGuarded(w, code, kwargs, p, k, j);
      assert false;
    }
  }

  /** A gate one of whose functions refuses ends at once with 403 for a permission and 401 for a guard. */
  lemma RefusalEndsGate(w: World, code: seq<Instr>, kwargs: Kwargs, q: nat)
    requires var events := Exec(w, code, 0, [], kwargs).events;
      q < |events| && events[q].Ran? && events[q].i < |code| && code[events[q].i].Gate? && events[q].reply.Refuse?
    ensures var events := Exec(w, code, 0, [], kwargs).events;
      var k := events[q].i;
      q + 1 < |events| && events[q + 1] == Exit(k, Raise(Http(if code[k].kind == Permission then 403 else 401), k))
  {
    CallIsAccepted(w, code, kwargs);
    var events := Exec(w, code, 0, [], kwargs).events;
    StoppedEnds(w.security, code, events, q);
  }

  /** In an accepted trace a reply of a function of a gate that stops the call is followed by the
      end of the gate. */
  lemma StoppedEnds(security: bool, code: seq<Instr>, events: seq<Event>, q: nat)
    requires Accepted(security, code, events) && q < |events| && events[q].Ran?
    requires events[q].i < |code| && code[events[q].i].Gate? && !GatePasses(code[events[q].i].kind, events[q].reply)
    ensures q + 1 < |events|
    ensures var gate := code[events[q].i];
      events[q + 1] == Exit(events[q].i, GateEnd(gate.kind, gate.default, events[q].i, events[q].reply))
  {
    AfterStep(security, code, events, q);
    MoreToCome(security, code, events, q + 1);
    AfterStep(security, code, events, q + 1);
    StopLeavesOnlyTheEnd(security, code, After(security, code, events, q + 1), events[q + 1], events[q].i);
  }

  lemma StopLeavesOnlyTheEnd(security: bool, code: seq<Instr>, stack: seq<Frame>, e: Event, k: nat)
    requires k + 1 == |stack| <= |code| && code[k].Gate? && Top(stack).stopped.Some?
    requires Step(security, code, stack, e).Some?
    ensures e == Exit(k, GateEnd(code[k].kind, code[k].default, k, Top(stack).stopped.value))
  {
  }

  /** After the next wrapper ended like this, the wrapper has nothing left to do. */
  predicate Transparent(instr: Instr, o: Outcome) {
    match instr
    case Gate(_, _, _) | PipeIn(_, _) | Catch(_, _, _, _) => true
    case PipeOut(_, _) | Intercept => o.Raise?
    case Around(_) => false
  }

  ghost predicate EndsAt(code: seq<Instr>, events: seq<Event>, p: nat, k: nat, o: Outcome) {
    p < |events| && (events[p] == Exit(k, o) || (k == |code| && events[p].Target? && events[p].outcome == o))
  }

  /** In an accepted trace an exception of the endpoint or of a wrapper passes outwards at
      once, changed only by the except clause there, when the wrapper is no function around
      the call; so does a value, unless a pipe or interceptor works on it. */
  lemma PassesOn(security: bool, code: seq<Instr>, events: seq<Event>, p: nat, k: nat, o: Outcome)
    requires Accepted(security, code, events)
    requires 0 < k <= |code| && EndsAt(code, events, p, k, o) && Transparent(code[k - 1], o)
    ensures EndsAt(code, events, p + 1, k - 1, Handled(code[k - 1], k - 1, o))
  {
    AfterStep(security, code, events, p);
    AlwaysBelowReady(security, code, events, p);
    var stack := After(security, code, events, p + 1);
    OutcomeIsNoted(security, code, After(security, code, events, p), events[p], stack, k, o);
    MoreToCome(security, code, events, p + 1);
    AfterStep(security, code, events, p + 1);
    OnlyTheEnd(security, code, stack, events[p + 1], k, o);
  }

  /** With a wrapper open the trace is not over. */
  lemma MoreToCome(security: bool, code: seq<Instr>, events: seq<Event>, p: nat)
    requires Accepted(security, code, events) && p <= |events| && After(security, code, events, p) != []
    ensures p < |events|
  {
    assert events[..|events|] == events;
  }

  /** The frame of a transparent wrapper once the next wrapper ended. */
  ghost predicate Noted(code: seq<Instr>, stack: seq<Frame>, k: nat, o: Outcome) {
    && 0 < k == |stack| <= |code|
    && Top(stack).called == 1 && Top(stack).last == Some(o) && Top(stack).stopped.None?
    && (code[k - 1].PipeOut? ==> Top(stack).count == 0)
  }

  lemma OutcomeIsNoted(security: bool, code: seq<Instr>, before: seq<Frame>, e: Event, stack: seq<Frame>,
                       k: nat, o: Outcome)
    requires Step(security, code, before, e) == Some(stack) && BelowReady(security, code, before)
    requires 0 < k <= |code| && Transparent(code[k - 1], o)
    requires e == Exit(k, o) || (k == |code| && e.Target? && e.outcome == o)
    ensures Noted(code, stack, k, o)
  {
    assert e == Exit(k, o) ==> WasReady(security, code[k - 1], before[k - 1]);
  }

  lemma OnlyTheEnd(security: bool, code: seq<Instr>, stack: seq<Frame>, e: Event, k: nat, o: Outcome)
    requires Noted(code, stack, k, o) && Transparent(code[k - 1], o)
    requires Step(security, code, stack, e).Some?
    ensures e == Exit(k - 1, Handled(code[k - 1], k - 1, o))
  {
    NothingToDo(security, code[k - 1], Top(stack), o);
  }

  lemma NothingToDo(security: bool, instr: Instr, f: Frame, o: Outcome)
    requires Transparent(instr, o) && f.called == 1 && f.last == Some(o) && (instr.PipeOut? ==> f.count == 0)
    ensures (forall kwargs :: !Ready(security, instr, f, kwargs)) && forall j :: !MayRun(security, instr, f, j)
  {
  }

  /** What an outcome of wrapper k (or the endpoint) has become when wrapper m ends, if the
      wrappers from m on only pass it through their except clauses. */
  function Carried(code: seq<Instr>, k: nat, m: nat, o: Outcome): Outcome
    requires m <= k <= |code|
    decreases k - m
  {
    if m == k then o else Handled(code[m], m, Carried(code, k, m + 1, o))
  }

  /** No wrapper from m to before k has anything left to do with it. */
  ghost predicate Clear(code: seq<Instr>, k: nat, m: nat, o: Outcome)
    requires m <= k <= |code|
    decreases k - m
  {
    m == k || (Clear(code, k, m + 1, o) && Transparent(code[m], Carried(code, k, m + 1, o)))
  }

  /** `PassesOn` at one place. */
  ghost predicate PassesStep(code: seq<Instr>, events: seq<Event>, p: nat, k: nat, o: Outcome) {
    0 < k <= |code| && EndsAt(code, events, p, k, o) && Transparent(code[k - 1], o) ==>
      EndsAt(code, events, p + 1, k - 1, Handled(code[k - 1], k - 1, o))
  }

  ghost predicate PassesEverywhere(code: seq<Instr>, events: seq<Event>) {
    forall p: nat, k: nat, o: Outcome :: PassesStep(code, events, p, k, o)
  }

  lemma AcceptedPasses(security: bool, code: seq<Instr>, events: seq<Event>)
    requires Accepted(security, code, events)
    ensures PassesEverywhere(code, events)
  {
    forall p: nat, k: nat, o: Outcome ensures PassesStep(code, events, p, k, o) {
      if 0 < k <= |code| && EndsAt(code, events, p, k, o) && Transparent(code[k - 1], o) {
        PassesOn(security, code, events, p, k, o);
      }
    }
  }

  /** Any number of wrappers: they end one right after the other, each with what the except
      clauses so far have made of the outcome. */
  lemma {:induction false} PassesOut(code: seq<Instr>, events: seq<Event>, p: nat, k: nat, m: nat, o: Outcome)
    requires PassesEverywhere(code, events)
    requires m <= k <= |code| && EndsAt(code, events, p, k, o) && Clear(code, k, m, o)
    ensures EndsAt(code, events, p + (k - m), m, Carried(code, k, m, o))
    decreases k - m
  {
    if m < k {
      PassesOut(code, events, p, k, m + 1, o);
      assert PassesStep(code, events, p + (k - m - 1), m + 1, Carried(code, k, m + 1, o));
    }
  }

  /** No except clause from m to before k turns it into a response. */
  ghost predicate StaysException(code: seq<Instr>, k: nat, m: nat, o: Outcome)
    requires m <= k <= |code|
    decreases k - m
  {
    Carried(code, k, m, o).Raise? && (m == k || StaysException(code, k, m + 1, o))
  }

  /** The exceptions no except clause of a wrapper is for. */
  predicate Uncaught(o: Outcome) {
    o.Raise? && !o.exn.Default?
  }

  lemma {:induction false} UncaughtIsCarried(code: seq<Instr>, k: nat, m: nat, o: Outcome)
    requires m <= k <= |code| && Uncaught(o)
    ensures Carried(code, k, m, o) == o
    decreases k - m
  {
    if m < k {
      UncaughtIsCarried(code, k, m + 1, o);
    }
  }

  /** No function around the call between wrapper h and wrapper k. */
  ghost predicate NothingAround(code: seq<Instr>, h: nat, k: nat) {
    forall i :: h < i < k && i < |code| ==> !code[i].Around?
  }

  lemma {:induction false} ClearToFunction(code: seq<Instr>, k: nat, h: nat, m: nat, o: Outcome)
    requires h < m <= k <= |code| && NothingAround(code, h, k) && StaysException(code, k, m, o)
    ensures Clear(code, k, m, o)
    decreases k - m
  {
    if m < k {
      ClearToFunction(code, k, h, m + 1, o);
    }
  }

  /** An exception of the endpoint or a wrapper arrives at the innermost function around it,
      after exactly the wrappers between, as what their except clauses made of it; one that
      is for none of them arrives as it was raised. */
  lemma ReachesFunctionAround(code: seq<Instr>, events: seq<Event>, p: nat, k: nat, h: nat, o: Outcome)
    requires PassesEverywhere(code, events)
    requires h < k <= |code| && NothingAround(code, h, k)
    requires EndsAt(code, events, p, k, o) && StaysException(code, k, h + 1, o)
    ensures EndsAt(code, events, p + (k - (h + 1)), h + 1, Carried(code, k, h + 1, o))
    ensures Uncaught(o) ==> Carried(code, k, h + 1, o) == o
  {
    ClearToFunction(code, k, h, h + 1, o);
    PassesOut(code, events, p, k, h + 1, o);
    if Uncaught(o) {
      UncaughtIsCarried(code, k, h + 1, o);
    }
  }

  /* ---------- handlers and permissions ---------- */

  ghost predicate Ascending(code: seq<Instr>) {
    forall a, b :: 0 <= a < b < |code| ==> Priority(KindOf(code[a])) <= Priority(KindOf(code[b]))
  }

  lemma {:induction false} PartsKind(kind: Kind, parts: seq<Part>, x: nat)
    requires x < |PartsOf(kind, parts)|
    ensures KindOf(PartsOf(kind, parts)[x]) == kind
  {
    if x > 0 {
      PartsKind(kind, parts[1..], x - 1);
    }
  }

  lemma CompiledKind(d: Deco, x: nat)
    requires x < |CompileOne(d)|
    ensures KindOf(CompileOne(d)[x]) == d.kind
  {
    if (d.kind == Handler || d.kind == Interceptor) && x > 0 {
      PartsKind(d.kind, d.parts, x - 1);
    }
  }

  lemma {:induction false} CompiledFrom(layers: seq<Deco>, x: nat) returns (l: nat)
    requires x < |Compile(layers)|
    ensures l < |layers| && KindOf(Compile(layers)[x]) == layers[l].kind
  {
    var one := CompileOne(layers[0]);
    if x < |one| {
      CompiledKind(layers[0], x);
      l := 0;
      assert Compile(layers)[x] == one[x];
    } else {
      CompiledRest(layers, x - |one|);
      var rest := CompiledFrom(layers[1..], x - |one|);
      l := rest + 1;
      assert Compile(layers)[x] == Compile(layers[1..])[x - |one|];
    }
  }

  /** How many wrappers the decorators outside the l-th have. */
  function Offset(layers: seq<Deco>, l: nat): nat
    requires l <= |layers|
  {
    if l == 0 then 0
    else
      var d := layers[l - 1];
      Offset(layers, l - 1) + if d.kind == Handler || d.kind == Interceptor then 1 + |d.parts| else 1
  }

  /** The wrapper that stands for one function given to a handler or interceptor decorator. */
  function AroundFor(d: Deco, x: nat): Instr
    requires x < |d.parts|
  {
    if d.kind == Interceptor && d.parts[x] == Structured then Intercept else Around(d.kind)
  }

  /** The wrappers from the k-th on are those of this decorator: one with its functions and its
      default error, or a try block and, inside it, one wrapper per function in their order. */
  ghost predicate WrappersOf(code: seq<Instr>, k: nat, d: Deco) {
    k < |code| && match d.kind
      case Permission | Guard => code[k] == Gate(d.kind, |d.parts|, d.default)
      case PipeBefore => code[k] == PipeIn(|d.parts|, d.default)
      case PipeAfter => code[k] == PipeOut(|d.parts|, d.default)
      case Handler | Interceptor =>
        && k + |d.parts| < |code|
        && code[k] == Catch(d.kind, d.parts != [], d.default, d.injectMeta)
        && forall x :: 0 <= x < |d.parts| ==> code[k + 1 + x] == AroundFor(d, x)
      case _ => code[k] == Around(d.kind)
  }

  lemma {:induction false} PartsInOrder(kind: Kind, parts: seq<Part>)
    ensures |PartsOf(kind, parts)| == |parts|
    ensures forall x :: 0 <= x < |parts| ==>
      PartsOf(kind, parts)[x] == if kind == Interceptor && parts[x] == Structured then Intercept else Around(kind)
  {
    if parts != [] {
      PartsInOrder(kind, parts[1..]);
    }
  }

  lemma OneCompiled(d: Deco, rest: seq<Instr>)
    ensures WrappersOf(CompileOne(d) + rest, 0, d)
    ensures |CompileOne(d)| == Offset([d], 1)
  {
    PartsInOrder(d.kind, d.parts);
  }

  lemma WrappersMoved(one: seq<Instr>, rest: seq<Instr>, k: nat, d: Deco)
    requires WrappersOf(rest, k, d)
    ensures WrappersOf(one + rest, |one| + k, d)
  {
  }

  lemma {:induction false} OffsetOfRest(layers: seq<Deco>, l: nat)
    requires 0 < l <= |layers|
    ensures Offset(layers, l) == Offset([layers[0]], 1) + Offset(layers[1..], l - 1)
  {
    if l > 1 {
      OffsetOfRest(layers, l - 1);
    }
  }

  /** Folding turns the decorators into wrappers in order: each stands behind those outside it. */
  lemma {:induction false} CompiledInOrder(layers: seq<Deco>, l: nat)
    requires l < |layers|
    ensures WrappersOf(Compile(layers), Offset(layers, l), layers[l])
  {
    OneCompiled(layers[0], Compile(layers[1..]));
    if l > 0 {
      CompiledInOrder(layers[1..], l - 1);
      OffsetOfRest(layers, l);
      WrappersMoved(CompileOne(layers[0]), Compile(layers[1..]), Offset(layers[1..], l - 1), layers[l]);
    }
  }

  /** There are no other wrappers. */
  lemma {:induction false} CompiledSize(layers: seq<Deco>)
    ensures |Compile(layers)| == Offset(layers, |layers|)
  {
    if layers != [] {
      OneCompiled(layers[0], []);
      CompiledSize(layers[1..]);
      OffsetOfRest(layers, |layers|);
    }
  }

  /** Every permission and guard decorator has its gate among the wrappers. */
  lemma {:induction false} GateOf(layers: seq<Deco>, l: nat) returns (k: nat)
    requires l < |layers| && (layers[l].kind == Permission || layers[l].kind == Guard)
    ensures k < |Compile(layers)| && Compile(layers)[k] == Gate(layers[l].kind, |layers[l].parts|, layers[l].default)
  {
    if l == 0 {
      k := 0;
      assert Compile(layers)[0] == CompileOne(layers[0])[0];
    } else {
      var rest := GateOf(layers[1..], l - 1);
      CompiledRest(layers, rest);
      k := |CompileOne(layers[0])| + rest;
      assert Compile(layers)[k] == Compile(layers[1..])[rest];
    }
  }

  lemma CompiledRest(layers: seq<Deco>, x: nat)
    requires layers != [] && x < |Compile(layers[1..])|
    ensures |Compile(layers)| == |CompileOne(layers[0])| + |Compile(layers[1..])|
    ensures Compile(layers)[|CompileOne(layers[0])| + x] == Compile(layers[1..])[x]
  {
  }

  lemma {:induction false} CompiledAscending(layers: seq<Deco>)
    requires Nested(layers)
    ensures Ascending(Compile(layers))
  {
    if layers != [] {
      CompiledAscending(layers[1..]);
      var one, rest := CompileOne(layers[0]), Compile(layers[1..]);
      forall a, b | 0 <= a < b < |one + rest|
        ensures Priority(KindOf((one + rest)[a])) <= Priority(KindOf((one + rest)[b]))
      {
        if a < |one| {
          CompiledKind(layers[0], a);
          if b < |one| {
            CompiledKind(layers[0], b);
          } else {
            var l := CompiledFrom(layers[1..], b - |one|);
            assert Outside(layers[0], layers[l + 1]);
          }
        }
      }
    }
  }

  /** However the decorators were registered, no exception that reaches a handler function
      was raised by a permission. */
  lemma HandlersSeeNoPermission(security: bool, layers: seq<Deco>, events: seq<Event>, p: nat, k: nat, o: Outcome)
    requires Nested(layers) && Accepted(security, Compile(layers), events)
    requires 0 < k <= |Compile(layers)| && Compile(layers)[k - 1] == Around(Handler)
    requires EndsAt(Compile(layers), events, p, k, o) && o.Raise?
    ensures o.origin < |Compile(layers)| ==> KindOf(Compile(layers)[o.origin]) != Permission
  {
    var code := Compile(layers);
    CompiledAscending(layers);
    OriginIsInside(security, code, events, p, k, o);
    if o.origin < |code| {
      assert Priority(KindOf(code[k - 1])) <= Priority(KindOf(code[o.origin]));
    }
  }

  /** In an accepted trace an exception leaving a wrapper was raised there or further in. */
  lemma OriginIsInside(security: bool, code: seq<Instr>, events: seq<Event>, p: nat, k: nat, o: Outcome)
    requires Accepted(security, code, events) && EndsAt(code, events, p, k, o) && o.Raise?
    ensures o.origin >= k
  {
    AfterStep(security, code, events, p);
  }

  /** Where a function around the call in the folded callable comes from. */
  lemma {:induction false} AroundFrom(layers: seq<Deco>, x: nat) returns (l: nat)
    requires x < |Compile(layers)| && Compile(layers)[x].Around?
    ensures l < |layers| && Compile(layers)[x].kind == layers[l].kind
    ensures layers[l].kind in {Limiter, Throttle, Handler, Ping, Lock} || (layers[l].kind == Interceptor && Custom in layers[l].parts)
  {
    var one := CompileOne(layers[0]);
    if x < |one| {
      l := 0;
      if layers[0].kind == Handler || layers[0].kind == Interceptor {
        CustomPart(layers[0].kind, layers[0].parts, x - 1);
      }
    } else {
      CompiledRest(layers, x - |one|);
      var rest := AroundFrom(layers[1..], x - |one|);
      l := rest + 1;
    }
  }

  lemma {:induction false} CustomPart(kind: Kind, parts: seq<Part>, x: nat)
    requires x < |PartsOf(kind, parts)| && PartsOf(kind, parts)[x].Around?
    ensures PartsOf(kind, parts)[x].kind == kind && (kind == Interceptor ==> Custom in parts)
  {
    if x > 0 {
      CustomPart(kind, parts[1..], x - 1);
    }
  }

  /** No service ping, no status lock, and interceptors that are interceptor objects. */
  ghost predicate OnlyHandlersAround(layers: seq<Deco>) {
    forall d :: d in layers ==> d.kind != Ping && d.kind != Lock && (d.kind == Interceptor ==> Custom !in d.parts)
  }

  /** h is the innermost handler function. */
  ghost predicate InnermostHandler(code: seq<Instr>, h: nat) {
    h < |code| && code[h] == Around(Handler) && forall i :: h < i < |code| ==> code[i] != Around(Handler)
  }

  lemma NothingAroundInside(layers: seq<Deco>, h: nat, i: nat)
    requires Nested(layers) && OnlyHandlersAround(layers) && InnermostHandler(Compile(layers), h)
    requires h < i < |Compile(layers)|
    ensures !Compile(layers)[i].Around?
  {
    CompiledAscending(layers);
    var code := Compile(layers);
    assert Priority(KindOf(code[h])) <= Priority(KindOf(code[i]));
    if code[i].Around? {
      var l := AroundFrom(layers, i);
      var d := layers[l];
      HandlersOnly(layers, l, code[i].kind);
    }
  }

  lemma HandlersOnly(layers: seq<Deco>, l: nat, kind: Kind)
    requires OnlyHandlersAround(layers) && l < |layers| && kind == layers[l].kind
    requires kind in {Limiter, Throttle, Handler, Ping, Lock} || (kind == Interceptor && Custom in layers[l].parts)
    ensures kind == Handler || Priority(kind) < Priority(Handler)
  {
    assert layers[l] in layers;
  }

  /** Without pings, locks and interceptor functions nothing lies between the innermost handler
      function and what it handles, however the decorators were registered. */
  lemma NothingInsideTheHandler(layers: seq<Deco>, h: nat, k: nat)
    requires Nested(layers) && OnlyHandlersAround(layers) && InnermostHandler(Compile(layers), h)
    requires k <= |Compile(layers)|
    ensures NothingAround(Compile(layers), h, k)
  {
    forall i | h < i < k ensures !Compile(layers)[i].Around? {
      NothingAroundInside(layers, h, i);
    }
  }

  /** However the decorators were registered: in every call an exception of the endpoint or of a
      wrapper inside a handler function, with no other function around the call in between,
      arrives at the handler function as the except clauses in between made it (unchanged
      when it is for none of them), and it does not come from a permission. */
  lemma ExceptionsReachTheHandler(w: World, layers: seq<Deco>, kwargs: Kwargs, p: nat, k: nat, h: nat, o: Outcome)
    requires Nested(layers) && h < k <= |Compile(layers)|
    requires Compile(layers)[h] == Around(Handler) && NothingAround(Compile(layers), h, k)
    requires StaysException(Compile(layers), k, h + 1, o)
    requires EndsAt(Compile(layers), Exec(w, Compile(layers), 0, [], kwargs).events, p, k, o)
    ensures Arrives(Compile(layers), Exec(w, Compile(layers), 0, [], kwargs).events, p, k, h, o)
  {
    CallIsAccepted(w, Compile(layers), kwargs);
    ArrivesInTrace(w.security, layers, Exec(w, Compile(layers), 0, [], kwargs).events, p, k, h, o);
  }

  ghost predicate Arrives(code: seq<Instr>, events: seq<Event>, p: nat, k: nat, h: nat, o: Outcome)
    requires h < k <= |code|
  {
    var arrived := Carried(code, k, h + 1, o);
    && arrived.Raise? && EndsAt(code, events, p + (k - (h + 1)), h + 1, arrived)
    && (Uncaught(o) ==> arrived == o)
    && (arrived.origin < |code| ==> KindOf(code[arrived.origin]) != Permission)
  }

  lemma ArrivesInTrace(security: bool, layers: seq<Deco>, events: seq<Event>, p: nat, k: nat, h: nat, o: Outcome)
    requires Nested(layers) && h < k <= |Compile(layers)|
    requires Compile(layers)[h] == Around(Handler) && NothingAround(Compile(layers), h, k)
    requires Accepted(security, Compile(layers), events) && EndsAt(Compile(layers), events, p, k, o)
    requires StaysException(Compile(layers), k, h + 1, o)
    ensures Arrives(Compile(layers), events, p, k, h, o)
  {
    var code := Compile(layers);
    var arrived := ArrivesUnguarded(security, code, events, p, k, h, o);
    HandlersSeeNoPermission(security, layers, events, p + (k - (h + 1)), h + 1, arrived);
  }

  lemma ArrivesUnguarded(security: bool, code: seq<Instr>, events: seq<Event>, p: nat, k: nat, h: nat, o: Outcome)
      returns (arrived: Outcome)
    requires h < k <= |code| && NothingAround(code, h, k) && StaysException(code, k, h + 1, o)
    requires Accepted(security, code, events) && EndsAt(code, events, p, k, o)
    ensures arrived == Carried(code, k, h + 1, o) && arrived.Raise? && (Uncaught(o) ==> arrived == o)
    ensures EndsAt(code, events, p + (k - (h + 1)), h + 1, arrived)
  {
    AcceptedPasses(security, code, events);
    ReachesFunctionAround(code, events, p, k, h, o);
    arrived := Carried(code, k, h + 1, o);
  }
}
