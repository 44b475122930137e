/** Calling a stacked callable: every wrapper, the functions given to it, exceptions and early
    returns, observed as a trace and checked by a monitor. */
module DecoratorRun {
  import opened Commons
  import opened DecoratorOrder

  type Kwargs = map<string, int>

  const META := "meta"
  const CLASS_NAME := "class_name"

  datatype Family = PermissionFamily | HandlerFamily | GuardFamily | PipeFamily | InterceptorFamily

  datatype Exn =
    | Http(status: int)
    | Default(family: Family, response: Option<int>, status_: Option<int>)
    | SkipCode(result: int, stops: bool)
    | Other(name: string)

  /** How a call ends.  An exception carries the position of the wrapper it was raised in,
      or the number of wrappers when the endpoint raised it. */
  datatype Outcome = Value(value: int) | Raise(exn: Exn, origin: nat)

  /** A wrapper with its configuration.  The wrapper of a handler or interceptor decorator is a
      try block around one more wrapper for every function it was given. */
  datatype Instr =
    | Gate(kind: Kind, parts: nat, default: Option<int>)
    | PipeIn(parts: nat, default: Option<int>)
    | PipeOut(parts: nat, default: Option<int>)
    | Catch(kind: Kind, active: bool, default: Option<int>, injectMeta: bool)
    | Around(kind: Kind)
    | Intercept

  function KindOf(instr: Instr): Kind {
    match instr
    case Gate(kind, _, _) => kind
    case PipeIn(_, _) => PipeBefore
    case PipeOut(_, _) => PipeAfter
    case Catch(kind, _, _, _) => kind
    case Around(kind) => kind
    case Intercept => Interceptor
  }

  function PartsOf(kind: Kind, parts: seq<Part>): seq<Instr> {
    if parts == [] then []
    else [if kind == Interceptor && parts[0] == Structured then Intercept else Around(kind)] + PartsOf(kind, parts[1..])
  }

  function CompileOne(d: Deco): seq<Instr> {
    match d.kind
    case Permission | Guard => [Gate(d.kind, |d.parts|, d.default)]
    case PipeBefore => [PipeIn(|d.parts|, d.default)]
    case PipeAfter => [PipeOut(|d.parts|, d.default)]
    case Handler | Interceptor => [Catch(d.kind, d.parts != [], d.default, d.injectMeta)] + PartsOf(d.kind, d.parts)
    case _ => [Around(d.kind)]
  }

  /** The wrappers of nested decorators, outermost first. */
  function Compile(layers: seq<Deco>): seq<Instr> {
    if layers == [] then [] else CompileOne(layers[0]) + Compile(layers[1..])
  }

  /* ---------- the functions the decorators were given ---------- */

  datatype Reply = Pass(value: int, update: Kwargs) | Refuse | Bad | Throw(exn: Exn)

  datatype Act = CallInner(kwargs: Kwargs) | Return(value: int) | PassOn | RaiseNew(exn: Exn)

  /** What runs: wrappers are entered and left, their functions reply, functions around the call
      act, the endpoint runs. */
  datatype Event =
    | Enter(i: nat, kwargs: Kwargs)
    | Ran(i: nat, part: nat, kwargs: Kwargs, reply: Reply)
    | Acted(i: nat, kwargs: Kwargs, last: Option<Outcome>, act: Act)
    | Exit(i: nat, outcome: Outcome)
    | Target(kwargs: Kwargs, outcome: Outcome)

  datatype Final = Returned(value: int) | Raised(exn: Exn)

  /** Foreign functions may do anything that depends on all that happened so far.  `limit`
      bounds how often one of them calls the next wrapper. */
  datatype World = World(
    security: bool,
    check: (seq<Event>, nat, nat, Kwargs) -> Reply,
    act: (seq<Event>, nat, Kwargs, Option<Outcome>) -> Act,
    endpoint: (seq<Event>, Kwargs) -> Final,
    limit: nat)

  /** The except clause shared by the wrappers: a response is returned, a status becomes an
      HTTP error, else the default error or the given status is raised. */
  function Recover(family: Family, default: Option<int>, fallback: int, i: nat, o: Outcome): (r: Outcome)
    ensures o.Raise? && o.origin >= i && r.Raise? ==> r.origin >= i
    ensures o.Value? ==> r == o
    ensures r != o ==> o.exn.Default? && o.exn.family == family && (r.Raise? ==> r.exn.Http? && r.origin == i)
    ensures o.Raise? && o.exn.Default? && o.exn.family == family ==> r == Recovered(default, fallback, i, o.exn)
  {
    if o.Raise? && o.exn.Default? && o.exn.family == family then
      if o.exn.response.Some? then Value(o.exn.response.value)
      else if o.exn.status_.Some? then Raise(Http(o.exn.status_.value), i)
      else Raise(Http(if default.Some? then default.value else fallback), i)
    else o
  }

  /** The response of the exception when it has one, else an error: with its own status when it
      has one, else the default of the decorator, else the fallback. */
  function Recovered(default: Option<int>, fallback: int, i: nat, exn: Exn): Outcome
    requires exn.Default?
  {
    match (exn.response, exn.status_)
    case (Some(response), _) => Value(response)
    case (None, Some(status)) => Raise(Http(status), i)
    case (None, None) => Raise(Http(match default case Some(status) => status case None => fallback), i)
  }

  /** The wrapper has an except clause that is in use. */
  predicate Catches(instr: Instr) {
    instr.PipeIn? || instr.PipeOut? || (instr.Catch? && instr.active)
  }

  function DefaultOf(instr: Instr): Option<int>
    requires Catches(instr)
  {
    match instr
    case PipeIn(_, default) => default
    case PipeOut(_, default) => default
    case Catch(_, _, default, _) => default
  }

  /** The exceptions the except clause of a wrapper is for. */
  function FamilyOf(instr: Instr): Family {
    if instr.Catch? then if instr.kind == Handler then HandlerFamily else InterceptorFamily else PipeFamily
  }

  /** What a wrapper makes of the outcome of its try block: only exceptions its except clause
      is for change, into a returned response or an HTTP error raised here. */
  function Handled(instr: Instr, i: nat, o: Outcome): (r: Outcome)
    ensures o.Raise? && o.origin >= i && r.Raise? ==> r.origin >= i
    ensures !(o.Raise? && o.exn.Default?) ==> r == o
    ensures r != o ==> Catches(instr) && match o.exn.family
      case HandlerFamily => instr.Catch? && instr.kind == Handler
      case InterceptorFamily => instr.Catch? && instr.kind != Handler
      case PipeFamily => instr.PipeIn? || instr.PipeOut?
      case _ => false
    ensures r.Raise? && r != o ==> r.exn.Http? && r.origin == i
    ensures o.Raise? && o.exn.Default? && o.exn.family == FamilyOf(instr) && Catches(instr) ==>
      r == Recovered(DefaultOf(instr), 500, i, o.exn)
  {
    match instr
    case PipeIn(_, default) => Recover(PipeFamily, default, 500, i, o)
    case PipeOut(_, default) => Recover(PipeFamily, default, 500, i, o)
    case Catch(kind, active, default, _) =>
      if active then Recover(FamilyOf(instr), default, 500, i, o) else o
    case _ => o
  }

  datatype Verdict = Go(value: int, update: Kwargs) | Stop(outcome: Outcome)

  /** What a wrapper makes of the reply of one of its functions. */
  function Judge(instr: Instr, i: nat, reply: Reply): (v: Verdict)
    ensures v.Stop? && v.outcome.Raise? ==> v.outcome.origin >= i
  {
    match instr
    case Gate(kind, _, default) => JudgeGate(kind, default, i, reply)
    case PipeIn(_, _) =>
      (match reply
       case Pass(value, update) => Go(value, update)
       case Throw(exn) => Stop(Raise(exn, i))
       case _ => Stop(Raise(Default(PipeFamily, None, None), i)))
    case Intercept =>
      if reply.Throw? then
        if !reply.exn.SkipCode? then Stop(Raise(reply.exn, i))
        else if reply.exn.stops then Stop(Value(reply.exn.result))
        else Go(0, map[])
      else Go(0, map[])
    case _ =>
      if reply.Throw? then Stop(Raise(reply.exn, i)) else Go(if reply.Pass? then reply.value else 0, map[])
  }

  function JudgeGate(kind: Kind, default: Option<int>, i: nat, reply: Reply): (v: Verdict)
    ensures v.Stop? && v.outcome.Raise? ==> v.outcome.origin >= i
  {
    var permission := kind == Permission;
    match reply
    case Throw(exn) =>
      Stop(if permission then Recover(PermissionFamily, default, 501, i, Raise(exn, i))
           else Recover(GuardFamily, default, 401, i, Raise(exn, i)))
    case Refuse => Stop(Raise(Http(if permission then 403 else 401), i))
    case Bad => if permission then Go(0, map[]) else Stop(Raise(Http(501), i))
    case Pass(value, _) => Go(value, map[])
  }

  /* ---------- the interpreter ---------- */

  datatype Run = Run(events: seq<Event>, outcome: Outcome)

  datatype Checked = Checked(events: seq<Event>, kwargs: Kwargs, verdict: Verdict)

  /** The loop over the functions of one wrapper, from the j-th to before the n-th. */
  function Checks(w: World, instr: Instr, i: nat, j: nat, n: nat, past: seq<Event>, kwargs: Kwargs, value: int): Checked
    requires j <= n
    decreases n - j
  {
    if j == n then Checked([], kwargs, Go(value, map[]))
    else
      var reply := w.check(past, i, j, kwargs);
      var ran := Ran(i, j, kwargs, reply);
      var verdict := Judge(instr, i, reply);
      if verdict.Stop? then Checked([ran], kwargs, verdict)
      else
        var rest := Checks(w, instr, i, j + 1, n, past + [ran], kwargs + verdict.update, verdict.value);
        Checked([ran] + rest.events, rest.kwargs, rest.verdict)
  }

  /** How many functions a gate runs: none with the security flag off, for permissions. */
  function Needed(security: bool, instr: Instr): nat
    requires instr.Gate?
  {
    if instr.kind == Permission && !security then 0 else instr.parts
  }

  /** Calling the i-th wrapper, or the endpoint behind the last. */
  function Exec(w: World, code: seq<Instr>, i: nat, past: seq<Event>, kwargs: Kwargs): Run
    requires i <= |code|
    decreases |code| - i, 2, 0
  {
    if i == |code| then
      var final := w.endpoint(past, kwargs);
      var outcome := if final.Returned? then Value(final.value) else Raise(final.exn, i);
      Run([Target(kwargs, outcome)], outcome)
    else
      var body := Body(w, code, i, past + [Enter(i, kwargs)], kwargs);
      Run([Enter(i, kwargs)] + body.events + [Exit(i, body.outcome)], body.outcome)
  }

  function Body(w: World, code: seq<Instr>, i: nat, past: seq<Event>, kwargs: Kwargs): Run
    requires i < |code|
    decreases |code| - i, 1, 0
  {
    match code[i]
    case Gate(kind, parts, _) =>
      if Needed(w.security, code[i]) == 0 then Exec(w, code, i + 1, past, kwargs)
      else if kind == Permission && kwargs == map[] then Run([], Raise(Http(501), i))
      else if kind == Permission && (META in kwargs || CLASS_NAME in kwargs) then Run([], Raise(Http(400), i))
      else
        var seen := if kind == Permission then kwargs[CLASS_NAME := 0][META := 0] else kwargs;
        var checked := Checks(w, code[i], i, 0, parts, past, seen, 0);
        if checked.verdict.Stop? then Run(checked.events, checked.verdict.outcome)
        else Then(checked.events, Exec(w, code, i + 1, past + checked.events, kwargs))
    case PipeIn(parts, _) =>
      var checked := Checks(w, code[i], i, 0, parts, past, kwargs, 0);
      if checked.verdict.Stop? then Run(checked.events, Handled(code[i], i, checked.verdict.outcome))
      else
        var run := Then(checked.events, Exec(w, code, i + 1, past + checked.events, checked.kwargs));
        run.(outcome := Handled(code[i], i, run.outcome))
    case PipeOut(parts, _) =>
      var run := Exec(w, code, i + 1, past, kwargs);
      if run.outcome.Raise? then run.(outcome := Handled(code[i], i, run.outcome))
      else
        var checked := Checks(w, code[i], i, 0, parts, past + run.events, kwargs, run.outcome.value);
        Run(run.events + checked.events, Handled(code[i], i, Concluded(checked.verdict)))
    case Catch(_, _, _, injectMeta) =>
      if injectMeta && META in kwargs then Run([], Raise(Http(400), i))
      else
        var run := Exec(w, code, i + 1, past, if injectMeta then kwargs[META := 0] else kwargs);
        run.(outcome := Handled(code[i], i, run.outcome))
    case Around(_) => Acts(w, code, i, past, kwargs, None, w.limit)
    case Intercept =>
      var before := Checks(w, code[i], i, 0, 1, past, kwargs, 0);
      if before.verdict.Stop? then Run(before.events, before.verdict.outcome)
      else
        var run := Then(before.events, Exec(w, code, i + 1, past + before.events, kwargs - {META}));
        if run.outcome.Raise? then run
        else
          var after := Checks(w, code[i], i, 1, 2, past + run.events, kwargs, 0);
          Run(run.events + after.events, if after.verdict.Stop? then after.verdict.outcome else run.outcome)
  }

  function Concluded(verdict: Verdict): Outcome {
    match verdict
    case Go(value, _) => Value(value)
    case Stop(outcome) => outcome
  }

  function Then(events: seq<Event>, run: Run): Run {
    Run(events + run.events, run.outcome)
  }

  /** A handler or any other function around the call: it calls the next wrapper as often as
      it likes, with the arguments it likes, and sees how the last call ended. */
  function Acts(w: World, code: seq<Instr>, i: nat, past: seq<Event>, kwargs: Kwargs, last: Option<Outcome>, fuel: nat): Run
    requires i < |code|
    decreases |code| - i, 0, fuel
  {
    var act := w.act(past, i, kwargs, last);
    var acted := Acted(i, kwargs, last, act);
    match act
    case CallInner(inner) =>
      if fuel == 0 then Run([acted], Raise(Other("limit"), i))
      else
        var run := Exec(w, code, i + 1, past + [acted], inner);
        Then([acted] + run.events, Acts(w, code, i, past + [acted] + run.events, kwargs, Some(run.outcome), fuel - 1))
    case Return(value) => Run([acted], Value(value))
    case PassOn => Run([acted], if last.Some? then last.value else Value(0))
    case RaiseNew(exn) => Run([acted], Raise(exn, i))
  }

  /* ---------- the monitor ---------- */

  /** One open wrapper: the arguments it was called with and those its functions are shown, the
      functions that let the call go on and the value they leave, the reply that stopped it,
      the last thing a function around the call did, the calls of the next wrapper that ended
      and how the last one did. */
  datatype Frame = Frame(
    kwargs: Kwargs, shown: Kwargs, count: nat, value: int, stopped: Option<Reply>, act: Option<Act>,
    called: nat, last: Option<Outcome>)

  /** A permission sees the class and the metadata of the endpoint among its arguments. */
  function Opened(instr: Instr, kwargs: Kwargs): Frame {
    var shown := if instr.Gate? && instr.kind == Permission then kwargs[CLASS_NAME := 0][META := 0] else kwargs;
    Frame(kwargs, shown, 0, 0, None, None, 0, None)
  }

  /** A function of a gate that replies like this lets the call pass.  A guard must not reply
      anything but a flag with a message; what a permission replies only has to be true. */
  predicate GatePasses(kind: Kind, reply: Reply) {
    reply.Pass? || (kind == Permission && reply.Bad?)
  }

  /** A function of a wrapper that replies like this lets the call go on. */
  predicate LetsGo(instr: Instr, reply: Reply) {
    match instr
    case Gate(kind, _, _) => GatePasses(kind, reply)
    case PipeIn(_, _) => reply.Pass?
    case Intercept => reply.Throw? ==> reply.exn.SkipCode? && !reply.exn.stops
    case _ => !reply.Throw?
  }

  /** The frame after a function of the wrapper replied. */
  function Replied(instr: Instr, f: Frame, reply: Reply): Frame {
    if !LetsGo(instr, reply) then f.(stopped := Some(reply))
    else
      f.(count := f.count + 1,
         shown := if instr.PipeIn? && reply.Pass? then f.shown + reply.update else f.shown,
         value := if reply.Pass? then reply.value else 0)
  }

  /** A permission refuses calls without arguments, and with arguments of the names it uses. */
  predicate RejectsArguments(security: bool, instr: Instr, kwargs: Kwargs) {
    instr.Gate? && instr.kind == Permission && Needed(security, instr) > 0
    && (kwargs == map[] || META in kwargs || CLASS_NAME in kwargs)
  }

  /** May the wrapper call the next one now, with these arguments?  A gate only after all its
      functions passed, with the arguments it was called with; pipes pass on what they made
      of them; a function around the call what it chose. */
  predicate Ready(security: bool, instr: Instr, f: Frame, kwargs: Kwargs) {
    f.stopped.None? && match instr
      case Gate(_, _, _) =>
        f.called == 0 && f.count == Needed(security, instr) && kwargs == f.kwargs
        && !RejectsArguments(security, instr, f.kwargs)
      case PipeIn(parts, _) => f.called == 0 && f.count == parts && kwargs == f.shown
      case PipeOut(_, _) => f.called == 0 && f.count == 0 && kwargs == f.kwargs
      case Catch(_, _, _, injectMeta) =>
        f.called == 0 && !(injectMeta && META in f.kwargs)
        && kwargs == if injectMeta then f.kwargs[META := 0] else f.kwargs
      case Around(_) => f.act == Some(CallInner(kwargs))
      case Intercept => f.called == 0 && f.count == 1 && kwargs == f.kwargs - {META}
  }

  /** May its j-th function run now? */
  predicate MayRun(security: bool, instr: Instr, f: Frame, j: nat) {
    f.stopped.None? && j == f.count && match instr
      case Gate(_, _, _) => f.called == 0 && j < Needed(security, instr) && !RejectsArguments(security, instr, f.kwargs)
      case PipeIn(parts, _) => f.called == 0 && j < parts
      case PipeOut(parts, _) => f.called == 1 && f.last.Some? && f.last.value.Value? && j < parts
      case Intercept => (j == 0 && f.called == 0) || (j == 1 && f.called == 1 && f.last.Some? && f.last.value.Value?)
      case _ => false
  }

  /** How a gate ends that one of its functions stopped. */
  function GateEnd(kind: Kind, default: Option<int>, i: nat, reply: Reply): Outcome {
    var family, fallback := if kind == Permission then PermissionFamily else GuardFamily, if kind == Permission then 501 else 401;
    match reply
    case Throw(exn) =>
      if exn.Default? && exn.family == family then Recovered(default, fallback, i, exn) else Raise(exn, i)
    case Refuse => Raise(Http(if kind == Permission then 403 else 401), i)
    case _ => Raise(Http(501), i)
  }

  /** How the try block of a pipe or interceptor ends that one of its functions stopped. */
  function StopEnd(instr: Instr, i: nat, reply: Reply): Outcome {
    if reply.Throw? then
      if instr.Intercept? && reply.exn.SkipCode? then Value(reply.exn.result) else Raise(reply.exn, i)
    else Raise(Default(PipeFamily, None, None), i)
  }

  /** May it end like this?  A wrapper ends without calling the next one only when one of its
      functions stopped the call or it refused the arguments.  What came from the next one is
      passed on, after the except clause of the wrapper if it has one; the functions that
      work on a value all ran, or one of them stopped.  A function around the call ends it as
      it acted last. */
  predicate MayEnd(security: bool, instr: Instr, i: nat, f: Frame, o: Outcome) {
    (o.Raise? ==> o.origin >= i) && match instr
      case Gate(kind, _, default) =>
        if f.stopped.Some? then o == GateEnd(kind, default, i, f.stopped.value)
        else if f.last.Some? then o == f.last.value
        else RejectsArguments(security, instr, f.kwargs) && o == Raise(Http(if f.kwargs == map[] then 501 else 400), i)
      case PipeIn(_, _) =>
        if f.stopped.Some? then o == Handled(instr, i, StopEnd(instr, i, f.stopped.value))
        else f.last.Some? && o == Handled(instr, i, f.last.value)
      case PipeOut(parts, _) =>
        && f.last.Some?
        && if f.last.value.Raise? then o == Handled(instr, i, f.last.value)
           else if f.stopped.Some? then o == Handled(instr, i, StopEnd(instr, i, f.stopped.value))
           else f.count == parts && o == Value(f.value)
      case Catch(_, _, _, injectMeta) =>
        if f.last.Some? then o == Handled(instr, i, f.last.value)
        else injectMeta && META in f.kwargs && o == Raise(Http(400), i)
      case Around(_) =>
        && f.act.Some?
        && (match f.act.value
            case CallInner(_) => o == Raise(Other("limit"), i)
            case Return(value) => o == Value(value)
            case PassOn => o == if f.last.Some? then f.last.value else Value(0)
            case RaiseNew(exn) => o == Raise(exn, i))
      case Intercept =>
        if f.stopped.Some? then o == StopEnd(instr, i, f.stopped.value)
        else f.last.Some? && o == f.last.value && (o.Value? ==> f.count == 2)
  }

  predicate CanCall(security: bool, code: seq<Instr>, stack: seq<Frame>, kwargs: Kwargs) {
    stack == [] || (|stack| <= |code| && Ready(security, code[|stack| - 1], stack[|stack| - 1], kwargs))
  }

  /** The frame after a call of the next wrapper. */
  function Called(f: Frame, o: Outcome): Frame {
    f.(called := f.called + 1, last := Some(o), value := if o.Value? then o.value else f.value, act := None)
  }

  function Ended(stack: seq<Frame>, o: Outcome): (r: seq<Frame>)
    ensures |r| == |stack|
  {
    if stack == [] then [] else stack[..|stack| - 1] + [Called(stack[|stack| - 1], o)]
  }

  function Top(stack: seq<Frame>): Frame
    requires stack != []
  {
    stack[|stack| - 1]
  }

  function Pop(stack: seq<Frame>): seq<Frame>
    requires stack != []
  {
    stack[..|stack| - 1]
  }

  /** The stack of open wrappers after an event, if the event is allowed. */
  function Step(security: bool, code: seq<Instr>, stack: seq<Frame>, e: Event): Option<seq<Frame>> {
    match e
    case Enter(i, kwargs) =>
      if i == |stack| < |code| && CanCall(security, code, stack, kwargs) then Some(stack + [Opened(code[i], kwargs)])
      else None
    case Ran(i, j, kwargs, reply) =>
      if i + 1 == |stack| <= |code| && MayRun(security, code[i], Top(stack), j) && kwargs == Top(stack).shown then
        Some(Pop(stack) + [Replied(code[i], Top(stack), reply)])
      else None
    case Acted(i, kwargs, last, act) =>
      if i + 1 == |stack| <= |code| && code[i].Around? && Top(stack).act.None?
         && kwargs == Top(stack).kwargs && last == Top(stack).last then
        Some(Pop(stack) + [Top(stack).(act := Some(act))])
      else None
    case Exit(i, o) =>
      if i + 1 == |stack| <= |code| && MayEnd(security, code[i], i, Top(stack), o) then Some(Ended(Pop(stack), o)) else None
    case Target(kwargs, o) =>
      if |stack| == |code| && CanCall(security, code, stack, kwargs) && (o.Raise? ==> o.origin == |code|) then
        Some(Ended(stack, o))
      else None
  }

  function Replay(security: bool, code: seq<Instr>, stack: seq<Frame>, events: seq<Event>): Option<seq<Frame>>
    decreases |events|
  {
    if events == [] then Some(stack)
    else
      var next := Step(security, code, stack, events[0]);
      if next.Some? then Replay(security, code, next.value, events[1..]) else None
  }

  lemma {:induction false} ReplayConcat(security: bool, code: seq<Instr>, stack: seq<Frame>, a: seq<Event>, b: seq<Event>)
    ensures Replay(security, code, stack, a + b) ==
      (var middle := Replay(security, code, stack, a);
       if middle.Some? then Replay(security, code, middle.value, b) else None)
    decreases |a|
  {
    if a == [] {
      assert a + b == b;
    } else {
      assert (a + b)[1..] == a[1..] + b;
      var next := Step(security, code, stack, a[0]);
      if next.Some? {
        ReplayConcat(security, code, next.value, a[1..], b);
      }
    }
  }
}
