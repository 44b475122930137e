/** What one build or destroy call does to a service, and what a link between
    two services asks for when the state of the first one changes. */
module Lifecycle {
  import opened Commons

  datatype Status =
    | Unset
    | Available
    | PartiallyAvailable
    | WorksAlmost
    | TemporarilyUnavailable
    | NotAvailable
    | MajorFailure

  datatype Life = Life(status: Status, builded: bool, destroyed: bool)

  const NEW_LIFE := Life(Unset, false, false)

  /** How a service's own `build` ended: normally, or with one of the build errors. */
  datatype BuildOutcome =
    | Built
    | FailureError
    | AbortError
    | OkError
    | WarningError
    | SkipError
    | NotImplementedError
    | OtherError

  function AfterBuild(life: Life, outcome: BuildOutcome): Life {
    match outcome
    case Built => Life(Available, true, false)
    case FailureError => life.(status := NotAvailable)
    case AbortError => life.(status := MajorFailure)
    case OkError => life.(status := PartiallyAvailable)
    case WarningError => life.(status := TemporarilyUnavailable)
    case SkipError => life.(status := WorksAlmost)
    case NotImplementedError => life.(status := NotAvailable)
    case OtherError => life.(status := MajorFailure)
  }

  /** `_destroyer` catches four of the build errors; it never touches the status. */
  function AfterDestroy(life: Life, destroyed: bool): Life {
    if destroyed then life.(destroyed := true, builded := false) else life
  }

  datatype CallError = MajorSystemFailureError | NotAvailableError | TemporaryNotAvailableError

  /** `check_status`: the status decides first, then the flags. */
  function CheckStatus(life: Life): Option<CallError> {
    match life.status
    case MajorFailure => Some(MajorSystemFailureError)
    case NotAvailable => Some(NotAvailableError)
    case TemporarilyUnavailable => Some(TemporaryNotAvailableError)
    case _ => if !life.builded || life.destroyed then Some(NotAvailableError) else None
  }

  /** A call gets through. */
  predicate Callable(life: Life) {
    CheckStatus(life).None?
  }

  datatype LifeEvent = Build(outcome: BuildOutcome) | Destroy(done: bool)

  function Live(life: Life, events: seq<LifeEvent>): Life {
    if events == [] then life
    else
      var before := Live(life, events[..|events| - 1]);
      match events[|events| - 1]
      case Build(outcome) => AfterBuild(before, outcome)
      case Destroy(done) => AfterDestroy(before, done)
  }

  /** The last event among `events` that changed the built flag is a successful build. */
  ghost predicate BuildIsLast(events: seq<LifeEvent>) {
    exists i :: 0 <= i < |events| && events[i] == Build(Built)
      && forall j :: i < j < |events| ==> events[j] != Destroy(true)
  }

  const UNUSABLE: set<BuildOutcome> := {FailureError, AbortError, WarningError, NotImplementedError, OtherError}

  /** The last build call ended in one of these ways. */
  ghost predicate LastBuildIn(events: seq<LifeEvent>, outcomes: set<BuildOutcome>) {
    exists i :: 0 <= i < |events| && events[i].Build?
      && events[i].outcome in outcomes
      && forall j :: i < j < |events| ==> !events[j].Build?
  }

  /** The outcome of the last build call leaves an unusable status. */
  ghost predicate LastBuildUnusable(events: seq<LifeEvent>) {
    LastBuildIn(events, UNUSABLE)
  }

  lemma {:induction false} BuiltFlag(events: seq<LifeEvent>)
    ensures var l := Live(NEW_LIFE, events);
            (l.builded <==> BuildIsLast(events)) && (l.builded ==> !l.destroyed)
  {
    if events != [] {
      var n := |events| - 1;
      var prefix := events[..n];
      BuiltFlag(prefix);
      assert forall i :: 0 <= i < n ==> prefix[i] == events[i];
      if BuildIsLast(prefix) && events[n] != Destroy(true) {
        var i :| 0 <= i < n && prefix[i] == Build(Built) && forall j :: i < j < n ==> prefix[j] != Destroy(true);
        assert events[i] == Build(Built);
      }
      if BuildIsLast(events) && events[n] != Build(Built) {
        var i :| 0 <= i <= n && events[i] == Build(Built) && forall j :: i < j <= n ==> events[j] != Destroy(true);
        assert prefix[i] == Build(Built);
      }
    }
  }

  function LastBuild(events: seq<LifeEvent>): Option<BuildOutcome> {
    if events == [] then None
    else if events[|events| - 1].Build? then Some(events[|events| - 1].outcome)
    else LastBuild(events[..|events| - 1])
  }

  lemma {:induction false} LastBuildIs(events: seq<LifeEvent>, outcomes: set<BuildOutcome>)
    ensures LastBuildIn(events, outcomes) <==> LastBuild(events).Some? && LastBuild(events).value in outcomes
  {
    if events != [] {
      var n := |events| - 1;
      var prefix := events[..n];
      LastBuildIs(prefix, outcomes);
      assert forall i :: 0 <= i < n ==> prefix[i] == events[i];
      if LastBuildIn(prefix, outcomes) && !events[n].Build? {
        var i :| 0 <= i < n && prefix[i].Build? && prefix[i].outcome in outcomes
          && forall j :: i < j < n ==> !prefix[j].Build?;
        assert events[i].Build?;
      }
      if LastBuildIn(events, outcomes) && !events[n].Build? {
        var i :| 0 <= i <= n && events[i].Build? && events[i].outcome in outcomes
          && forall j :: i < j <= n ==> !events[j].Build?;
        assert prefix[i].Build?;
      }
    }
  }

  lemma {:induction false} StatusFromLastBuild(events: seq<LifeEvent>)
    ensures var s := Live(NEW_LIFE, events).status;
            && (s == Unset <==> LastBuild(events).None?)
            && (s == Available <==> LastBuild(events) == Some(Built))
            && (s == PartiallyAvailable <==> LastBuild(events) == Some(OkError))
            && (s == WorksAlmost <==> LastBuild(events) == Some(SkipError))
            && (s == TemporarilyUnavailable <==> LastBuild(events) == Some(WarningError))
            && (s == NotAvailable <==> LastBuild(events) in {Some(FailureError), Some(NotImplementedError)})
            && (s == MajorFailure <==> LastBuild(events) in {Some(AbortError), Some(OtherError)})
  {
    if events != [] {
      StatusFromLastBuild(events[..|events| - 1]);
    }
  }

  /** Over any run of build and destroy calls the status tells how the last build ended,
      destroyed since or not. */
  lemma StatusFlag(events: seq<LifeEvent>)
    ensures var s := Live(NEW_LIFE, events).status;
            && (s in {MajorFailure, NotAvailable, TemporarilyUnavailable} <==> LastBuildUnusable(events))
            && (s == MajorFailure <==> LastBuildIn(events, {AbortError, OtherError}))
            && (s == NotAvailable <==> LastBuildIn(events, {FailureError, NotImplementedError}))
            && (s == TemporarilyUnavailable <==> LastBuildIn(events, {WarningError}))
            && (s == Available <==> LastBuildIn(events, {Built}))
            && (s == PartiallyAvailable <==> LastBuildIn(events, {OkError}))
            && (s == WorksAlmost <==> LastBuildIn(events, {SkipError}))
  {
    StatusFromLastBuild(events);
    LastBuildIs(events, UNUSABLE);
    LastBuildIs(events, {AbortError, OtherError});
    LastBuildIs(events, {FailureError, NotImplementedError});
    LastBuildIs(events, {WarningError});
    LastBuildIs(events, {Built});
    LastBuildIs(events, {OkError});
    LastBuildIs(events, {SkipError});
  }

  /** Over any run of build and destroy calls, a service answers calls exactly when
      a successful build was not undone since and the last build did not end badly.
      A service whose only builds ended in `OkError` or `SkipError` is therefore
      never callable, although its status counts as acceptable. */
  lemma CallableIff(events: seq<LifeEvent>)
    ensures Callable(Live(NEW_LIFE, events)) <==> BuildIsLast(events) && !LastBuildUnusable(events)
  {
    BuiltFlag(events);
    StatusFlag(events);
  }

  /** Which error a call gets when the service does not answer. */
  lemma CallErrorIs(events: seq<LifeEvent>)
    ensures var error := CheckStatus(Live(NEW_LIFE, events));
            && (error == Some(MajorSystemFailureError) <==> LastBuildIn(events, {AbortError, OtherError}))
            && (error == Some(TemporaryNotAvailableError) <==> LastBuildIn(events, {WarningError}))
            && (error == Some(NotAvailableError) <==>
                  LastBuildIn(events, {FailureError, NotImplementedError})
                  || (!LastBuildUnusable(events) && !BuildIsLast(events)))
  {
    BuiltFlag(events);
    StatusFlag(events);
  }

  datatype LinkParams = LinkParams(
    buildFollow: bool, toBuild: bool, toDestroy: bool, toAsyncVerify: bool,
    buildState: int, destroyState: int, destroyFollow: bool, rebuild: bool)

  datatype Message = Message(
    toBuild: bool, toDestroy: bool, bypassAsyncVerify: bool, forceSyncVerify: bool,
    buildState: int, destroyState: int)

  datatype Plan = Plan(
    destroy: bool, destroyState: int, build: bool, verify: bool, buildState: int, forceSync: bool)

  /** What the status walk does to a service found through `link`. */
  function StatusPlan(link: LinkParams, message: Message): Plan {
    if link.buildFollow then
      Plan(message.toDestroy, message.destroyState, message.toBuild, !message.bypassAsyncVerify,
           message.buildState, message.forceSyncVerify)
    else
      Plan(link.toDestroy, link.destroyState, link.toBuild, link.toAsyncVerify, link.buildState, false)
  }

  /** What the destroy walk does to a service found through `link`. */
  function DestroyPlan(link: LinkParams, rebuild: bool): Plan {
    Plan(link.destroyFollow, link.destroyState, rebuild && link.rebuild, false, link.buildState, true)
  }

  /** How the foreign calls on one service end, given the state they are called with: `build` also
      knows whether its dependencies are verified synchronously. */
  datatype ServiceReply = ServiceReply(
    verified: bool, outcome: (int, bool) -> BuildOutcome, destroyed: int -> bool)

  function Carry(life: Life, plan: Plan, reply: ServiceReply): Life {
    var life' := if plan.destroy then AfterDestroy(life, reply.destroyed(plan.destroyState)) else life;
    if plan.build && (plan.verify ==> reply.verified)
    then AfterBuild(life', reply.outcome(plan.buildState, plan.forceSync))
    else life'
  }

  /** What becomes of a service that is destroyed or not, and then built with some outcome or not. */
  ghost predicate Became(before: Life, destroyed: bool, build: Option<BuildOutcome>, after: Life) {
    && (Callable(after) <==>
          if build.None? then Callable(before) && !destroyed
          else build.value == Built
               || (build.value in {OkError, SkipError} && before.builded && !before.destroyed && !destroyed))
    && (after.builded <==> build == Some(Built) || (before.builded && !destroyed))
    && (after.destroyed <==> build != Some(Built) && (before.destroyed || destroyed))
    && (build.None? ==> after.status == before.status)
    && (build.Some? ==> after.status == Live(before, [Build(build.value)]).status)
  }

  /** A destroy call made when asked for, which worked. */
  ghost predicate Destroys(asked: bool, state: int, reply: ServiceReply) {
    asked && reply.destroyed(state)
  }

  /** The outcome of the build call made when asked for and allowed. */
  ghost function Builds(asked: bool, verify: bool, state: int, forceSync: bool, reply: ServiceReply): Option<BuildOutcome> {
    if asked && (verify ==> reply.verified) then Some(reply.outcome(state, forceSync)) else None
  }

  lemma CarryBecomes(life: Life, plan: Plan, reply: ServiceReply)
    ensures Became(life, Destroys(plan.destroy, plan.destroyState, reply),
                   Builds(plan.build, plan.verify, plan.buildState, plan.forceSync, reply), Carry(life, plan, reply))
  {
    var destroyed := AfterDestroy(life, Destroys(plan.destroy, plan.destroyState, reply));
    assert destroyed.status == life.status;
  }

  /** A service found by the status walk becomes what the message asks for when the link follows
      the build, else what the link asks for; a link of its own never forces a verification. */
  lemma StatusCarries(life: Life, link: LinkParams, message: Message, reply: ServiceReply)
    ensures var after := Carry(life, StatusPlan(link, message), reply);
      if link.buildFollow then
        Became(life, Destroys(message.toDestroy, message.destroyState, reply),
               Builds(message.toBuild, !message.bypassAsyncVerify, message.buildState, message.forceSyncVerify, reply), after)
      else
        Became(life, Destroys(link.toDestroy, link.destroyState, reply),
               Builds(link.toBuild, link.toAsyncVerify, link.buildState, false, reply), after)
  {
    CarryBecomes(life, StatusPlan(link, message), reply);
  }

  /** A service found by the destroy walk is destroyed when the link follows, and built again when
      the caller and the link want it, always with a synchronous verification. */
  lemma DestroyCarries(life: Life, link: LinkParams, rebuild: bool, reply: ServiceReply)
    ensures Became(life, Destroys(link.destroyFollow, link.destroyState, reply),
                   Builds(rebuild && link.rebuild, false, link.buildState, true, reply),
                   Carry(life, DestroyPlan(link, rebuild), reply))
  {
    CarryBecomes(life, DestroyPlan(link, rebuild), reply);
  }
}
