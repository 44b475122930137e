/** The two depth-first walks that spread a state change over the services that
    use a service.

    `destroyDep` marks a service before it explores the services using it;
    the status subscriber marks a service only after exploring it.  `Before` and
    `After` specify the two walks; the class below is the code. */
module UsedByWalks {
  import opened Commons
  import opened Layering
  import opened Lifecycle

  /** `users[s]` lists the services that use s in the order the walk meets them;
      `links[d]` is the link table declared by service d, keyed by the used service. */
  datatype Graph = Graph(users: map<string, seq<string>>, links: map<string, map<string, LinkParams>>)

  datatype Edge = Edge(from: string, to: string)

  datatype Ending = Finished | MissingLink | TooDeep

  datatype Walk = Walk(log: seq<Edge>, cache: set<string>, ending: Ending)

  function Users(g: Graph, s: string): seq<string> {
    if s in g.users then g.users[s] else []
  }

  predicate Linked(g: Graph, u: string, d: string) {
    d in Users(g, u) && d in g.links && u in g.links[d]
  }

  /** The linked edges as a dependency map, so that chains and cycles make sense. */
  function LinkMap(g: Graph): Deps {
    map u | u in g.users :: set d | d in g.users[u] && d in g.links && u in g.links[d]
  }

  /** Every service that appears has its own entry and its own link table. */
  ghost predicate WellFormed(g: Graph) {
    forall u, d :: u in g.users && d in g.users[u] ==> d in g.users && d in g.links
  }

  ghost predicate Closed(names: set<string>, g: Graph) {
    names <= g.users.Keys && forall u :: u in names ==> Of(LinkMap(g), u) <= names
  }

  /** A rank for every service of a closed set that drops along each linked edge. */
  ghost predicate Ranked(g: Graph, names: set<string>, rank: map<string, nat>) {
    && Closed(names, g) && names <= rank.Keys
    && forall u, d :: u in names && Linked(g, u, d) ==> d in names && rank[d] < rank[u]
  }

  lemma AcyclicIsRanked(g: Graph, names: set<string>) returns (rank: map<string, nat>)
    requires Closed(names, g) && !Cyclic(names, LinkMap(g))
    ensures Ranked(g, names, rank)
  {
    rank := map x | x in names :: Height(x, names, LinkMap(g));
    forall u, d | u in names && Linked(g, u, d)
      ensures d in names && rank[d] < rank[u]
    {
      assert d in Of(LinkMap(g), u);
      HeightDrops(u, d, names, LinkMap(g));
    }
  }

  ghost predicate AllLinked(g: Graph, names: set<string>) {
    forall u, d :: u in names && d in Users(g, u) ==> Linked(g, u, d)
  }

  /* ---------- specifications of the walks ---------- */

  /** Mark after exploring; `fuel` bounds the depth of the calls. */
  function AfterNode(g: Graph, s: string, cache: set<string>, fuel: nat): Walk
    decreases fuel, 1, 0
  {
    if s in cache then Walk([], cache, Finished) else AfterUsers(g, s, Users(g, s), cache, fuel)
  }

  function AfterUsers(g: Graph, s: string, us: seq<string>, cache: set<string>, fuel: nat): Walk
    decreases fuel, 0, |us|
  {
    if us == [] then Walk([], cache, Finished)
    else if us[0] in cache then AfterUsers(g, s, us[1..], cache, fuel)
    else if us[0] !in g.links then Walk([], cache, MissingLink)
    else if s !in g.links[us[0]] then AfterUsers(g, s, us[1..], cache, fuel)
    else if fuel == 0 then Walk([Edge(s, us[0])], cache, TooDeep)
    else
      var w := AfterNode(g, us[0], cache, fuel - 1);
      if w.ending != Finished then Walk([Edge(s, us[0])] + w.log, w.cache, w.ending)
      else
        var rest := AfterUsers(g, s, us[1..], w.cache + {us[0]}, fuel);
        Walk([Edge(s, us[0])] + w.log + rest.log, rest.cache, rest.ending)
  }

  /** Mark before exploring; an edge without a link entry is a lookup error. */
  function BeforeNode(g: Graph, s: string, cache: set<string>): (w: Walk)
    ensures cache <= w.cache
    decreases |g.users.Keys - cache|, 0
  {
    if s in cache then Walk([], cache, Finished)
    else if s !in g.users then Walk([], cache + {s}, Finished)
    else
      assert g.users.Keys - cache == (g.users.Keys - (cache + {s})) + {s};
      BeforeUsers(g, s, Users(g, s), cache + {s})
  }

  function BeforeUsers(g: Graph, s: string, us: seq<string>, cache: set<string>): (w: Walk)
    ensures cache <= w.cache
    decreases |g.users.Keys - cache|, 1 + |us|
  {
    if us == [] then Walk([], cache, Finished)
    else if us[0] in cache then BeforeUsers(g, s, us[1..], cache)
    else if us[0] !in g.links || s !in g.links[us[0]] then Walk([], cache, MissingLink)
    else
      var w := BeforeNode(g, us[0], cache);
      if w.ending != Finished then Walk([Edge(s, us[0])] + w.log, w.cache, w.ending)
      else
        FewerLeft(g.users.Keys, cache, w.cache);
        var rest := BeforeUsers(g, s, us[1..], w.cache);
        Walk([Edge(s, us[0])] + w.log + rest.log, rest.cache, rest.ending)
  }

  lemma FewerLeft(all: set<string>, small: set<string>, big: set<string>)
    requires small <= big
    ensures |all - big| <= |all - small|
  {
    var gone := (all - small) - (all - big);
    assert all - small == (all - big) + gone;
  }

  /* ---------- what a log of edges says ---------- */

  function Targets(log: seq<Edge>): set<string> {
    set e | e in log :: e.to
  }

  ghost predicate EachOnce(log: seq<Edge>) {
    forall i, j :: 0 <= i < j < |log| ==> log[i].to != log[j].to
  }

  /** Every step follows a linked edge out of the start or out of a service reached earlier. */
  ghost predicate Discovered(g: Graph, s: string, log: seq<Edge>) {
    forall i :: 0 <= i < |log| ==>
      Linked(g, log[i].from, log[i].to) && (log[i].from == s || log[i].from in Targets(log[..i]))
  }

  /** The services reachable from `root` along linked edges, `root` included. */
  ghost function Region(g: Graph, root: string): set<string> {
    set v | v in g.users && Reaches(g, root, v)
  }

  ghost predicate Reaches(g: Graph, u: string, v: string) {
    exists c :: IsChain(c, g.users.Keys, LinkMap(g)) && c[0] == u && c[|c| - 1] == v
  }

  lemma RegionClosed(g: Graph, root: string)
    requires WellFormed(g) && root in g.users
    ensures root in Region(g, root) && Closed(Region(g, root), g)
  {
    assert IsChain([root], g.users.Keys, LinkMap(g));
    forall u, d | u in Region(g, root) && d in Of(LinkMap(g), u)
      ensures d in Region(g, root)
    {
      ReachesStep(g, root, u, d);
    }
  }

  lemma ReachesStep(g: Graph, root: string, u: string, d: string)
    requires WellFormed(g) && u in g.users && Reaches(g, root, u) && d in Of(LinkMap(g), u)
    ensures d in g.users && Reaches(g, root, d)
  {
    var c :| IsChain(c, g.users.Keys, LinkMap(g)) && c[0] == root && c[|c| - 1] == u;
    assert IsChain(c + [d], g.users.Keys, LinkMap(g));
  }

  /** A set that is closed and holds what `root` links to holds everything reachable
      from `root`, except perhaps `root`. */
  lemma ClosedHoldsRegion(g: Graph, root: string, done: set<string>)
    requires WellFormed(g) && root in g.users
    requires Closed(done, g) && Of(LinkMap(g), root) <= done
    ensures Region(g, root) <= done + {root}
  {
    forall v | v in Region(g, root)
      ensures v in done + {root}
    {
      var c :| IsChain(c, g.users.Keys, LinkMap(g)) && c[0] == root && c[|c| - 1] == v;
      if |c| > 1 {
        StaysInside(g, c, done, |c| - 1);
      }
    }
  }

  lemma {:induction false} StaysInside(g: Graph, c: seq<string>, done: set<string>, i: nat)
    requires IsChain(c, g.users.Keys, LinkMap(g)) && 0 < i < |c|
    requires Closed(done, g) && Of(LinkMap(g), c[0]) <= done
    ensures c[i] in done
  {
    if i > 1 {
      StaysInside(g, c, done, i - 1);
      assert c[i] in Of(LinkMap(g), c[i - 1]);
    }
  }

  /** Everything in a discovered log is reachable from its start. */
  lemma {:induction false} DiscoveredIsReachable(g: Graph, s: string, log: seq<Edge>)
    requires WellFormed(g) && s in g.users && Discovered(g, s, log)
    ensures Targets(log) <= Region(g, s)
    decreases |log|
  {
    if log != [] {
      var n := |log| - 1;
      var prefix := log[..n];
      assert log == prefix + [log[n]];
      assert Discovered(g, s, prefix) by {
        assert forall i :: 0 <= i < n ==> prefix[..i] == log[..i];
      }
      DiscoveredIsReachable(g, s, prefix);
      RegionClosed(g, s);
      assert log[n].from in Region(g, s);
      assert log[n].to in Of(LinkMap(g), log[n].from);
    }
  }

  lemma DiscoveredConcat(g: Graph, s: string, d: string, inner: seq<Edge>, rest: seq<Edge>)
    requires Linked(g, s, d) && Discovered(g, d, inner) && Discovered(g, s, rest)
    ensures Discovered(g, s, [Edge(s, d)] + inner + rest)
  {
    var log := [Edge(s, d)] + inner + rest;
    forall i | 0 <= i < |log|
      ensures Linked(g, log[i].from, log[i].to) && (log[i].from == s || log[i].from in Targets(log[..i]))
    {
      if 0 < i <= |inner| {
        assert log[i] == inner[i - 1] && log[..i] == [Edge(s, d)] + inner[..i - 1];
        TargetsConcat([Edge(s, d)], inner[..i - 1]);
        TargetOfOne(Edge(s, d));
      } else if i > |inner| {
        var k := i - 1 - |inner|;
        assert log[i] == rest[k] && log[..i] == ([Edge(s, d)] + inner) + rest[..k];
        TargetsConcat([Edge(s, d)] + inner, rest[..k]);
      }
    }
  }

  lemma TargetOfOne(e: Edge)
    ensures Targets([e]) == {e.to}
  {
    assert [e][0] in [e];
  }

  lemma TargetsConcat(a: seq<Edge>, b: seq<Edge>)
    ensures Targets(a + b) == Targets(a) + Targets(b)
  {
    forall t | t in Targets(a) + Targets(b)
      ensures t in Targets(a + b)
    {
      var e :| (e in a || e in b) && e.to == t;
      assert e in a + b;
    }
  }

  lemma EachOnceConcat(a: seq<Edge>, b: seq<Edge>)
    requires EachOnce(a) && EachOnce(b) && Targets(a) !! Targets(b)
    ensures EachOnce(a + b)
  {
    forall i, j | 0 <= i < j < |a + b|
      ensures (a + b)[i].to != (a + b)[j].to
    {
      if i < |a| <= j {
        assert a[i] in a && b[j - |a|] in b;
        assert a[i].to in Targets(a) && b[j - |a|].to in Targets(b);
      }
    }
  }

  /** `log`, made from `s` with `cache` marked, discovers its targets, meets each of
      them once and meets none that was marked. */
  ghost predicate Fresh(g: Graph, s: string, log: seq<Edge>, cache: set<string>) {
    Discovered(g, s, log) && EachOnce(log) && Targets(log) !! cache
  }

  lemma FreshStep(g: Graph, s: string, d: string, inner: seq<Edge>, rest: seq<Edge>, cache: set<string>)
    requires Linked(g, s, d) && d !in cache && d !in Targets(inner)
    requires Fresh(g, d, inner, cache) && Fresh(g, s, rest, cache + Targets(inner) + {d})
    ensures Fresh(g, s, [Edge(s, d)] + inner + rest, cache)
    ensures Targets([Edge(s, d)] + inner + rest) == {d} + Targets(inner) + Targets(rest)
  {
    var step := [Edge(s, d)];
    assert Targets(step) == {d} by { assert step[0] in step; }
    DiscoveredConcat(g, s, d, inner, rest);
    TargetsConcat(step, inner);
    TargetsConcat(step + inner, rest);
    EachOnceConcat(step, inner);
    EachOnceConcat(step + inner, rest);
  }

  /* ---------- marking after: termination ---------- */

  lemma {:induction false} FuelMonotone(g: Graph, s: string, cache: set<string>, fuel: nat, more: nat)
    requires fuel <= more && AfterNode(g, s, cache, fuel).ending != TooDeep
    ensures AfterNode(g, s, cache, more) == AfterNode(g, s, cache, fuel)
    decreases fuel, 1, 0
  {
    if s !in cache {
      FuelMonotoneUsers(g, s, Users(g, s), cache, fuel, more);
    }
  }

  lemma {:induction false} FuelMonotoneUsers(
    g: Graph, s: string, us: seq<string>, cache: set<string>, fuel: nat, more: nat)
    requires fuel <= more && AfterUsers(g, s, us, cache, fuel).ending != TooDeep
    ensures AfterUsers(g, s, us, cache, more) == AfterUsers(g, s, us, cache, fuel)
    decreases fuel, 0, |us|
  {
    if us == [] {
    } else if us[0] in cache {
      FuelMonotoneUsers(g, s, us[1..], cache, fuel, more);
    } else if us[0] in g.links {
      if s !in g.links[us[0]] {
        FuelMonotoneUsers(g, s, us[1..], cache, fuel, more);
      } else {
        var w := AfterNode(g, us[0], cache, fuel - 1);
        FuelMonotone(g, us[0], cache, fuel - 1, more - 1);
        if w.ending == Finished {
          FuelMonotoneUsers(g, s, us[1..], w.cache + {us[0]}, fuel, more);
        }
      }
    }
  }

  /** On a closed acyclic set the height of a service is enough depth. */
  lemma {:induction false} EnoughFuel(g: Graph, names: set<string>, rank: map<string, nat>, s: string, cache: set<string>, fuel: nat)
    requires WellFormed(g) && Ranked(g, names, rank)
    requires s in names && fuel >= rank[s]
    ensures AfterNode(g, s, cache, fuel).ending == Finished
    decreases fuel, 1, 0
  {
    if s !in cache {
      EnoughFuelUsers(g, names, rank, s, Users(g, s), cache, fuel);
    }
  }

  lemma {:induction false} EnoughFuelUsers(
    g: Graph, names: set<string>, rank: map<string, nat>, s: string, us: seq<string>, cache: set<string>, fuel: nat)
    requires WellFormed(g) && Ranked(g, names, rank)
    requires s in names && fuel >= rank[s]
    requires forall d :: d in us ==> d in Users(g, s)
    ensures AfterUsers(g, s, us, cache, fuel).ending == Finished
    decreases fuel, 0, |us|
  {
    if us == [] {
    } else if us[0] in cache || !Linked(g, s, us[0]) {
      assert us[0] in g.users[s];
      EnoughFuelUsers(g, names, rank, s, us[1..], cache, fuel);
    } else {
      assert us[0] in Of(LinkMap(g), s);
      EnoughFuel(g, names, rank, us[0], cache, fuel - 1);
      var w := AfterNode(g, us[0], cache, fuel - 1);
      EnoughFuelUsers(g, names, rank, s, us[1..], w.cache + {us[0]}, fuel);
    }
  }

  /** A cache that could have been left behind by finished explorations. */
  ghost predicate Settled(cache: set<string>, g: Graph) {
    Closed(cache, g) && !Cyclic(cache, LinkMap(g))
  }

  /** A walk that finishes leaves a closed, acyclic cache: marking in finishing order
      is a reverse topological order. */
  lemma {:induction false} FinishedIsSettled(g: Graph, s: string, cache: set<string>, fuel: nat)
    requires WellFormed(g) && s in g.users && Settled(cache, g)
    requires AfterNode(g, s, cache, fuel).ending == Finished
    ensures var w := AfterNode(g, s, cache, fuel);
            Settled(w.cache, g) && cache <= w.cache && Of(LinkMap(g), s) <= w.cache
    decreases fuel, 1, 0
  {
    if s !in cache {
      FinishedIsSettledUsers(g, s, Users(g, s), cache, fuel);
    }
  }

  lemma {:induction false} FinishedIsSettledUsers(
    g: Graph, s: string, us: seq<string>, cache: set<string>, fuel: nat)
    requires WellFormed(g) && s in g.users && Settled(cache, g)
    requires forall d :: d in us ==> d in Users(g, s)
    requires AfterUsers(g, s, us, cache, fuel).ending == Finished
    ensures var w := AfterUsers(g, s, us, cache, fuel);
            && Settled(w.cache, g) && cache <= w.cache
            && forall d :: d in us && Linked(g, s, d) ==> d in w.cache
    decreases fuel, 0, |us|
  {
    if us == [] {
    } else {
      assert forall d :: d in us ==> d == us[0] || d in us[1..];
      if us[0] in cache || !Linked(g, s, us[0]) {
        FinishedIsSettledUsers(g, s, us[1..], cache, fuel);
      } else {
        var w := AfterNode(g, us[0], cache, fuel - 1);
        FinishedIsSettled(g, us[0], cache, fuel - 1);
        ExtendAcyclic(w.cache, us[0], LinkMap(g));
        FinishedIsSettledUsers(g, s, us[1..], w.cache + {us[0]}, fuel);
      }
    }
  }

  lemma EmptyIsSettled(g: Graph)
    ensures Settled({}, g)
  {
    var none: set<string> := {};
    assert Waiting(none, LinkMap(g), 0) == {};
    DrainsIffAcyclic(none, LinkMap(g));
  }

  /** The walk that marks after exploring comes to an end exactly when no cycle of
      linked services can be reached from where it starts. */
  lemma EndsIffAcyclic(g: Graph, root: string)
    requires WellFormed(g) && root in g.users
    ensures (exists fuel: nat :: AfterNode(g, root, {}, fuel).ending == Finished)
            <==> !Cyclic(Region(g, root), LinkMap(g))
  {
    var names := Region(g, root);
    RegionClosed(g, root);
    if fuel: nat :| AfterNode(g, root, {}, fuel).ending == Finished {
      var done := AfterNode(g, root, {}, fuel).cache;
      EmptyIsSettled(g);
      FinishedIsSettled(g, root, {}, fuel);
      ExtendAcyclic(done, root, LinkMap(g));
      ClosedHoldsRegion(g, root, done);
      if Cyclic(names, LinkMap(g)) {
        CycleInSubset(names, done + {root}, LinkMap(g));
      }
    }
    if !Cyclic(names, LinkMap(g)) {
      var rank := AcyclicIsRanked(g, names);
      EnoughFuel(g, names, rank, root, {}, rank[root]);
    }
  }

  /* ---------- marking after: what is visited ---------- */

  /** `ts` lie strictly below `s`. */
  ghost predicate Below(ts: set<string>, names: set<string>, rank: map<string, nat>, s: string) {
    names <= rank.Keys && s in names && forall t :: t in ts ==> t in names && rank[t] < rank[s]
  }

  /** On a ranked set: each target once, none of them already marked, all
      strictly lower than the start. */
  lemma {:induction false} AfterOnce(g: Graph, names: set<string>, rank: map<string, nat>, s: string, cache: set<string>, fuel: nat)
    requires WellFormed(g) && Ranked(g, names, rank) && s in names
    requires AfterNode(g, s, cache, fuel).ending == Finished
    ensures var w := AfterNode(g, s, cache, fuel);
            && Fresh(g, s, w.log, cache) && w.cache == cache + Targets(w.log)
            && Below(Targets(w.log), names, rank, s)
    decreases fuel, 1, 0
  {
    if s !in cache {
      AfterOnceUsers(g, names, rank, s, Users(g, s), cache, fuel);
    }
  }

  lemma {:induction false} AfterOnceUsers(
    g: Graph, names: set<string>, rank: map<string, nat>, s: string, us: seq<string>, cache: set<string>, fuel: nat)
    requires WellFormed(g) && Ranked(g, names, rank) && s in names
    requires forall d :: d in us ==> d in Users(g, s)
    requires AfterUsers(g, s, us, cache, fuel).ending == Finished
    ensures var w := AfterUsers(g, s, us, cache, fuel);
            && Fresh(g, s, w.log, cache) && w.cache == cache + Targets(w.log)
            && Below(Targets(w.log), names, rank, s)
    decreases fuel, 0, |us|
  {
    if us == [] {
    } else if us[0] in cache || !Linked(g, s, us[0]) {
      AfterOnceUsers(g, names, rank, s, us[1..], cache, fuel);
    } else {
      var d := us[0];
      assert d in Of(LinkMap(g), s);
      AfterOnce(g, names, rank, d, cache, fuel - 1);
      var w := AfterNode(g, d, cache, fuel - 1);
      AfterOnceUsers(g, names, rank, s, us[1..], w.cache + {d}, fuel);
      var rest := AfterUsers(g, s, us[1..], w.cache + {d}, fuel);
      assert d !in Targets(w.log);
      assert w.cache + {d} == cache + Targets(w.log) + {d};
      FreshStep(g, s, d, w.log, rest.log, cache);
    }
  }

  /** A walk of the status subscriber that ends has processed exactly the services
      reachable from its root by linked edges, each once, and each only after a
      service linked to it (or from the root itself). */
  lemma StatusWalkVisits(g: Graph, root: string, fuel: nat)
    requires WellFormed(g) && root in g.users
    requires AfterNode(g, root, {}, fuel).ending == Finished
    ensures var w := AfterNode(g, root, {}, fuel);
            && Targets(w.log) == Region(g, root) - {root}
            && EachOnce(w.log) && Discovered(g, root, w.log)
  {
    var names := Region(g, root);
    var w := AfterNode(g, root, {}, fuel);
    RegionClosed(g, root);
    EndsIffAcyclic(g, root);
    var rank := AcyclicIsRanked(g, names);
    AfterOnce(g, names, rank, root, {}, fuel);
    EmptyIsSettled(g);
    FinishedIsSettled(g, root, {}, fuel);
    ClosedHoldsRegion(g, root, w.cache);
  }

  /* ---------- marking before ---------- */

  /** What a walk marked has all its users marked, linked or not. */
  ghost predicate Explored(g: Graph, cache: set<string>, done: set<string>) {
    cache <= done && forall x, d :: x in done && x !in cache && d in Users(g, x) ==> d in done
  }

  /** `d` uses the marked service `u` without a link entry and was not marked. */
  ghost predicate Dangling(g: Graph, u: string, d: string, done: set<string>) {
    u in done && d in Users(g, u) && !Linked(g, u, d) && d !in done
  }

  lemma BeforeStep(g: Graph, s: string, d: string, w: Walk, rest: Walk, cache: set<string>)
    requires Linked(g, s, d) && d !in cache
    requires Fresh(g, d, w.log, cache + {d}) && w.cache == cache + {d} + Targets(w.log)
    requires Fresh(g, s, rest.log, w.cache) && rest.cache == w.cache + Targets(rest.log)
    ensures var log := [Edge(s, d)] + w.log + rest.log;
            && Fresh(g, s, log, cache) && rest.cache == cache + Targets(log)
            && Targets(log) == {d} + Targets(w.log) + Targets(rest.log)
  {
    assert w.cache == cache + Targets(w.log) + {d};
    FreshStep(g, s, d, w.log, rest.log, cache);
  }

  /** How a walk ended: everything explored, or some user dangling. */
  ghost predicate EndedRight(g: Graph, cache: set<string>, w: Walk) {
    match w.ending
    case Finished => Explored(g, cache, w.cache)
    case MissingLink => exists u, d :: Dangling(g, u, d, w.cache)
    case TooDeep => false
  }

  /** What holds of a walk over users of `s`, made with `cache` marked. */
  ghost predicate WalkRight(g: Graph, s: string, cache: set<string>, w: Walk) {
    Fresh(g, s, w.log, cache) && w.cache == cache + Targets(w.log) && EndedRight(g, cache, w)
  }

  /** What holds of a walk from `d`. */
  ghost predicate NodeRight(g: Graph, d: string, cache: set<string>, w: Walk) {
    Fresh(g, d, w.log, cache + {d}) && w.cache == cache + {d} + Targets(w.log) && EndedRight(g, cache, w)
  }

  lemma NodeFromUsers(g: Graph, s: string, cache: set<string>, w: Walk)
    requires WalkRight(g, s, cache + {s}, w)
    requires w.ending == Finished ==> forall d :: d in Users(g, s) ==> d in w.cache
    ensures NodeRight(g, s, cache, w)
  {
  }

  lemma StepStops(g: Graph, s: string, d: string, cache: set<string>, w: Walk)
    requires Linked(g, s, d) && d !in cache && NodeRight(g, d, cache, w) && w.ending != Finished
    ensures WalkRight(g, s, cache, Walk([Edge(s, d)] + w.log, w.cache, w.ending))
  {
    var none := Walk([], w.cache, w.ending);
    assert Targets(none.log) == {};
    BeforeStep(g, s, d, w, none, cache);
    assert [Edge(s, d)] + w.log + [] == [Edge(s, d)] + w.log;
  }

  lemma StepGoesOn(g: Graph, s: string, d: string, cache: set<string>, w: Walk, rest: Walk)
    requires Linked(g, s, d) && d !in cache && NodeRight(g, d, cache, w) && w.ending == Finished
    requires WalkRight(g, s, w.cache, rest)
    ensures d in rest.cache && WalkRight(g, s, cache, Walk([Edge(s, d)] + w.log + rest.log, rest.cache, rest.ending))
  {
    BeforeStep(g, s, d, w, rest, cache);
  }

  lemma NothingToWalk(g: Graph, s: string, cache: set<string>)
    requires s in cache || s !in g.users
    ensures NodeRight(g, s, cache, Walk([], cache + {s}, Finished))
  {
    var log: seq<Edge> := [];
    assert Targets(log) == {} && Fresh(g, s, log, cache + {s});
    assert cache + {s} + Targets(log) == cache + {s};
  }

  /** The destroy walk meets each service once; it leaves no visited service with an
      unvisited user, or ends at a user without a link entry. */
  lemma {:induction false} BeforeOnce(g: Graph, s: string, cache: set<string>)
    ensures NodeRight(g, s, cache, BeforeNode(g, s, cache))
    decreases |g.users.Keys - cache|, 0
  {
    if s in cache || s !in g.users {
      NothingToWalk(g, s, cache);
      assert s in cache ==> cache + {s} == cache;
    } else {
      assert g.users.Keys - cache == (g.users.Keys - (cache + {s})) + {s};
      BeforeOnceUsers(g, s, Users(g, s), cache + {s});
      NodeFromUsers(g, s, cache, BeforeUsers(g, s, Users(g, s), cache + {s}));
    }
  }

  lemma {:induction false} BeforeOnceUsers(g: Graph, s: string, us: seq<string>, cache: set<string>)
    requires s in cache && forall d :: d in us ==> d in Users(g, s)
    ensures WalkRight(g, s, cache, BeforeUsers(g, s, us, cache))
    ensures var w := BeforeUsers(g, s, us, cache); w.ending == Finished ==> forall d :: d in us ==> d in w.cache
    decreases |g.users.Keys - cache|, 1 + |us|
  {
    if us != [] {
      var d := us[0];
      assert forall x :: x in us ==> x == d || x in us[1..];
      if d in cache {
        BeforeOnceUsers(g, s, us[1..], cache);
      } else if !Linked(g, s, d) {
        assert Dangling(g, s, d, cache);
      } else {
        BeforeOnce(g, d, cache);
        var w := BeforeNode(g, d, cache);
        if w.ending == Finished {
          FewerLeft(g.users.Keys, cache, w.cache);
          BeforeOnceUsers(g, s, us[1..], w.cache);
          StepGoesOn(g, s, d, cache, w, BeforeUsers(g, s, us[1..], w.cache));
        } else {
          StepStops(g, s, d, cache, w);
        }
      }
    }
  }

  /** On every graph the destroy walk ends, having visited services reachable by linked
      edges, each once.  It finishes only if it visited all of them and they have no other
      users; otherwise some visited service has an unvisited user without a link entry. */
  lemma DestroyWalkEnds(g: Graph, root: string)
    requires WellFormed(g) && root in g.users
    ensures var w := BeforeNode(g, root, {});
            && EachOnce(w.log) && Discovered(g, root, w.log) && Targets(w.log) <= Region(g, root) - {root}
            && w.ending in {Finished, MissingLink}
            && (w.ending == Finished ==> Targets(w.log) == Region(g, root) - {root})
            && (w.ending == Finished ==> UsersInside(g, Region(g, root)))
            && (w.ending == MissingLink ==> exists u, d :: u in Region(g, root) && Dangling(g, u, d, w.cache))
  {
    RegionClosed(g, root);
    BeforeOnce(g, root, {});
    var w := BeforeNode(g, root, {});
    assert w.cache == {root} + Targets(w.log);
    DiscoveredIsReachable(g, root, w.log);
    if w.ending == Finished {
      assert forall x, d :: x in w.cache && d in Users(g, x) ==> d in w.cache;
      assert Closed(w.cache, g) by {
        assert forall u, d :: u in w.cache && d in Of(LinkMap(g), u) ==> d in Users(g, u);
      }
      ClosedHoldsRegion(g, root, w.cache);
      assert w.cache == Region(g, root);
    }
  }

  ghost predicate UsersInside(g: Graph, names: set<string>) {
    forall u, d :: u in names && d in Users(g, u) ==> d in names
  }

  /** Marking before exploring visits exactly the services reachable from the root, each
      once, when every edge among them is linked, on cyclic graphs too. */
  lemma DestroyWalkVisits(g: Graph, root: string)
    requires WellFormed(g) && root in g.users && AllLinked(g, Region(g, root))
    ensures var w := BeforeNode(g, root, {});
            && w.ending == Finished && Targets(w.log) == Region(g, root) - {root}
            && EachOnce(w.log) && Discovered(g, root, w.log)
  {
    DestroyWalkEnds(g, root);
  }

  /** When the users without a link entry lie outside what the root reaches, the walk
      finishes exactly if there are none. */
  lemma FinishesIffAllLinked(g: Graph, root: string)
    requires WellFormed(g) && root in g.users
    requires forall u, d :: u in Region(g, root) && d in Users(g, u) && !Linked(g, u, d) ==> d !in Region(g, root)
    ensures BeforeNode(g, root, {}).ending == Finished <==> AllLinked(g, Region(g, root))
  {
    DestroyWalkEnds(g, root);
  }

  /** Two services, the second using the first without a link entry: destroying the first
      ends in a lookup error. */
  lemma MissingLinkEndsWalk()
    ensures var g := Graph(map["a" := ["b"], "b" := []], map["a" := map[], "b" := map[]]);
            WellFormed(g) && BeforeNode(g, "a", {}).ending == MissingLink
  {
    var g := Graph(map["a" := ["b"], "b" := []], map["a" := map[], "b" := map[]]);
    assert Users(g, "a") == ["b"];
  }

  /** An edge without a link entry between services that are reached otherwise: here the
      order in which users are listed decides, so no condition on the edges alone can. */
  lemma OrderDecides(link: LinkParams)
    ensures var links := map["r" := map[], "a" := map["r" := link], "b" := map["r" := link]];
            var g := Graph(map["r" := ["a", "b"], "a" := ["b"], "b" := []], links);
            var h := Graph(map["r" := ["b", "a"], "a" := ["b"], "b" := []], links);
            && WellFormed(g) && WellFormed(h)
            && BeforeNode(g, "r", {}).ending == MissingLink && BeforeNode(h, "r", {}).ending == Finished
  {
    var links := map["r" := map[], "a" := map["r" := link], "b" := map["r" := link]];
    var g := Graph(map["r" := ["a", "b"], "a" := ["b"], "b" := []], links);
    var h := Graph(map["r" := ["b", "a"], "a" := ["b"], "b" := []], links);
    AFirstFails(g, {"r"});
    assert BeforeNode(g, "r", {}) == BeforeUsers(g, "r", ["a", "b"], {} + {"r"});
    assert {} + {"r"} == {"r"};
    var marked := {"r"} + {"b"};
    assert BeforeNode(h, "b", {"r"}) == BeforeUsers(h, "b", [], marked) == Walk([], marked, Finished);
    BFirstFinishes(h, marked);
    assert ["b", "a"][1..] == ["a"] && ["a"][1..] == [];
    assert BeforeUsers(h, "r", ["a"], marked).ending == Finished;
    assert BeforeNode(h, "r", {}) == BeforeUsers(h, "r", ["b", "a"], {} + {"r"});
  }

  lemma AFirstFails(g: Graph, cache: set<string>)
    requires g.users.Keys == {"r", "a", "b"} && Users(g, "a") == ["b"] && cache == {"r"}
    requires "b" in g.links && "a" !in g.links["b"]
    ensures BeforeNode(g, "a", cache).ending == MissingLink
  {
    assert BeforeNode(g, "a", cache) == BeforeUsers(g, "a", ["b"], cache + {"a"});
  }

  lemma BFirstFinishes(g: Graph, cache: set<string>)
    requires "a" in g.users && Users(g, "a") == ["b"] && cache == {"r", "b"}
    ensures BeforeNode(g, "a", cache) == Walk([], cache + {"a"}, Finished)
  {
    assert ["b"][1..] == [];
    assert BeforeUsers(g, "a", [], cache + {"a"}) == Walk([], cache + {"a"}, Finished);
    assert BeforeNode(g, "a", cache) == BeforeUsers(g, "a", ["b"], cache + {"a"});
  }

  /** The walk that marks before exploring but passes over users without a link entry, as
      the status walk does; `missed` are the unmarked ones it passed over. */
  datatype Lenient = Lenient(log: seq<Edge>, cache: set<string>, missed: seq<Edge>)

  function LenientNode(g: Graph, s: string, cache: set<string>): (w: Lenient)
    ensures cache <= w.cache
    decreases |g.users.Keys - cache|, 0
  {
    if s in cache then Lenient([], cache, [])
    else if s !in g.users then Lenient([], cache + {s}, [])
    else
      assert g.users.Keys - cache == (g.users.Keys - (cache + {s})) + {s};
      LenientUsers(g, s, Users(g, s), cache + {s})
  }

  function LenientUsers(g: Graph, s: string, us: seq<string>, cache: set<string>): (w: Lenient)
    ensures cache <= w.cache
    decreases |g.users.Keys - cache|, 1 + |us|
  {
    if us == [] then Lenient([], cache, [])
    else if us[0] in cache then LenientUsers(g, s, us[1..], cache)
    else if us[0] !in g.links || s !in g.links[us[0]] then
      var rest := LenientUsers(g, s, us[1..], cache);
      rest.(missed := [Edge(s, us[0])] + rest.missed)
    else
      var w := LenientNode(g, us[0], cache);
      FewerLeft(g.users.Keys, cache, w.cache);
      var rest := LenientUsers(g, s, us[1..], w.cache);
      Lenient([Edge(s, us[0])] + w.log + rest.log, rest.cache, w.missed + rest.missed)
  }

  /** The destroy walk is the lenient one cut off at the first user it would pass over. */
  ghost predicate CutFrom(w: Walk, l: Lenient) {
    if l.missed == [] then w == Walk(l.log, l.cache, Finished) else w.ending == MissingLink && w.log <= l.log
  }

  lemma {:induction false} NodeIsCut(g: Graph, s: string, cache: set<string>)
    ensures CutFrom(BeforeNode(g, s, cache), LenientNode(g, s, cache))
    decreases |g.users.Keys - cache|, 0
  {
    if s !in cache && s in g.users {
      assert g.users.Keys - cache == (g.users.Keys - (cache + {s})) + {s};
      UsersAreCut(g, s, Users(g, s), cache + {s});
    }
  }

  lemma {:induction false} UsersAreCut(g: Graph, s: string, us: seq<string>, cache: set<string>)
    ensures CutFrom(BeforeUsers(g, s, us, cache), LenientUsers(g, s, us, cache))
    decreases |g.users.Keys - cache|, 1 + |us|
  {
    if us != [] {
      var d := us[0];
      if d in cache {
        UsersAreCut(g, s, us[1..], cache);
      } else if d in g.links && s in g.links[d] {
        NodeIsCut(g, d, cache);
        var w, l := BeforeNode(g, d, cache), LenientNode(g, d, cache);
        FewerLeft(g.users.Keys, cache, l.cache);
        var rest := LenientUsers(g, s, us[1..], l.cache);
        if l.missed == [] {
          UsersAreCut(g, s, us[1..], w.cache);
          CutGoesOn(Edge(s, d), w, BeforeUsers(g, s, us[1..], w.cache), rest);
        } else {
          PrefixChain(Edge(s, d), w.log, l.log, rest.log);
        }
      }
    }
  }

  lemma CutGoesOn(e: Edge, w: Walk, rest: Walk, l: Lenient)
    requires CutFrom(rest, l)
    ensures CutFrom(Walk([e] + w.log + rest.log, rest.cache, rest.ending), Lenient([e] + w.log + l.log, l.cache, l.missed))
  {
  }

  lemma PrefixChain(e: Edge, w: seq<Edge>, l: seq<Edge>, rest: seq<Edge>)
    ensures w <= l ==> [e] + w <= [e] + l + rest
  {
  }

  /** For every graph and order: the destroy walk finishes exactly when the lenient walk has
      nobody to pass over; until then it does the same. */
  lemma DestroyWalkIsCut(g: Graph, root: string)
    ensures var w, l := BeforeNode(g, root, {}), LenientNode(g, root, {});
            && (w.ending == Finished <==> l.missed == [])
            && (l.missed == [] ==> w.log == l.log) && w.log <= l.log
  {
    NodeIsCut(g, root, {});
  }

  /* ---------- the two walks agree ---------- */

  /** `above` are the services being explored when the walks reach `s`: the destroy
      walk has already marked them, the status walk has not.  None of them can be met
      below `s` because they are all at least as high as `s`. */
  lemma {:induction false} SameFromNode(
    g: Graph, names: set<string>, rank: map<string, nat>, s: string, cache: set<string>, above: set<string>, fuel: nat)
    requires WellFormed(g) && AllLinked(g, names) && Ranked(g, names, rank)
    requires s in names && above <= names && fuel >= rank[s]
    requires forall a :: a in above ==> rank[a] > rank[s]
    ensures var a, b := AfterNode(g, s, cache, fuel), BeforeNode(g, s, cache + above);
            a.ending == Finished && b == a.(cache := a.cache + above + {s})
    decreases fuel, 1, 0
  {
    assert s !in above;
    if s in cache {
      assert cache + above == cache + above + {s};
    } else {
      SameFromUsers(g, names, rank, s, Users(g, s), cache, above + {s}, fuel);
      assert cache + above + {s} == cache + (above + {s});
    }
  }

  lemma {:induction false} SameFromUsers(
    g: Graph, names: set<string>, rank: map<string, nat>, s: string, us: seq<string>, cache: set<string>, above: set<string>, fuel: nat)
    requires WellFormed(g) && AllLinked(g, names) && Ranked(g, names, rank)
    requires s in names && above <= names && fuel >= rank[s]
    requires forall a :: a in above ==> rank[a] >= rank[s]
    requires forall d :: d in us ==> d in Users(g, s)
    ensures var a, b := AfterUsers(g, s, us, cache, fuel), BeforeUsers(g, s, us, cache + above);
            a.ending == Finished && b == a.(cache := a.cache + above)
    decreases fuel, 0, |us|
  {
    if us == [] {
    } else {
      var d := us[0];
      assert Linked(g, s, d) && d in Of(LinkMap(g), s);
      assert d !in above;
      if d in cache {
        SameFromUsers(g, names, rank, s, us[1..], cache, above, fuel);
      } else {
        SameFromNode(g, names, rank, d, cache, above, fuel - 1);
        var w := AfterNode(g, d, cache, fuel - 1);
        assert w.cache + above + {d} == (w.cache + {d}) + above;
        SameFromUsers(g, names, rank, s, us[1..], w.cache + {d}, above, fuel);
      }
    }
  }

  /** When every edge of the region is linked, a status walk that ends has followed the
      same edges in the same order as the destroy walk.  It ends exactly when the region
      is acyclic (`EndsIffAcyclic`), and its log does not depend on the depth allowed. */
  lemma SameWalk(g: Graph, root: string, fuel: nat)
    requires WellFormed(g) && root in g.users && AllLinked(g, Region(g, root))
    requires AfterNode(g, root, {}, fuel).ending == Finished
    ensures AfterNode(g, root, {}, fuel).log == BeforeNode(g, root, {}).log
  {
    var names := Region(g, root);
    RegionClosed(g, root);
    EndsIffAcyclic(g, root);
    var rank := AcyclicIsRanked(g, names);
    var more := fuel + rank[root];
    FuelMonotone(g, root, {}, fuel, more);
    var none: set<string> := {};
    assert none + none == none;
    SameFromNode(g, names, rank, root, none, none, more);
  }

  /* ---------- what the walks do to the services ---------- */

  /** Which walk is running, with the parameters it carries along. */
  datatype Mode = StatusMode(message: Message) | DestroyMode(rebuild: bool)

  function PlanFor(g: Graph, mode: Mode, e: Edge): Plan
    requires Linked(g, e.from, e.to)
  {
    match mode
    case StatusMode(message) => StatusPlan(g.links[e.to][e.from], message)
    case DestroyMode(rebuild) => DestroyPlan(g.links[e.to][e.from], rebuild)
  }

  type Services = map<string, Life>

  /** The services after one step: only the target of the edge changes. */
  function Touch(g: Graph, mode: Mode, reply: string -> ServiceReply, services: Services, e: Edge): Services {
    if e.to in services && Linked(g, e.from, e.to) then
      services[e.to := Carry(services[e.to], PlanFor(g, mode, e), reply(e.to))]
    else services
  }

  function Spread(g: Graph, mode: Mode, reply: string -> ServiceReply, services: Services, log: seq<Edge>): Services {
    if log == [] then services
    else Touch(g, mode, reply, Spread(g, mode, reply, services, log[..|log| - 1]), log[|log| - 1])
  }

  lemma {:induction false} SpreadLeaves(
    g: Graph, mode: Mode, reply: string -> ServiceReply, services: Services, log: seq<Edge>, x: string)
    requires x in services && x !in Targets(log)
    ensures var after := Spread(g, mode, reply, services, log); x in after && after[x] == services[x]
    decreases |log|
  {
    if log != [] {
      var n := |log| - 1;
      assert log[n] in log;
      assert Targets(log[..n]) <= Targets(log);
      SpreadLeaves(g, mode, reply, services, log[..n], x);
    }
  }

  /** The service an edge of the log leads to has been carried once, by that edge. */
  ghost predicate CarriedBy(
    g: Graph, mode: Mode, reply: string -> ServiceReply, before: Services, after: Services, e: Edge)
  {
    && Linked(g, e.from, e.to) && e.to in before && e.to in after
    && after[e.to] == Carry(before[e.to], PlanFor(g, mode, e), reply(e.to))
  }

  /** A log that meets each service once changes every target exactly once, as the link
      of the edge that discovered it says, and leaves every other service alone. */
  lemma {:induction false} SpreadOnce(
    g: Graph, mode: Mode, reply: string -> ServiceReply, services: Services, log: seq<Edge>, e: Edge)
    requires EachOnce(log) && e in log && e.to in services && Linked(g, e.from, e.to)
    ensures CarriedBy(g, mode, reply, services, Spread(g, mode, reply, services, log), e)
    decreases |log|
  {
    var n := |log| - 1;
    var prefix := log[..n];
    if log[n] == e {
      assert e.to !in Targets(prefix) by {
        assert forall x :: x in prefix ==> exists j :: 0 <= j < n && log[j] == x;
      }
      SpreadLeaves(g, mode, reply, services, prefix, e.to);
    } else {
      assert e in prefix && log[n].to != e.to;
      SpreadOnce(g, mode, reply, services, prefix, e);
    }
  }

  /** What every finished walk leaves behind: each service reachable from the root was
      carried exactly once, along a linked edge that leads to it; no other changed. */
  ghost predicate SpreadOver(
    g: Graph, root: string, mode: Mode, reply: string -> ServiceReply, before: Services, after: Services)
  {
    && (forall t :: t in Region(g, root) && t != root ==>
          exists u :: u in Region(g, root) && CarriedBy(g, mode, reply, before, after, Edge(u, t)))
    && (forall x :: x in before && (x == root || x !in Region(g, root)) ==> x in after && after[x] == before[x])
  }

  /** The services after a log: each target carried once along its edge, no other changed. */
  ghost predicate SpreadAlong(
    g: Graph, mode: Mode, reply: string -> ServiceReply, before: Services, after: Services, log: seq<Edge>)
  {
    && (forall e :: e in log ==> CarriedBy(g, mode, reply, before, after, e))
    && (forall x :: x in before && x !in Targets(log) ==> x in after && after[x] == before[x])
  }

  lemma LogEffect(
    g: Graph, root: string, mode: Mode, reply: string -> ServiceReply, services: Services, log: seq<Edge>)
    requires WellFormed(g) && g.users.Keys <= services.Keys
    requires EachOnce(log) && Discovered(g, root, log) && Targets(log) <= Region(g, root)
    ensures SpreadAlong(g, mode, reply, services, Spread(g, mode, reply, services, log), log)
  {
    forall e | e in log
      ensures CarriedBy(g, mode, reply, services, Spread(g, mode, reply, services, log), e)
    {
      assert e.to in Targets(log);
      var i :| 0 <= i < |log| && log[i] == e;
      SpreadOnce(g, mode, reply, services, log, e);
    }
    forall x | x in services && x !in Targets(log)
      ensures var after := Spread(g, mode, reply, services, log); x in after && after[x] == services[x]
    {
      SpreadLeaves(g, mode, reply, services, log, x);
    }
  }

  lemma WalkEffect(
    g: Graph, root: string, mode: Mode, reply: string -> ServiceReply, services: Services, log: seq<Edge>)
    requires WellFormed(g) && root in g.users && g.users.Keys <= services.Keys
    requires EachOnce(log) && Discovered(g, root, log) && Targets(log) == Region(g, root) - {root}
    ensures SpreadOver(g, root, mode, reply, services, Spread(g, mode, reply, services, log))
  {
    var after := Spread(g, mode, reply, services, log);
    RegionClosed(g, root);
    forall t | t in Region(g, root) && t != root
      ensures exists u :: u in Region(g, root) && CarriedBy(g, mode, reply, services, after, Edge(u, t))
    {
      assert t in Targets(log);
      var e :| e in log && e.to == t;
      var i :| 0 <= i < |log| && log[i] == e;
      assert Targets(log[..i]) <= Targets(log);
      SpreadOnce(g, mode, reply, services, log, e);
      assert e.from in Region(g, root) && e == Edge(e.from, t);
    }
    forall x | x in services && (x == root || x !in Region(g, root))
      ensures x in after && after[x] == services[x]
    {
      SpreadLeaves(g, mode, reply, services, log, x);
    }
  }

  /** The first i users are dealt with: `done` was logged and `cache` is marked. */
  ghost predicate AfterSoFar(
    g: Graph, s: string, fuel: nat, whole: Walk, i: nat, cache: set<string>, done: seq<Edge>)
  {
    && i <= |Users(g, s)|
    && var rest := AfterUsers(g, s, Users(g, s)[i..], cache, fuel);
       rest.ending == whole.ending && whole.log == done + rest.log && whole.cache == rest.cache
  }

  lemma AfterSkip(g: Graph, s: string, fuel: nat, whole: Walk, i: nat, cache: set<string>, done: seq<Edge>)
    requires WellFormed(g) && s in g.users
    requires AfterSoFar(g, s, fuel, whole, i, cache, done) && i < |Users(g, s)|
    requires Users(g, s)[i] in cache || !Linked(g, s, Users(g, s)[i])
    ensures AfterSoFar(g, s, fuel, whole, i + 1, cache, done)
  {
    assert Users(g, s)[i..][1..] == Users(g, s)[i + 1..];
    assert Users(g, s)[i] in g.users[s];
  }

  lemma AfterTake(g: Graph, s: string, fuel: nat, whole: Walk, i: nat, cache: set<string>, done: seq<Edge>)
    requires AfterSoFar(g, s, fuel, whole, i, cache, done) && i < |Users(g, s)|
    requires Users(g, s)[i] !in cache && Linked(g, s, Users(g, s)[i]) && fuel > 0
    requires AfterNode(g, Users(g, s)[i], cache, fuel - 1).ending == Finished
    ensures var d := Users(g, s)[i];
            var w := AfterNode(g, d, cache, fuel - 1);
            AfterSoFar(g, s, fuel, whole, i + 1, w.cache + {d}, done + ([Edge(s, d)] + w.log))
  {
    assert Users(g, s)[i..][1..] == Users(g, s)[i + 1..];
  }

  ghost predicate BeforeSoFar(g: Graph, s: string, whole: Walk, i: nat, cache: set<string>, done: seq<Edge>) {
    && i <= |Users(g, s)|
    && var rest := BeforeUsers(g, s, Users(g, s)[i..], cache);
       rest.ending == whole.ending && whole.log == done + rest.log && whole.cache == rest.cache
  }

  lemma BeforeSkip(g: Graph, s: string, whole: Walk, i: nat, cache: set<string>, done: seq<Edge>)
    requires BeforeSoFar(g, s, whole, i, cache, done) && i < |Users(g, s)|
    requires Users(g, s)[i] in cache
    ensures BeforeSoFar(g, s, whole, i + 1, cache, done)
  {
    assert Users(g, s)[i..][1..] == Users(g, s)[i + 1..];
  }

  lemma BeforeTake(g: Graph, s: string, whole: Walk, i: nat, cache: set<string>, done: seq<Edge>)
    requires BeforeSoFar(g, s, whole, i, cache, done) && i < |Users(g, s)|
    requires Users(g, s)[i] !in cache && Linked(g, s, Users(g, s)[i])
    ensures var d := Users(g, s)[i];
            var w := BeforeNode(g, d, cache);
            && (w.ending == Finished ==> BeforeSoFar(g, s, whole, i + 1, w.cache, done + ([Edge(s, d)] + w.log)))
            && (w.ending != Finished ==> whole == Walk(done + ([Edge(s, d)] + w.log), w.cache, w.ending))
  {
    assert Users(g, s)[i..][1..] == Users(g, s)[i + 1..];
  }

  /** Step i of a run went from history[i] to history[i + 1] along log[i]. */
  ghost predicate StepTaken(
    g: Graph, mode: Mode, reply: string -> ServiceReply, history: seq<Services>, log: seq<Edge>, i: nat)
  {
    i < |log| && i + 1 < |history| && history[i + 1] == Touch(g, mode, reply, history[i], log[i])
  }

  lemma {:induction false} HistoryIsSpread(
    g: Graph, mode: Mode, reply: string -> ServiceReply, history: seq<Services>, log: seq<Edge>, n: nat)
    requires n <= |log| && |history| == |log| + 1
    requires forall i: nat :: i < |log| ==> StepTaken(g, mode, reply, history, log, i)
    ensures history[n] == Spread(g, mode, reply, history[0], log[..n])
  {
    if n > 0 {
      HistoryIsSpread(g, mode, reply, history, log, n - 1);
      assert StepTaken(g, mode, reply, history, log, n - 1);
      assert log[..n][..n - 1] == log[..n - 1];
    }
  }

  /** One propagation: the shared cache, the log of followed edges and the services. */
  class Propagation {
    const graph: Graph
    const mode: Mode
    const reply: string -> ServiceReply
    ghost const initial: Services
    var cache: set<string>
    var log: seq<Edge>
    var services: Services
    ghost var history: seq<Services>

    /** The services are the initial ones carried along the edges logged so far. */
    ghost predicate Consistent()
      reads this
    {
      && |history| == |log| + 1 && history[0] == initial && history[|log|] == services
      && forall i: nat :: i < |log| ==> StepTaken(graph, mode, reply, history, log, i)
    }

    lemma ServicesAreSpread()
      requires Consistent()
      ensures services == Spread(graph, mode, reply, initial, log)
    {
      HistoryIsSpread(graph, mode, reply, history, log, |log|);
      assert log[..|log|] == log;
    }

    constructor (graph: Graph, mode: Mode, reply: string -> ServiceReply, services: Services)
      ensures this.graph == graph && this.mode == mode && this.reply == reply
      ensures this.services == initial == services && cache == {} && log == []
      ensures Consistent()
    {
      this.graph, this.mode, this.reply, initial := graph, mode, reply, services;
      this.services := services;
      cache, log, history := {}, [], [services];
    }

    method Follow(s: string, d: string)
      requires Consistent() && Linked(graph, s, d)
      modifies `log, `services, `history
      ensures Consistent() && log == old(log) + [Edge(s, d)]
    {
      assert forall i: nat :: i < |log| ==> StepTaken(graph, mode, reply, history, log, i);
      if d in services {
        services := services[d := Carry(services[d], PlanFor(graph, mode, Edge(s, d)), reply(d))];
      }
      log := log + [Edge(s, d)];
      history := history + [services];
      forall i: nat | i < |log|
        ensures StepTaken(graph, mode, reply, history, log, i)
      {
        if i < |log| - 1 {
          assert StepTaken(graph, mode, reply, old(history), old(log), i);
        }
      }
    }

    /** The status walk.  `rank` ranks a closed set holding `s`, as it exists on every
        acyclic region (`AcyclicIsRanked`); without one the walk does not come to an end
        (`EndsIffAcyclic`). */
    method Recursive(s: string, ghost names: set<string>, ghost rank: map<string, nat>, ghost fuel: nat)
      requires WellFormed(graph) && Ranked(graph, names, rank) && s in names
      requires fuel >= rank[s] && Consistent()
      modifies this
      ensures Consistent()
      ensures var w := AfterNode(graph, s, old(cache), fuel);
              w.ending == Finished && cache == w.cache && log == old(log) + w.log
      decreases rank[s], 2
    {
      EnoughFuel(graph, names, rank, s, cache, fuel);
      if s in cache {
        return;
      }
      ghost var whole := AfterUsers(graph, s, Users(graph, s), cache, fuel);
      ghost var done: seq<Edge> := [];
      var us := Users(graph, s);
      var i := 0;
      while i < |us|
        invariant AfterSoFar(graph, s, fuel, whole, i, cache, done)
        invariant log == old(log) + done && Consistent()
      {
        var d := us[i];
        assert d in graph.users[s];
        if d in cache || s !in graph.links[d] {
          AfterSkip(graph, s, fuel, whole, i, cache, done);
        } else {
          done := RecursiveTurn(s, i, names, rank, fuel, whole, done, old(log));
        }
        i := i + 1;
      }
      assert whole.log == done;
    }

    /** A turn of the loop that goes on below the i-th user. */
    method RecursiveTurn(
      s: string, i: nat, ghost names: set<string>, ghost rank: map<string, nat>, ghost fuel: nat,
      ghost whole: Walk, ghost done: seq<Edge>, ghost start: seq<Edge>) returns (ghost done': seq<Edge>)
      requires WellFormed(graph) && Ranked(graph, names, rank) && s in names
      requires fuel >= rank[s] && Consistent()
      requires AfterSoFar(graph, s, fuel, whole, i, cache, done) && log == start + done
      requires i < |Users(graph, s)| && Users(graph, s)[i] !in cache && Linked(graph, s, Users(graph, s)[i])
      modifies this
      ensures Consistent() && AfterSoFar(graph, s, fuel, whole, i + 1, cache, done') && log == start + done'
      decreases rank[s], 1
    {
      var d := Users(graph, s)[i];
      EnoughFuel(graph, names, rank, d, cache, fuel - 1);
      AfterTake(graph, s, fuel, whole, i, cache, done);
      ghost var steps := [Edge(s, d)] + AfterNode(graph, d, cache, fuel - 1).log;
      assert start + done + steps == start + (done + steps);
      RecursiveInto(s, d, names, rank, fuel);
      done' := done + steps;
    }

    /** One turn of the loop: act on `d`, explore below it, then mark it. */
    method RecursiveInto(s: string, d: string, ghost names: set<string>, ghost rank: map<string, nat>, ghost fuel: nat)
      requires WellFormed(graph) && Ranked(graph, names, rank) && s in names && Linked(graph, s, d)
      requires fuel >= rank[s] && Consistent()
      modifies this
      ensures Consistent()
      ensures var w := AfterNode(graph, d, old(cache), fuel - 1);
              cache == w.cache + {d} && log == old(log) + ([Edge(s, d)] + w.log)
      decreases rank[s], 0
    {
      Follow(s, d);
      Recursive(d, names, rank, fuel - 1);
      cache := cache + {d};
    }

    /** The destroy walk, from a service whose own plan is already carried out. */
    method Destroy(s: string) returns (ending: Ending)
      requires Consistent()
      modifies this
      ensures Consistent()
      ensures var w := BeforeNode(graph, s, old(cache));
              ending == w.ending && cache == w.cache && log == old(log) + w.log
      decreases |graph.users.Keys - cache|, 0
    {
      ending := Finished;
      if s in cache {
        return;
      }
      assert s in graph.users ==> graph.users.Keys - cache == (graph.users.Keys - (cache + {s})) + {s};
      cache := cache + {s};
      if s in graph.users {
        ending := DestroyUsers(s);
      }
    }

    method DestroyInto(s: string, d: string) returns (ending: Ending)
      requires Consistent() && Linked(graph, s, d)
      modifies this
      ensures Consistent()
      ensures var w := BeforeNode(graph, d, old(cache));
              ending == w.ending && cache == w.cache && log == old(log) + ([Edge(s, d)] + w.log)
      decreases |graph.users.Keys - cache|, 1
    {
      Follow(s, d);
      ending := Destroy(d);
    }

    /** A turn of the loop that goes on below the i-th user. */
    method DestroyTurn(s: string, i: nat, ghost whole: Walk, ghost done: seq<Edge>, ghost start: seq<Edge>)
      returns (ending: Ending, ghost done': seq<Edge>)
      requires Consistent() && BeforeSoFar(graph, s, whole, i, cache, done) && log == start + done
      requires i < |Users(graph, s)| && Users(graph, s)[i] !in cache && Linked(graph, s, Users(graph, s)[i])
      modifies this
      ensures Consistent() && old(cache) <= cache && log == start + done'
      ensures ending == Finished ==> BeforeSoFar(graph, s, whole, i + 1, cache, done')
      ensures ending != Finished ==> whole == Walk(done', cache, ending)
      decreases |graph.users.Keys - cache|, 2
    {
      var d := Users(graph, s)[i];
      BeforeTake(graph, s, whole, i, cache, done);
      ghost var steps := [Edge(s, d)] + BeforeNode(graph, d, cache).log;
      assert start + done + steps == start + (done + steps);
      ending := DestroyInto(s, d);
      done' := done + steps;
    }

    method DestroyUsers(s: string) returns (ending: Ending)
      requires Consistent()
      modifies this
      ensures Consistent()
      ensures var w := BeforeUsers(graph, s, Users(graph, s), old(cache));
              ending == w.ending && cache == w.cache && log == old(log) + w.log
      decreases |graph.users.Keys - cache|, 3
    {
      ghost var whole := BeforeUsers(graph, s, Users(graph, s), cache);
      ghost var done: seq<Edge> := [];
      var us := Users(graph, s);
      var i := 0;
      ending := Finished;
      while i < |us|
        invariant BeforeSoFar(graph, s, whole, i, cache, done)
        invariant ending == Finished && old(cache) <= cache
        invariant log == old(log) + done && Consistent()
      {
        var d := us[i];
        if d in cache {
          BeforeSkip(graph, s, whole, i, cache, done);
        } else if d !in graph.links || s !in graph.links[d] {
          assert whole.log == done;
          return MissingLink;
        } else {
          FewerLeft(graph.users.Keys, old(cache), cache);
          ending, done := DestroyTurn(s, i, whole, done, old(log));
          if ending != Finished {
            return;
          }
        }
        i := i + 1;
      }
      assert whole.log == done;
    }
  }

  /** What the status subscriber does to the service the message names. */
  function RootLife(life: Life, status: Status, message: Message, reply: ServiceReply): Life {
    var life' := if status == Unset then life else life.(status := status);
    Carry(life', RootPlan(message), reply)
  }

  function RootPlan(message: Message): Plan {
    Plan(message.toDestroy, message.destroyState, message.toBuild, !message.bypassAsyncVerify,
         message.buildState, message.forceSyncVerify)
  }

  lemma StatusWalkEffect(
    g: Graph, root: string, fuel: nat, mode: Mode, reply: string -> ServiceReply, services: Services)
    requires WellFormed(g) && root in g.users && g.users.Keys <= services.Keys
    requires AfterNode(g, root, {}, fuel).ending == Finished
    ensures SpreadOver(g, root, mode, reply, services,
              Spread(g, mode, reply, services, AfterNode(g, root, {}, fuel).log))
  {
    StatusWalkVisits(g, root, fuel);
    WalkEffect(g, root, mode, reply, services, AfterNode(g, root, {}, fuel).log);
  }

  lemma DestroyWalkEffect(
    g: Graph, root: string, mode: Mode, reply: string -> ServiceReply, services: Services)
    requires WellFormed(g) && root in g.users && g.users.Keys <= services.Keys
    requires AllLinked(g, Region(g, root))
    ensures BeforeNode(g, root, {}).ending == Finished
    ensures SpreadOver(g, root, mode, reply, services,
              Spread(g, mode, reply, services, BeforeNode(g, root, {}).log))
  {
    DestroyWalkVisits(g, root);
    WalkEffect(g, root, mode, reply, services, BeforeNode(g, root, {}).log);
  }

  method RunStatusWalk(
    g: Graph, root: string, mode: Mode, reply: string -> ServiceReply, services: Services,
    ghost names: set<string>, ghost rank: map<string, nat>) returns (after: Services)
    requires WellFormed(g) && Ranked(g, names, rank) && root in names
    ensures after == Spread(g, mode, reply, services, AfterNode(g, root, {}, rank[root]).log)
  {
    var run := new Propagation(g, mode, reply, services);
    run.Recursive(root, names, rank, rank[root]);
    run.ServicesAreSpread();
    after := run.services;
    assert run.log == AfterNode(g, root, {}, rank[root]).log;
  }

  method RunDestroyWalk(
    g: Graph, root: string, mode: Mode, reply: string -> ServiceReply, services: Services)
    returns (after: Services, ending: Ending)
    ensures ending == BeforeNode(g, root, {}).ending
    ensures after == Spread(g, mode, reply, services, BeforeNode(g, root, {}).log)
  {
    var run := new Propagation(g, mode, reply, services);
    ending := run.Destroy(root);
    run.ServicesAreSpread();
    after := run.services;
    assert run.log == BeforeNode(g, root, {}).log;
  }

  /* ---------- what the two operations do to a service ---------- */

  /** The status walk changed t, found through its link to u. */
  ghost predicate StatusReached(
    g: Graph, message: Message, reply: string -> ServiceReply, before: Services, after: Services, u: string, t: string)
  {
    && Linked(g, u, t) && t in before && t in after
    && var link := g.links[t][u];
       if link.buildFollow then
         Became(before[t], Destroys(message.toDestroy, message.destroyState, reply(t)),
                Builds(message.toBuild, !message.bypassAsyncVerify, message.buildState, message.forceSyncVerify, reply(t)),
                after[t])
       else
         Became(before[t], Destroys(link.toDestroy, link.destroyState, reply(t)),
                Builds(link.toBuild, link.toAsyncVerify, link.buildState, false, reply(t)), after[t])
  }

  /** The destroy walk changed t, found through its link to u. */
  ghost predicate DestroyReached(
    g: Graph, rebuild: bool, reply: string -> ServiceReply, before: Services, after: Services, u: string, t: string)
  {
    && Linked(g, u, t) && t in before && t in after
    && var link := g.links[t][u];
       Became(before[t], Destroys(link.destroyFollow, link.destroyState, reply(t)),
              Builds(rebuild && link.rebuild, false, link.buildState, true, reply(t)), after[t])
  }

  /** What a status message does to the service it names: it sets the status when it has one, and
      then destroys and builds as it says. */
  ghost predicate RootReached(life: Life, status: Status, message: Message, reply: ServiceReply, after: Life) {
    Became(if status == Unset then life else life.(status := status),
           Destroys(message.toDestroy, message.destroyState, reply),
           Builds(message.toBuild, !message.bypassAsyncVerify, message.buildState, message.forceSyncVerify, reply), after)
  }

  /** Every service reachable from the root was changed through a link between services reachable
      from it, and no other service but the root. */
  ghost predicate StatusSpread(
    g: Graph, root: string, message: Message, reply: string -> ServiceReply, before: Services, after: Services)
  {
    && (forall t :: t in Region(g, root) && t != root ==>
          exists u :: u in Region(g, root) && StatusReached(g, message, reply, before, after, u, t))
    && (forall x :: x in before && x != root && x !in Region(g, root) ==> x in after && after[x] == before[x])
  }

  /** Every service on the log was changed through the link it was found by, and no other but the root. */
  ghost predicate DestroySpread(
    g: Graph, root: string, rebuild: bool, reply: string -> ServiceReply, before: Services, after: Services,
    log: seq<Edge>)
  {
    && (forall e :: e in log ==> DestroyReached(g, rebuild, reply, before, after, e.from, e.to))
    && (forall x :: x in before && x != root && x !in Targets(log) ==> x in after && after[x] == before[x])
  }

  lemma StatusSpreads(
    g: Graph, root: string, message: Message, reply: string -> ServiceReply, services: Services, changed: Services,
    after: Services)
    requires root in services && root in changed && changed == services[root := changed[root]]
    requires SpreadOver(g, root, StatusMode(message), reply, changed, after)
    ensures StatusSpread(g, root, message, reply, services, after)
  {
    forall t | t in Region(g, root) && t != root
      ensures exists u :: u in Region(g, root) && StatusReached(g, message, reply, services, after, u, t)
    {
      var u :| u in Region(g, root) && CarriedBy(g, StatusMode(message), reply, changed, after, Edge(u, t));
      StatusCarries(changed[t], g.links[t][u], message, reply(t));
      assert StatusReached(g, message, reply, services, after, u, t);
    }
  }

  lemma DestroySpreads(
    g: Graph, root: string, rebuild: bool, reply: string -> ServiceReply, services: Services, changed: Services,
    after: Services, log: seq<Edge>)
    requires root in services && root in changed && changed == services[root := changed[root]] && root !in Targets(log)
    requires SpreadAlong(g, DestroyMode(rebuild), reply, changed, after, log)
    ensures DestroySpread(g, root, rebuild, reply, services, after, log)
  {
    forall e | e in log
      ensures DestroyReached(g, rebuild, reply, services, after, e.from, e.to)
    {
      assert CarriedBy(g, DestroyMode(rebuild), reply, changed, after, e) && e.to in Targets(log);
      DestroyCarries(changed[e.to], g.links[e.to][e.from], rebuild, reply(e.to));
    }
  }

  /** `SetServiceStatus`.  A recursive message needs what the decorator of a service class sees
      to, a link table for every service, and a region without cycles. */
  method SetServiceStatus(
    g: Graph, root: string, status: Status, message: Message, recursive: bool,
    reply: string -> ServiceReply, services: Services) returns (after: Services)
    requires root in services && (recursive ==> root in g.users && g.users.Keys <= services.Keys)
    requires recursive ==> WellFormed(g) && !Cyclic(Region(g, root), LinkMap(g))
    ensures root in after && RootReached(services[root], status, message, reply(root), after[root])
    ensures !recursive ==> after == services[root := after[root]]
    ensures recursive ==> StatusSpread(g, root, message, reply, services, after)
  {
    RootCarries(services[root], status, message, reply(root));
    var changed := services[root := RootLife(services[root], status, message, reply(root))];
    after := changed;
    if recursive {
      after := SpreadStatus(g, root, message, reply, changed);
      StatusSpreads(g, root, message, reply, services, changed, after);
    }
  }

  lemma RootCarries(life: Life, status: Status, message: Message, reply: ServiceReply)
    ensures RootReached(life, status, message, reply, RootLife(life, status, message, reply))
  {
    CarryBecomes(if status == Unset then life else life.(status := status), RootPlan(message), reply);
  }

  /** The recursive part of `SetServiceStatus`. */
  method SpreadStatus(g: Graph, root: string, message: Message, reply: string -> ServiceReply, services: Services)
    returns (after: Services)
    requires WellFormed(g) && root in g.users && g.users.Keys <= services.Keys
    requires !Cyclic(Region(g, root), LinkMap(g))
    ensures SpreadOver(g, root, StatusMode(message), reply, services, after)
    ensures root in after && after[root] == services[root]
  {
    RegionClosed(g, root);
    ghost var names := Region(g, root);
    ghost var rank := AcyclicIsRanked(g, names);
    EnoughFuel(g, names, rank, root, {}, rank[root]);
    StatusWalkEffect(g, root, rank[root], StatusMode(message), reply, services);
    after := RunStatusWalk(g, root, StatusMode(message), reply, services, names, rank);
  }

  /** `destroyDep` from one service: that service is destroyed.  Whether or not a missing link entry
      ends the walk, every service on its log is changed as the link it was found by says, and
      no other; with all edges linked these are all services reachable. */
  method DestroyDep(
    g: Graph, root: string, rebuild: bool, destroyState: int, reply: string -> ServiceReply, services: Services)
    returns (after: Services, ending: Ending)
    requires WellFormed(g) && root in g.users && g.users.Keys <= services.Keys
    ensures ending == BeforeNode(g, root, {}).ending
    ensures root in after && Became(services[root], Destroys(true, destroyState, reply(root)), None, after[root])
    ensures DestroySpread(g, root, rebuild, reply, services, after, BeforeNode(g, root, {}).log)
    ensures AllLinked(g, Region(g, root)) ==>
      ending == Finished && Targets(BeforeNode(g, root, {}).log) == Region(g, root) - {root}
  {
    var changed := services[root := AfterDestroy(services[root], reply(root).destroyed(destroyState))];
    if AllLinked(g, Region(g, root)) {
      DestroyWalkVisits(g, root);
    }
    DestroyWalkEnds(g, root);
    LogEffect(g, root, DestroyMode(rebuild), reply, changed, BeforeNode(g, root, {}).log);
    after, ending := RunDestroyWalk(g, root, DestroyMode(rebuild), reply, changed);
    DestroySpreads(g, root, rebuild, reply, services, changed, after, BeforeNode(g, root, {}).log);
  }
}
