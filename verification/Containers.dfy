/** The dependency container: loading class declarations, building the services in
    dependency rounds, and registering further classes afterwards. */
module Containers {
  import opened Layering
  import opened Lifecycle
  import opened Signatures

  class Service {
    const name: string
    var life: Life
    var dependants: map<string, Service>
    var usedBy: map<string, set<Service>>

    constructor (name: string)
      ensures this.name == name && life == NEW_LIFE && dependants == map[] && usedBy == map[]
    {
      this.name := name;
      life, dependants, usedBy := NEW_LIFE, map[], map[];
    }

    method AddUsedServices(service: Service)
      modifies this`usedBy
      ensures usedBy == WithUser(old(usedBy), service)
    {
      if service.name !in usedBy {
        assert {} + {service} == {service};
        usedBy := usedBy[service.name := {service}];
      } else {
        usedBy := usedBy[service.name := usedBy[service.name] + {service}];
      }
    }

    method Builder(outcome: BuildOutcome)
      modifies this`life
      ensures life == AfterBuild(old(life), outcome)
      ensures Callable(life) <==>
        outcome == Built || (outcome in {OkError, SkipError} && old(life).builded && !old(life).destroyed)
    {
      life := AfterBuild(life, outcome);
    }
  }

  function WithUser(usedBy: map<string, set<Service>>, service: Service): map<string, set<Service>> {
    usedBy[service.name := (if service.name in usedBy then usedBy[service.name] else {}) + {service}]
  }

  lemma SetOfConcat(a: seq<string>, b: seq<string>)
    ensures SetOf(a + b) == SetOf(a) + SetOf(b)
  {
    assert forall x :: x in a + b <==> x in a || x in b;
  }

  lemma DistinctConcat(a: seq<string>, b: seq<string>)
    requires Distinct(a) && Distinct(b) && SetOf(a) !! SetOf(b)
    ensures Distinct(a + b) && SetOf(a + b) == SetOf(a) + SetOf(b)
  {
    SetOfConcat(a, b);
    forall i, j | 0 <= i < j < |a + b|
      ensures (a + b)[i] != (a + b)[j]
    {
      if i < |a| <= j {
        assert a[i] in SetOf(a) && b[j - |a|] in SetOf(b);
      }
    }
  }

  lemma SetOfOne(x: string)
    ensures SetOf([x]) == {x}
  {
    assert [x][0] in [x];
  }

  /** The users of a service after `service` was made, which asked for it or not. */
  function UsersAfter(usedBy: map<string, set<Service>>, asked: bool, service: Service): map<string, set<Service>> {
    if asked then WithUser(usedBy, service) else usedBy
  }

  /** The members of `s` in the order of `names`. */
  function Select(names: seq<string>, s: set<string>): seq<string> {
    if names == [] then []
    else
      var rest := Select(names[..|names| - 1], s);
      if names[|names| - 1] in s then rest + [names[|names| - 1]] else rest
  }

  lemma {:induction false} SelectMembers(names: seq<string>, s: set<string>)
    ensures forall x :: x in Select(names, s) <==> x in names && x in s
    ensures SetOf(Select(names, s)) == SetOf(names) * s
  {
    if names != [] {
      var n := |names| - 1;
      SelectMembers(names[..n], s);
      assert forall x :: x in names <==> x in names[..n] || x == names[n];
    }
  }

  lemma {:induction false} SelectDistinct(names: seq<string>, s: set<string>)
    requires Distinct(names)
    ensures Distinct(Select(names, s))
  {
    if names != [] {
      SelectDistinct(names[..|names| - 1], s);
      SelectMembers(names[..|names| - 1], s);
      assert names[|names| - 1] !in names[..|names| - 1];
    }
  }

  /** The names that leave in round n. */
  function Leaving(names: set<string>, deps: Deps, n: nat): set<string> {
    Waiting(names, deps, n) - Waiting(names, deps, n + 1)
  }

  /** The build order of the first n rounds: round after round, each in list order. */
  function Rounds(names: seq<string>, deps: Deps, n: nat): seq<string> {
    if n == 0 then []
    else Rounds(names, deps, n - 1) + Select(names, Leaving(SetOf(names), deps, n - 1))
  }

  /** The rounds hold each name that left, once. */
  lemma {:induction false} RoundsHold(names: seq<string>, deps: Deps, n: nat)
    requires Distinct(names)
    ensures SetOf(Rounds(names, deps, n)) == SetOf(names) - Waiting(SetOf(names), deps, n)
    ensures Distinct(Rounds(names, deps, n))
  {
    if n > 0 {
      RoundsHold(names, deps, n - 1);
      WaitingShrinks(SetOf(names), deps, n - 1, n);
      WaitingShrinks(SetOf(names), deps, 0, n - 1);
      var leaving := Select(names, Leaving(SetOf(names), deps, n - 1));
      SelectDistinct(names, Leaving(SetOf(names), deps, n - 1));
      SelectMembers(names, Leaving(SetOf(names), deps, n - 1));
      DistinctConcat(Rounds(names, deps, n - 1), leaving);
    }
  }

  class Container {
    const abstractNames: set<string>
    const outcome: string -> BuildOutcome
    var base: set<string>
    var names: seq<string>
    var metadata: map<string, Meta>
    var bound: map<string, Service>
    /** The names in the order their services were bound. */
    var order: seq<string>
    /** The bound services, current and replaced ones. */
    ghost var repr: set<Service>

    /** Every bound service sits under its own name, is wired to the services its class
        asks for, all bound before it, and is known to exactly the services it uses. */
    ghost predicate Valid()
      reads this, repr
    {
      && metadata.Keys <= base && base !! abstractNames
      && Ordered() && Wired() && Inverse()
    }

    /** Each name was bound once, after everything its class asks for. */
    ghost predicate Ordered()
      reads this
    {
      && Distinct(order) && SetOf(order) == bound.Keys && bound.Keys <= metadata.Keys
      && forall i, p :: 0 <= i < |order| && p in metadata[order[i]].params ==> p in order[..i]
    }

    ghost predicate Named()
      reads this, repr
    {
      forall x :: x in bound ==> bound[x] in repr && bound[x].name == x
    }

    ghost predicate Wired()
      reads this, repr
    {
      && Named()
      && forall x :: x in bound ==> WiredAt(x)
    }

    ghost predicate WiredAt(x: string)
      reads this, repr
    {
      && x in bound && bound[x] in repr && x in metadata
      && bound[x].dependants.Keys == SetOf(metadata[x].params)
      && forall p :: p in bound[x].dependants ==> p in bound && bound[x].dependants[p] == bound[p]
    }

    /** "used by" is the inverse of "depends on". */
    ghost predicate Inverse()
      reads this, repr
    {
      forall y :: y in bound ==> InverseAt(y)
    }

    ghost predicate InverseAt(y: string)
      reads this, repr
    {
      && y in bound && bound[y] in repr
      && (forall x :: x in bound[y].usedBy <==> Uses(x, y))
      && (forall x :: x in bound[y].usedBy ==> x in bound && bound[y].usedBy[x] == {bound[x]})
    }

    /** The class bound as x asks for y. */
    ghost predicate Uses(x: string, y: string)
      reads this
    {
      x in bound && x in metadata && y in metadata[x].params
    }

    constructor (abstractNames: set<string>, outcome: string -> BuildOutcome)
      ensures this.abstractNames == abstractNames && this.outcome == outcome
      ensures Valid() && base == {} && names == [] && metadata == map[] && bound == map[] && order == []
      ensures repr == {}
    {
      this.abstractNames, this.outcome := abstractNames, outcome;
      base, names, metadata, bound, order := {}, [], map[], map[], [];
      repr := {};
    }

    /** `__load_baseSet` and the update of the name set. */
    method AddBase(decls: seq<ClassDecl>) returns (r: Outcome<()>)
      modifies `base
      ensures r.Ok? <==> NamesOf(decls) !! abstractNames
      ensures base == if r.Ok? then old(base) + NamesOf(decls) else old(base)
      ensures r.Err? ==> r.error == InvalidDependency
    {
      var t: set<string> := {};
      var i := 0;
      while i < |decls|
        invariant 0 <= i <= |decls| && t == NamesOf(decls[..i]) && t !! abstractNames && base == old(base)
      {
        assert decls[..i + 1][..i] == decls[..i];
        NamesOfLast(decls[..i + 1]);
        if decls[i].name in abstractNames {
          assert decls[i] in decls;
          return Err(InvalidDependency);
        }
        t := t + {decls[i].name};
        i := i + 1;
      }
      assert decls[..i] == decls;
      assert t == NamesOf(decls);
      base := base + t;
      r := Ok(());
    }

    /** `__load_dep`: a class is loaded only when everything its constructor asks for has
        been loaded before it. */
    method Load(decls: seq<ClassDecl>) returns (r: Outcome<()>)
      modifies `metadata
      ensures r.Ok? <==> AllAccepted(decls, old(metadata).Keys, base, abstractNames)
      ensures r.Ok? ==> metadata == MetaAfter(old(metadata), decls)
      ensures r.Err? ==> exists k: nat :: k < |decls| && metadata == MetaAfter(old(metadata), decls[..k])
    {
      var i := 0;
      while i < |decls|
        invariant 0 <= i <= |decls| && metadata == MetaAfter(old(metadata), decls[..i])
        invariant forall j :: 0 <= j < i ==>
          Accepted(decls[j], old(metadata).Keys + NamesOf(decls[..j]), base, abstractNames)
      {
        MetaAfterKeys(old(metadata), decls[..i]);
        var d := decls[i];
        var sig := GetSignature(d.params, metadata.Keys);
        if sig.Err? {
          assert !Accepted(d, old(metadata).Keys + NamesOf(decls[..i]), base, abstractNames);
          return Err(sig.error);
        }
        var types := sig.value.types;
        var missing := set y | y in types && y !in base && y !in abstractNames;
        if y :| y in missing {
          var k :| 0 <= k < |types| && types[k] == y;
          assert d.params[k] in d.params && d.params[k].annotation == y;
          assert !Accepted(d, old(metadata).Keys + NamesOf(decls[..i]), base, abstractNames);
          return Err(NotInDependencies(y));
        }
        assert Accepted(d, old(metadata).Keys + NamesOf(decls[..i]), base, abstractNames) by {
          forall p | p in d.params
            ensures p.annotation in base + abstractNames
          {
            var k :| 0 <= k < |d.params| && d.params[k] == p;
            assert types[k] == p.annotation && types[k] in types;
            assert p.annotation !in missing;
          }
        }
        assert decls[..i + 1][..i] == decls[..i];
        metadata := metadata[d.name := Meta(SetOf(types) + d.extra, types, sig.value.names, d.willBuild)];
        i := i + 1;
      }
      assert decls[..i] == decls;
      r := Ok(());
    }

    /** `__order_dependency`: the names by growing number of parameters.  The order among
        equals is that of a Python set and left open. */
    method OrderDependency()
      requires forall x :: x in base ==> x in metadata
      modifies `names
      ensures Distinct(names) && SetOf(names) == base
      ensures forall i, j :: 0 <= i < j < |names| ==>
        names[i] in metadata && names[j] in metadata
        && |metadata[names[i]].params| <= |metadata[names[j]].params|
    {
      var rest := base;
      names := [];
      while rest != {}
        invariant rest <= base && Distinct(names) && SetOf(names) == base - rest
        invariant forall i, j :: 0 <= i < j < |names| ==>
          names[i] in metadata && names[j] in metadata
          && |metadata[names[i]].params| <= |metadata[names[j]].params|
        invariant forall x, y :: x in names && y in rest ==>
          x in metadata && y in metadata && |metadata[x].params| <= |metadata[y].params|
      {
        var x := Fewest(rest);
        assert x !in SetOf(names);
        SetOfConcat(names, [x]);
        SetOfOne(x);
        names := names + [x];
        rest := rest - {x};
      }
    }

    method Fewest(s: set<string>) returns (x: string)
      requires s != {} && forall y :: y in s ==> y in metadata
      ensures x in s && forall y :: y in s ==> |metadata[x].params| <= |metadata[y].params|
    {
      x :| x in s;
      var rest := s - {x};
      while rest != {}
        invariant rest <= s && x in s
        invariant forall y :: y in s - rest ==> |metadata[x].params| <= |metadata[y].params|
      {
        var y :| y in rest;
        if |metadata[y].params| < |metadata[x].params| {
          x := y;
        }
        rest := rest - {y};
      }
    }

    /** `toParams`: the services for a parameter list.  A name that is known but not bound
        would be left to the injector's automatic binding.  After a build there is none, and
        registering leaves none (`Build`, `Register`). */
    method ToParams(types: seq<string>) returns (r: Outcome<map<string, Service>>)
      ensures r.Ok? <==> forall t :: t in types ==> t in metadata && t !in abstractNames && t in bound
      ensures r.Ok? ==> r.value.Keys == SetOf(types) && forall t :: t in types ==> r.value[t] == bound[t]
    {
      var params: map<string, Service> := map[];
      var i := 0;
      while i < |types|
        invariant 0 <= i <= |types| && params.Keys == SetOf(types[..i])
        invariant forall t :: t in types[..i] ==>
          t in metadata && t !in abstractNames && t in bound && params[t] == bound[t]
      {
        var t := types[i];
        assert types[..i + 1] == types[..i] + [t];
        if t !in metadata {
          return Err(NoResolvedDependency(t));
        }
        if t in abstractNames {
          return Err(InvalidDependency);
        }
        if t !in bound {
          return Err(Unbound(t));
        }
        params := params[t := bound[t]];
        i := i + 1;
      }
      assert types[..i] == types;
      r := Ok(params);
    }

    /** Tell every service in `params` that `obj` uses it. */
    method TellUsers(params: map<string, Service>, obj: Service)
      requires Named() && forall p :: p in params ==> p in bound && params[p] == bound[p]
      requires obj !in repr
      modifies repr`usedBy
      ensures forall y :: y in bound ==> bound[y].usedBy == UsersAfter(old(bound[y].usedBy), y in params, obj)
    {
      var rest := params.Keys;
      while rest != {}
        invariant rest <= params.Keys
        invariant forall y :: y in bound ==>
          bound[y].usedBy == UsersAfter(old(bound[y].usedBy), y in params.Keys - rest, obj)
      {
        var p :| p in rest;
        params[p].AddUsedServices(obj);
        rest := rest - {p};
      }
    }

    /** `__inject` with `__createDep`: make the service, tell the services it asks for
        about it, and bind it. */
    method InjectRaw(x: string) returns (r: Outcome<()>)
      requires Named() && x in metadata
      modifies `bound, `order, `repr, repr`usedBy
      ensures r.Ok? <==> forall t :: t in metadata[x].params ==> t in metadata && t !in abstractNames && t in old(bound)
      ensures r.Err? ==> unchanged(this) && unchanged(repr)
      ensures r.Ok? ==> x in bound && fresh(bound[x]) && bound[x].name == x && bound[x].usedBy == map[]
      ensures r.Ok? ==> bound == old(bound)[x := bound[x]] && order == old(order) + [x]
      ensures r.Ok? ==> repr == old(repr) + {bound[x]} && Named()
      ensures r.Ok? ==> bound[x].dependants.Keys == SetOf(metadata[x].params)
      ensures r.Ok? ==> forall p :: p in metadata[x].params ==> bound[x].dependants[p] == old(bound)[p]
      ensures r.Ok? ==> bound[x].life == if metadata[x].willBuild then AfterBuild(NEW_LIFE, outcome(x)) else NEW_LIFE
      ensures r.Ok? ==> forall y: string :: y in old(bound) ==>
        old(bound)[y].usedBy == UsersAfter(old(bound[y].usedBy), y in metadata[x].params, bound[x])
    {
      var params := ToParams(metadata[x].params);
      if params.Err? {
        return Err(params.error);
      }
      var obj := new Service(x);
      TellUsers(params.value, obj);
      obj.dependants := params.value;
      if metadata[x].willBuild {
        obj.Builder(outcome(x));
      }
      bound := bound[x := obj];
      order := order + [x];
      repr := repr + {obj};
      r := Ok(());
    }

    twostate lemma OrderedKept(new x: string)
      requires old(Ordered()) && x !in old(bound) && x in metadata && metadata == old(metadata)
      requires forall p :: p in metadata[x].params ==> p in old(bound)
      requires bound.Keys == old(bound).Keys + {x} && order == old(order) + [x]
      ensures Ordered()
    {
      SetOfOne(x);
      DistinctConcat(old(order), [x]);
      assert forall i :: 0 <= i < |old(order)| ==> order[..i] == old(order)[..i] && order[i] == old(order)[i];
      assert order[..|old(order)|] == old(order);
      assert forall p :: p in metadata[x].params ==> p in SetOf(old(order));
    }

    twostate lemma InverseKept(new x: string, y: string)
      requires old(InverseAt(y)) && x !in old(bound) && y in old(bound) && y != x
      requires x in bound && bound == old(bound)[x := bound[x]] && x in metadata && metadata == old(metadata)
      requires bound[y].usedBy == UsersAfter(old(bound[y].usedBy), y in metadata[x].params, bound[x])
      requires bound[y] in repr && bound[x].name == x
      ensures InverseAt(y)
    {
      assert x !in old(bound[y].usedBy);
      forall z
        ensures z in bound[y].usedBy <==> Uses(z, y)
        ensures z in bound[y].usedBy ==> bound[y].usedBy[z] == {bound[z]}
      {
        assert z in old(bound[y].usedBy) <==> old(Uses(z, y));
      }
    }

    twostate lemma WiredKept(new x: string, y: string)
      requires old(WiredAt(y)) && x !in old(bound) && y in old(bound) && x in bound
      requires bound == old(bound)[x := bound[x]] && metadata == old(metadata)
      requires bound[y] in repr && bound[y].dependants == old(bound[y].dependants)
      ensures WiredAt(y)
    {
    }

    /** One more service, wired as its class asks, keeps the container valid. */
    twostate lemma ValidKept(new x: string)
      requires old(Valid()) && x !in old(bound) && x in metadata && x in bound && bound[x] in repr
      requires metadata == old(metadata) && base == old(base) && bound[x].name == x && Named()
      requires bound == old(bound)[x := bound[x]] && order == old(order) + [x]
      requires forall p :: p in metadata[x].params ==> p in old(bound)
      requires bound[x].usedBy == map[] && bound[x].dependants.Keys == SetOf(metadata[x].params)
      requires forall p :: p in metadata[x].params ==> bound[x].dependants[p] == old(bound)[p]
      requires forall y :: y in old(bound) ==> bound[y].dependants == old(bound[y].dependants)
      requires forall y :: y in old(bound) ==>
        bound[y].usedBy == UsersAfter(old(bound[y].usedBy), y in metadata[x].params, bound[x])
      ensures Valid()
    {
      OrderedKept(x);
      forall y | y in bound
        ensures WiredAt(y)
      {
        if y != x { WiredKept(x, y); }
      }
      forall y | y in bound
        ensures InverseAt(y)
      {
        if y != x { InverseKept(x, y); } else { NothingUses(x); }
      }
    }

    /** The newest service has no users. */
    twostate lemma NothingUses(new x: string)
      requires old(Ordered()) && x !in old(bound) && x in bound && bound[x] in repr && bound[x].usedBy == map[]
      requires bound.Keys == old(bound).Keys + {x} && metadata == old(metadata) && x in metadata
      requires forall p :: p in metadata[x].params ==> p in old(bound)
      ensures InverseAt(x)
    {
      forall z | z in old(bound)
        ensures x !in metadata[z].params
      {
        assert z in SetOf(old(order));
        var i :| 0 <= i < |old(order)| && old(order)[i] == z;
        assert forall p :: p in metadata[z].params ==> p in old(order)[..i] && p in SetOf(old(order));
      }
      assert x !in metadata[x].params;
    }

    /** Injecting a class under a fresh name keeps the container valid.  It succeeds when
        every parameter is known and bound. */
    method Inject(x: string) returns (r: Outcome<()>)
      requires Named() && x in metadata && (x !in bound ==> Valid())
      modifies `bound, `order, `repr, repr`usedBy
      ensures r.Ok? <==> forall t :: t in metadata[x].params ==> t in metadata && t !in abstractNames && t in old(bound)
      ensures x !in old(bound) ==> Valid()
      ensures r.Ok? ==> x in bound && fresh(bound[x]) && bound == old(bound)[x := bound[x]]
      ensures r.Ok? ==> order == old(order) + [x]
      ensures r.Err? ==> bound == old(bound) && order == old(order)
      ensures r.Ok? ==> MadeRight(metadata[x].willBuild, x)
      ensures old(AsMade()) ==> AsMade()
      ensures forall s :: s in repr && s !in old(repr) ==> fresh(s)
    {
      r := InjectRaw(x);
      if r.Ok? && x !in old(bound) {
        ValidKept(x);
      }
    }

    /** The names to build: each loaded, each asking only for names to build. */
    ghost predicate Loaded()
      reads this
    {
      Buildable(names, metadata)
    }

    /** One round of the build loop, before anything is injected. */
    method NextRound(waiting: seq<string>) returns (noDep: seq<string>, rest: seq<string>)
      requires forall x :: x in waiting ==> x in metadata
      ensures noDep == Select(waiting, SetOf(waiting) - Blocked(SetOf(waiting), DepsOf(metadata)))
      ensures rest == Select(waiting, Blocked(SetOf(waiting), DepsOf(metadata)))
    {
      noDep, rest := [], [];
      ghost var blocked := Blocked(SetOf(waiting), DepsOf(metadata));
      var i := 0;
      while i < |waiting|
        invariant 0 <= i <= |waiting|
        invariant noDep == Select(waiting[..i], SetOf(waiting) - blocked)
        invariant rest == Select(waiting[..i], blocked)
      {
        var x := waiting[i];
        assert waiting[..i + 1][..i] == waiting[..i];
        assert metadata[x].deps * SetOf(waiting) == {} <==> x !in blocked;
        if metadata[x].deps * SetOf(waiting) == {} {
          noDep := noDep + [x];
        } else {
          rest := rest + [x];
        }
        i := i + 1;
      }
      assert waiting[..i] == waiting;
    }

    /** Inject the names of one round, in order. */
    method InjectAll(noDep: seq<string>)
      requires Valid() && AsMade()
      requires CanGo(noDep, bound.Keys, metadata)
      modifies `bound, `order, `repr, repr`usedBy
      ensures Valid() && AsMade() && order == old(order) + noDep
      ensures forall s :: s in repr && s !in old(repr) ==> fresh(s)
    {
      var i := 0;
      while i < |noDep|
        invariant 0 <= i <= |noDep| && Valid() && order == old(order) + noDep[..i]
        invariant bound.Keys == old(bound).Keys + SetOf(noDep[..i])
        invariant AsMade()
        invariant forall s :: s in repr && s !in old(repr) ==> fresh(s)
      {
        NextCanGo(noDep, i, old(bound).Keys, metadata);
        InjectFree(noDep[i]);
        i := i + 1;
      }
      assert noDep[..i] == noDep;
    }

    /** Inject a name all of whose parameters are bound. */
    method InjectFree(x: string)
      requires Valid() && AsMade() && x in metadata && x !in bound
      requires forall p :: p in metadata[x].params ==> p in bound
      modifies `bound, `order, `repr, repr`usedBy
      ensures Valid() && AsMade() && order == old(order) + [x] && bound.Keys == old(bound).Keys + {x}
      ensures forall s :: s in repr && s !in old(repr) ==> fresh(s)
    {
      var r := Inject(x);
    }

    /** One turn of the build loop; nothing happens when no name is free. */
    method BuildRound(waiting: seq<string>) returns (noDep: seq<string>, rest: seq<string>)
      requires Valid() && AsMade() && Ready(waiting, bound.Keys, metadata)
      modifies `bound, `order, `repr, repr`usedBy
      ensures noDep == Select(waiting, SetOf(waiting) - Blocked(SetOf(waiting), DepsOf(metadata)))
      ensures rest == Select(waiting, Blocked(SetOf(waiting), DepsOf(metadata)))
      ensures Valid() && AsMade() && order == old(order) + noDep
      ensures forall s :: s in repr && s !in old(repr) ==> fresh(s)
    {
      noDep, rest := NextRound(waiting);
      FreeNamesCanGo(waiting, bound.Keys, metadata);
      InjectAll(noDep);
    }

    /** The build loop, with the number of rounds done and the names left over.  It fails
        exactly when the dependencies have a cycle among the names to build; `BuildState` says
        which services are bound after n rounds, and in which order. */
    method BuildContainer() returns (r: Outcome<()>, n: nat, left: seq<string>)
      requires Valid() && bound == map[] && order == [] && repr == {} && Loaded()
      modifies `bound, `order, `repr
      ensures Valid() && Building(left, n) && AsMade() && forall s :: s in repr ==> fresh(s)
      ensures r.Ok? <==> left == []
      ensures r.Ok? <==> !Cyclic(SetOf(names), DepsOf(metadata))
      ensures r.Err? ==> r.error == CircularDependency
    {
      left, n := names, 0;
      assert BuildState(names, metadata, names, 0, []);
      var stuck := false;
      while left != [] && !stuck
        invariant Valid() && Building(left, n) && AsMade()
        invariant forall s :: s in repr ==> fresh(s)
        invariant stuck ==> left != [] && Cyclic(SetOf(names), DepsOf(metadata))
        decreases |left|, !stuck
      {
        stuck, left := Advance(left, n);
        n := if stuck then n else n + 1;
      }
      if stuck {
        r := Err(CircularDependency);
      } else {
        BuildEnd(names, metadata, n, order);
        r := Ok(());
      }
    }

    ghost predicate Building(waiting: seq<string>, n: nat)
      reads this
    {
      BuildState(names, metadata, waiting, n, order)
    }

    method Advance(waiting: seq<string>, ghost n: nat) returns (stuck: bool, rest: seq<string>)
      requires Valid() && AsMade() && Building(waiting, n) && waiting != []
      modifies `bound, `order, `repr, repr`usedBy
      ensures Valid() && AsMade() && Building(rest, if stuck then n else n + 1)
      ensures forall s :: s in repr && s !in old(repr) ==> fresh(s)
      ensures stuck ==> rest == waiting && Cyclic(SetOf(names), DepsOf(metadata))
      ensures !stuck ==> |rest| < |waiting|
    {
      ghost var before := order;
      BuildStep(names, metadata, waiting, n, before);
      var noDep;
      noDep, rest := BuildRound(waiting);
      stuck := noDep == [];
      if stuck {
        assert order == before;
        rest := waiting;
      } else {
        assert BuildState(names, metadata, rest, n + 1, order);
      }
    }

    lemma EmptyIsValid()
      requires bound == map[] && order == []
      requires metadata.Keys <= base && base !! abstractNames
      ensures Valid()
    {
      assert SetOf(order) == {};
    }

    /** The loading half of `Build`, into an empty container. */
    method LoadList(decls: seq<ClassDecl>) returns (r: Outcome<()>)
      requires base == {} && metadata == map[]
      modifies `base, `metadata
      ensures metadata.Keys <= base && base !! abstractNames
      ensures r.Ok? == (NamesOf(decls) !! abstractNames && AllAccepted(decls, {}, NamesOf(decls), abstractNames))
      ensures r.Ok? ==> base == NamesOf(decls) && metadata == MetaAfter(map[], decls)
    {
      r := AddBase(decls);
      if r.Err? {
        return;
      }
      assert base == NamesOf(decls) && old(metadata).Keys == {};
      r := Load(decls);
      if r.Err? {
        ghost var k: nat :| k < |decls| && metadata == MetaAfter(map[], decls[..k]);
        MetaAfterKeys(map[], decls[..k]);
        assert NamesOf(decls[..k]) <= NamesOf(decls);
        return;
      }
      MetaAfterKeys(map[], decls);
    }

    /** The service x is the one made from class d: wired to the services bound under the types it
        asks for, and callable exactly when d is to be built and the build succeeded. */
    ghost predicate MadeFrom(d: ClassDecl, x: string)
      requires x in bound
      reads this, bound[x]
    {
      && bound[x].name == d.name == x && bound[x].dependants.Keys == SetOf(Annotations(d.params))
      && (forall p :: p in bound[x].dependants ==> p in bound && bound[x].dependants[p] == bound[p])
      && MadeRight(d.willBuild, x)
    }

    /** There is a service for every name of the list and no other, made from the class it stands for. */
    ghost predicate AllMadeFrom(decls: seq<ClassDecl>)
      reads this, repr
    {
      && bound.Keys == NamesOf(decls)
      && forall x :: x in bound ==> bound[x] in repr && MadeFrom(Standing(decls, x), x)
    }

    lemma LoadedAreMade(decls: seq<ClassDecl>)
      requires Valid() && AsMade() && metadata == MetaAfter(map[], decls) && bound.Keys == NamesOf(decls)
      ensures AllMadeFrom(decls)
    {
      LoadedMeta(decls);
      forall x | x in bound ensures MadeFrom(Standing(decls, x), x) {
        LastAtDeclares(decls, x);
        assert WiredAt(x);
      }
    }

    /** Loading and building a list of classes.  `_empty` is Python's own mark for a missing
        annotation and no class bears that name. */
    method Build(decls: seq<ClassDecl>) returns (r: Outcome<()>)
      requires Valid() && base == {} && names == [] && metadata == map[] && bound == map[] && order == [] && repr == {}
      requires MISSING !in NamesOf(decls) + abstractNames
      modifies this
      ensures Valid() && forall s :: s in repr ==> fresh(s)
      ensures var loads := NamesOf(decls) !! abstractNames && AllAccepted(decls, {}, NamesOf(decls), abstractNames);
              var cyclic := Cyclic(NamesOf(decls), Dependencies(decls));
              && r.Ok? == (loads && !cyclic)
              && (loads && cyclic ==> r == Err(CircularDependency))
      ensures r.Ok? ==> bound.Keys == metadata.Keys == base == NamesOf(decls)
      ensures r.Ok? ==> exists n: nat :: BuildState(names, metadata, [], n, order)
      ensures r.Ok? ==> AllMadeFrom(decls)
    {
      r := LoadList(decls);
      EmptyIsValid();
      if r.Err? {
        return;
      }
      MetaAfterKeys(map[], decls);
      LoadedMeta(decls);
      ghost var cyclic := Cyclic(NamesOf(decls), Dependencies(decls));
      OrderDependency();
      LoadedIsBuildable(decls, names, abstractNames);
      assert SetOf(names) == NamesOf(decls);
      var n, left;
      r, n, left := BuildContainer();
      assert r.Ok? == !cyclic;
      if r.Ok? {
        BuildHolds(names, metadata, n, order);
        LoadedAreMade(decls);
      }
    }

    /** Every service is as the container left it after making it: callable exactly when its class
        is to be built and its build succeeded. */
    ghost predicate AsMade()
      reads this, repr
    {
      forall x :: x in bound ==> bound[x] in repr && x in metadata && MadeRight(metadata[x].willBuild, x)
    }

    ghost predicate MadeRight(willBuild: bool, x: string)
      requires x in bound
      reads this, bound[x]
    {
      Callable(bound[x].life) <==> willBuild && outcome(x) == Built
    }

    /** A new name, or new metadata under a name that is not bound, leaves the container valid. */
    twostate lemma ValidWithMeta(d: ClassDecl)
      requires old(Valid()) && d.name !in abstractNames
      requires bound == old(bound) && order == old(order) && repr == old(repr)
      requires forall s :: s in repr ==> s.dependants == old(s.dependants) && s.usedBy == old(s.usedBy)
      requires base == old(base) + {d.name}
      requires metadata == old(metadata) || (d.name !in bound && metadata == old(metadata)[d.name := MetaOf(d)])
      ensures Valid()
    {
      forall x | x in bound
        ensures WiredAt(x) && InverseAt(x)
      {
        assert old(WiredAt(x)) && old(InverseAt(x));
      }
      assert forall i :: 0 <= i < |order| ==> order[i] in SetOf(order);
    }

    /** The loading half of `Register`. */
    method LoadOne(d: ClassDecl) returns (r: Outcome<()>)
      requires Valid()
      modifies `base, `metadata
      ensures r.Ok? <==> d.name !in abstractNames && Accepted(d, old(metadata).Keys, old(base) + {d.name}, abstractNames)
      ensures r.Ok? ==> metadata == old(metadata)[d.name := MetaOf(d)]
      ensures r.Err? ==> metadata == old(metadata)
      ensures base == if d.name in abstractNames then old(base) else old(base) + {d.name}
    {
      assert NamesOf([d]) == {d.name} by { assert [d][0] in [d]; }
      r := AddBase([d]);
      if r.Err? {
        return;
      }
      assert [d][..0] == [] && NamesOf([]) == {};
      assert old(metadata).Keys + {} == old(metadata).Keys;
      r := Load([d]);
    }

    /** Adding one class to a container.  It succeeds when the class loads and everything
        it asks for is bound, and then binds one more service under a fresh name; failing,
        it changes no binding.  Under a fresh name the container stays valid.  Where all that
        is known is bound, as after a build, that stays so, and every class that loads is bound. */
    method Register(d: ClassDecl) returns (r: Outcome<()>)
      requires Valid()
      modifies `base, `metadata, `bound, `order, `repr, repr`usedBy
      ensures old(metadata.Keys == bound.Keys) && MISSING !in old(base) + {d.name} + abstractNames ==>
        && metadata.Keys == bound.Keys
        && (r.Ok? <==> d.name !in abstractNames
                       && Accepted(d, old(metadata).Keys, old(base) + {d.name}, abstractNames))
      ensures d.name !in old(bound) ==> Valid()
      ensures r.Ok? <==> d.name !in abstractNames
                         && Accepted(d, old(metadata).Keys, old(base) + {d.name}, abstractNames)
                         && forall t :: t in Annotations(d.params) ==> t in old(bound)
      ensures r.Ok? ==> d.name in bound && fresh(bound[d.name]) && bound == old(bound)[d.name := bound[d.name]]
      ensures r.Ok? && d.name !in old(bound) ==> MadeFrom(d, d.name)
      ensures r.Ok? ==> MadeRight(d.willBuild, d.name)
      ensures r.Err? ==> bound == old(bound) && order == old(order)
    {
      r := LoadOne(d);
      if r.Ok? {
        AcceptedIsKnown(d, old(metadata).Keys, old(base) + {d.name}, abstractNames);
      }
      if d.name !in abstractNames && (r.Err? || d.name !in bound) {
        ValidWithMeta(d);
      }
      if r.Ok? {
        r := InjectClass(d);
      }
    }

    /** The injecting half of `Register`. */
    method InjectClass(d: ClassDecl) returns (r: Outcome<()>)
      requires Named() && d.name in metadata && metadata[d.name] == MetaOf(d) && (d.name !in bound ==> Valid())
      modifies `bound, `order, `repr, repr`usedBy
      ensures r.Ok? <==> forall t :: t in Annotations(d.params) ==> t in metadata && t !in abstractNames && t in old(bound)
      ensures d.name !in old(bound) ==> Valid()
      ensures r.Ok? ==> d.name in bound && fresh(bound[d.name]) && bound == old(bound)[d.name := bound[d.name]]
      ensures r.Ok? && d.name !in old(bound) ==> MadeFrom(d, d.name)
      ensures r.Ok? ==> MadeRight(d.willBuild, d.name)
      ensures r.Err? ==> bound == old(bound) && order == old(order)
    {
      r := Inject(d.name);
      if r.Ok? && d.name !in old(bound) {
        WiredIsMade(d);
      }
    }

    lemma WiredIsMade(d: ClassDecl)
      requires Valid() && d.name in bound && metadata[d.name] == MetaOf(d) && MadeRight(d.willBuild, d.name)
      ensures MadeFrom(d, d.name)
    {
      assert WiredAt(d.name);
    }
  }

  /** With no class named like a missing annotation, all that an accepted class asks for is known. */
  lemma AcceptedIsKnown(d: ClassDecl, known: set<string>, base: set<string>, abstractNames: set<string>)
    requires Accepted(d, known, base, abstractNames)
    ensures MISSING !in base + abstractNames ==> forall t :: t in Annotations(d.params) ==> t in known
  {
    forall t | t in Annotations(d.params) && MISSING !in base + abstractNames
      ensures t in known
    {
      var i: nat :| i < |d.params| && d.params[i].annotation == t;
      assert !Refused(d.params, i, known) && d.params[i] in d.params;
    }
  }

  ghost predicate Buildable(names: seq<string>, metadata: map<string, Meta>) {
    && Distinct(names)
    && (forall x :: x in names ==> x in metadata)
    && (forall x, p :: x in names && p in metadata[x].params ==> p in names && p in metadata[x].deps)
  }

  /** What the build loop has in hand after n rounds: the names still waiting and the
      order in which the others were bound. */
  function LoopState(names: seq<string>, deps: Deps, n: nat): (seq<string>, seq<string>) {
    if n == 0 then (names, [])
    else
      var (w, o) := LoopState(names, deps, n - 1);
      (Select(w, Blocked(SetOf(w), deps)), o + Select(w, SetOf(w) - Blocked(SetOf(w), deps)))
  }

  /** `waiting` and `order` are what the build loop reaches in n rounds that each set
      some name free. */
  ghost predicate BuildState(
    names: seq<string>, metadata: map<string, Meta>, waiting: seq<string>, n: nat, order: seq<string>)
    decreases n
  {
    if n == 0 then Buildable(names, metadata) && waiting == names && order == []
    else
      var (w, o) := LoopState(names, DepsOf(metadata), n - 1);
      BuildState(names, metadata, w, n - 1, o) && OneRound(DepsOf(metadata), w, o, waiting, order)
  }

  lemma {:induction false} BuildStateIsLoopState(
    names: seq<string>, metadata: map<string, Meta>, waiting: seq<string>, n: nat, order: seq<string>)
    requires BuildState(names, metadata, waiting, n, order)
    ensures LoopState(names, DepsOf(metadata), n) == (waiting, order)
  {
  }

  ghost predicate OneRound(deps: Deps, w: seq<string>, o: seq<string>, waiting: seq<string>, order: seq<string>) {
    var noDep := Select(w, SetOf(w) - Blocked(SetOf(w), deps));
    noDep != [] && waiting == Select(w, Blocked(SetOf(w), deps)) && order == o + noDep
  }

  /** What the loop has reached in terms of `Waiting`: who still waits, that the others
      were bound round after round, and that no earlier round was the last. */
  lemma {:induction false} BuildStateMeans(
    names: seq<string>, metadata: map<string, Meta>, waiting: seq<string>, n: nat, order: seq<string>)
    requires BuildState(names, metadata, waiting, n, order)
    ensures Buildable(names, metadata) && Stage(names, DepsOf(metadata), waiting, n, order)
    decreases n
  {
    if n == 0 {
      StartMeans(names, DepsOf(metadata));
      assert Stage(names, DepsOf(metadata), waiting, n, order);
    } else {
      var (w, o) := LoopState(names, DepsOf(metadata), n - 1);
      assert BuildState(names, metadata, w, n - 1, o);
      assert OneRound(DepsOf(metadata), w, o, waiting, order);
      BuildStateMeans(names, metadata, w, n - 1, o);
      OneRoundMeans(names, DepsOf(metadata), w, n, o, waiting, order);
    }
  }

  lemma StartMeans(names: seq<string>, deps: Deps)
    ensures Stage(names, deps, names, 0, [])
  {
    SelectAll(names, SetOf(names));
  }

  /** Round n of the loop in terms of `Waiting`. */
  ghost predicate Stage(names: seq<string>, deps: Deps, waiting: seq<string>, n: nat, order: seq<string>) {
    && waiting == Select(names, Waiting(SetOf(names), deps, n))
    && SetOf(waiting) == Waiting(SetOf(names), deps, n)
    && order == Rounds(names, deps, n)
    && (n > 0 ==> Waiting(SetOf(names), deps, n - 1) != {})
  }

  lemma OneRoundMeans(
    names: seq<string>, deps: Deps, w: seq<string>, n: nat, o: seq<string>, waiting: seq<string>, order: seq<string>)
    requires n > 0 && Distinct(names) && OneRound(deps, w, o, waiting, order) && Stage(names, deps, w, n - 1, o)
    ensures Stage(names, deps, waiting, n, order)
  {
    RoundSplits(names, deps, n - 1, w);
    SelectMembers(w, SetOf(w) - Blocked(SetOf(w), deps));
    assert Select(w, SetOf(w) - Blocked(SetOf(w), deps))[0] in SetOf(w);
  }

  lemma BuildStep(names: seq<string>, metadata: map<string, Meta>, waiting: seq<string>, n: nat, order: seq<string>)
    requires BuildState(names, metadata, waiting, n, order) && waiting != []
    ensures Ready(waiting, SetOf(order), metadata)
    ensures var blocked := Blocked(SetOf(waiting), DepsOf(metadata));
            var noDep, rest := Select(waiting, SetOf(waiting) - blocked), Select(waiting, blocked);
            && (noDep == [] ==> Cyclic(SetOf(names), DepsOf(metadata)))
            && (noDep != [] ==> |rest| < |waiting|)
            && (noDep != [] ==> BuildState(names, metadata, rest, n + 1, order + noDep))
  {
    var deps := DepsOf(metadata);
    var noDep := Select(waiting, SetOf(waiting) - Blocked(SetOf(waiting), deps));
    BuildStateMeans(names, metadata, waiting, n, order);
    BuildReady(names, metadata, waiting, n, order);
    if noDep == [] {
      StuckRound(names, deps, n, waiting);
    } else {
      RoundSplits(names, deps, n, waiting);
      BuildStateIsLoopState(names, metadata, waiting, n, order);
      assert OneRound(deps, waiting, order, Select(waiting, Blocked(SetOf(waiting), deps)), order + noDep);
    }
  }

  lemma BuildEnd(names: seq<string>, metadata: map<string, Meta>, n: nat, order: seq<string>)
    requires BuildState(names, metadata, [], n, order)
    ensures !Cyclic(SetOf(names), DepsOf(metadata))
  {
    BuildStateMeans(names, metadata, [], n, order);
    assert Waiting(SetOf(names), DepsOf(metadata), n) == {};
    DrainsIffAcyclic(SetOf(names), DepsOf(metadata));
  }

  /** The names of a stage are unbound and ask only for each other and for bound names. */
  lemma BuildReady(names: seq<string>, metadata: map<string, Meta>, waiting: seq<string>, n: nat, order: seq<string>)
    requires BuildState(names, metadata, waiting, n, order)
    ensures Ready(waiting, SetOf(order), metadata)
  {
    BuildStateMeans(names, metadata, waiting, n, order);
    RoundsHold(names, DepsOf(metadata), n);
    SelectDistinct(names, Waiting(SetOf(names), DepsOf(metadata), n));
    WaitingShrinks(SetOf(names), DepsOf(metadata), 0, n);
    RestIsReady(names, metadata, waiting, SetOf(order));
  }

  lemma RestIsReady(names: seq<string>, metadata: map<string, Meta>, waiting: seq<string>, done: set<string>)
    requires Buildable(names, metadata) && Distinct(waiting)
    requires SetOf(waiting) <= SetOf(names) && done == SetOf(names) - SetOf(waiting)
    ensures Ready(waiting, done, metadata)
  {
    assert forall x :: x in waiting ==> x in SetOf(waiting);
  }

  /** After the last round every name is bound. */
  lemma BuildHolds(names: seq<string>, metadata: map<string, Meta>, n: nat, order: seq<string>)
    requires BuildState(names, metadata, [], n, order)
    ensures SetOf(order) == SetOf(names)
  {
    BuildStateMeans(names, metadata, [], n, order);
    RoundsHold(names, DepsOf(metadata), n);
    assert SetOf([]) == {};
  }

  /** An accepted list is buildable: its parameter types are names of the list. */
  lemma LoadedIsBuildable(decls: seq<ClassDecl>, names: seq<string>, abstractNames: set<string>)
    requires MISSING !in NamesOf(decls) + abstractNames
    requires AllAccepted(decls, {}, NamesOf(decls), abstractNames)
    requires Distinct(names) && SetOf(names) == NamesOf(decls)
    ensures Buildable(names, MetaAfter(map[], decls))
  {
    MetaAfterKeys(map[], decls);
    assert forall x :: x in names <==> x in SetOf(names);
    forall x, p | x in names && p in MetaAfter(map[], decls)[x].params
      ensures p in names && p in MetaAfter(map[], decls)[x].deps
    {
      ParamsAreNames(decls, abstractNames, x, p);
    }
  }

  lemma ParamsAreNames(decls: seq<ClassDecl>, abstractNames: set<string>, x: string, p: string)
    requires MISSING !in NamesOf(decls) + abstractNames
    requires AllAccepted(decls, {}, NamesOf(decls), abstractNames)
    requires x in MetaAfter(map[], decls) && p in MetaAfter(map[], decls)[x].params
    ensures p in NamesOf(decls) && p in MetaAfter(map[], decls)[x].deps
  {
    var k := MetaAfterComesFrom(decls, x);
    var i: nat :| i < |decls[k].params| && decls[k].params[i].annotation == p;
    assert Accepted(decls[k], {} + NamesOf(decls[..k]), NamesOf(decls), abstractNames);
    assert decls[k].params[i] in decls[k].params;
    assert !Refused(decls[k].params, i, {} + NamesOf(decls[..k]));
    assert NamesOf(decls[..k]) <= NamesOf(decls);
  }

  /** The names of `waiting` are unbound, and they ask only for each other and for
      names that are bound already. */
  ghost predicate Ready(waiting: seq<string>, done: set<string>, metadata: map<string, Meta>) {
    && Distinct(waiting)
    && (forall x :: x in waiting ==> x in metadata && x !in done)
    && (forall x, p :: x in waiting && p in metadata[x].params ==> (p in done || p in waiting) && p in metadata[x].deps)
  }

  /** Unbound names that ask only for names bound already. */
  ghost predicate CanGo(names: seq<string>, done: set<string>, metadata: map<string, Meta>) {
    && Distinct(names)
    && forall x :: x in names ==> x in metadata && x !in done && forall p :: p in metadata[x].params ==> p in done
  }

  lemma NextCanGo(names: seq<string>, i: nat, done: set<string>, metadata: map<string, Meta>)
    requires CanGo(names, done, metadata) && i < |names|
    ensures names[i] in metadata && names[i] !in done + SetOf(names[..i])
    ensures forall p :: p in metadata[names[i]].params ==> p in done
    ensures names[..i + 1] == names[..i] + [names[i]] && SetOf(names[..i + 1]) == SetOf(names[..i]) + {names[i]}
  {
    assert names[i] !in SetOf(names[..i]);
    assert names[..i + 1] == names[..i] + [names[i]];
    SetOfConcat(names[..i], [names[i]]);
    SetOfOne(names[i]);
  }

  lemma FreeNamesCanGo(waiting: seq<string>, done: set<string>, metadata: map<string, Meta>)
    requires Ready(waiting, done, metadata)
    ensures CanGo(Select(waiting, SetOf(waiting) - Blocked(SetOf(waiting), DepsOf(metadata))), done, metadata)
  {
    var free := SetOf(waiting) - Blocked(SetOf(waiting), DepsOf(metadata));
    SelectDistinct(waiting, free);
    SelectMembers(waiting, free);
    FreeNamesReady(waiting, done, metadata);
  }

  /** What depends on no waiting name asks only for bound ones. */
  lemma FreeNamesReady(waiting: seq<string>, done: set<string>, metadata: map<string, Meta>)
    requires Ready(waiting, done, metadata)
    ensures forall x, p ::
      x in waiting && x !in Blocked(SetOf(waiting), DepsOf(metadata)) && p in metadata[x].params ==> p in done
  {
    forall x, p | x in waiting && x !in Blocked(SetOf(waiting), DepsOf(metadata)) && p in metadata[x].params
      ensures p in done
    {
      assert p in SetOf(waiting) ==> p in Of(DepsOf(metadata), x) * SetOf(waiting);
    }
  }

  lemma {:induction false} SelectAll(names: seq<string>, s: set<string>)
    requires forall x :: x in names ==> x in s
    ensures Select(names, s) == names
  {
    if names != [] {
      SelectAll(names[..|names| - 1], s);
    }
  }

  /** Selecting from a selection. */
  lemma {:induction false} SelectTwice(names: seq<string>, s: set<string>, t: set<string>)
    ensures Select(Select(names, s), t) == Select(names, s * t)
  {
    if names != [] {
      var n := |names| - 1;
      var inner := Select(names[..n], s);
      SelectTwice(names[..n], s, t);
      if names[n] in s {
        assert (inner + [names[n]])[..|inner|] == inner;
      }
    }
  }

  lemma StuckRound(names: seq<string>, deps: Deps, n: nat, waiting: seq<string>)
    requires waiting != [] && SetOf(waiting) == Waiting(SetOf(names), deps, n)
    requires Select(waiting, SetOf(waiting) - Blocked(SetOf(waiting), deps)) == []
    ensures Cyclic(SetOf(names), deps)
  {
    NoneSelected(waiting, SetOf(waiting) - Blocked(SetOf(waiting), deps));
    assert waiting[0] in SetOf(waiting);
    assert Blocked(SetOf(waiting), deps) == SetOf(waiting);
    StuckHasCycle(SetOf(waiting), deps);
    WaitingShrinks(SetOf(names), deps, 0, n);
    CycleInSubset(SetOf(waiting), SetOf(names), deps);
  }

  lemma NoneSelected(names: seq<string>, s: set<string>)
    requires Select(names, s) == []
    ensures SetOf(names) !! s
  {
    SelectMembers(names, s);
    assert SetOf(names) * s == {} by { assert SetOf([]) == {}; }
  }

  /** A round injects the names that leave and keeps those that go on waiting. */
  lemma RoundSplits(names: seq<string>, deps: Deps, n: nat, waiting: seq<string>)
    requires Distinct(names)
    requires waiting == Select(names, Waiting(SetOf(names), deps, n)) && SetOf(waiting) == Waiting(SetOf(names), deps, n)
    ensures Select(waiting, SetOf(waiting) - Blocked(SetOf(waiting), deps))
         == Select(names, Leaving(SetOf(names), deps, n))
    ensures Distinct(Select(names, Leaving(SetOf(names), deps, n)))
    ensures var rest := Select(waiting, Blocked(SetOf(waiting), deps));
            && rest == Select(names, Waiting(SetOf(names), deps, n + 1))
            && SetOf(rest) == Waiting(SetOf(names), deps, n + 1)
            && (Select(names, Leaving(SetOf(names), deps, n)) != [] ==> |rest| < |waiting|)
  {
    var w := Waiting(SetOf(names), deps, n);
    var w' := Waiting(SetOf(names), deps, n + 1);
    WaitingShrinks(SetOf(names), deps, 0, n);
    WaitingShrinks(SetOf(names), deps, n, n + 1);
    SelectDistinct(names, w - w');
    SplitSelection(names, w, w');
  }

  /** Selecting w from a list and then parts of w. */
  lemma SplitSelection(names: seq<string>, w: set<string>, w': set<string>)
    requires Distinct(names) && w' <= w <= SetOf(names)
    ensures Select(Select(names, w), w - w') == Select(names, w - w')
    ensures Select(Select(names, w), w') == Select(names, w') && SetOf(Select(names, w')) == w'
    ensures Select(names, w - w') != [] ==> |Select(names, w')| < |Select(names, w)|
  {
    SelectTwice(names, w, w - w');
    SelectTwice(names, w, w');
    assert w * (w - w') == w - w' && w * w' == w';
    SelectMembers(names, w');
    if Select(names, w - w') != [] {
      SelectMembers(names, w - w');
      assert Select(names, w - w')[0] in w - w';
      SmallerSelection(names, w, w');
    }
  }

  lemma SmallerSelection(names: seq<string>, w: set<string>, w': set<string>)
    requires Distinct(names) && w' < w <= SetOf(names)
    ensures |Select(names, w')| < |Select(names, w)|
  {
    SelectDistinct(names, w);
    SelectDistinct(names, w');
    SelectMembers(names, w);
    SelectMembers(names, w');
    assert SetOf(names) * w == w && SetOf(names) * w' == w';
    DistinctSize(Select(names, w'));
    DistinctSize(Select(names, w));
    SubsetSmaller(w', w);
  }

  lemma {:induction false} DistinctSize(s: seq<string>)
    requires Distinct(s)
    ensures |SetOf(s)| == |s|
  {
    if s != [] {
      var n := |s| - 1;
      DistinctSize(s[..n]);
      assert s == s[..n] + [s[n]];
      SetOfConcat(s[..n], [s[n]]);
      SetOfOne(s[n]);
      assert s[n] !in SetOf(s[..n]);
    }
  }
}
