/** Registering the decorators of an endpoint and folding them into one nested callable. */
module DecoratorOrder {
  import opened Commons

  datatype Kind =
    | Limiter | Throttle | Permission | Handler | Ping | Lock | PipeBefore | PipeAfter | Guard | Interceptor

  /** Priority plus touch. */
  function Priority(kind: Kind): real {
    match kind
    case Limiter => 0.0
    case Throttle => 0.5
    case Permission => 1.0
    case Handler => 2.0
    case Ping => 2.25
    case Lock => 2.5
    case PipeBefore => 3.0
    case PipeAfter => 3.5
    case Guard => 4.0
    case Interceptor => 5.0
  }

  /** A function given to a decorator, or an object of the class the decorator is for. */
  datatype Part = Custom | Structured

  /** `id` is the position in the list of registered decorators. */
  datatype Deco = Deco(id: nat, kind: Kind, parts: seq<Part>, default: Option<int>, injectMeta: bool)

  datatype Callable = Endpoint | Wrapped(deco: Deco, inner: Callable)

  /** The decorators of a callable, outermost first. */
  function Layers(c: Callable): seq<Deco> {
    match c
    case Endpoint => []
    case Wrapped(deco, inner) => [deco] + Layers(inner)
  }

  /** a is entered before b: a lower priority, or the same and a later registration. */
  predicate Outside(a: Deco, b: Deco) {
    Priority(a.kind) < Priority(b.kind) || (Priority(a.kind) == Priority(b.kind) && a.id > b.id)
  }

  ghost predicate Nested(layers: seq<Deco>) {
    forall i, j :: 0 <= i < j < |layers| ==> Outside(layers[i], layers[j])
  }

  /** The kinds of decorators from the outside in. */
  const INWARDS: seq<Kind> :=
    [Limiter, Throttle, Permission, Handler, Ping, Lock, PipeBefore, PipeAfter, Guard, Interceptor]

  /** A kind further out, or the same kind and registered later. */
  ghost predicate FurtherOut(a: Deco, b: Deco) {
    exists k, l :: 0 <= k <= l < |INWARDS| && INWARDS[k] == a.kind && INWARDS[l] == b.kind && (k == l ==> a.id > b.id)
  }

  /** Nested as the priorities say is nested kind by kind, the last registered of a kind
      outermost. */
  lemma NestedByKind(layers: seq<Deco>)
    ensures Nested(layers) <==> forall i, j :: 0 <= i < j < |layers| ==> FurtherOut(layers[i], layers[j])
  {
    forall i, j | 0 <= i < j < |layers|
      ensures FurtherOut(layers[i], layers[j]) <==> Outside(layers[i], layers[j])
    {
      OutsideByKind(layers[i], layers[j]);
    }
  }

  lemma OutsideByKind(a: Deco, b: Deco)
    ensures FurtherOut(a, b) <==> Outside(a, b)
  {
    var k := PlaceOf(a.kind);
    var l := PlaceOf(b.kind);
    PlacesFollowPriorities(k, l);
    PlacesFollowPriorities(l, k);
    if FurtherOut(a, b) {
      var k', l' :| 0 <= k' <= l' < |INWARDS| && INWARDS[k'] == a.kind && INWARDS[l'] == b.kind && (k' == l' ==> a.id > b.id);
      PlacesFollowPriorities(k', k);
      PlacesFollowPriorities(k, k');
      PlacesFollowPriorities(l', l);
      PlacesFollowPriorities(l, l');
    }
  }

  lemma PlaceOf(kind: Kind) returns (k: nat)
    ensures k < |INWARDS| && INWARDS[k] == kind
  {
    match kind
    case Limiter => return 0;
    case Throttle => return 1;
    case Permission => return 2;
    case Handler => return 3;
    case Ping => return 4;
    case Lock => return 5;
    case PipeBefore => return 6;
    case PipeAfter => return 7;
    case Guard => return 8;
    case Interceptor => return 9;
  }

  lemma {:induction false} PlacesFollowPriorities(k: nat, l: nat)
    requires k < |INWARDS| && l < |INWARDS|
    ensures k < l ==> Priority(INWARDS[k]) < Priority(INWARDS[l])
    decreases l
  {
    if k < l {
      PlacesFollowPriorities(k, l - 1);
    }
  }

  /** As registered: positions as ids. */
  ghost predicate Numbered(decos: seq<Deco>) {
    forall i :: 0 <= i < |decos| ==> decos[i].id == i
  }

  /** `sorted(decos, key=priority, reverse=True)`, which keeps the order of equals. */
  function Sorted(decos: seq<Deco>): seq<Deco> {
    if decos == [] then [] else Placed(Sorted(decos[..|decos| - 1]), decos[|decos| - 1])
  }

  function Placed(sorted: seq<Deco>, d: Deco): seq<Deco> {
    if sorted == [] then [d]
    else if Priority(sorted[|sorted| - 1].kind) >= Priority(d.kind) then sorted + [d]
    else Placed(sorted[..|sorted| - 1], d) + [sorted[|sorted| - 1]]
  }

  /** Later registered or of lower priority comes later. */
  ghost predicate Descending(s: seq<Deco>) {
    forall i, j :: 0 <= i < j < |s| ==> Outside(s[j], s[i])
  }

  lemma DescendingSnoc(s: seq<Deco>, last: Deco)
    requires Descending(s) && forall x :: x in s ==> Outside(last, x)
    ensures Descending(s + [last])
  {
  }

  lemma {:induction false} PlacedContents(sorted: seq<Deco>, d: Deco)
    ensures multiset(Placed(sorted, d)) == multiset(sorted) + multiset{d}
    ensures forall x :: x in Placed(sorted, d) <==> x in sorted || x == d
  {
    if sorted != [] {
      var n := |sorted| - 1;
      assert sorted == sorted[..n] + [sorted[n]];
      PlacedContents(sorted[..n], d);
    }
  }

  lemma {:induction false} PlacedDescending(sorted: seq<Deco>, d: Deco)
    requires Descending(sorted) && forall x :: x in sorted ==> x.id < d.id
    ensures Descending(Placed(sorted, d))
  {
    if sorted != [] {
      var n := |sorted| - 1;
      assert sorted == sorted[..n] + [sorted[n]];
      if Priority(sorted[n].kind) < Priority(d.kind) {
        PlacedDescending(sorted[..n], d);
        PlacedContents(sorted[..n], d);
        DescendingSnoc(Placed(sorted[..n], d), sorted[n]);
      } else {
        forall x | x in sorted ensures Outside(d, x) {
          assert x.id < d.id;
          assert x == sorted[n] || Outside(sorted[n], x);
        }
        DescendingSnoc(sorted, d);
      }
    }
  }

  lemma {:induction false} SortedDescending(decos: seq<Deco>)
    requires Numbered(decos)
    ensures Descending(Sorted(decos)) && multiset(Sorted(decos)) == multiset(decos)
  {
    if decos != [] {
      var n := |decos| - 1;
      SortedDescending(decos[..n]);
      assert decos == decos[..n] + [decos[n]];
      forall x | x in Sorted(decos[..n]) ensures x.id < decos[n].id {
        assert x in multiset(decos[..n]);
      }
      PlacedDescending(Sorted(decos[..n]), decos[n]);
      PlacedContents(Sorted(decos[..n]), decos[n]);
    }
  }

  /** `DECORATOR_METADATA` for one class, and the endpoints of an instance of it. */
  class Registry {
    var metadata: map<string, seq<Deco>>

    ghost predicate Valid()
      reads this
    {
      forall f :: f in metadata ==> Numbered(metadata[f])
    }

    constructor ()
      ensures Valid() && metadata == map[]
    {
      metadata := map[];
    }

    /** `appends_funcs_callback`. */
    method Append(function_: string, kind: Kind, parts: seq<Part>, default: Option<int>, injectMeta: bool)
      requires Valid()
      modifies this
      ensures Valid()
      ensures metadata.Keys == old(metadata.Keys) + {function_}
      ensures forall f :: f in old(metadata) && f != function_ ==> metadata[f] == old(metadata[f])
      ensures var before := if function_ in old(metadata) then old(metadata)[function_] else [];
              metadata[function_] == before + [Deco(|before|, kind, parts, default, injectMeta)]
    {
      if function_ !in metadata {
        metadata := metadata[function_ := []];
      }
      var list := metadata[function_];
      metadata := metadata[function_ := list + [Deco(|list|, kind, parts, default, injectMeta)]];
    }

    /** `_stack_callback` for one function: the callable has every registered decorator once,
        in ascending priority from the outside, ties with the last registered outermost. */
    method StackCallback(function_: string) returns (c: Callable)
      requires Valid()
      ensures function_ !in metadata ==> c == Endpoint
      ensures function_ in metadata ==> Nested(Layers(c)) && multiset(Layers(c)) == multiset(metadata[function_])
    {
      c := Endpoint;
      if function_ !in metadata {
        return;
      }
      SortedDescending(metadata[function_]);
      var sorted := Sorted(metadata[function_]);
      var i := 0;
      while i < |sorted|
        invariant 0 <= i <= |sorted|
        invariant Layers(c) == Reversed(sorted[..i])
      {
        assert sorted[..i + 1][..i] == sorted[..i];
        c := Wrapped(sorted[i], c);
        i := i + 1;
      }
      assert sorted[..i] == sorted;
      ReversedNested(sorted);
    }
  }

  lemma {:induction false} ReversedNested(s: seq<Deco>)
    requires Descending(s)
    ensures Nested(Reversed(s)) && multiset(Reversed(s)) == multiset(s)
  {
    if s != [] {
      var n := |s| - 1;
      ReversedNested(s[..n]);
      assert s == s[..n] + [s[n]];
      var rest := Reversed(s[..n]);
      forall i | 0 <= i < |rest| ensures Outside(s[n], rest[i]) {
        assert rest[i] in multiset(rest);
        assert rest[i] in s[..n];
      }
      NestedCons(s[n], rest);
    }
  }

  lemma NestedCons(first: Deco, rest: seq<Deco>)
    requires Nested(rest) && forall i :: 0 <= i < |rest| ==> Outside(first, rest[i])
    ensures Nested([first] + rest)
  {
  }

  /** No other nesting keeps to the order: the layers are determined by the registrations. */
  lemma {:induction false} NestingIsUnique(a: seq<Deco>, b: seq<Deco>)
    requires Nested(a) && Nested(b) && multiset(a) == multiset(b)
    ensures a == b
  {
    if a == [] {
      assert |multiset(b)| == 0;
    } else {
      assert a[0] in multiset(b);
      FirstIsFirst(a, b);
      ContentsOfRest(a);
      ContentsOfRest(b);
      NestingIsUnique(a[1..], b[1..]);
    }
  }

  lemma ContentsOfRest(s: seq<Deco>)
    requires s != []
    ensures multiset(s[1..]) == multiset(s) - multiset{s[0]}
  {
    assert s == [s[0]] + s[1..];
  }

  lemma FirstIsFirst(a: seq<Deco>, b: seq<Deco>)
    requires Nested(a) && Nested(b) && multiset(a) == multiset(b) && a != [] && b != []
    ensures a[0] == b[0]
  {
    var x, y := a[0], b[0];
    assert x in multiset(b) && y in multiset(a);
    var i :| 0 <= i < |b| && b[i] == x;
    var j :| 0 <= j < |a| && a[j] == y;
    assert i == 0 || Outside(y, x);
    assert j == 0 || Outside(x, y);
  }
}
