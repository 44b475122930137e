/** Class declarations and what the container keeps of them after loading. */
module Signatures {
  import opened Layering

  /** The annotation name Python reports for a parameter without annotation. */
  const MISSING := "_empty"

  datatype Param = Param(name: string, annotation: string)

  /** `extra` holds the names added by possible dependencies, build conditions and
      abstract resolution; the functions behind them are user code. */
  datatype ClassDecl = ClassDecl(name: string, params: seq<Param>, extra: set<string>, willBuild: bool)

  datatype Meta = Meta(deps: set<string>, params: seq<string>, paramNames: seq<string>, willBuild: bool)

  datatype Error =
    | CircularDependency
    | MultipleParameterSameDependency
    | NoResolvedDependency(name: string)
    | NotInDependencies(name: string)
    | InvalidDependency
    | Unbound(name: string)

  datatype Outcome<T> = Ok(value: T) | Err(error: Error)

  datatype Signature = Signature(types: seq<string>, names: seq<string>)

  function Annotations(params: seq<Param>): seq<string> {
    seq(|params|, i requires 0 <= i < |params| => params[i].annotation)
  }

  function ParamNames(params: seq<Param>): seq<string> {
    seq(|params|, i requires 0 <= i < |params| => params[i].name)
  }

  ghost predicate Distinct(s: seq<string>) {
    forall i, j :: 0 <= i < j < |s| ==> s[i] != s[j]
  }

  /** Parameter i is refused: its type was already taken, or nobody knows it. */
  ghost predicate Refused(params: seq<Param>, i: nat, known: set<string>)
    requires i < |params|
  {
    || params[i].annotation in Annotations(params)[..i]
    || (params[i].annotation !in known && params[i].annotation != MISSING)
  }

  ghost predicate FirstRefused(params: seq<Param>, i: nat, known: set<string>) {
    i < |params| && Refused(params, i, known) && forall j: nat :: j < i ==> !Refused(params, j, known)
  }

  /** The signature is accepted exactly when no parameter is refused; otherwise the error
      names the first refused parameter, a repeated type taking precedence. */
  method GetSignature(params: seq<Param>, known: set<string>) returns (r: Outcome<Signature>)
    ensures r.Ok? <==> forall i: nat :: i < |params| ==> !Refused(params, i, known)
    ensures r.Ok? ==> r.value == Signature(Annotations(params), ParamNames(params))
    ensures r.Err? ==> exists i: nat ::
      && FirstRefused(params, i, known)
      && r.error == if params[i].annotation in Annotations(params[..i]) then MultipleParameterSameDependency
                    else NoResolvedDependency(params[i].annotation)
  {
    var types: seq<string> := [];
    var names: seq<string> := [];
    var i := 0;
    while i < |params|
      invariant 0 <= i <= |params|
      invariant types == Annotations(params)[..i] && names == ParamNames(params)[..i]
      invariant forall j: nat :: j < i ==> !Refused(params, j, known)
    {
      var p := params[i];
      assert Annotations(params[..i]) == types;
      if p.annotation in types {
        assert FirstRefused(params, i, known);
        return Err(MultipleParameterSameDependency);
      }
      if p.annotation !in known && p.annotation != MISSING {
        assert FirstRefused(params, i, known);
        return Err(NoResolvedDependency(p.annotation));
      }
      types, names := types + [p.annotation], names + [p.name];
      i := i + 1;
    }
    r := Ok(Signature(types, names));
  }

  function SetOf(s: seq<string>): set<string> {
    set x | x in s
  }

  function MetaOf(d: ClassDecl): Meta {
    Meta(SetOf(Annotations(d.params)) + d.extra, Annotations(d.params), ParamNames(d.params), d.willBuild)
  }

  function NamesOf(decls: seq<ClassDecl>): set<string> {
    set d | d in decls :: d.name
  }

  /** `d` loads while the names in `known` have metadata: its signature is accepted and
      every parameter type is listed for the container or is abstract. */
  ghost predicate Accepted(d: ClassDecl, known: set<string>, base: set<string>, abstractNames: set<string>) {
    && (forall i: nat :: i < |d.params| ==> !Refused(d.params, i, known))
    && (forall p :: p in d.params ==> p.annotation in base + abstractNames)
  }

  ghost predicate AllAccepted(
    decls: seq<ClassDecl>, known: set<string>, base: set<string>, abstractNames: set<string>)
  {
    forall i :: 0 <= i < |decls| ==> Accepted(decls[i], known + NamesOf(decls[..i]), base, abstractNames)
  }

  /** The metadata after loading; a later class of the same name replaces an earlier one. */
  function MetaAfter(metadata: map<string, Meta>, decls: seq<ClassDecl>): map<string, Meta> {
    if decls == [] then metadata
    else MetaAfter(metadata, decls[..|decls| - 1])[decls[|decls| - 1].name := MetaOf(decls[|decls| - 1])]
  }

  function DepsOf(metadata: map<string, Meta>): Deps {
    map x | x in metadata :: metadata[x].deps
  }

  lemma {:induction false} MetaAfterKeys(metadata: map<string, Meta>, decls: seq<ClassDecl>)
    ensures MetaAfter(metadata, decls).Keys == metadata.Keys + NamesOf(decls)
  {
    if decls != [] {
      var n := |decls| - 1;
      MetaAfterKeys(metadata, decls[..n]);
      NamesOfLast(decls);
    }
  }

  lemma NamesOfLast(decls: seq<ClassDecl>)
    requires decls != []
    ensures NamesOf(decls) == NamesOf(decls[..|decls| - 1]) + {decls[|decls| - 1].name}
  {
    var n := |decls| - 1;
    assert decls == decls[..n] + [decls[n]];
    forall x | x in NamesOf(decls[..n]) + {decls[n].name}
      ensures x in NamesOf(decls)
    {
      var d :| (d in decls[..n] || d == decls[n]) && d.name == x;
      assert d in decls;
    }
  }

  /** The last position at which a name is declared. */
  function LastAt(decls: seq<ClassDecl>, x: string): nat {
    if decls == [] then 0
    else if decls[|decls| - 1].name == x then |decls| - 1
    else LastAt(decls[..|decls| - 1], x)
  }

  lemma {:induction false} LastAtDeclares(decls: seq<ClassDecl>, x: string)
    requires x in NamesOf(decls)
    ensures LastAt(decls, x) < |decls| && decls[LastAt(decls, x)].name == x
    ensures forall j :: LastAt(decls, x) < j < |decls| ==> decls[j].name != x
  {
    NamesOfLast(decls);
    if decls[|decls| - 1].name != x {
      LastAtDeclares(decls[..|decls| - 1], x);
    }
  }

  /** What a name maps to was declared by the last class of that name. */
  lemma {:induction false} MetaAfterComesFrom(decls: seq<ClassDecl>, x: string) returns (k: nat)
    requires x in MetaAfter(map[], decls)
    ensures k < |decls| && decls[k].name == x && MetaAfter(map[], decls)[x] == MetaOf(decls[k])
    ensures k == LastAt(decls, x)
  {
    var n := |decls| - 1;
    if decls[n].name == x {
      k := n;
    } else {
      k := MetaAfterComesFrom(decls[..n], x);
    }
  }

  /** The class a name stands for: the last one declared under it. */
  function Standing(decls: seq<ClassDecl>, x: string): ClassDecl
    requires x in NamesOf(decls)
  {
    LastAtDeclares(decls, x);
    decls[LastAt(decls, x)]
  }

  /** What each name depends on: all its class asks for, and what user code added. */
  function Dependencies(decls: seq<ClassDecl>): Deps {
    map x | x in NamesOf(decls) :: SetOf(Annotations(Standing(decls, x).params)) + Standing(decls, x).extra
  }

  /** What loading keeps of a list of classes. */
  lemma LoadedMeta(decls: seq<ClassDecl>)
    ensures MetaAfter(map[], decls).Keys == NamesOf(decls) && DepsOf(MetaAfter(map[], decls)) == Dependencies(decls)
    ensures forall x :: x in NamesOf(decls) ==> MetaAfter(map[], decls)[x].params == Annotations(Standing(decls, x).params)
    ensures forall x :: x in NamesOf(decls) ==> MetaAfter(map[], decls)[x].paramNames == ParamNames(Standing(decls, x).params)
    ensures forall x :: x in NamesOf(decls) ==> (MetaAfter(map[], decls)[x].willBuild <==> Standing(decls, x).willBuild)
  {
    MetaAfterKeys(map[], decls);
    forall x | x in NamesOf(decls)
      ensures MetaAfter(map[], decls)[x] == MetaOf(Standing(decls, x))
    {
      var k := MetaAfterComesFrom(decls, x);
    }
  }

  lemma LoadedDependencies(decls: seq<ClassDecl>)
    ensures DepsOf(MetaAfter(map[], decls)) == Dependencies(decls)
  {
    LoadedMeta(decls);
  }

  /** No two classes of the list share a name. */
  ghost predicate DistinctNames(decls: seq<ClassDecl>) {
    forall i, j :: 0 <= i < j < |decls| ==> decls[i].name != decls[j].name
  }

  /** The class that stands for a name asks only for names that stand before it. */
  ghost predicate AsksForEarlier(decls: seq<ClassDecl>) {
    forall x, p :: x in NamesOf(decls) && p in NamesOf(decls) && Asks(decls, x, p) ==> LastAt(decls, p) < LastAt(decls, x)
  }

  /** The last class named x asks for p. */
  predicate Asks(decls: seq<ClassDecl>, x: string, p: string) {
    LastAt(decls, x) < |decls| && p in Annotations(decls[LastAt(decls, x)].params)
  }

  /** Names may repeat: as long as the last class of every name asks only for names whose last
      class comes before it, a list of classes without extra dependencies is not circular. */
  lemma AsksForEarlierIsAcyclic(decls: seq<ClassDecl>)
    requires AsksForEarlier(decls) && (forall d :: d in decls ==> d.extra == {})
    ensures !Cyclic(NamesOf(decls), Dependencies(decls))
  {
    var deps := Dependencies(decls);
    var layer := map x | x in NamesOf(decls) :: LastAt(decls, x);
    forall x, d | x in NamesOf(decls) && d in NamesOf(decls) && d in Of(deps, x)
      ensures layer[d] < layer[x]
    {
      LastAtDeclares(decls, x);
      assert Standing(decls, x) in decls && Asks(decls, x, d);
    }
    LayeringIsAcyclic(layer, NamesOf(decls), deps);
  }

  /** A parameter type must have been loaded before the class that asks for it, so in a list
      of differently named classes that loads every class asks for earlier ones. */
  lemma AcceptedIsAcyclic(decls: seq<ClassDecl>, abstractNames: set<string>)
    requires DistinctNames(decls) && (forall d :: d in decls ==> d.extra == {})
    requires MISSING !in NamesOf(decls)
    requires AllAccepted(decls, {}, NamesOf(decls), abstractNames)
    ensures AsksForEarlier(decls)
    ensures !Cyclic(NamesOf(decls), Dependencies(decls))
  {
    forall x, p | x in NamesOf(decls) && p in NamesOf(decls) && Asks(decls, x, p)
      ensures LastAt(decls, p) < LastAt(decls, x)
    {
      LastAtDeclares(decls, x);
      LastAtDeclares(decls, p);
      AskedIsEarlier(decls, abstractNames, LastAt(decls, x), LastAt(decls, p));
    }
    AsksForEarlierIsAcyclic(decls);
  }

  lemma AskedIsEarlier(decls: seq<ClassDecl>, abstractNames: set<string>, i: nat, j: nat)
    requires DistinctNames(decls) && MISSING !in NamesOf(decls) && i < |decls| && j < |decls|
    requires AllAccepted(decls, {}, NamesOf(decls), abstractNames)
    requires decls[j].name in Annotations(decls[i].params)
    ensures j < i
  {
    var name := decls[j].name;
    assert decls[j] in decls;
    assert Accepted(decls[i], {} + NamesOf(decls[..i]), NamesOf(decls), abstractNames);
    var p: nat :| p < |decls[i].params| && decls[i].params[p].annotation == name;
    assert !Refused(decls[i].params, p, {} + NamesOf(decls[..i]));
    var e :| e in decls[..i] && e.name == name;
    var k :| 0 <= k < i && decls[k] == e;
  }

  const FIRST_A := ClassDecl("A", [], {}, true)
  const ONLY_B := ClassDecl("B", [Param("a", "A")], {}, true)
  const SECOND_A := ClassDecl("A", [Param("b", "B")], {}, true)

  lemma SameNameLoads()
    ensures AllAccepted([FIRST_A, ONLY_B, SECOND_A], {}, {"A", "B"}, {})
  {
    var decls := [FIRST_A, ONLY_B, SECOND_A];
    assert decls[..1] == [FIRST_A] && decls[..2] == [FIRST_A, ONLY_B];
    assert decls[..1][0] == decls[..2][0] == FIRST_A && decls[..2][1] == ONLY_B;
    assert FIRST_A in decls[..1] && ONLY_B in decls[..2];
    assert "A" in NamesOf(decls[..1]) && "B" in NamesOf(decls[..2]);
    forall i | 0 <= i < 3
      ensures Accepted(decls[i], {} + NamesOf(decls[..i]), {"A", "B"}, {})
    {
    }
  }

  lemma SameNameCycles()
    ensures Cyclic({"A", "B"}, DepsOf(MetaAfter(map[], [FIRST_A, ONLY_B, SECOND_A])))
  {
    var decls := [FIRST_A, ONLY_B, SECOND_A];
    var metadata := MetaAfter(map[], decls);
    assert decls[..2] == [FIRST_A, ONLY_B];
    assert metadata == MetaAfter(map[], [FIRST_A, ONLY_B])["A" := MetaOf(SECOND_A)];
    assert [FIRST_A, ONLY_B][..1] == [FIRST_A];
    assert MetaAfter(map[], [FIRST_A, ONLY_B]) == MetaAfter(map[], [FIRST_A])["B" := MetaOf(ONLY_B)];
    assert Annotations(ONLY_B.params)[0] == "A" && Annotations(SECOND_A.params)[0] == "B";
    assert "B" in Of(DepsOf(metadata), "A") && "A" in Of(DepsOf(metadata), "B");
    assert IsCycle(["A", "B", "A"], {"A", "B"}, DepsOf(metadata));
  }

  lemma SameNameNames()
    ensures NamesOf([FIRST_A, ONLY_B, SECOND_A]) == {"A", "B"}
  {
    var decls := [FIRST_A, ONLY_B, SECOND_A];
    assert decls[0] in decls && decls[1] in decls;
  }

  /** Two classes of one name defeat the order check: the second `A` may ask for `B`,
      which asked for the first, and the list is circular although it loads. */
  lemma SameNameCanBeCircular()
    ensures exists decls: seq<ClassDecl> ::
      && AllAccepted(decls, {}, NamesOf(decls), {}) && (forall d :: d in decls ==> d.extra == {})
      && Cyclic(NamesOf(decls), Dependencies(decls))
  {
    var decls := [FIRST_A, ONLY_B, SECOND_A];
    SameNameNames();
    SameNameLoads();
    SameNameCycles();
    LoadedDependencies(decls);
  }
}
