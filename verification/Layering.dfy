/** Dependency rounds of a finite set of class names.

    The container repeatedly takes, out of the names still waiting, those that
    depend on no waiting name.  `Waiting` is the set left after n such rounds.
    Everything the build loop promises is a fact about this function: a name
    waits for n rounds exactly when a dependency chain of n edges starts at it,
    so the loop gets stuck exactly on cycles and every name leaves in the round
    given by its longest chain. */
module Layering {

  type Deps = map<string, set<string>>

  /** The dependencies of a name; a name without an entry has none. */
  function Of(deps: Deps, x: string): set<string> {
    if x in deps then deps[x] else {}
  }

  /** The names of `names` that still depend on a member of `names`. */
  function Blocked(names: set<string>, deps: Deps): set<string> {
    set x | x in names && Of(deps, x) * names != {}
  }

  function Waiting(names: set<string>, deps: Deps, n: nat): set<string> {
    if n == 0 then names else Blocked(Waiting(names, deps, n - 1), deps)
  }

  /** A path that follows dependencies inside `names`; it has |c| - 1 edges. */
  ghost predicate IsChain(c: seq<string>, names: set<string>, deps: Deps) {
    && c != []
    && (forall i :: 0 <= i < |c| ==> c[i] in names)
    && (forall i :: 0 < i < |c| ==> c[i] in Of(deps, c[i - 1]))
  }

  ghost predicate IsCycle(c: seq<string>, names: set<string>, deps: Deps) {
    IsChain(c, names, deps) && |c| >= 2 && c[0] == c[|c| - 1]
  }

  ghost predicate Cyclic(names: set<string>, deps: Deps) {
    exists c :: IsCycle(c, names, deps)
  }

  ghost predicate ChainFrom(x: string, edges: nat, names: set<string>, deps: Deps) {
    exists c :: IsChain(c, names, deps) && c[0] == x && |c| == edges + 1
  }

  /** `x` leaves in round n: it waits for n rounds and not for another one. */
  ghost predicate LeavesInRound(x: string, n: nat, names: set<string>, deps: Deps) {
    x in Waiting(names, deps, n) && x !in Waiting(names, deps, n + 1)
  }

  /** The waiting sets only shrink. */
  lemma {:induction false} WaitingShrinks(names: set<string>, deps: Deps, m: nat, n: nat)
    requires m <= n
    ensures Waiting(names, deps, n) <= Waiting(names, deps, m)
    decreases n
  {
    if m < n {
      WaitingShrinks(names, deps, m, n - 1);
    }
  }

  /** Waiting for n rounds is the same as having a chain of n edges. */
  lemma {:induction false} WaitingIffChain(x: string, n: nat, names: set<string>, deps: Deps)
    ensures x in Waiting(names, deps, n) <==> ChainFrom(x, n, names, deps)
    decreases n
  {
    if n == 0 {
      if x in names {
        assert IsChain([x], names, deps);
      }
    } else {
      if x in Waiting(names, deps, n) {
        WaitingShrinks(names, deps, 0, n - 1);
        var d :| d in Of(deps, x) * Waiting(names, deps, n - 1);
        WaitingIffChain(d, n - 1, names, deps);
        LongerChain(x, d, n - 1, names, deps);
      }
      if ChainFrom(x, n, names, deps) {
        var d := NextInChain(x, n, names, deps);
        WaitingIffChain(d, n - 1, names, deps);
        WaitingIffChain(x, n - 1, names, deps);
        assert d in Of(deps, x) * Waiting(names, deps, n - 1);
      }
    }
  }

  lemma LongerChain(x: string, d: string, n: nat, names: set<string>, deps: Deps)
    requires x in names && d in Of(deps, x) && ChainFrom(d, n, names, deps)
    ensures ChainFrom(x, n + 1, names, deps)
  {
    var c :| IsChain(c, names, deps) && c[0] == d && |c| == n + 1;
    var c' := [x] + c;
    assert forall i :: 0 < i < |c'| ==> c'[i] == c[i - 1];
    assert IsChain(c', names, deps);
  }

  /** The second name of a chain starts one that is an edge shorter; so does the first. */
  lemma NextInChain(x: string, n: nat, names: set<string>, deps: Deps) returns (d: string)
    requires n > 0 && ChainFrom(x, n, names, deps)
    ensures d in Of(deps, x) && ChainFrom(d, n - 1, names, deps) && ChainFrom(x, n - 1, names, deps)
  {
    var c :| IsChain(c, names, deps) && c[0] == x && |c| == n + 1;
    d := c[1];
    var tail := c[1..];
    assert forall i :: 0 <= i < |tail| ==> tail[i] == c[i + 1];
    assert IsChain(tail, names, deps);
    assert IsChain(c[..n], names, deps) && c[..n][0] == x;
  }

  /** A sequence longer than a set that holds its elements repeats one. */
  lemma {:induction false} Pigeonhole(c: seq<string>, s: set<string>) returns (i: nat, j: nat)
    requires forall k :: 0 <= k < |c| ==> c[k] in s
    requires |c| > |s|
    ensures i < j < |c| && c[i] == c[j]
    decreases |s|
  {
    var last := |c| - 1;
    if k :| 0 <= k < last && c[k] == c[last] {
      i, j := k, last;
    } else {
      i, j := Pigeonhole(c[..last], s - {c[last]});
    }
  }

  /** A stuck, non-empty waiting set contains a cycle. */
  lemma StuckHasCycle(names: set<string>, deps: Deps)
    requires names != {} && Blocked(names, deps) == names
    ensures Cyclic(names, deps)
  {
    StuckForever(names, deps, |names|);
    var x :| x in names;
    WaitingIffChain(x, |names|, names, deps);
    var c :| IsChain(c, names, deps) && c[0] == x && |c| == |names| + 1;
    var i, j := Pigeonhole(c, names);
    CutOutCycle(c, i, j, names, deps);
  }

  lemma CutOutCycle(c: seq<string>, i: nat, j: nat, names: set<string>, deps: Deps)
    requires IsChain(c, names, deps) && i < j < |c| && c[i] == c[j]
    ensures IsCycle(c[i..j + 1], names, deps)
  {
    var loop := c[i..j + 1];
    assert forall k :: 0 <= k < |loop| ==> loop[k] == c[i + k];
  }

  lemma {:induction false} StuckForever(names: set<string>, deps: Deps, n: nat)
    requires Blocked(names, deps) == names
    ensures Waiting(names, deps, n) == names
  {
    if n > 0 {
      StuckForever(names, deps, n - 1);
    }
  }

  /** The members of a cycle never leave. */
  lemma {:induction false} CycleWaitsForever(c: seq<string>, names: set<string>, deps: Deps, n: nat)
    requires IsCycle(c, names, deps)
    ensures forall i :: 0 <= i < |c| ==> c[i] in Waiting(names, deps, n)
  {
    if n > 0 {
      CycleWaitsForever(c, names, deps, n - 1);
      forall i | 0 <= i < |c|
        ensures c[i] in Waiting(names, deps, n)
      {
        var next := if i == |c| - 1 then 1 else i + 1;
        assert c[next] in Of(deps, c[i]) * Waiting(names, deps, n - 1);
      }
    }
  }

  lemma CycleInSubset(names: set<string>, more: set<string>, deps: Deps)
    requires names <= more && Cyclic(names, deps)
    ensures Cyclic(more, deps)
  {
    var c :| IsCycle(c, names, deps);
    assert IsCycle(c, more, deps);
  }

  lemma {:induction false} WaitingCompose(names: set<string>, deps: Deps, m: nat, n: nat)
    ensures Waiting(Waiting(names, deps, m), deps, n) == Waiting(names, deps, m + n)
    decreases n
  {
    if n > 0 {
      WaitingCompose(names, deps, m, n - 1);
    }
  }

  lemma {:induction false} DrainsOrSticks(names: set<string>, deps: Deps) returns (n: nat)
    ensures n <= |names|
    ensures Blocked(Waiting(names, deps, n), deps) == Waiting(names, deps, n)
    decreases |names|
  {
    if Blocked(names, deps) == names {
      n := 0;
    } else {
      var next := Blocked(names, deps);
      assert next < names;
      SubsetSmaller(next, names);
      var k := DrainsOrSticks(next, deps);
      n := k + 1;
      WaitingCompose(names, deps, 1, k);
      assert Waiting(names, deps, 1) == next by {
        assert Waiting(names, deps, 0) == names;
      }
    }
  }

  lemma SubsetSmaller(a: set<string>, b: set<string>)
    requires a < b
    ensures |a| < |b|
  {
    var rest := b - a;
    assert b == a + rest;
    assert rest != {};
  }

  /** The rounds drain the set exactly when the dependencies have no cycle in it. */
  lemma DrainsIffAcyclic(names: set<string>, deps: Deps)
    ensures (exists n: nat :: Waiting(names, deps, n) == {}) <==> !Cyclic(names, deps)
  {
    if n: nat :| Waiting(names, deps, n) == {} {
      if c :| IsCycle(c, names, deps) {
        CycleWaitsForever(c, names, deps, n);
        assert false;
      }
    }
    if !Cyclic(names, deps) {
      var n := DrainsOrSticks(names, deps);
      var rest := Waiting(names, deps, n);
      WaitingShrinks(names, deps, 0, n);
      if rest != {} {
        StuckHasCycle(rest, deps);
        CycleInSubset(rest, names, deps);
        assert false;
      }
    }
  }

  /** The round in which a name leaves is the length of its longest chain. */
  lemma RoundIsLongestChain(x: string, n: nat, names: set<string>, deps: Deps)
    ensures LeavesInRound(x, n, names, deps) <==>
            ChainFrom(x, n, names, deps) && forall m: nat :: m > n ==> !ChainFrom(x, m, names, deps)
  {
    WaitingIffChain(x, n, names, deps);
    WaitingIffChain(x, n + 1, names, deps);
    if LeavesInRound(x, n, names, deps) {
      forall m: nat | m > n
        ensures !ChainFrom(x, m, names, deps)
      {
        WaitingIffChain(x, m, names, deps);
        WaitingShrinks(names, deps, n + 1, m);
      }
    }
  }

  /** A layer number for every name, above the layers of what it depends on. */
  ghost predicate IsLayering(layer: map<string, nat>, names: set<string>, deps: Deps) {
    && names <= layer.Keys
    && forall x, d :: x in names && d in names && d in Of(deps, x) ==> layer[d] < layer[x]
  }

  /** No schedule beats the rounds: a name that waits n rounds has layer at least n. */
  lemma {:induction false} RoundsAreMinimal(layer: map<string, nat>, names: set<string>, deps: Deps, x: string, n: nat)
    requires IsLayering(layer, names, deps)
    requires x in Waiting(names, deps, n)
    ensures x in layer && layer[x] >= n
    decreases n
  {
    WaitingShrinks(names, deps, 0, n);
    if n > 0 {
      var d :| d in Of(deps, x) * Waiting(names, deps, n - 1);
      WaitingShrinks(names, deps, 0, n - 1);
      RoundsAreMinimal(layer, names, deps, d, n - 1);
    }
  }

  /** Any layering rules out cycles. */
  lemma LayeringIsAcyclic(layer: map<string, nat>, names: set<string>, deps: Deps)
    requires IsLayering(layer, names, deps)
    ensures !Cyclic(names, deps)
  {
    if c :| IsCycle(c, names, deps) {
      var n := layer[c[0]] + 1;
      CycleWaitsForever(c, names, deps, n);
      RoundsAreMinimal(layer, names, deps, c[0], n);
      assert false;
    }
  }

  /** The round in which a name leaves, on an acyclic set. */
  ghost function Height(x: string, names: set<string>, deps: Deps): (n: nat)
    requires x in names && !Cyclic(names, deps)
    ensures LeavesInRound(x, n, names, deps)
  {
    LeavesEventually(x, names, deps);
    var n: nat :| LeavesInRound(x, n, names, deps);
    n
  }

  lemma LeavesEventually(x: string, names: set<string>, deps: Deps)
    requires x in names && !Cyclic(names, deps)
    ensures exists n: nat :: LeavesInRound(x, n, names, deps)
  {
    DrainsIffAcyclic(names, deps);
    var n: nat :| Waiting(names, deps, n) == {};
    var k := LastWait(x, names, deps, n);
  }

  lemma {:induction false} LastWait(x: string, names: set<string>, deps: Deps, n: nat) returns (k: nat)
    requires x in names && x !in Waiting(names, deps, n)
    ensures LeavesInRound(x, k, names, deps)
  {
    if x in Waiting(names, deps, n - 1) {
      k := n - 1;
    } else {
      k := LastWait(x, names, deps, n - 1);
    }
  }

  lemma HeightUnique(x: string, n: nat, names: set<string>, deps: Deps)
    requires x in names && !Cyclic(names, deps) && LeavesInRound(x, n, names, deps)
    ensures Height(x, names, deps) == n
  {
    var k := Height(x, names, deps);
    if k < n {
      WaitingShrinks(names, deps, k + 1, n);
    } else if n < k {
      WaitingShrinks(names, deps, n + 1, k);
    }
  }

  /** The height of a name is the length of its longest chain. */
  lemma HeightIsLongestChain(x: string, n: nat, names: set<string>, deps: Deps)
    requires x in names && !Cyclic(names, deps)
    ensures Height(x, names, deps) == n <==>
            ChainFrom(x, n, names, deps) && forall m: nat :: m > n ==> !ChainFrom(x, m, names, deps)
  {
    RoundIsLongestChain(x, n, names, deps);
    if LeavesInRound(x, n, names, deps) {
      HeightUnique(x, n, names, deps);
    }
  }

  /** Following a dependency strictly lowers the height. */
  lemma HeightDrops(x: string, d: string, names: set<string>, deps: Deps)
    requires !Cyclic(names, deps)
    requires x in names && d in names && d in Of(deps, x)
    ensures Height(d, names, deps) < Height(x, names, deps)
  {
    var n := Height(d, names, deps);
    assert d in Of(deps, x) * Waiting(names, deps, n);
    var k := Height(x, names, deps);
    if k < n + 1 {
      WaitingShrinks(names, deps, 0, n);
      WaitingClimbs(x, d, n, names, deps);
      WaitingShrinks(names, deps, k + 1, n + 1);
    }
  }

  lemma {:induction false} WaitingClimbs(x: string, d: string, n: nat, names: set<string>, deps: Deps)
    requires x in names && d in Of(deps, x) && d in Waiting(names, deps, n)
    ensures x in Waiting(names, deps, n + 1)
  {
    if n > 0 {
      WaitingShrinks(names, deps, n - 1, n);
      WaitingClimbs(x, d, n - 1, names, deps);
    }
    assert d in Of(deps, x) * Waiting(names, deps, n);
  }

  /** A closed acyclic set stays closed and acyclic when it gains a name whose
      dependencies it already holds. */
  lemma ExtendAcyclic(done: set<string>, d: string, deps: Deps)
    requires !Cyclic(done, deps)
    requires forall x :: x in done ==> Of(deps, x) <= done
    requires Of(deps, d) <= done
    ensures !Cyclic(done + {d}, deps)
  {
    if d in done {
      assert done + {d} == done;
    } else {
      DrainsIffAcyclic(done, deps);
      var n: nat :| Waiting(done, deps, n) == {};
      ExtendWaiting(done, d, deps, n);
      var after: nat := n + 1;
      WaitingShrinks(done + {d}, deps, n, after);
      assert d !in Waiting(done + {d}, deps, after) by {
        assert Of(deps, d) * Waiting(done + {d}, deps, n) == {};
      }
      assert Waiting(done + {d}, deps, after) == {};
      DrainsIffAcyclic(done + {d}, deps);
    }
  }

  lemma {:induction false} ExtendWaiting(done: set<string>, d: string, deps: Deps, n: nat)
    requires d !in done
    requires forall x :: x in done ==> Of(deps, x) <= done
    requires Of(deps, d) <= done
    ensures Waiting(done + {d}, deps, n) <= Waiting(done, deps, n) + {d}
  {
    if n > 0 {
      ExtendWaiting(done, d, deps, n - 1);
      WaitingShrinks(done, deps, 0, n - 1);
      WaitingShrinks(done + {d}, deps, 0, n);
    }
  }
}
