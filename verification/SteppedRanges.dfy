/** Subtracting one stepped range from another by a modulus test. */
module SteppedRanges {
  import opened Progressions

  /** A parameter: a list, or a range as its three values start, step and end. */
  datatype Param = List(values: seq<int>) | Range(start: int, step: int, end: int)

  datatype Result = Values(values: seq<int>) | ValueError | ZeroDivisionError

  /** `range(start, stop, step)`. */
  function Enumerate(start: int, stop: int, step: int): seq<int>
    requires step != 0
    decreases if step > 0 then stop - start else start - stop
  {
    if Inside(start, stop, step) then [start] + Enumerate(start + step, stop, step) else []
  }

  predicate Inside(x: int, stop: int, step: int) {
    if step > 0 then x < stop else x > stop
  }

  /** The bounds as the code tests them. */
  predicate InBounds(x: int, start: int, stop: int, step: int) {
    if step > 0 then start <= x < stop else stop < x <= start
  }

  predicate Tested(x: int, start: int, stop: int, step: int)
    requires step != 0
  {
    InBounds(x, start, stop, step) && (x - start) % step == 0
  }

  lemma ModuloShift(d: int, step: int)
    requires step != 0
    ensures (d - step) % step == 0 <==> d % step == 0
  {
    if d % step == 0 {
      assert d - step == step * (d / step - 1);
      MultipleHasNoRest(d / step - 1, step);
    }
    if (d - step) % step == 0 {
      assert d == step * ((d - step) / step + 1);
      MultipleHasNoRest((d - step) / step + 1, step);
    }
  }

  lemma MultipleHasNoRest(k: int, step: int)
    requires step != 0
    ensures (step * k) % step == 0
  {
    var q, r := (step * k) / step, (step * k) % step;
    assert step * (k - q) == r;
    SmallMultiple(step, k - q, r);
  }

  lemma SmallMultiple(step: int, m: int, r: int)
    requires step != 0 && step * m == r && 0 <= r && (r < step || r < -step)
    ensures r == 0
  {
  }

  lemma SmallRest(d: int, step: int)
    requires step != 0 && d % step == 0
    requires if step > 0 then 0 <= d < step else step < d <= 0
    ensures d == 0
  {
  }

  lemma TestedStep(x: int, start: int, stop: int, step: int)
    requires step != 0 && Inside(start, stop, step)
    ensures Tested(x, start, stop, step) <==> x == start || Tested(x, start + step, stop, step)
  {
    assert x - (start + step) == (x - start) - step;
    ModuloShift(x - start, step);
    if Tested(x, start, stop, step) && !InBounds(x, start + step, stop, step) {
      SmallRest(x - start, step);
    }
  }

  /** The modulus test is membership in the enumerated range, for steps of either sign. */
  lemma {:induction false} TestIsMembership(x: int, start: int, stop: int, step: int)
    requires step != 0
    ensures Tested(x, start, stop, step) <==> x in Enumerate(start, stop, step)
    decreases if step > 0 then stop - start else start - stop
  {
    if Inside(start, stop, step) {
      TestIsMembership(x, start + step, stop, step);
      TestedStep(x, start, stop, step);
      EnumerateFirst(x, start, stop, step);
    }
  }

  lemma EnumerateFirst(x: int, start: int, stop: int, step: int)
    requires step != 0 && Inside(start, stop, step)
    ensures x in Enumerate(start, stop, step) <==> x == start || x in Enumerate(start + step, stop, step)
  {
  }

  /** The members of a sequence that are not excluded, in order. */
  function Without(xs: seq<int>, excluded: seq<int>): seq<int> {
    if xs == [] then [] else (if xs[0] in excluded then [] else [xs[0]]) + Without(xs[1..], excluded)
  }

  /** Some member falls inside the bounds and would be divided by a step of zero. */
  predicate HitsBounds(xs: seq<int>, start: int, stop: int) {
    xs != [] && (stop < xs[0] <= start || HitsBounds(xs[1..], start, stop))
  }

  /** The rest of the loop when the step is not zero. */
  function Continue(xs: seq<int>, kept: seq<int>, excluded: seq<int>): seq<int> {
    if xs == [] then kept else Continue(xs[1..], if xs[0] in excluded then kept else kept + [xs[0]], excluded)
  }

  lemma {:induction false} ContinueIsWithout(xs: seq<int>, kept: seq<int>, excluded: seq<int>)
    ensures Continue(xs, kept, excluded) == kept + Without(xs, excluded)
  {
    if xs == [] {
      assert kept + [] == kept;
    } else if xs[0] in excluded {
      ContinueIsWithout(xs[1..], kept, excluded);
    } else {
      ContinueIsWithout(xs[1..], kept + [xs[0]], excluded);
      var rest := Without(xs[1..], excluded);
      assert kept + [xs[0]] + rest == kept + ([xs[0]] + rest);
    }
  }

  /** What is left of a range, with the excluded bounds and step as the code takes them. */
  function Difference(main: Param, start: int, stop: int, step: int): Result
    requires main.Range?
  {
    if main.step == 0 then ValueError
    else
      var xs := Enumerate(main.start, main.end, main.step);
      if step != 0 then Values(Without(xs, Enumerate(start, stop, step)))
      else if HitsBounds(xs, start, stop) then ZeroDivisionError
      else Values(xs)
  }

  /** As written: the values of the excluded range are (start, step, end) and are unpacked as
      (start, stop, step), so its step is taken for its stop and its end for its step. */
  method SubtractSteppedRanges(main: Param, other: Param) returns (r: Result)
    ensures r == if main.List? || other.List? then Values([])
                 else Difference(main, other.start, other.step, other.end)
  {
    if main.List? || other.List? {
      return Values([]);
    }
    if main.step == 0 {
      return ValueError;
    }
    var s2, e2, step2 := other.start, other.step, other.end;
    var kept: seq<int> := [];
    var x := main.start;
    ghost var xs := Enumerate(main.start, main.end, main.step);
    if step2 != 0 {
      ContinueIsWithout(xs, [], Enumerate(s2, e2, step2));
    }
    while Inside(x, main.end, main.step)
      invariant step2 != 0 ==>
        Continue(Enumerate(x, main.end, main.step), kept, Enumerate(s2, e2, step2))
        == Continue(xs, [], Enumerate(s2, e2, step2))
      invariant step2 == 0 ==> xs == kept + Enumerate(x, main.end, main.step)
      invariant step2 == 0 ==> (HitsBounds(xs, s2, e2) <==> HitsBounds(Enumerate(x, main.end, main.step), s2, e2))
      decreases if main.step > 0 then main.end - x else x - main.end
    {
      if InBounds(x, s2, e2, step2) && step2 == 0 {
        return ZeroDivisionError;
      }
      var excluded := IsExcluded(x, s2, e2, step2);
      ghost var rest := Enumerate(x + main.step, main.end, main.step);
      assert Enumerate(x, main.end, main.step) == [x] + rest;
      assert kept + ([x] + rest) == kept + [x] + rest;
      if !excluded {
        kept := kept + [x];
      }
      x := x + main.step;
    }
    r := Values(kept);
  }

  method IsExcluded(x: int, start: int, stop: int, step: int) returns (excluded: bool)
    requires step == 0 ==> !InBounds(x, start, stop, step)
    ensures excluded <==> step != 0 && x in Enumerate(start, stop, step)
  {
    if step != 0 {
      TestIsMembership(x, start, stop, step);
    }
    excluded := InBounds(x, start, stop, step) && (x - start) % step == 0;
  }

  /* ---------- what the difference is ---------- */

  predicate Ordered(xs: seq<int>, step: int) {
    forall i, j :: 0 <= i < j < |xs| ==> if step > 0 then xs[i] < xs[j] else xs[i] > xs[j]
  }

  lemma {:induction false} EnumerateBounds(start: int, stop: int, step: int, i: nat)
    requires step != 0 && i < |Enumerate(start, stop, step)|
    ensures var x := Enumerate(start, stop, step)[i]; if step > 0 then x >= start else x <= start
    decreases i
  {
    if i > 0 {
      EnumerateBounds(start + step, stop, step, i - 1);
    }
  }

  lemma {:induction false} EnumerateOrdered(start: int, stop: int, step: int)
    requires step != 0
    ensures Ordered(Enumerate(start, stop, step), step)
    decreases if step > 0 then stop - start else start - stop
  {
    if Inside(start, stop, step) {
      EnumerateOrdered(start + step, stop, step);
      var rest := Enumerate(start + step, stop, step);
      forall i | 0 <= i < |rest| ensures if step > 0 then start < rest[i] else start > rest[i] {
        EnumerateBounds(start + step, stop, step, i);
      }
      OrderedCons(start, rest, step);
    }
  }

  lemma OrderedCons(x: int, xs: seq<int>, step: int)
    requires Ordered(xs, step)
    requires forall i :: 0 <= i < |xs| ==> if step > 0 then x < xs[i] else x > xs[i]
    ensures Ordered([x] + xs, step)
  {
  }

  lemma {:induction false} WithoutMembers(xs: seq<int>, excluded: seq<int>, x: int)
    ensures x in Without(xs, excluded) <==> x in xs && x !in excluded
  {
    if xs != [] {
      WithoutMembers(xs[1..], excluded, x);
    }
  }

  lemma {:induction false} WithoutOrdered(xs: seq<int>, excluded: seq<int>, order: int)
    requires Ordered(xs, order)
    ensures Ordered(Without(xs, excluded), order)
  {
    if xs != [] {
      var rest := Without(xs[1..], excluded);
      WithoutOrdered(xs[1..], excluded, order);
      forall i | 0 <= i < |rest| ensures if order > 0 then xs[0] < rest[i] else xs[0] > rest[i] {
        WithoutMembers(xs[1..], excluded, rest[i]);
        var j :| 0 <= j < |xs[1..]| && xs[1..][j] == rest[i];
        assert xs[j + 1] == rest[i];
      }
    }
  }

  /** The result of the loop for a non-zero step: exactly the members of the main range that
      the excluded range does not enumerate, in the order of the main range, each once. */
  lemma DifferenceIsSetDifference(main: Param, start: int, stop: int, step: int)
    requires main.Range? && main.step != 0 && step != 0
    ensures var r := Difference(main, start, stop, step);
      && r.Values? && Ordered(r.values, main.step)
      && (forall x :: x in r.values <==>
            x in Enumerate(main.start, main.end, main.step) && x !in Enumerate(start, stop, step))
  {
    var xs := Enumerate(main.start, main.end, main.step);
    EnumerateOrdered(main.start, main.end, main.step);
    WithoutOrdered(xs, Enumerate(start, stop, step), main.step);
    forall x ensures x in Without(xs, Enumerate(start, stop, step)) <==> x in xs && x !in Enumerate(start, stop, step) {
      WithoutMembers(xs, Enumerate(start, stop, step), x);
    }
  }

  /* ---------- the promised difference and the one computed ---------- */

  /** What the excluded parameter stands for: from its start to its end by its step. */
  function Promised(main: Param, other: Param): Result
    requires main.Range? && other.Range? && other.step != 0
  {
    Difference(main, other.start, other.end, other.step)
  }

  function Computed(main: Param, other: Param): Result
    requires main.Range? && other.Range?
  {
    Difference(main, other.start, other.step, other.end)
  }

  lemma {:induction false} SameWithout(xs: seq<int>, e: seq<int>, f: seq<int>)
    requires forall x :: x in xs ==> (x in e <==> x in f)
    ensures Without(xs, e) == Without(xs, f)
  {
    if xs != [] {
      var x := xs[0];
      assert x in xs;
      assert x in e <==> x in f;
      SameWithout(xs[1..], e, f);
    }
  }

  /** What the loop does with a member of the main range: the swapped test, which needs a
      step that is not zero. */
  predicate Swapped(other: Param, x: int)
    requires other.Range?
  {
    other.end != 0 && Tested(x, other.start, other.step, other.end)
  }

  /** It would be divided by an end of zero. */
  predicate Trips(other: Param, x: int)
    requires other.Range?
  {
    other.end == 0 && InBounds(x, other.start, other.step, 0)
  }

  /** The loop treats this value as promised. */
  predicate Agree(other: Param, x: int)
    requires other.Range? && other.step != 0
  {
    !Trips(other, x) && (Swapped(other, x) <==> Tested(x, other.start, other.end, other.step))
  }

  /** For all ranges: the loop computes what is promised exactly when it treats every member of
      the main range as promised. */
  lemma RightIffTestsAgree(main: Param, other: Param)
    requires main.Range? && main.step != 0 && other.Range? && other.step != 0
    ensures Computed(main, other) == Promised(main, other) <==>
      forall x :: Tested(x, main.start, main.end, main.step) ==> Agree(other, x)
  {
    if other.end == 0 {
      ZeroEndRight(main, other);
    } else {
      OtherEndRight(main, other);
    }
  }

  lemma OtherEndRight(main: Param, other: Param)
    requires main.Range? && main.step != 0 && other.Range? && other.step != 0 && other.end != 0
    ensures Computed(main, other) == Promised(main, other) <==>
      forall x :: Tested(x, main.start, main.end, main.step) ==> Agree(other, x)
  {
    var xs := Enumerate(main.start, main.end, main.step);
    var v0, v1, v2 := other.start, other.step, other.end;
    forall x
      ensures Tested(x, main.start, main.end, main.step) <==> x in xs
      ensures Agree(other, x) <==> (x in Enumerate(v0, v1, v2) <==> x in Enumerate(v0, v2, v1))
    {
      TestIsMembership(x, main.start, main.end, main.step);
      TestIsMembership(x, v0, v1, v2);
      TestIsMembership(x, v0, v2, v1);
    }
    if forall x :: x in xs ==> Agree(other, x) {
      SameWithout(xs, Enumerate(v0, v1, v2), Enumerate(v0, v2, v1));
    } else {
      var x :| x in xs && !Agree(other, x);
      WithoutMembers(xs, Enumerate(v0, v1, v2), x);
      WithoutMembers(xs, Enumerate(v0, v2, v1), x);
    }
  }

  lemma ZeroEndRight(main: Param, other: Param)
    requires main.Range? && main.step != 0 && other.Range? && other.step != 0 && other.end == 0
    ensures Computed(main, other) == Promised(main, other) <==>
      forall x :: Tested(x, main.start, main.end, main.step) ==> Agree(other, x)
  {
    var xs := Enumerate(main.start, main.end, main.step);
    forall x
      ensures Tested(x, main.start, main.end, main.step) <==> x in xs
      ensures Tested(x, other.start, 0, other.step) <==> x in Enumerate(other.start, 0, other.step)
    {
      TestIsMembership(x, main.start, main.end, main.step);
      TestIsMembership(x, other.start, 0, other.step);
    }
    HitsBoundsMeans(xs, other.start, other.step);
    NothingExcluded(xs, Enumerate(other.start, 0, other.step));
    if x :| x in xs && !Agree(other, x) && !HitsBounds(xs, other.start, other.step) {
      assert x in Enumerate(other.start, 0, other.step);
    }
  }

  lemma {:induction false} HitsBoundsMeans(xs: seq<int>, start: int, stop: int)
    ensures HitsBounds(xs, start, stop) <==> exists x :: x in xs && InBounds(x, start, stop, 0)
  {
    if xs != [] {
      HitsBoundsMeans(xs[1..], start, stop);
      if HitsBounds(xs[1..], start, stop) {
        var x :| x in xs[1..] && InBounds(x, start, stop, 0);
        assert x in xs;
      }
      if x :| x in xs && InBounds(x, start, stop, 0) {
        assert x == xs[0] || x in xs[1..];
      }
      var first := xs[0];
      assert first in xs;
    }
  }

  lemma NothingExcluded(xs: seq<int>, excluded: seq<int>)
    ensures Without(xs, excluded) == xs <==> forall x :: x in xs ==> x !in excluded
  {
    forall x ensures x in Without(xs, excluded) <==> x in xs && x !in excluded {
      WithoutMembers(xs, excluded, x);
    }
    if forall x :: x in xs ==> x !in excluded {
      KeepsAll(xs, excluded);
    }
  }

  lemma {:induction false} KeepsAll(xs: seq<int>, excluded: seq<int>)
    requires forall x :: x in xs ==> x !in excluded
    ensures Without(xs, excluded) == xs
  {
    if xs != [] {
      var x := xs[0];
      assert x in xs;
      assert x !in excluded;
      KeepsAll(xs[1..], excluded);
    }
  }

  /** A main range and an excluded range as the validators let them pass. */
  predicate Validated(main: Param, other: Param) {
    && main.Range? && other.Range? && main.step != 0 && other.step != 0
    && main.start <= main.end && other.start <= other.end
    && main.start <= other.start && other.end <= main.end && main.step <= other.step
  }

  /** The validators of the two parameters, one after the other; a list excludes nothing and
      nothing is excluded from it. */
  method Validate(main: Param, other: Param) returns (ok: bool)
    requires main.Range? && other.Range?
    ensures ok <==> Validated(main, other)
  {
    if other.start > other.end || other.step == 0 {
      return false;
    }
    if main.start > main.end || main.step == 0 {
      return false;
    }
    if main.start > other.start || main.end < other.end || main.step > other.step {
      return false;
    }
    return true;
  }

  /** Every valid range may be excluded from itself; nothing should be left then. */
  lemma ExcludedFromItself(range: Param)
    requires range.Range?
    ensures Validated(range, range) <==> range.step != 0 && range.start <= range.end
    ensures Validated(range, range) ==> Promised(range, range) == Values([])
  {
    if Validated(range, range) {
      var xs := Enumerate(range.start, range.end, range.step);
      NothingLeft(xs, xs);
    }
  }

  lemma {:induction false} NothingLeft(xs: seq<int>, excluded: seq<int>)
    requires forall x :: x in xs ==> x in excluded
    ensures Without(xs, excluded) == []
  {
    if xs != [] {
      var x := xs[0];
      assert x in xs;
      assert x in excluded;
      NothingLeft(xs[1..], excluded);
    }
  }

  /** What is to be excluded from the main range, as first value, stride and number. */
  function Excluded(main: Param, start: int, stop: int, step: int): Progression
    requires main.Range? && main.step > 0 && step > 0
  {
    Common(start, stop, step, main.start, main.end, main.step)
  }

  /** For every pair of ranges the validators accept: the result is right exactly when the main
      range is empty, or the values to be excluded and those excluded by taking step and end
      for each other have the same number, first value and stride; with an end that is not
      positive nothing is excluded, so there must be nothing to exclude. */
  lemma RightIff(main: Param, other: Param)
    requires Validated(main, other)
    ensures Computed(main, other) == Promised(main, other) <==>
      (main.step > 0 ==>
        if other.end > 0
        then Excluded(main, other.start, other.end, other.step) == Excluded(main, other.start, other.step, other.end)
        else Excluded(main, other.start, other.end, other.step).count == 0)
  {
    RightIffTestsAgree(main, other);
    if main.step > 0 {
      if other.end > 0 {
        PositiveEnd(main, other);
      } else {
        OtherEnd(main, other);
      }
    }
  }

  lemma ExcludedMeans(main: Param, start: int, stop: int, step: int, x: int)
    requires main.Range? && main.step > 0 && step > 0 && main.start <= start
    ensures IsTerm(Excluded(main, start, stop, step), x) <==>
      Tested(x, main.start, main.end, main.step) && Tested(x, start, stop, step)
  {
    CommonMeans(start, stop, step, main.start, main.end, main.step, x);
  }

  lemma PositiveEnd(main: Param, other: Param)
    requires Validated(main, other) && main.step > 0 && other.end > 0
    ensures (forall x :: Tested(x, main.start, main.end, main.step) ==> Agree(other, x)) <==>
      Excluded(main, other.start, other.end, other.step) == Excluded(main, other.start, other.step, other.end)
  {
    var p, q := Excluded(main, other.start, other.end, other.step), Excluded(main, other.start, other.step, other.end);
    forall x
      ensures IsTerm(p, x) <==> Tested(x, main.start, main.end, main.step) && Tested(x, other.start, other.end, other.step)
      ensures IsTerm(q, x) <==> Tested(x, main.start, main.end, main.step) && Swapped(other, x)
    {
      ExcludedMeans(main, other.start, other.end, other.step, x);
      ExcludedMeans(main, other.start, other.step, other.end, x);
    }
    if forall x :: Tested(x, main.start, main.end, main.step) ==> Agree(other, x) {
      SameTermsSame(p, q);
    }
  }

  lemma OtherEnd(main: Param, other: Param)
    requires Validated(main, other) && main.step > 0 && other.end <= 0
    ensures (forall x :: Tested(x, main.start, main.end, main.step) ==> Agree(other, x)) <==>
      Excluded(main, other.start, other.end, other.step).count == 0
  {
    var p := Excluded(main, other.start, other.end, other.step);
    forall x
      ensures IsTerm(p, x) <==> Tested(x, main.start, main.end, main.step) && Tested(x, other.start, other.end, other.step)
    {
      ExcludedMeans(main, other.start, other.end, other.step, x);
    }
    if p.count > 0 {
      TermAt(p, 0);
    }
  }

  /** From 0 to 9 without 0, 2 and 4, the loop drops only 0: it subtracts `range(0, 2, 6)`. */
  lemma DropsOnlyTheFirst()
    ensures var main, other := Range(0, 1, 10), Range(0, 2, 6);
      && Validated(main, other)
      && 2 in Computed(main, other).values && 2 !in Promised(main, other).values
  {
    var xs := Enumerate(0, 10, 1);
    TestIsMembership(2, 0, 10, 1);
    TestIsMembership(2, 0, 2, 6);
    TestIsMembership(2, 0, 6, 2);
    WithoutMembers(xs, Enumerate(0, 2, 6), 2);
    WithoutMembers(xs, Enumerate(0, 6, 2), 2);
  }

  /** From 0 to 9 without 0, the only value of 0 to 1 by 5, the loop drops 2 and 4 as well: it
      subtracts `range(0, 5, 2)`. */
  lemma DropsTooMuch()
    ensures var main, other := Range(0, 1, 10), Range(0, 5, 2);
      && Validated(main, other)
      && 4 !in Computed(main, other).values && 4 in Promised(main, other).values
  {
    var xs := Enumerate(0, 10, 1);
    TestIsMembership(4, 0, 10, 1);
    TestIsMembership(4, 0, 5, 2);
    TestIsMembership(4, 0, 2, 5);
    WithoutMembers(xs, Enumerate(0, 5, 2), 4);
    WithoutMembers(xs, Enumerate(0, 2, 5), 4);
  }

  /* ---------- the end value ---------- */

  /** Without an exclusion a range parameter enumerates to its end inclusively, with one it
      stops before: the values are the same exactly when the step does not hit the end. */
  lemma EndIsDroppedIff(start: int, step: int, end: int)
    requires start <= end && step > 0
    ensures Enumerate(start, end + 1, step) == Enumerate(start, end, step) <==> (end - start) % step != 0
    ensures (end - start) % step == 0 ==> Enumerate(start, end + 1, step) == Enumerate(start, end, step) + [end]
  {
    if (end - start) % step == 0 {
      EndReached(start, step, end);
    } else {
      EndMissed(start, step, end);
    }
  }

  lemma {:induction false} EndReached(start: int, step: int, end: int)
    requires start <= end && step > 0 && (end - start) % step == 0
    ensures Enumerate(start, end + 1, step) == Enumerate(start, end, step) + [end]
    decreases end - start
  {
    if start < end {
      ModuloShift(end - start, step);
      assert end - (start + step) == end - start - step;
      if start + step > end {
        SmallRest(end - start, step);
      }
      EndReached(start + step, step, end);
    } else {
      assert Enumerate(start + step, end + 1, step) == [];
    }
  }

  lemma {:induction false} EndMissed(start: int, step: int, end: int)
    requires step > 0 && (end - start) % step != 0
    ensures Enumerate(start, end + 1, step) == Enumerate(start, end, step)
    decreases end + step - start
  {
    if start < end {
      ModuloShift(end - start, step);
      assert end - (start + step) == end - start - step;
      EndMissed(start + step, step, end);
    }
  }
}
