/** The common values of two stepped ranges as one arithmetic progression. */
module Progressions {
  import opened Commons

  /** `count` values from `first` on, `stride` apart; in normal form nothing is recorded that
      does not matter. */
  datatype Progression = Progression(count: nat, first: int, stride: int)

  predicate IsTerm(p: Progression, x: int) {
    exists j :: 0 <= j < p.count && x == Term(p, j)
  }

  function Term(p: Progression, j: int): int {
    p.first + j * p.stride
  }

  predicate Normal(p: Progression) {
    (p.count == 0 ==> p.first == 0) && (p.count <= 1 ==> p.stride == 0) && (p.count > 1 ==> p.stride > 0)
  }

  function Normalised(count: nat, first: int, stride: int): (p: Progression)
    requires stride > 0
    ensures Normal(p)
  {
    Progression(count, if count == 0 then 0 else first, if count <= 1 then 0 else stride)
  }

  /* ---------- divisibility ---------- */

  predicate Multiple(a: int, m: int)
    requires m > 0
  {
    a % m == 0
  }

  lemma IsMultiple(a: int, m: int, k: int)
    requires m > 0 && a == m * k
    ensures Multiple(a, m)
  {
    var q, r := a / m, a % m;
    assert m * (k - q) == r;
    NoRest(m, k - q, r);
  }

  lemma NoRest(m: int, k: int, r: int)
    requires m > 0 && m * k == r && 0 <= r < m
    ensures r == 0
  {
  }

  lemma MultipleSum(a: int, b: int, m: int)
    requires m > 0 && Multiple(a, m) && Multiple(b, m)
    ensures Multiple(a + b, m) && Multiple(a - b, m)
  {
    var p, q := a / m, b / m;
    DistributeInt(m, p, q);
    IsMultiple(a + b, m, p + q);
    IsMultiple(a - b, m, p - q);
  }

  lemma MultipleTimes(a: int, m: int, k: int)
    requires m > 0 && Multiple(a, m)
    ensures Multiple(k * a, m)
  {
    var p := a / m;
    assert a == m * p;
    Regroup(m, p, k);
    IsMultiple(k * a, m, p * k);
  }

  lemma Regroup(m: int, p: int, k: int)
    ensures k * (m * p) == m * (p * k)
  {
  }

  /* ---------- searching the grid ---------- */

  /** Of k, k + 1, ..., the least below n for which `d + i * step` is on the grid of m. */
  function Search(d: int, step: int, m: int, k: nat, n: nat): (i: nat)
    requires m > 0 && k <= n
    ensures k <= i <= n
    ensures i < n ==> Multiple(d + i * step, m)
    ensures forall j :: k <= j < i ==> !Multiple(d + j * step, m)
    decreases n - k
  {
    if k == n || Multiple(d + k * step, m) then k else Search(d, step, m, k + 1, n)
  }

  /** The smallest number of steps that leads from the grid to the grid. */
  function Period(step: int, m: int): (p: nat)
    requires m > 0
    ensures 1 <= p <= m && Multiple(p * step, m)
    ensures forall j :: 1 <= j < p ==> !Multiple(j * step, m)
  {
    IsMultiple(m * step, m, step);
    var p := Search(0, step, m, 1, m + 1);
    assert 0 + m * step == m * step && Multiple(0 + m * step, m);
    assert forall j :: 1 <= j < p ==> !Multiple(0 + j * step, m) && 0 + j * step == j * step;
    p
  }

  lemma PeriodDivides(step: int, m: int, n: nat)
    requires m > 0 && Multiple(n * step, m)
    ensures Multiple(n, Period(step, m))
  {
    var p := Period(step, m);
    var q, r := n / p, n % p;
    assert n == p * q + r;
    MultipleTimes(p * step, m, q);
    SplitSteps(n, p, q, r, step);
    MultipleSum(n * step, q * (p * step), m);
    assert Multiple(r * step, m);
  }

  lemma SplitSteps(n: int, p: int, q: int, r: int, step: int)
    requires n == p * q + r
    ensures n * step - q * (p * step) == r * step
  {
    assert n * step == (p * q) * step + r * step;
    assert (p * q) * step == q * (p * step);
  }

  /** The first number of steps, from none on, that leads onto the grid; m when none does. */
  function Entry(d: int, step: int, m: int): (k: nat)
    requires m > 0
    ensures k <= m && (k < m ==> Multiple(d + k * step, m))
  {
    Search(d, step, m, 0, m)
  }

  /** Whole multiples of m steps stay on the grid. */
  lemma ReducedOnGrid(d: int, step: int, m: int, k: nat, q: nat, r: nat)
    requires m > 0 && k == m * q + r && Multiple(d + k * step, m)
    ensures Multiple(d + r * step, m)
  {
    var whole := q * (m * step);
    SplitSteps(k, m, q, r, step);
    Regroup(m, step, q);
    IsMultiple(whole, m, step * q);
    MultipleSum(d + k * step, whole, m);
  }

  /** Every number of steps that leads onto the grid is the first one and whole periods. */
  lemma OnGridFromEntry(d: int, step: int, m: int, k: nat)
    requires m > 0 && Multiple(d + k * step, m)
    ensures var e := Entry(d, step, m); e < m && e <= k && Multiple(k - e, Period(step, m))
  {
    var q, r := k / m, k % m;
    SmallerRest(k, m);
    ReducedOnGrid(d, step, m, k, q, r);
    var e := Entry(d, step, m);
    MultipleSum(d + k * step, d + e * step, m);
    StepDifference(k, e, step);
    PeriodDivides(step, m, k - e);
  }

  lemma SmallerRest(k: nat, m: nat)
    requires m > 0
    ensures k == m * (k / m) + k % m && k % m <= k && k % m < m
  {
  }

  lemma StepDifference(k: int, e: int, step: int)
    ensures k * step - e * step == (k - e) * step
  {
  }

  /* ---------- the common values ---------- */

  /** x is one of start, start + step, ... below stop. */
  predicate InRange(x: int, start: int, stop: int, step: int)
    requires step > 0
  {
    start <= x < stop && Multiple(x - start, step)
  }

  /** The values that [start, stop) by `step` has in common with [low, high) by m. */
  function Common(start: int, stop: int, step: int, low: int, high: int, m: int): (p: Progression)
    requires step > 0 && m > 0
    ensures Normal(p)
  {
    var e := Entry(start - low, step, m);
    var first, stride := start + e * step, Period(step, m) * step;
    var bound := if stop < high then stop else high;
    StridePositive(Period(step, m), step);
    if e == m || first >= bound then Normalised(0, first, stride)
    else Normalised((bound - first - 1) / stride + 1, first, stride)
  }

  lemma StridePositive(p: int, step: int)
    requires p > 0 && step > 0
    ensures p * step > 0
  {
  }

  lemma CountMeans(room: int, stride: int, j: nat)
    requires stride > 0 && room > 0
    ensures j < (room - 1) / stride + 1 <==> j * stride < room
  {
    var q, r := (room - 1) / stride, (room - 1) % stride;
    assert room - 1 == stride * q + r;
    if j <= q {
      Grows(j, q, stride);
    } else {
      Grows(q + 1, j, stride);
      assert (q + 1) * stride == q * stride + stride;
    }
  }

  lemma Grows(i: int, j: int, k: int)
    requires i <= j && k > 0
    ensures i * k <= j * k
  {
  }

  /** The progression has exactly the common values. */
  lemma CommonMeans(start: int, stop: int, step: int, low: int, high: int, m: int, x: int)
    requires step > 0 && m > 0 && low <= start
    ensures IsTerm(Common(start, stop, step, low, high, m), x)
      <==> InRange(x, start, stop, step) && InRange(x, low, high, m)
  {
    if InRange(x, start, stop, step) && InRange(x, low, high, m) {
      CommonIsTerm(start, stop, step, low, high, m, x);
    }
    if IsTerm(Common(start, stop, step, low, high, m), x) {
      var j :| 0 <= j < Common(start, stop, step, low, high, m).count
            && x == Term(Common(start, stop, step, low, high, m), j);
      TermIsCommon(start, stop, step, low, high, m, j);
    }
  }

  lemma CommonIsTerm(start: int, stop: int, step: int, low: int, high: int, m: int, x: int)
    requires step > 0 && m > 0 && low <= start
    requires InRange(x, start, stop, step) && InRange(x, low, high, m)
    ensures IsTerm(Common(start, stop, step, low, high, m), x)
  {
    var k := StepsTo(start, step, low, m, x);
    OnGridFromEntry(start - low, step, m, k);
    var e, p := Entry(start - low, step, m), Period(step, m);
    var j := WholePeriods(start, step, k, e, p);
    StridePositive(p, step);
    TermBelow(start + e * step, p * step, if stop < high then stop else high, j);
  }

  lemma StepsTo(start: int, step: int, low: int, m: int, x: int) returns (k: nat)
    requires step > 0 && m > 0 && x >= start && Multiple(x - start, step) && Multiple(x - low, m)
    ensures x == start + k * step && Multiple((start - low) + k * step, m)
  {
    var i := (x - start) / step;
    assert x - start == step * i;
    NonNegativeFactor(step, i);
    k := i;
    assert x - low == (start - low) + k * step;
  }

  lemma WholePeriods(start: int, step: int, k: nat, e: nat, p: nat) returns (j: nat)
    requires p > 0 && e <= k && Multiple(k - e, p)
    ensures start + k * step == (start + e * step) + j * (p * step)
  {
    j := (k - e) / p;
    assert k - e == p * j;
    TermOf(start, step, k, e, p, j);
  }

  /** A value of the progression below the bound is one of its counted terms. */
  lemma TermBelow(first: int, stride: int, bound: int, j: nat)
    requires stride > 0 && first + j * stride < bound
    ensures first < bound && IsTerm(Normalised((bound - first - 1) / stride + 1, first, stride), first + j * stride)
  {
    NonNegativeProduct(j, stride);
    CountMeans(bound - first, stride, j);
    TermOfNormalised((bound - first - 1) / stride + 1, first, stride, j);
  }

  lemma NonNegativeFactor(step: int, k: int)
    requires step > 0 && step * k >= 0
    ensures k >= 0
  {
  }

  lemma NonNegativeProduct(j: int, k: int)
    requires j >= 0 && k > 0
    ensures j * k >= 0
  {
  }

  lemma TermOf(start: int, step: int, k: int, e: int, p: int, j: int)
    requires k - e == p * j
    ensures start + k * step == (start + e * step) + j * (p * step)
  {
    assert k * step == e * step + (p * j) * step;
    assert (p * j) * step == j * (p * step);
  }

  lemma TermOfNormalised(count: nat, first: int, stride: int, j: nat)
    requires stride > 0 && j < count
    ensures Term(Normalised(count, first, stride), j) == first + j * stride
    ensures Normalised(count, first, stride).count == count
    ensures IsTerm(Normalised(count, first, stride), first + j * stride)
  {
    assert Term(Normalised(count, first, stride), j) == first + j * stride;
  }

  lemma TermIsCommon(start: int, stop: int, step: int, low: int, high: int, m: int, j: nat)
    requires step > 0 && m > 0 && low <= start && j < Common(start, stop, step, low, high, m).count
    ensures var x := Term(Common(start, stop, step, low, high, m), j);
      InRange(x, start, stop, step) && InRange(x, low, high, m)
  {
    var e, p := Entry(start - low, step, m), Period(step, m);
    StridePositive(p, step);
    var bound := if stop < high then stop else high;
    CountedTerm(start + e * step, p * step, bound, j);
    CommonAt(start, stop, step, low, high, m, e, p, j);
  }

  lemma CountedTerm(first: int, stride: int, bound: int, j: nat)
    requires stride > 0 && first < bound && j < (bound - first - 1) / stride + 1
    ensures Term(Normalised((bound - first - 1) / stride + 1, first, stride), j) == first + j * stride < bound
  {
    CountMeans(bound - first, stride, j);
    TermOfNormalised((bound - first - 1) / stride + 1, first, stride, j);
  }

  lemma CommonAt(start: int, stop: int, step: int, low: int, high: int, m: int, e: nat, p: nat, j: nat)
    requires step > 0 && m > 0 && p > 0 && low <= start
    requires Multiple((start - low) + e * step, m) && Multiple(p * step, m)
    requires (start + e * step) + j * (p * step) < (if stop < high then stop else high)
    ensures var x := (start + e * step) + j * (p * step);
      InRange(x, start, stop, step) && InRange(x, low, high, m)
  {
    var stride := p * step;
    StridePositive(p, step);
    var x := (start + e * step) + j * stride;
    NonNegativeProduct(e, step);
    NonNegativeProduct(j, stride);
    TermOf(start, step, e + p * j, e, p, j);
    Commuted(step, e + p * j);
    IsMultiple(x - start, step, e + p * j);
    MultipleTimes(stride, m, j);
    MultipleSum((start - low) + e * step, j * stride, m);
  }

  lemma Commuted(a: int, b: int)
    ensures a * b == b * a
  {
  }

  /** Progressions in normal form with the same terms are the same. */
  lemma SameTermsSame(p: Progression, q: Progression)
    requires Normal(p) && Normal(q) && forall x :: IsTerm(p, x) <==> IsTerm(q, x)
    ensures p == q
  {
    FewerTerms(p, q);
    FewerTerms(q, p);
    if p.count > 0 {
      FirstNotBelow(p, q);
      FirstNotBelow(q, p);
    }
    if p.count > 1 {
      SecondNotBelow(p, q);
      SecondNotBelow(q, p);
    }
    if p.count != q.count {
      assert p.count <= 1 || q.count <= 1 || p.stride == q.stride;
      CountNotAbove(p, q);
      CountNotAbove(q, p);
    }
  }

  lemma TermAt(p: Progression, j: nat)
    requires j < p.count
    ensures IsTerm(p, Term(p, j))
  {
  }

  /** The count decides between none, one and more. */
  lemma FewerTerms(p: Progression, q: Progression)
    requires Normal(p) && Normal(q) && forall x :: IsTerm(p, x) ==> IsTerm(q, x)
    ensures (p.count > 0 ==> q.count > 0) && (p.count > 1 ==> q.count > 1)
  {
    if p.count > 0 {
      TermAt(p, 0);
      var j :| 0 <= j < q.count && Term(p, 0) == Term(q, j);
      if p.count > 1 {
        TermAt(p, 1);
        var i :| 0 <= i < q.count && Term(p, 1) == Term(q, i);
        assert Term(p, 1) == p.first + p.stride && Term(p, 0) == p.first;
        assert i != j;
      }
    }
  }

  lemma FirstNotBelow(p: Progression, q: Progression)
    requires Normal(p) && Normal(q) && p.count > 0 && forall x :: IsTerm(p, x) ==> IsTerm(q, x)
    ensures q.first <= p.first
  {
    TermAt(p, 0);
    var j :| 0 <= j < q.count && Term(p, 0) == Term(q, j);
    NotBelowFirst(q, j);
  }

  lemma NotBelowFirst(q: Progression, j: nat)
    requires Normal(q) && j < q.count
    ensures Term(q, j) >= q.first && (j > 0 ==> Term(q, j) >= q.first + q.stride)
  {
    if j > 0 {
      Grows(1, j, q.stride);
    }
  }

  lemma SecondNotBelow(p: Progression, q: Progression)
    requires Normal(p) && Normal(q) && p.count > 1 && p.first == q.first && forall x :: IsTerm(p, x) ==> IsTerm(q, x)
    ensures q.stride <= p.stride
  {
    TermAt(p, 1);
    assert Term(p, 1) == p.first + p.stride;
    var j :| 0 <= j < q.count && Term(p, 1) == Term(q, j);
    NotBelowFirst(q, j);
    assert j == 0 ==> Term(q, j) == q.first;
  }

  lemma TermsGrow(p: Progression, i: nat, j: nat)
    requires i < j && p.stride > 0
    ensures Term(p, i) < Term(p, j)
  {
    Grows(i + 1, j, p.stride);
    assert (i + 1) * p.stride == i * p.stride + p.stride;
  }

  lemma CountNotAbove(p: Progression, q: Progression)
    requires Normal(p) && Normal(q) && p.first == q.first && p.stride == q.stride && p.stride > 0
    requires forall x :: IsTerm(p, x) ==> IsTerm(q, x)
    ensures p.count <= q.count
  {
    if p.count > 0 {
      TermAt(p, p.count - 1);
      var j :| 0 <= j < q.count && Term(p, p.count - 1) == Term(q, j);
      if j < p.count - 1 {
        TermsGrow(p, j, p.count - 1);
      }
    }
  }
}
