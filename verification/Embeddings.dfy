/** Cosine similarity of embedding vectors, over the reals. */
module Embeddings {
  import opened Commons

  datatype EmbeddingError = EmptyVector | DimensionMismatch(dim1: nat, dim2: nat) | ZeroMagnitude

  datatype Outcome<T> = Ok(value: T) | Err(error: EmbeddingError)

  type Vector = seq<real>

  function Dot(a: Vector, b: Vector): real
    requires |a| == |b|
  {
    if a == [] then 0.0 else Times(a[0], b[0]) + Dot(a[1..], b[1..])
  }

  function SumSq(a: Vector): real {
    Dot(a, a)
  }

  /** `norm` is the square root of the sum of squares. */
  ghost predicate IsNorm(norm: real, a: Vector) {
    norm >= 0.0 && Square(norm) == SumSq(a)
  }

  function Mix(s: real, x: real, t: real, y: real): real {
    s * x + t * y
  }

  /** `s * a + t * b`, component by component. */
  function Combine(s: real, a: Vector, t: real, b: Vector): (c: Vector)
    requires |a| == |b|
    ensures |c| == |a|
    ensures forall i :: 0 <= i < |a| ==> c[i] == Mix(s, a[i], t, b[i])
  {
    if a == [] then [] else [Mix(s, a[0], t, b[0])] + Combine(s, a[1..], t, b[1..])
  }

  /** A stored embedding; the norm is computed when none is supplied and then kept. */
  class EmbeddingWrapper {
    var vector: Vector
    var norm: real
    const threshold: real

    constructor (vector: Vector, norm: real, threshold: real)
      ensures this.vector == vector && this.norm == norm && this.threshold == threshold
    {
      this.vector, this.norm, this.threshold := vector, norm, threshold;
    }

    /** Building a wrapper: a stored norm is taken as it is, a missing one is computed.
        `root` is what `math.sqrt` returns for the sum of squares. */
    static method Create(vector: Vector, stored: real, hasStored: bool, threshold: real, root: real)
      returns (r: Outcome<EmbeddingWrapper>)
      requires IsNorm(root, vector)
      ensures r == Err(EmptyVector) <==> !hasStored && vector == []
      ensures r.Ok? ==> fresh(r.value) && r.value.vector == vector && r.value.threshold == threshold
      ensures r.Ok? ==> r.value.norm == if hasStored then stored else root
      ensures r.Err? ==> r.error == EmptyVector
    {
      var e := new EmbeddingWrapper(vector, stored, threshold);
      if !hasStored {
        var n := e.Norm(root);
        if n.Err? {
          return Err(n.error);
        }
      }
      r := Ok(e);
    }

    /** `norm`: recomputes the length of the vector and keeps it. */
    method Norm(root: real) returns (r: Outcome<real>)
      requires IsNorm(root, vector)
      modifies `norm
      ensures vector == [] ==> r == Err(EmptyVector) && norm == old(norm)
      ensures vector != [] ==> r == Ok(root) && norm == root
    {
      if vector == [] {
        return Err(EmptyVector);
      }
      norm := root;
      r := Ok(root);
    }

    static method Cosine(e1: EmbeddingWrapper, e2: EmbeddingWrapper) returns (r: Outcome<real>)
      ensures r == CosineOf(e1.vector, e1.norm, e2.vector, e2.norm)
    {
      if e1.vector == [] || e2.vector == [] {
        return Err(EmptyVector);
      }
      if |e1.vector| != |e2.vector| {
        return Err(DimensionMismatch(|e1.vector|, |e2.vector|));
      }
      var dot := 0.0;
      var i := |e1.vector|;
      while i > 0
        invariant 0 <= i <= |e1.vector|
        invariant dot == Dot(e1.vector[i..], e2.vector[i..])
      {
        i := i - 1;
        assert e1.vector[i..][1..] == e1.vector[i + 1..] && e2.vector[i..][1..] == e2.vector[i + 1..];
        dot := e1.vector[i] * e2.vector[i] + dot;
      }
      assert e1.vector[0..] == e1.vector && e2.vector[0..] == e2.vector;
      if e1.norm == 0.0 || e2.norm == 0.0 {
        return Err(ZeroMagnitude);
      }
      r := Ok(dot / (e1.norm * e2.norm));
    }

    /** `__eq__`: similar enough for the threshold of the left operand. */
    method Equals(other: EmbeddingWrapper) returns (r: Outcome<bool>)
      ensures var c := CosineOf(vector, norm, other.vector, other.norm);
              r == if c.Err? then Err(c.error) else Ok(c.value >= threshold)
    {
      var c := Cosine(this, other);
      r := if c.Err? then Err(c.error) else Ok(c.value >= threshold);
    }
  }

  /** What `cosine` returns for two vectors with the norms stored beside them. */
  function CosineOf(a: Vector, na: real, b: Vector, nb: real): Outcome<real> {
    if a == [] || b == [] then Err(EmptyVector)
    else if |a| != |b| then Err(DimensionMismatch(|a|, |b|))
    else if na == 0.0 || nb == 0.0 then Err(ZeroMagnitude)
    else Ok(Dot(a, b) / (na * nb))
  }

  lemma {:induction false} DotSymmetric(a: Vector, b: Vector)
    requires |a| == |b|
    ensures Dot(a, b) == Dot(b, a)
  {
    if a != [] {
      DotSymmetric(a[1..], b[1..]);
    }
  }

  ghost predicate AllZero(a: Vector) {
    forall i :: 0 <= i < |a| ==> a[i] == 0.0
  }

  lemma {:induction false} SumSqNonNegative(a: Vector)
    ensures SumSq(a) >= 0.0
  {
    if a != [] {
      SumSqNonNegative(a[1..]);
      assert Times(a[0], a[0]) == Square(a[0]);
      SquareNonNegative(a[0]);
    }
  }

  lemma {:induction false} SumSqOfZeros(a: Vector)
    requires AllZero(a)
    ensures SumSq(a) == 0.0
  {
    if a != [] {
      SumSqOfZeros(a[1..]);
      assert Times(a[0], a[0]) == Square(a[0]);
      SquareNonNegative(a[0]);
    }
  }

  lemma {:induction false} SumSqPositive(a: Vector, i: nat)
    requires i < |a| && a[i] != 0.0
    ensures SumSq(a) > 0.0
  {
    assert Times(a[0], a[0]) == Square(a[0]);
    SquareNonNegative(a[0]);
    SumSqNonNegative(a[1..]);
    if i > 0 {
      SumSqPositive(a[1..], i - 1);
    }
  }

  lemma NormZeroIff(a: Vector, na: real)
    requires IsNorm(na, a)
    ensures na == 0.0 <==> AllZero(a)
  {
    SquareNonNegative(na);
    if AllZero(a) {
      SumSqOfZeros(a);
    } else {
      var i :| 0 <= i < |a| && a[i] != 0.0;
      SumSqPositive(a, i);
    }
  }

  lemma MulPositive(x: real, y: real)
    requires x > 0.0 && y > 0.0
    ensures x * y > 0.0
  {
  }

  function Square(x: real): real {
    Times(x, x)
  }

  lemma TimesPositive(x: real, y: real)
    requires x > 0.0 && y > 0.0
    ensures Times(x, y) > 0.0
  {
    MulPositive(x, y);
  }

  lemma NegatedTimes(x: real, y: real)
    ensures Times(-x, -y) == Times(x, y)
  {
    assert (-x) * (-y) == x * y;
  }

  lemma SquareNonNegative(x: real)
    ensures Square(x) >= 0.0
    ensures x != 0.0 ==> Square(x) > 0.0
  {
    if x > 0.0 {
      TimesPositive(x, x);
    } else if x < 0.0 {
      TimesPositive(-x, -x);
      NegatedTimes(x, x);
    }
  }

  function Quadratic(s: real, t: real, aa: real, ab: real, bb: real): real {
    s * s * aa + 2.0 * s * t * ab + t * t * bb
  }

  /** |s a + t b|^2 = s^2 |a|^2 + 2 s t (a . b) + t^2 |b|^2. */
  lemma {:induction false} SumSqOfCombination(s: real, a: Vector, t: real, b: Vector)
    requires |a| == |b|
    ensures SumSq(Combine(s, a, t, b)) == Quadratic(s, t, SumSq(a), Dot(a, b), SumSq(b))
  {
    if a != [] {
      SumSqOfCombination(s, a[1..], t, b[1..]);
      var c := Combine(s, a, t, b);
      assert c[1..] == Combine(s, a[1..], t, b[1..]);
      var m := Mix(s, a[0], t, b[0]);
      assert SumSq(c) == Times(m, m) + SumSq(c[1..]);
      CombinationStep(s, t, a[0], b[0], SumSq(a[1..]), Dot(a[1..], b[1..]), SumSq(b[1..]));
    }
  }

  lemma CombinationStep(s: real, t: real, x: real, y: real, aa: real, ab: real, bb: real)
    ensures Times(Mix(s, x, t, y), Mix(s, x, t, y)) + Quadratic(s, t, aa, ab, bb)
         == Quadratic(s, t, Times(x, x) + aa, Times(x, y) + ab, Times(y, y) + bb)
  {
    SquareOfSum(s, x, t, y);
    DistributeReal(s * s, x * x, aa);
    DistributeReal(2.0 * s * t, x * y, ab);
    DistributeReal(t * t, y * y, bb);
  }

  lemma SquareOfSum(s: real, x: real, t: real, y: real)
    ensures (s * x + t * y) * (s * x + t * y) == s * s * (x * x) + 2.0 * s * t * (x * y) + t * t * (y * y)
  {
    var p, q := s * x, t * y;
    assert (p + q) * (p + q) == p * p + 2.0 * (p * q) + q * q;
    assert p * p == s * s * (x * x);
    assert q * q == t * t * (y * y);
    assert p * q == s * t * (x * y);
  }

  function Gap(na: real, nb: real, r: real): real {
    2.0 * (na * nb) * (na * nb + r)
  }

  /** |nb a + t b|^2 = 2 p (p + r) where p = na nb, t = na or -na, and r is the dot
      product with the sign of t. */
  lemma GapIsSquare(a: Vector, na: real, b: Vector, nb: real, t: real, r: real)
    requires |a| == |b| && IsNorm(na, a) && IsNorm(nb, b)
    requires (t == na && r == Dot(a, b)) || (t == -na && r == -Dot(a, b))
    ensures SumSq(Combine(nb, a, t, b)) == Gap(na, nb, r)
  {
    SumSqOfCombination(nb, a, t, b);
    GapArithmetic(na, nb, t, Dot(a, b), r, SumSq(a), SumSq(b));
  }

  lemma GapArithmetic(na: real, nb: real, t: real, d: real, r: real, aa: real, bb: real)
    requires aa == Square(na) && bb == Square(nb) && ((t == na && r == d) || (t == -na && r == -d))
    ensures Quadratic(nb, t, aa, d, bb) == Gap(na, nb, r)
  {
    var p := na * nb;
    assert nb * nb * (na * na) == p * p;
    assert t * t == na * na;
    assert t * d == na * r;
    assert 2.0 * nb * t * d == 2.0 * nb * (na * r) == 2.0 * (p * r);
    DistributeReal(2.0 * p, p, r);
  }

  /** With correct norms the product of the norms bounds the dot product on both sides. */
  lemma CauchySchwarz(a: Vector, na: real, b: Vector, nb: real)
    requires |a| == |b| && IsNorm(na, a) && IsNorm(nb, b) && na > 0.0 && nb > 0.0
    ensures -(na * nb) <= Dot(a, b) <= na * nb
  {
    NonNegativeGap(a, na, b, nb, na, Dot(a, b));
    NonNegativeGap(a, na, b, nb, -na, -Dot(a, b));
  }

  lemma NonNegativeGap(a: Vector, na: real, b: Vector, nb: real, t: real, r: real)
    requires |a| == |b| && IsNorm(na, a) && IsNorm(nb, b) && na > 0.0 && nb > 0.0
    requires (t == na && r == Dot(a, b)) || (t == -na && r == -Dot(a, b))
    ensures na * nb + r >= 0.0
  {
    GapIsSquare(a, na, b, nb, t, r);
    SumSqNonNegative(Combine(nb, a, t, b));
    GapSign(na, nb, r, SumSq(Combine(nb, a, t, b)));
  }

  lemma GapSign(na: real, nb: real, r: real, gap: real)
    requires na > 0.0 && nb > 0.0 && gap == Gap(na, nb, r) && gap >= 0.0
    ensures na * nb + r >= 0.0
  {
    MulPositive(na, nb);
    if na * nb + r < 0.0 {
      MulPositive(2.0 * (na * nb), -(na * nb + r));
    }
  }

  /** The documented range: with correct norms the cosine lies between -1 and 1. */
  lemma CosineInRange(a: Vector, na: real, b: Vector, nb: real)
    requires IsNorm(na, a) && IsNorm(nb, b)
    ensures var c := CosineOf(a, na, b, nb); c.Ok? ==> -1.0 <= c.value <= 1.0
  {
    if CosineOf(a, na, b, nb).Ok? {
      CauchySchwarz(a, na, b, nb);
      MulPositive(na, nb);
      DivideBounds(Dot(a, b), na * nb);
    }
  }

  lemma DivideBounds(x: real, p: real)
    requires p > 0.0 && -p <= x <= p
    ensures -1.0 <= x / p <= 1.0
  {
    var q := x / p;
    assert q * p == x;
    if q > 1.0 { MulPositive(q - 1.0, p); } else if q < -1.0 { MulPositive(-1.0 - q, p); }
  }

  /* ---------- stored norms ---------- */

  /** The cosine with this correctly normed vector lies in the documented range. */
  ghost predicate InRangeWith(a: Vector, stored: real, b: Vector, nb: real) {
    |b| == |a| && IsNorm(nb, b) && nb > 0.0 ==>
      (var c := CosineOf(a, stored, b, nb); c.Ok? && -1.0 <= c.value <= 1.0)
  }

  /** A stored norm is not checked.  Every cosine with a correctly normed vector lies in the
      range exactly when the stored norm is, in absolute value, not below the true one. */
  lemma StoredNormKeepsRangeIff(a: Vector, n: real, stored: real)
    requires a != [] && IsNorm(n, a) && stored != 0.0
    ensures (forall b: Vector, nb: real :: InRangeWith(a, stored, b, nb)) <==> stored >= n || stored <= -n
  {
    if stored >= n || stored <= -n {
      forall b: Vector, nb: real ensures InRangeWith(a, stored, b, nb) {
        if |b| == |a| && IsNorm(nb, b) && nb > 0.0 {
          DotBound(a, n, b, nb);
          LargeNormDivides(Dot(a, b), n, nb, stored);
        }
      }
    } else {
      SmallNormLeavesRange(a, n, stored);
      assert !InRangeWith(a, stored, a, n);
    }
  }

  /** Cauchy and Schwarz, the zero vector included. */
  lemma DotBound(a: Vector, n: real, b: Vector, nb: real)
    requires |a| == |b| && IsNorm(n, a) && IsNorm(nb, b) && nb > 0.0
    ensures -Times(n, nb) <= Dot(a, b) <= Times(n, nb)
  {
    if n > 0.0 {
      CauchySchwarz(a, n, b, nb);
    } else {
      NormZeroIff(a, n);
      DotWithZeros(a, b);
    }
  }

  lemma {:induction false} DotWithZeros(a: Vector, b: Vector)
    requires |a| == |b| && AllZero(a)
    ensures Dot(a, b) == 0.0
  {
    if a != [] {
      DotWithZeros(a[1..], b[1..]);
      assert Times(a[0], b[0]) == 0.0;
    }
  }

  lemma LargeNormDivides(x: real, n: real, nb: real, stored: real)
    requires nb > 0.0 && n >= 0.0 && -Times(n, nb) <= x <= Times(n, nb)
    requires stored != 0.0 && (stored >= n || stored <= -n)
    ensures stored * nb != 0.0 && -1.0 <= x / (stored * nb) <= 1.0
  {
    var p := Times(stored, nb);
    if stored > 0.0 {
      TimesPositive(stored, nb);
      Monotone(n, stored, nb);
      DivideBounds(x, p);
    } else {
      TimesPositive(-stored, nb);
      Monotone(n, -stored, nb);
      assert Times(-stored, nb) == -p;
      DivideBounds(-x, -p);
      NegatedQuotient(x, p);
    }
  }

  lemma Monotone(x: real, y: real, k: real)
    requires x <= y && k > 0.0
    ensures Times(x, k) <= Times(y, k)
  {
    if x < y {
      MulPositive(y - x, k);
    }
  }

  lemma NegatedQuotient(x: real, p: real)
    requires p != 0.0
    ensures (-x) / (-p) == x / p
  {
    var q := x / p;
    assert q * p == x;
    assert q * (-p) == -x;
  }

  /** The cosine of a vector with itself is true norm over stored norm. */
  lemma SmallNormLeavesRange(a: Vector, n: real, stored: real)
    requires a != [] && IsNorm(n, a) && stored != 0.0 && -n < stored < n
    ensures n > 0.0 && CosineOf(a, stored, a, n).Ok?
    ensures var c := CosineOf(a, stored, a, n).value; c > 1.0 || c < -1.0
  {
    var c := Dot(a, a) / (stored * n);
    if stored > 0.0 { MulPositive(stored, n); } else { MulPositive(-stored, n); }
    assert stored * n != 0.0;
    assert c * (stored * n) == Times(n, n);
    QuotientTooLarge(c, stored, n);
  }

  lemma QuotientTooLarge(c: real, stored: real, n: real)
    requires n > 0.0 && -n < stored < n && c * (stored * n) == Times(n, n)
    ensures c > 1.0 || c < -1.0
  {
    assert (c * stored - n) * n == 0.0;
    if c * stored - n > 0.0 {
      MulPositive(c * stored - n, n);
    } else if c * stored - n < 0.0 {
      MulPositive(n - c * stored, n);
    }
    assert c * stored == n;
    if -1.0 <= c <= 1.0 {
      BoundedProduct(c, stored, n);
    }
  }

  lemma BoundedProduct(c: real, x: real, n: real)
    requires -1.0 <= c <= 1.0 && -n < x < n
    ensures c * x < n
  {
    if x >= 0.0 {
      assert c * x <= 1.0 * x by {
        if c < 1.0 && x > 0.0 { MulPositive(1.0 - c, x); }
      }
    } else {
      assert c * x <= -x by {
        if c > -1.0 { MulPositive(c + 1.0, -x); }
      }
    }
  }

  /** For instance, a stored norm of half the true one gives a cosine of 4. */
  lemma WrongNormLeavesRange()
    ensures CosineOf([2.0], 1.0, [2.0], 1.0) == Ok(4.0)
  {
    assert Dot([2.0], [2.0]) == 4.0;
  }

  lemma CosineSymmetric(a: Vector, na: real, b: Vector, nb: real)
    ensures var c, d := CosineOf(a, na, b, nb), CosineOf(b, nb, a, na);
            && (c.Ok? <==> d.Ok?) && (c.Ok? ==> c.value == d.value)
  {
    if |a| == |b| {
      DotSymmetric(a, b);
    }
  }

  /** With correct norms, `ZeroMagnitude` is raised exactly for an all-zero operand. */
  lemma ZeroMagnitudeIffAllZero(a: Vector, na: real, b: Vector, nb: real)
    requires a != [] && |a| == |b| && IsNorm(na, a) && IsNorm(nb, b)
    ensures CosineOf(a, na, b, nb) == Err(ZeroMagnitude) <==>
            AllZero(a) || AllZero(b)
  {
    NormZeroIff(a, na);
    NormZeroIff(b, nb);
  }

  /** b is a positive multiple of a. */
  ghost predicate SameDirection(a: Vector, b: Vector) {
    |a| == |b| && exists k: real :: k > 0.0 && b == Combine(k, a, 0.0, a)
  }

  /** With correct norms the cosine is 1 exactly for two vectors of the same direction,
      in particular for a vector and itself. */
  lemma CosineOneIffSameDirection(a: Vector, na: real, b: Vector, nb: real)
    requires |a| == |b| && IsNorm(na, a) && IsNorm(nb, b) && CosineOf(a, na, b, nb).Ok?
    ensures CosineOf(a, na, b, nb).value == 1.0 <==> SameDirection(a, b)
  {
    MulPositive(na, nb);
    QuotientIsOne(Dot(a, b), na * nb);
    if CosineOf(a, na, b, nb).value == 1.0 {
      AlignedIsMultiple(a, na, b, nb);
    }
    if k: real :| k > 0.0 && b == Combine(k, a, 0.0, a) {
      MultipleIsAligned(a, na, nb, k);
    }
  }

  lemma QuotientIsOne(x: real, p: real)
    requires p > 0.0
    ensures x / p == 1.0 <==> x == p
  {
    assert (x / p) * p == x;
  }

  lemma AlignedIsMultiple(a: Vector, na: real, b: Vector, nb: real)
    requires |a| == |b| && IsNorm(na, a) && IsNorm(nb, b) && na > 0.0 && nb > 0.0
    requires Dot(a, b) == na * nb
    ensures SameDirection(a, b)
  {
    var c := Combine(nb, a, -na, b);
    GapIsSquare(a, na, b, nb, -na, -Dot(a, b));
    ZeroGap(na, nb, -Dot(a, b), SumSq(c));
    assert AllZero(c) by {
      if i :| 0 <= i < |c| && c[i] != 0.0 {
        SumSqPositive(c, i);
      }
    }
    ZeroCombination(na, a, nb, b, c);
  }

  lemma ZeroGap(na: real, nb: real, r: real, gap: real)
    requires gap == Gap(na, nb, r) && na * nb + r == 0.0
    ensures gap == 0.0
  {
  }

  lemma ZeroCombination(na: real, a: Vector, nb: real, b: Vector, c: Vector)
    requires |a| == |b| && na > 0.0 && nb > 0.0 && c == Combine(nb, a, -na, b)
    requires AllZero(c)
    ensures SameDirection(a, b)
  {
    var k := nb / na;
    var d := Combine(k, a, 0.0, a);
    QuotientPositive(nb, na);
    forall i | 0 <= i < |a|
      ensures b[i] == d[i]
    {
      ProportionalAt(na, a, nb, b, c, k, d, i);
    }
    assert b == d;
  }

  lemma ProportionalAt(na: real, a: Vector, nb: real, b: Vector, c: Vector, k: real, d: Vector, i: nat)
    requires i < |a| == |b| && na > 0.0 && k * na == nb
    requires c == Combine(nb, a, -na, b) && d == Combine(k, a, 0.0, a) && c[i] == 0.0
    ensures b[i] == d[i]
  {
    Proportional(na, nb, k, a[i], b[i]);
  }

  lemma QuotientPositive(x: real, y: real)
    requires x > 0.0 && y > 0.0
    ensures x / y > 0.0 && (x / y) * y == x
  {
  }

  lemma Proportional(na: real, nb: real, k: real, x: real, y: real)
    requires na > 0.0 && k * na == nb && Mix(nb, x, -na, y) == 0.0
    ensures y == Mix(k, x, 0.0, x)
  {
    assert nb * x == na * (k * x);
    assert na * (y - k * x) == 0.0;
  }

  lemma MultipleIsAligned(a: Vector, na: real, nb: real, k: real)
    requires k > 0.0 && na > 0.0 && nb > 0.0
    requires IsNorm(na, a) && IsNorm(nb, Combine(k, a, 0.0, a))
    ensures Dot(a, Combine(k, a, 0.0, a)) == na * nb
  {
    SumSqOfCombination(k, a, 0.0, a);
    DotOfMultiple(a, k, a);
    MulPositive(k, na);
    ScaledNorm(na, nb, k, SumSq(a), SumSq(Combine(k, a, 0.0, a)));
  }

  lemma ScaledNorm(na: real, nb: real, k: real, aa: real, bb: real)
    requires na > 0.0 && nb > 0.0 && k * na > 0.0
    requires aa == Square(na) && bb == Square(nb)
    requires bb == Quadratic(k, 0.0, aa, aa, aa)
    ensures k * aa == na * nb
  {
    assert Square(nb) == k * k * (na * na) == Square(k * na);
    SameSquare(nb, k * na);
    assert na * nb == na * (k * na) == k * (na * na);
  }

  lemma SameSquare(x: real, y: real)
    requires x > 0.0 && y > 0.0 && Square(x) == Square(y)
    ensures x == y
  {
    assert (x - y) * (x + y) == Square(x) - Square(y);
    if x < y { MulPositive(y - x, x + y); } else if y < x { MulPositive(x - y, x + y); }
  }

  lemma {:induction false} DotOfMultiple(a: Vector, k: real, b: Vector)
    requires |a| == |b|
    ensures Dot(a, Combine(k, b, 0.0, b)) == k * Dot(a, b)
  {
    if a != [] {
      DotOfMultiple(a[1..], k, b[1..]);
      assert Combine(k, b, 0.0, b)[1..] == Combine(k, b[1..], 0.0, b[1..]);
      ScaleStep(k, a[0], b[0], Dot(a[1..], b[1..]));
    }
  }

  lemma ScaleStep(k: real, x: real, y: real, d: real)
    ensures Times(x, Mix(k, y, 0.0, y)) + k * d == k * (Times(x, y) + d)
  {
    assert x * (k * y) == k * (x * y);
    DistributeReal(k, x * y, d);
  }
}
