/** Points of 3-D space and the distance gate used when snapping edge endpoints
    onto mesh vertices. Coordinates are exact reals. Distances are compared
    squared, so no square root is needed: `WithinMatchesNorm` shows that the
    squared test agrees with the script's `abs(Vector(q) - Vector(p)) < tol`. */
module Geometry {

  /** A 3-D coordinate: a mesh vertex or an edge endpoint. */
  datatype Point = Point(x: real, y: real, z: real)

  /** The tolerance the conversion script applies to every endpoint. */
  const SnapTolerance: real := 0.2

  /** Squared Euclidean distance between two points. */
  function SqDist(p: Point, q: Point): real
  {
    (p.x - q.x) * (p.x - q.x) + (p.y - q.y) * (p.y - q.y) + (p.z - q.z) * (p.z - q.z)
  }

  // Sign facts about a product `s` of two factors. The product is a
  // parameter of its own rather than a term of the conclusion, so that a
  // square reached through them (both factors the same) is not simplified
  // away before it can be used.

  /** The product of two positive numbers is positive. */
  lemma ProductPositive(a: real, b: real, s: real)
    requires 0.0 < a && 0.0 < b && s == a * b
    ensures 0.0 < s
  {}

  /** The product of two negative numbers is positive. */
  lemma ProductOfNegatives(a: real, b: real, s: real)
    requires a < 0.0 && b < 0.0 && s == a * b
    ensures 0.0 < s
  {}

  /** The square of a non-zero number is positive. */
  lemma SquarePositive(a: real)
    requires a != 0.0
    ensures !(a * a <= 0.0)
  {
    if a < 0.0 {
      ProductOfNegatives(a, a, a * a);
    } else {
      ProductPositive(a, a, a * a);
    }
  }

  /** No square is negative. */
  lemma SquareNonNegative(a: real)
    ensures a * a >= 0.0
  {
    if a != 0.0 {
      SquarePositive(a);
    }
  }

  /** Squaring preserves the order of non-negative numbers. */
  lemma SquareMonotone(a: real, b: real)
    requires 0.0 <= a <= b
    ensures a * a <= b * b
  {
    var lo, mid, hi := a * a, a * b, b * b;
    assert lo <= mid;
    assert mid <= hi;
  }

  /** Squaring preserves the strict order of non-negative numbers. */
  lemma SquareStrictMonotone(a: real, b: real)
    requires 0.0 <= a < b
    ensures a * a < b * b
  {
    if a == 0.0 {
      SquarePositive(b);
    } else {
      var lo, mid, hi := a * a, a * b, b * b;
      assert lo < mid;
      assert mid < hi;
    }
  }

  /** Between non-negative numbers, squaring keeps both the strict and the
      non-strict order, in both directions. */
  lemma SquareOrder(a: real, b: real)
    requires 0.0 <= a && 0.0 <= b
    ensures a < b <==> a * a < b * b
    ensures a <= b <==> a * a <= b * b
  {
    if a < b {
      SquareStrictMonotone(a, b);
    } else if b < a {
      SquareStrictMonotone(b, a);
    }
  }

  /** Two different points are a positive squared distance apart. */
  lemma SqDistPositive(p: Point, q: Point)
    requires p != q
    ensures !(SqDist(p, q) <= 0.0)
  {
    SquareNonNegative(p.x - q.x);
    SquareNonNegative(p.y - q.y);
    SquareNonNegative(p.z - q.z);
    if p.x != q.x {
      SquarePositive(p.x - q.x);
    } else if p.y != q.y {
      SquarePositive(p.y - q.y);
    } else {
      SquarePositive(p.z - q.z);
    }
  }

  /** Only a point itself is at squared distance zero from it. */
  lemma SqDistZero(p: Point, q: Point)
    requires SqDist(p, q) <= 0.0
    ensures p == q
  {
    if p != q {
      SqDistPositive(p, q);
    }
  }

  /** A point is at squared distance zero from itself. */
  lemma SqDistSelf(p: Point)
    ensures SqDist(p, p) == 0.0
  {}

  /** The snap gate: `q` lies strictly closer than `tol` to `p`. A negative
      tolerance admits nothing, as a distance is never below a negative number. */
  predicate Within(q: Point, p: Point, tol: real)
  {
    0.0 <= tol && SqDist(q, p) < tol * tol
  }

  /** Comparing squares against `tol * tol` is the same test as comparing a
      distance `n` (never negative) against `tol`, for every tolerance. */
  lemma SquaredGateMatchesNorm(n: real, tol: real)
    requires 0.0 <= n
    ensures (0.0 <= tol && n * n < tol * tol) <==> n < tol
  {
    if n < tol {
      SquareStrictMonotone(n, tol);
    } else if 0.0 <= tol {
      SquareMonotone(tol, n);
    }
  }

  /** Whenever `n` is the Euclidean distance between `q` and `p` (the
      non-negative root of their squared distance), `Within` is exactly the
      script's test `abs(Vector(q) - Vector(p)) < tol`. */
  lemma WithinMatchesNorm(q: Point, p: Point, tol: real, n: real)
    requires 0.0 <= n && n * n == SqDist(q, p)
    ensures Within(q, p, tol) <==> n < tol
  {
    SquaredGateMatchesNorm(n, tol);
  }

  /** A point is within every positive tolerance of itself. */
  lemma WithinSelf(p: Point, tol: real)
    requires 0.0 < tol
    ensures Within(p, p, tol)
  {
    SquarePositive(tol);
    SqDistSelf(p);
  }
}
