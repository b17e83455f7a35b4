/** Reconciliation of discretised CAD edges with a repaired triangle mesh, as in
    `mesh_object`: every edge endpoint moves onto its nearest mesh vertex when
    that vertex lies strictly within the tolerance, and stays where it is
    otherwise. */
module EdgeSnap {
  import opened Geometry

  /** One edge as a pair of 3-D endpoints. */
  datatype Segment = Segment(p0: Point, p1: Point)

  /** The nearest-vertex search was asked of a mesh with no vertices (numpy's
      `argmin` of an empty array raises). */
  datatype Error = EmptyMesh

  datatype Result<T> = Ok(value: T) | Err(error: Error)

  /** `k` is what `cdist([p], vs).argmin()` returns: an index of a vertex with
      the least distance to `p`, and the first such index. */
  predicate IsFirstNearest(vs: seq<Point>, p: Point, k: nat)
  {
    && k < |vs|
    && (forall j :: 0 <= j < |vs| ==> SqDist(vs[k], p) <= SqDist(vs[j], p))
    && (forall j :: 0 <= j < k ==> SqDist(vs[k], p) < SqDist(vs[j], p))
  }

  /** The first index of least distance to `p` among `vs[..n]`. */
  function FirstNearest(vs: seq<Point>, p: Point, n: nat): (r: nat)
    requires 0 < n <= |vs|
    ensures r < n
    ensures forall j :: 0 <= j < n ==> SqDist(vs[r], p) <= SqDist(vs[j], p)
    ensures forall j :: 0 <= j < r ==> SqDist(vs[r], p) < SqDist(vs[j], p)
  {
    if n == 1 then 0
    else
      var k := FirstNearest(vs, p, n - 1);
      if SqDist(vs[n - 1], p) < SqDist(vs[k], p) then n - 1 else k
  }

  /** The index `argmin` picks over the whole vertex list. */
  function Nearest(vs: seq<Point>, p: Point): (k: nat)
    requires |vs| > 0
    ensures IsFirstNearest(vs, p, k)
  {
    FirstNearest(vs, p, |vs|)
  }

  /** `k` is what numpy's `argmin` returns for the list `n`: the first index
      of its least element. */
  predicate IsFirstMin(n: seq<real>, k: nat)
  {
    && k < |n|
    && (forall j :: 0 <= j < |n| ==> n[k] <= n[j])
    && (forall j :: 0 <= j < k ==> n[k] < n[j])
  }

  /** Ranking by squared distance picks the same vertex as ranking by the
      Euclidean distances `cdist` computes: when `n[j]` is the distance from
      `vs[j]` to `p`, the first nearest vertex is the first minimum of `n`. */
  lemma NearestMatchesEuclideanRanking(vs: seq<Point>, p: Point, n: seq<real>, k: nat)
    requires |n| == |vs|
    requires forall j :: 0 <= j < |n| ==> 0.0 <= n[j] && n[j] * n[j] == SqDist(vs[j], p)
    ensures IsFirstNearest(vs, p, k) <==> IsFirstMin(n, k)
  {
    if k < |vs| {
      forall j | 0 <= j < |vs|
        ensures n[k] <= n[j] <==> SqDist(vs[k], p) <= SqDist(vs[j], p)
        ensures n[k] < n[j] <==> SqDist(vs[k], p) < SqDist(vs[j], p)
      {
        SquareOrder(n[k], n[j]);
      }
    }
  }

  /** Exactly one index is the first nearest, so `argmin` has no freedom. */
  lemma NearestUnique(vs: seq<Point>, p: Point, k1: nat, k2: nat)
    requires IsFirstNearest(vs, p, k1) && IsFirstNearest(vs, p, k2)
    ensures k1 == k2
  {
    assert SqDist(vs[k1], p) <= SqDist(vs[k2], p);
    assert SqDist(vs[k2], p) <= SqDist(vs[k1], p);
  }

  /** Ties go to the lowest index: a later vertex at the least distance is
      never the one chosen. */
  lemma NearestPrefersLowestIndex(vs: seq<Point>, p: Point, i: nat, j: nat)
    requires i < j < |vs|
    requires forall m :: 0 <= m < |vs| ==> SqDist(vs[i], p) <= SqDist(vs[m], p)
    requires SqDist(vs[j], p) == SqDist(vs[i], p)
    ensures Nearest(vs, p) != j
  {}

  /** The left-to-right scan behind `argmin`: keep the first minimum. */
  method NearestVertex(vs: seq<Point>, p: Point) returns (k: nat)
    requires |vs| > 0
    ensures IsFirstNearest(vs, p, k)
    ensures k == Nearest(vs, p)
  {
    k := 0;
    var best := SqDist(vs[0], p);
    for i := 1 to |vs|
      invariant k == FirstNearest(vs, p, i)
      invariant best == SqDist(vs[k], p)
    {
      var d := SqDist(vs[i], p);
      if d < best {
        k, best := i, d;
      }
    }
  }

  /** The coordinate the script keeps for endpoint `p`: the nearest vertex if
      it passes the gate, otherwise `p` itself. */
  function SnapEndpoint(vs: seq<Point>, p: Point, tol: real := SnapTolerance): (r: Point)
    requires |vs| > 0
    ensures r == p || r in vs
    ensures r == p || Within(r, p, tol)
    ensures (exists j :: 0 <= j < |vs| && Within(vs[j], p, tol)) ==> r == vs[Nearest(vs, p)]
    ensures (forall j :: 0 <= j < |vs| ==> !Within(vs[j], p, tol)) ==> r == p
  {
    var k := Nearest(vs, p);
    if Within(vs[k], p, tol) then vs[k] else p
  }

  /** The gate passes exactly when some vertex, not only the nearest one, lies
      strictly within the tolerance of the endpoint. */
  lemma SnapsIffSomeVertexWithin(vs: seq<Point>, p: Point, tol: real)
    requires |vs| > 0
    ensures Within(vs[Nearest(vs, p)], p, tol) <==> exists j :: 0 <= j < |vs| && Within(vs[j], p, tol)
  {
    var k := Nearest(vs, p);
    if j :| 0 <= j < |vs| && Within(vs[j], p, tol) {
      assert SqDist(vs[k], p) <= SqDist(vs[j], p);
    }
  }

  /** An endpoint lying on a mesh vertex comes back as that vertex's
      coordinate, whatever the tolerance: the nearest vertex is then at
      distance zero, so it is the endpoint itself. */
  lemma SnapOnVertex(vs: seq<Point>, p: Point, tol: real, j: nat)
    requires j < |vs| && vs[j] == p
    ensures SnapEndpoint(vs, p, tol) == p
  {
    var k := Nearest(vs, p);
    SqDistSelf(p);
    assert SqDist(vs[k], p) <= SqDist(vs[j], p);
    SqDistZero(vs[k], p);
  }

  /** Snapping an already snapped endpoint changes nothing. */
  lemma SnapIdempotent(vs: seq<Point>, p: Point, tol: real)
    requires |vs| > 0
    ensures SnapEndpoint(vs, SnapEndpoint(vs, p, tol), tol) == SnapEndpoint(vs, p, tol)
  {
    var r := SnapEndpoint(vs, p, tol);
    if r != p {
      var j :| 0 <= j < |vs| && vs[j] == r;
      SnapOnVertex(vs, r, tol, j);
    }
  }

  /** One output edge: each endpoint snapped on its own. */
  function ReconcileSegment(vs: seq<Point>, e: Segment, tol: real): (r: Segment)
    requires |vs| > 0
    ensures r.p0 == e.p0 || r.p0 in vs
    ensures r.p1 == e.p1 || r.p1 in vs
  {
    Segment(SnapEndpoint(vs, e.p0, tol), SnapEndpoint(vs, e.p1, tol))
  }

  /** The two endpoints are independent: the first output endpoint depends
      only on the first input endpoint, the second only on the second. */
  lemma EndpointsIndependent(vs: seq<Point>, a: Segment, b: Segment, tol: real)
    requires |vs| > 0
    ensures a.p0 == b.p0 ==> ReconcileSegment(vs, a, tol).p0 == ReconcileSegment(vs, b, tol).p0
    ensures a.p1 == b.p1 ==> ReconcileSegment(vs, a, tol).p1 == ReconcileSegment(vs, b, tol).p1
  {}

  /** The output edge list of the whole loop: one segment per input edge, in
      input order. */
  function ReconcileAll(vs: seq<Point>, edges: seq<Segment>, tol: real): (r: seq<Segment>)
    requires |vs| > 0 || edges == []
    ensures |r| == |edges|
    ensures forall i :: 0 <= i < |edges| ==> r[i] == ReconcileSegment(vs, edges[i], tol)
  {
    if edges == [] then []
    else [ReconcileSegment(vs, edges[0], tol)] + ReconcileAll(vs, edges[1..], tol)
  }

  /** Reconciling an already reconciled edge list changes nothing. */
  lemma {:induction false} ReconcileAllIdempotent(vs: seq<Point>, edges: seq<Segment>, tol: real)
    requires |vs| > 0
    ensures ReconcileAll(vs, ReconcileAll(vs, edges, tol), tol) == ReconcileAll(vs, edges, tol)
  {
    var r := ReconcileAll(vs, edges, tol);
    var rr := ReconcileAll(vs, r, tol);
    forall i | 0 <= i < |edges|
      ensures rr[i] == r[i]
    {
      SnapIdempotent(vs, edges[i].p0, tol);
      SnapIdempotent(vs, edges[i].p1, tol);
    }
  }

  /** Snaps one endpoint as the loop body does: the `argmin` scan, then the
      distance gate. */
  method SnapPoint(vs: seq<Point>, p: Point, tol: real := SnapTolerance) returns (q: Point)
    requires |vs| > 0
    ensures q == SnapEndpoint(vs, p, tol)
  {
    var k := NearestVertex(vs, p);
    if Within(vs[k], p, tol) {
      q := vs[k];
    } else {
      q := p;
    }
  }

  /** The snapping loop of `mesh_object`: appends one reconciled segment per
      input edge. The first edge fails when the mesh has no vertices; with no
      edges the loop body never runs and nothing fails. */
  method ReconcileEdges(vs: seq<Point>, edges: seq<Segment>, tol: real := SnapTolerance) returns (r: Result<seq<Segment>>)
    ensures r.Err? <==> vs == [] && edges != []
    ensures r.Ok? ==> r.value == ReconcileAll(vs, edges, tol)
  {
    var epts: seq<Segment> := [];
    for i := 0 to |edges|
      invariant |vs| > 0 || i == 0
      invariant |epts| == i
      invariant forall j :: 0 <= j < i ==> epts[j] == ReconcileSegment(vs, edges[j], tol)
    {
      if |vs| == 0 {
        return Err(EmptyMesh);
      }
      var p0 := SnapPoint(vs, edges[i].p0, tol);
      var p1 := SnapPoint(vs, edges[i].p1, tol);
      epts := epts + [Segment(p0, p1)];
    }
    return Ok(epts);
  }

  /** With the script's tolerance 0.2, an endpoint at (10, 0, 0) whose nearest
      vertex is 0.05 away is snapped onto that vertex, and one whose nearest
      vertex is 0.5 away is kept as it is. */
  lemma SnapExamples()
    ensures SnapEndpoint([Point(0.0, 0.0, 0.0), Point(10.05, 0.0, 0.0)], Point(10.0, 0.0, 0.0))
            == Point(10.05, 0.0, 0.0)
    ensures SnapEndpoint([Point(0.0, 0.0, 0.0), Point(10.5, 0.0, 0.0)], Point(10.0, 0.0, 0.0))
            == Point(10.0, 0.0, 0.0)
  {}
}
