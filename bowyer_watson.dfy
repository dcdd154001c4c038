/** The combinatorial skeleton of the Bowyer-Watson insertion loop in
    TP/src/Triangulator.py, as functions on lists of index triples.

    The geometry is a parameter: whether a point lies inside a triangle's
    circumcircle is decided by an arbitrary test `inCircle`, and the three
    super-triangle vertices are given. Everything proved here holds whatever
    that test answers, so it holds for the floating-point test of the source
    and for any other. */
module BowyerWatson {
  import opened PointSets
  import Seqs
  import TM = TriangleMesh

  /** A working triangle: three indices into the extended point list. */
  type TriangleIndices = (int, int, int)

  /** A triangle edge, oriented as it occurs in its triangle. */
  type Edge = (int, int)

  /** `_is_point_in_circumcircle(p, triangle, all_points)`, left abstract. */
  type InCircle = (Point, TriangleIndices, seq<Point>) -> bool

  /** The input points followed by the three super-triangle vertices. */
  function AllPoints(points: seq<Point>, superNodes: (Point, Point, Point)): seq<Point>
  {
    points + [superNodes.0, superNodes.1, superNodes.2]
  }

  /** The seed triangle `(n, n + 1, n + 2)`: the three super-vertices. */
  function SuperTriangle(n: nat): TriangleIndices
  {
    (n, n + 1, n + 2)
  }

  /** The vertex set of a working triangle. The working list holds index
      tuples, whereas `TriangleMesh.Vertices` takes the index lists that
      `Triangles` receives; `AsTriangle` converts one into the other. */
  function Vertices(t: TriangleIndices): set<int>
  {
    {t.0, t.1, t.2}
  }

  /** Three different indices: on index tuples, what
      `TriangleMesh.DistinctVertices` states of index lists. */
  predicate DistinctVertices(t: TriangleIndices)
  {
    t.0 != t.1 && t.1 != t.2 && t.0 != t.2
  }

  /** The edges `(t0, t1), (t1, t2), (t2, t0)`, in the triangle's orientation. */
  function TriEdges(t: TriangleIndices): seq<Edge>
  {
    [(t.0, t.1), (t.1, t.2), (t.2, t.0)]
  }

  /** `tuple(sorted(edge))`. */
  function SortedEdge(e: Edge): (r: Edge)
    ensures r.0 <= r.1 && Ends(r) == Ends(e)
  {
    if e.0 <= e.1 then e else (e.1, e.0)
  }

  /** The sorted edges of a triangle, as the sharing test lists them. */
  function SortedEdges(t: TriangleIndices): seq<Edge>
  {
    [SortedEdge((t.0, t.1)), SortedEdge((t.1, t.2)), SortedEdge((t.2, t.0))]
  }

  /** The unordered pair of an edge's ends. */
  function Ends(e: Edge): set<int>
  {
    {e.0, e.1}
  }

  /** Edge `e` of bad triangle `t` is shared: some other bad triangle has
      the same sorted edge. */
  predicate Shared(e: Edge, t: TriangleIndices, bad: seq<TriangleIndices>)
  {
    exists o :: o in bad && o != t && SortedEdge(e) in SortedEdges(o)
  }

  function NotShared(t: TriangleIndices, bad: seq<TriangleIndices>): Edge -> bool
  {
    e => !Shared(e, t, bad)
  }

  /** The edges of `t` that go into the cavity polygon, in edge order. */
  function KeptEdges(t: TriangleIndices, bad: seq<TriangleIndices>): seq<Edge>
  {
    Seqs.Filter(TriEdges(t), NotShared(t, bad))
  }

  function KeptOf(bad: seq<TriangleIndices>): TriangleIndices -> seq<Edge>
  {
    t => KeptEdges(t, bad)
  }

  /** The cavity polygon: the unshared edges, in bad-triangle order then
      edge order; each bad triangle gives at most its three edges. */
  function Boundary(bad: seq<TriangleIndices>): (r: seq<Edge>)
    ensures |r| <= 3 * |bad|
  {
    assert forall t :: t in bad ==> |KeptOf(bad)(t)| <= 3;
    Seqs.FlatMapLengthBound(bad, KeptOf(bad), 3);
    Seqs.FlatMap(bad, KeptOf(bad))
  }

  /** The new triangles `(a, b, i)`, one per polygon edge, in polygon order. */
  function Fan(polygon: seq<Edge>, i: int): (r: seq<TriangleIndices>)
    ensures |r| == |polygon|
  {
    seq(|polygon|, k requires 0 <= k < |polygon| => (polygon[k].0, polygon[k].1, i))
  }

  /** The bad-triangle test for inserting point `p`. */
  function IsBad(p: Point, allPoints: seq<Point>, inCircle: InCircle): TriangleIndices -> bool
  {
    t => inCircle(p, t, allPoints)
  }

  /** One insertion of point `i`: the triangles that are not bad, in their
      order, followed by the fan of the cavity polygon around `i`. Every bad
      triangle leaves and one triangle comes in per polygon edge. */
  function InsertStep(tris: seq<TriangleIndices>, i: int, isBad: TriangleIndices -> bool): (r: seq<TriangleIndices>)
    ensures |r| == |tris| - |Seqs.Filter(tris, isBad)| + |Boundary(Seqs.Filter(tris, isBad))|
  {
    Seqs.FilterSplitLength(tris, isBad);
    Seqs.Filter(tris, Seqs.Not(isBad)) + Fan(Boundary(Seqs.Filter(tris, isBad)), i)
  }

  /** The working triangulation once the first `k` points are inserted. It
      keeps the working invariant after every insertion, whatever the
      in-circle test answers. */
  function Run(points: seq<Point>, allPoints: seq<Point>, inCircle: InCircle, k: nat): (r: seq<TriangleIndices>)
    requires k <= |points|
    ensures WorkingInvariant(r, k, |points|)
  {
    if k == 0 then
      SeedInvariant(|points|);
      [SuperTriangle(|points|)]
    else
      var previous := Run(points, allPoints, inCircle, k - 1);
      var isBad := IsBad(points[k - 1], allPoints, inCircle);
      InsertPreservesInvariant(previous, k, |points|, isBad);
      InsertStep(previous, k - 1, isBad)
  }

  /** The cleanup test: no index is `>= n`. */
  function Interior(n: int): TriangleIndices -> bool
  {
    (t: TriangleIndices) => !(t.0 >= n || t.1 >= n || t.2 >= n)
  }

  /** An index triple as the list `Triangles` receives. */
  function AsTriangle(t: TriangleIndices): TM.Triangle
  {
    [t.0, t.1, t.2]
  }

  function AsTriangles(ts: seq<TriangleIndices>): (r: seq<TM.Triangle>)
    ensures |r| == |ts|
  {
    seq(|ts|, k requires 0 <= k < |ts| => AsTriangle(ts[k]))
  }

  /** What `triangulate` hands to `Triangles`: the working triangles after
      all `n` insertions whose indices are all below `n`, in order. They
      always pass the `Triangles` checks: every index lies in `[0, n)`, the
      three indices of a triangle differ, and no two triangles have the same
      vertex set. */
  function Triangulation(points: seq<Point>, superNodes: (Point, Point, Point), inCircle: InCircle): (r: seq<TM.Triangle>)
    ensures TM.ValidMesh(r, |points|)
    ensures forall t :: t in r ==> |t| == 3 && forall j :: 0 <= j < 3 ==> 0 <= t[j] < |points|
  {
    var n := |points|;
    var ws := Run(points, AllPoints(points, superNodes), inCircle, n);
    CleanupValid(ws, n);
    AsTriangles(Seqs.Filter(ws, Interior(n)))
  }

  // ---------------------------------------------------------------------
  // The working invariant

  /** Before point `i` is inserted, an index is an inserted point or a super-vertex. */
  predicate Allowed(v: int, i: int, n: int)
  {
    0 <= v < i || n <= v < n + 3
  }

  predicate WorkingTriangle(t: TriangleIndices, i: int, n: int)
  {
    Allowed(t.0, i, n) && Allowed(t.1, i, n) && Allowed(t.2, i, n) && DistinctVertices(t)
  }

  /** Every working triangle has three distinct allowed indices, and no two
      working triangles have the same vertex set. */
  ghost predicate WorkingInvariant(tris: seq<TriangleIndices>, i: int, n: int)
  {
    && (forall t :: t in tris ==> WorkingTriangle(t, i, n))
    && Seqs.KeysDistinct(tris, Vertices)
  }

  /** Sorting an edge loses exactly its orientation. */
  lemma SortedEdgeIff(x: Edge, y: Edge)
    ensures SortedEdge(x) == SortedEdge(y) <==> Ends(x) == Ends(y)
  {
    if Ends(x) == Ends(y) {
      assert x.0 in Ends(y) && x.1 in Ends(y) && y.0 in Ends(x) && y.1 in Ends(x);
    }
  }

  /** The polygon holds edge `e` exactly when `e`, in its own orientation, is
      an edge of a bad triangle that no other bad triangle shares. */
  lemma BoundaryMembership(bad: seq<TriangleIndices>, e: Edge)
    ensures e in Boundary(bad) <==> exists t :: t in bad && e in TriEdges(t) && !Shared(e, t, bad)
  {
    Seqs.FlatMapMembership(bad, KeptOf(bad), e);
    forall t | t in bad ensures e in KeptEdges(t, bad) <==> e in TriEdges(t) && !Shared(e, t, bad) {
      Seqs.FilterMembership(TriEdges(t), NotShared(t, bad), e);
    }
  }

  /** A triangle with distinct vertices has three edges with different ends. */
  lemma TriEdgesDistinct(t: TriangleIndices)
    requires DistinctVertices(t)
    ensures Seqs.KeysDistinct(TriEdges(t), Ends)
  {
    var es := TriEdges(t);
    assert t.2 !in Ends(es[0]) && t.0 !in Ends(es[1]) && t.1 !in Ends(es[2]);
    assert t.2 in Ends(es[1]) && t.0 in Ends(es[2]) && t.1 in Ends(es[0]);
  }

  /** A kept edge of `t` joins other ends than every edge of another bad triangle. */
  lemma KeptEdgeApart(t: TriangleIndices, u: TriangleIndices, bad: seq<TriangleIndices>, x: Edge, y: Edge)
    requires u in bad && u != t
    requires x in KeptEdges(t, bad) && y in TriEdges(u)
    ensures Ends(x) != Ends(y)
  {
    Seqs.FilterMembership(TriEdges(t), NotShared(t, bad), x);
    assert SortedEdge(y) in SortedEdges(u);
    SortedEdgeIff(x, y);
  }

  lemma {:induction false} BoundaryDistinctFrom(s: seq<TriangleIndices>, bad: seq<TriangleIndices>)
    requires Seqs.Distinct(s)
    requires forall t :: t in s ==> t in bad && DistinctVertices(t)
    ensures Seqs.KeysDistinct(Seqs.FlatMap(s, KeptOf(bad)), Ends)
  {
    if s != [] {
      var t, rest := s[0], s[1..];
      var f := KeptOf(bad);
      assert Seqs.Distinct(rest) by {
        forall j, k | 0 <= j < k < |rest| ensures rest[j] != rest[k] {
          assert rest[j] == s[j + 1] && rest[k] == s[k + 1];
        }
      }
      BoundaryDistinctFrom(rest, bad);
      TriEdgesDistinct(t);
      Seqs.FilterKeysDistinct(TriEdges(t), NotShared(t, bad), Ends);
      assert t !in rest by {
        forall k | 0 <= k < |rest| ensures rest[k] != t {
          assert rest[k] == s[k + 1];
        }
      }
      forall x, y | x in f(t) && y in Seqs.FlatMap(rest, f) ensures Ends(x) != Ends(y) {
        KeptApartFromRest(t, rest, bad, x, y);
      }
      Seqs.KeysDistinctConcat(f(t), Seqs.FlatMap(rest, f), Ends);
    }
  }

  /** An edge kept from the head triangle joins other points than every edge
      kept from the triangles after it. */
  lemma KeptApartFromRest(t: TriangleIndices, rest: seq<TriangleIndices>, bad: seq<TriangleIndices>, x: Edge, y: Edge)
    requires t !in rest && t in bad && DistinctVertices(t)
    requires forall u :: u in rest ==> u in bad
    requires x in KeptOf(bad)(t) && y in Seqs.FlatMap(rest, KeptOf(bad))
    ensures Ends(x) != Ends(y)
  {
    Seqs.FlatMapMembership(rest, KeptOf(bad), y);
    var u :| u in rest && y in KeptOf(bad)(u);
    Seqs.FilterMembership(TriEdges(u), NotShared(u, bad), y);
    KeptEdgeApart(t, u, bad, x, y);
  }

  /** No two polygon edges join the same two points. */
  lemma BoundaryDistinct(bad: seq<TriangleIndices>)
    requires Seqs.Distinct(bad)
    requires forall t :: t in bad ==> DistinctVertices(t)
    ensures Seqs.KeysDistinct(Boundary(bad), Ends)
  {
    BoundaryDistinctFrom(bad, bad);
  }

  /** The seed satisfies the working invariant before any point is inserted. */
  lemma SeedInvariant(n: nat)
    ensures WorkingInvariant([SuperTriangle(n)], 0, n)
  {
  }

  /** What one insertion keeps and adds: a triangle is in the result exactly
      when it was a triangle that is not bad, or it is `(a, b, i)` for a
      polygon edge `(a, b)`. */
  lemma InsertStepContents(tris: seq<TriangleIndices>, i: int, isBad: TriangleIndices -> bool, t: TriangleIndices)
    ensures t in InsertStep(tris, i, isBad) <==>
      (t in tris && !isBad(t)) || (t.2 == i && (t.0, t.1) in Boundary(Seqs.Filter(tris, isBad)))
  {
    var b := Boundary(Seqs.Filter(tris, isBad));
    Seqs.FilterMembership(tris, Seqs.Not(isBad), t);
    if t.2 == i && (t.0, t.1) in b {
      var k :| 0 <= k < |b| && b[k] == (t.0, t.1);
      assert Fan(b, i)[k] == t;
    }
  }

  /** Every polygon edge joins two different indices allowed before point `i`. */
  lemma BoundaryAllowed(bad: seq<TriangleIndices>, i: int, n: int)
    requires forall t :: t in bad ==> WorkingTriangle(t, i, n)
    ensures forall e :: e in Boundary(bad) ==> Allowed(e.0, i, n) && Allowed(e.1, i, n) && e.0 != e.1
  {
    forall e | e in Boundary(bad) ensures Allowed(e.0, i, n) && Allowed(e.1, i, n) && e.0 != e.1 {
      BoundaryMembership(bad, e);
    }
  }

  /** The fan around point `i` of a polygon of allowed edges with pairwise
      different ends consists of working triangles through `i`, no two with
      the same vertex set. */
  lemma FanInvariant(polygon: seq<Edge>, i: nat, n: nat)
    requires i < n
    requires forall e :: e in polygon ==> Allowed(e.0, i, n) && Allowed(e.1, i, n) && e.0 != e.1
    requires Seqs.KeysDistinct(polygon, Ends)
    ensures forall t :: t in Fan(polygon, i) ==> WorkingTriangle(t, i + 1, n) && i in Vertices(t)
    ensures Seqs.KeysDistinct(Fan(polygon, i), Vertices)
  {
    var fan := Fan(polygon, i);
    forall k | 0 <= k < |fan| ensures WorkingTriangle(fan[k], i + 1, n) && i in Vertices(fan[k]) {
      assert polygon[k] in polygon;
    }
    forall j, k | 0 <= j < k < |fan| ensures Vertices(fan[j]) != Vertices(fan[k]) {
      assert polygon[j] in polygon && polygon[k] in polygon;
      assert Vertices(fan[j]) - {i} == Ends(polygon[j]);
      assert Vertices(fan[k]) - {i} == Ends(polygon[k]);
    }
  }

  /** One insertion keeps the working invariant, whatever the bad triangles are. */
  lemma InsertPreservesInvariant(tris: seq<TriangleIndices>, k: nat, n: nat, isBad: TriangleIndices -> bool)
    requires 0 < k <= n && WorkingInvariant(tris, k - 1, n)
    ensures WorkingInvariant(InsertStep(tris, k - 1, isBad), k, n)
  {
    var i := k - 1;
    var bad := Seqs.Filter(tris, isBad);
    var kept := Seqs.Filter(tris, Seqs.Not(isBad));
    var fan := Fan(Boundary(bad), i);
    assert (forall t :: t in fan ==> WorkingTriangle(t, k, n) && i in Vertices(t))
           && Seqs.KeysDistinct(fan, Vertices) by {
      Seqs.FilterKeysDistinct(tris, isBad, Vertices);
      Seqs.KeysDistinctIsDistinct(bad, Vertices);
      BoundaryDistinct(bad);
      BoundaryAllowed(bad, i, n);
      FanInvariant(Boundary(bad), i, n);
    }
    Seqs.FilterKeysDistinct(tris, Seqs.Not(isBad), Vertices);
    forall t | t in kept ensures WorkingTriangle(t, k, n) && i !in Vertices(t) {
    }
    forall x, y | x in kept && y in fan ensures Vertices(x) != Vertices(y) {
    }
    Seqs.KeysDistinctConcat(kept, fan, Vertices);
  }

  /** A triangle's sorted key lists its vertex set. */
  lemma SortedKeyVertices(t: TriangleIndices)
    ensures var r := TM.SortedKey(AsTriangle(t)); {r.0, r.1, r.2} == Vertices(t)
  {
  }

  /** The cleanup keeps a valid mesh: once every point is inserted, the
      working triangles with all indices below `n`, as index lists, pass the
      `Triangles` checks, with every index in `[0, n)`. */
  lemma CleanupValid(ws: seq<TriangleIndices>, n: nat)
    requires WorkingInvariant(ws, n, n)
    ensures TM.ValidMesh(AsTriangles(Seqs.Filter(ws, Interior(n))), n)
    ensures forall t :: t in AsTriangles(Seqs.Filter(ws, Interior(n))) ==>
      |t| == 3 && forall j :: 0 <= j < 3 ==> 0 <= t[j] < n
  {
    var c := Seqs.Filter(ws, Interior(n));
    var r := AsTriangles(c);
    Seqs.FilterKeysDistinct(ws, Interior(n), Vertices);
    forall k | 0 <= k < |r| ensures TM.WellFormed(r[k], n) && forall j :: 0 <= j < 3 ==> 0 <= r[k][j] < n {
      assert c[k] in c;
    }
    forall j, k | 0 <= j < k < |r| ensures TM.SortedKey(r[j]) != TM.SortedKey(r[k]) {
      SortedKeyVertices(c[j]);
      SortedKeyVertices(c[k]);
    }
  }
}
