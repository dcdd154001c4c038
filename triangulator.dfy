/** `Triangulator` (TP/src/Triangulator.py): the construction-time checks on
    the point set and the Bowyer-Watson loop, written as the loops the source
    runs and proved equal to the functions of `BowyerWatson`.

    The working triangulation is a local list that `triangulate` updates with
    `remove` and `append`; here each update reassigns a sequence. */
module Triangulators {
  import opened Wrappers
  import opened PointSets
  import Seqs
  import TM = TriangleMesh
  import opened BowyerWatson

  /** A triangulator: the point set it was built on, never changed. */
  datatype Triangulator = Triangulator(pointSet: PointSet)

  /** The two construction errors, in the order they are checked. */
  datatype TriangulatorError =
    | TooFewPoints      // "need at least three points for triangulation"
    | DuplicatePoints   // "duplicate points in point set"

  /** `_validate_min_points`: there are enough points exactly when the
      triangle `(0, 1, 2)` over them passes the first three `Triangles` checks. */
  predicate EnoughPoints(points: seq<Point>)
    ensures EnoughPoints(points) <==> TM.WellFormed([0, 1, 2], |points|)
  {
    |points| >= 3
  }

  /** `_validate_no_duplicates`: scans the points in order with a growing
      set of the points seen so far. */
  method ValidateNoDuplicates(points: seq<Point>) returns (r: Outcome<TriangulatorError>)
    ensures r.Pass? <==> Seqs.Distinct(points)
    ensures r.Fail? ==> r.error == DuplicatePoints
  {
    var seen: set<Point> := {};
    for k := 0 to |points|
      invariant seen == set j | 0 <= j < k :: points[j]
      invariant Seqs.Distinct(points[..k])
    {
      var key := points[k];
      if key in seen {
        ghost var j :| 0 <= j < k && points[j] == key;
        return Fail(DuplicatePoints);
      }
      seen := seen + {key};
      assert points[..k + 1] == points[..k] + [key];
    }
    assert points[..|points|] == points;
    return Pass;
  }

  /** `Triangulator.__init__`: at least three points, then no point twice. */
  method NewTriangulator(pointSet: PointSet) returns (r: Result<Triangulator, TriangulatorError>)
    ensures !EnoughPoints(pointSet.points) ==> r == Failure(TooFewPoints)
    ensures EnoughPoints(pointSet.points) ==>
      (r.Success? <==> Seqs.Distinct(pointSet.points)) && (r.Failure? ==> r.error == DuplicatePoints)
    ensures r.Success? ==> r.value == Triangulator(pointSet)
  {
    if !EnoughPoints(pointSet.points) {
      return Failure(TooFewPoints);
    }
    var outcome := ValidateNoDuplicates(pointSet.points);
    if outcome.Fail? {
      return Failure(outcome.error);
    }
    return Success(Triangulator(pointSet));
  }

  /** Step 1: the extended point list and the seed triangulation. */
  method Setup(points: seq<Point>, superNodes: (Point, Point, Point))
      returns (allPoints: seq<Point>, triangulation: seq<TriangleIndices>)
    ensures allPoints == AllPoints(points, superNodes)
    ensures |allPoints| == |points| + 3 && allPoints[..|points|] == points
    ensures allPoints[|points|] == superNodes.0 && allPoints[|points| + 1] == superNodes.1
    ensures allPoints[|points| + 2] == superNodes.2
    ensures triangulation == [SuperTriangle(|points|)]
    ensures WorkingInvariant(triangulation, 0, |points|)
  {
    var n := |points|;
    allPoints := points + [superNodes.0, superNodes.1, superNodes.2];
    triangulation := [(n, n + 1, n + 2)];
    SeedInvariant(n);
  }

  /** The bad triangles for `point`, in working order. */
  method CollectBad(triangulation: seq<TriangleIndices>, point: Point, allPoints: seq<Point>, inCircle: InCircle)
      returns (bad: seq<TriangleIndices>)
    ensures bad == Seqs.Filter(triangulation, IsBad(point, allPoints, inCircle))
  {
    bad := [];
    for k := 0 to |triangulation|
      invariant bad == Seqs.Filter(triangulation[..k], IsBad(point, allPoints, inCircle))
    {
      var tri := triangulation[k];
      assert triangulation[..k + 1] == triangulation[..k] + [tri];
      Seqs.FilterSnoc(triangulation[..k], tri, IsBad(point, allPoints, inCircle));
      if inCircle(point, tri, allPoints) {
        bad := bad + [tri];
      }
    }
    assert triangulation[..|triangulation|] == triangulation;
  }

  /** The inner scan: does another bad triangle list the same sorted edge? */
  method IsShared(edge: Edge, tri: TriangleIndices, bad: seq<TriangleIndices>) returns (shared: bool)
    ensures shared == Shared(edge, tri, bad)
  {
    var sortedEdge := SortedEdge(edge);
    shared := false;
    for k := 0 to |bad|
      invariant !shared
      invariant forall j :: 0 <= j < k ==> bad[j] == tri || sortedEdge !in SortedEdges(bad[j])
    {
      var otherTri := bad[k];
      if tri == otherTri {
        continue;
      }
      var otherEdges := [SortedEdge((otherTri.0, otherTri.1)), SortedEdge((otherTri.1, otherTri.2)),
                         SortedEdge((otherTri.2, otherTri.0))];
      assert otherEdges == SortedEdges(otherTri);
      if sortedEdge in otherEdges {
        assert otherTri in bad;
        shared := true;
        break;
      }
    }
    if !shared {
      forall o | o in bad && o != tri ensures SortedEdge(edge) !in SortedEdges(o) {
        var j :| 0 <= j < |bad| && bad[j] == o;
      }
    }
  }

  /** The inner loop over the three edges of `tri`: those that no other bad
      triangle shares, in edge order. */
  method UnsharedEdges(tri: TriangleIndices, bad: seq<TriangleIndices>) returns (kept: seq<Edge>)
    ensures kept == KeptEdges(tri, bad)
  {
    var edges := [(tri.0, tri.1), (tri.1, tri.2), (tri.2, tri.0)];
    kept := [];
    for j := 0 to 3
      invariant kept == Seqs.Filter(edges[..j], NotShared(tri, bad))
    {
      var edge := edges[j];
      assert edges[..j + 1] == edges[..j] + [edge];
      var shared := IsShared(edge, tri, bad);
      Seqs.FilterSnoc(edges[..j], edge, NotShared(tri, bad));
      if !shared {
        kept := kept + [edge];
      }
    }
    assert edges[..3] == TriEdges(tri);
  }

  /** The cavity polygon: for each bad triangle, each of its edges that no
      other bad triangle shares. */
  method CavityBoundary(bad: seq<TriangleIndices>) returns (polygon: seq<Edge>)
    ensures polygon == Boundary(bad)
  {
    polygon := [];
    for k := 0 to |bad|
      invariant polygon == Seqs.FlatMap(bad[..k], KeptOf(bad))
    {
      var tri := bad[k];
      var kept := UnsharedEdges(tri, bad);
      assert polygon + kept == Seqs.FlatMap(bad[..k + 1], KeptOf(bad)) by {
        assert bad[..k + 1] == bad[..k] + [tri];
        Seqs.FlatMapSnoc(bad[..k], tri, KeptOf(bad));
      }
      polygon := polygon + kept;
    }
    assert bad[..|bad|] == bad;
  }

  /** `for tri in bad_triangles: triangulation.remove(tri)`. */
  method RemoveBad(triangulation: seq<TriangleIndices>, bad: seq<TriangleIndices>)
      returns (r: seq<TriangleIndices>)
    requires Seqs.Distinct(triangulation) && Seqs.Distinct(bad)
    requires forall t :: t in bad ==> t in triangulation
    ensures r == Seqs.Filter(triangulation, Seqs.NotIn(bad))
  {
    r := triangulation;
    Seqs.FilterAll(triangulation, Seqs.NotIn([]));
    for k := 0 to |bad|
      invariant r == Seqs.Filter(triangulation, Seqs.NotIn(bad[..k]))
    {
      var tri := bad[k];
      assert bad[..k + 1] == bad[..k] + [tri];
      assert tri !in bad[..k] by {
        forall j | 0 <= j < k ensures bad[..k][j] != tri { assert bad[..k][j] == bad[j]; }
      }
      Seqs.RemoveFirstFromFiltered(triangulation, bad[..k], tri);
      r := Seqs.RemoveFirst(r, tri);
    }
    assert bad[..|bad|] == bad;
  }

  /** `for edge in polygon: triangulation.append((edge[0], edge[1], i))`. */
  method AppendFan(triangulation: seq<TriangleIndices>, polygon: seq<Edge>, i: int)
      returns (r: seq<TriangleIndices>)
    ensures r == triangulation + Fan(polygon, i)
  {
    r := triangulation;
    for k := 0 to |polygon|
      invariant r == triangulation + Fan(polygon[..k], i)
    {
      var edge := polygon[k];
      assert Fan(polygon[..k + 1], i) == Fan(polygon[..k], i) + [(edge.0, edge.1, i)];
      r := r + [(edge.0, edge.1, i)];
    }
    assert polygon[..|polygon|] == polygon;
  }

  /** Step 3: the working triangles none of whose indices is `>= n`. */
  method Cleanup(triangulation: seq<TriangleIndices>, n: int) returns (finalTriangles: seq<TM.Triangle>)
    ensures finalTriangles == AsTriangles(Seqs.Filter(triangulation, Interior(n)))
  {
    finalTriangles := [];
    for k := 0 to |triangulation|
      invariant finalTriangles == AsTriangles(Seqs.Filter(triangulation[..k], Interior(n)))
    {
      var tri := triangulation[k];
      assert triangulation[..k + 1] == triangulation[..k] + [tri];
      ghost var kept := Seqs.Filter(triangulation[..k], Interior(n));
      Seqs.FilterSnoc(triangulation[..k], tri, Interior(n));
      if !(tri.0 >= n || tri.1 >= n || tri.2 >= n) {
        assert AsTriangles(kept + [tri]) == AsTriangles(kept) + [[tri.0, tri.1, tri.2]];
        finalTriangles := finalTriangles + [[tri.0, tri.1, tri.2]];
      }
    }
    assert triangulation[..|triangulation|] == triangulation;
  }

  /** One pass of the insertion loop: collect the bad triangles for `point`,
      take their unshared edges, remove them, and add the fan around `i`. */
  method InsertPoint(triangulation: seq<TriangleIndices>, i: int, point: Point, allPoints: seq<Point>,
                     inCircle: InCircle) returns (next: seq<TriangleIndices>)
    requires Seqs.Distinct(triangulation)
    ensures next == InsertStep(triangulation, i, IsBad(point, allPoints, inCircle))
  {
    ghost var isBad := IsBad(point, allPoints, inCircle);
    var badTriangles := CollectBad(triangulation, point, allPoints, inCircle);
    var polygon := CavityBoundary(badTriangles);
    Seqs.FilterDistinct(triangulation, isBad);
    next := RemoveBad(triangulation, badTriangles);
    Seqs.FilterOutFiltered(triangulation, isBad);
    next := AppendFan(next, polygon, i);
  }

  /** The incremental loop of `triangulate`: inserts every point in turn,
      starting from the seed triangle. */
  method InsertAll(points: seq<Point>, allPoints: seq<Point>, inCircle: InCircle, seed: seq<TriangleIndices>)
      returns (triangulation: seq<TriangleIndices>)
    requires seed == [SuperTriangle(|points|)]
    ensures triangulation == Run(points, allPoints, inCircle, |points|)
  {
    triangulation := seed;
    for i := 0 to |points|
      invariant triangulation == Run(points, allPoints, inCircle, i)
    {
      assert Seqs.Distinct(triangulation) by {
        Seqs.KeysDistinctIsDistinct(triangulation, Vertices);
      }
      triangulation := InsertPoint(triangulation, i, points[i], allPoints, inCircle);
    }
  }

  /** `Triangulator.triangulate`, with the super-triangle vertices and the
      in-circle test as parameters. The result is the mesh the specification
      `Triangulation` describes, and its construction never fails. */
  method Triangulate(tr: Triangulator, superNodes: (Point, Point, Point), inCircle: InCircle)
      returns (r: TM.Triangles)
    requires EnoughPoints(tr.pointSet.points)
    ensures r.pointSet == tr.pointSet
    ensures r.triangles == Triangulation(tr.pointSet.points, superNodes, inCircle)
    ensures TM.ValidMesh(r.triangles, |tr.pointSet.points|)
  {
    var points := tr.pointSet.points;
    var n := |points|;
    var allPoints, seed := Setup(points, superNodes);
    var triangulation := InsertAll(points, allPoints, inCircle, seed);
    var finalTriangles := Cleanup(triangulation, n);
    assert finalTriangles == Triangulation(points, superNodes, inCircle);
    var result := TM.NewTriangles(tr.pointSet, finalTriangles);
    assert result.Success?;
    r := result.value;
  }
}
