/** A validated triangle mesh over a point set and its binary encoding
    (TP/src/Triangles.py).

    Construction checks the triangles one by one, in list order, each through
    four checks in a fixed order (index count, index range, distinct vertices,
    not a duplicate of an earlier triangle) and stops at the first failure.
    Encoding writes the point-set bytes, the triangle count and three `u32`
    indices per triangle, in the order given. */
module TriangleMesh {
  import opened Wrappers
  import opened LittleEndian
  import PS = PointSets

  /** A triangle as the constructor receives it: a tuple of point indices,
      whose length is only known once the index-count check has passed. */
  type Triangle = seq<int>

  /** A triangle's sorted index triple, `tuple(sorted((i, j, k)))`. */
  type Key = (int, int, int)

  /** The four checks, in the order they run. */
  datatype Violation =
    | WrongIndexCount     // "a triangle don't have exactly 3 indices"
    | IndexOutOfRange     // "triangle indices out of range"
    | RepeatedVertex      // "a triangle must reference three distinct points"
    | DuplicateTriangle   // "duplicate triangles"

  /** The failed check and the position of the triangle that failed it. */
  datatype MeshError = MeshError(at: nat, violation: Violation)

  /** `Triangles`: a point set and the triangles over it, as supplied. */
  datatype Triangles = Triangles(pointSet: PS.PointSet, triangles: seq<Triangle>)

  /** `sorted((a, b, c))`. */
  function Sort3(a: int, b: int, c: int): (r: Key)
    ensures r.0 <= r.1 <= r.2
    ensures r in {(a, b, c), (a, c, b), (b, a, c), (b, c, a), (c, a, b), (c, b, a)}
  {
    if a <= b then
      if b <= c then (a, b, c) else if a <= c then (a, c, b) else (c, a, b)
    else
      if a <= c then (b, a, c) else if b <= c then (b, c, a) else (c, b, a)
  }

  /** `_validate_indices_number`: the triangle unpacks as `i, j, k`. */
  predicate HasThreeIndices(t: Triangle)
    ensures HasThreeIndices(t) <==> exists i: int, j: int, k: int :: [i, j, k] == t
  {
    if |t| == 3 then
      var i, j, k := t[0], t[1], t[2];
      assert [i, j, k] == t;
      true
    else
      false
  }

  /** `_validate_indices_in_range`: every index in `[0, nbPoints)`. */
  predicate IndicesInRange(t: Triangle, nbPoints: int)
    requires |t| == 3
    ensures IndicesInRange(t, nbPoints) <==> forall v :: v in t ==> 0 <= v < nbPoints
  {
    assert t == [t[0], t[1], t[2]];
    assert t[0] in t && t[1] in t && t[2] in t;
    !((t[0] < 0 || t[0] >= nbPoints) || (t[1] < 0 || t[1] >= nbPoints) || (t[2] < 0 || t[2] >= nbPoints))
  }

  /** The set of a triangle's vertices. */
  function Vertices(t: Triangle): set<int>
  {
    set v | v in t
  }

  /** `_validate_distinct_vertices`: `len(set(triangle)) == 3`, which holds
      exactly when the three indices differ pairwise. */
  predicate DistinctVertices(t: Triangle)
    requires |t| == 3
    ensures DistinctVertices(t) <==> t[0] != t[1] && t[1] != t[2] && t[0] != t[2]
  {
    assert Vertices(t) == {t[0], t[1], t[2]};
    ThreeElements(t[0], t[1], t[2]);
    |Vertices(t)| == 3
  }

  /** The key `_validate_not_duplicate` records for a triangle. */
  function SortedKey(t: Triangle): Key
    requires |t| == 3
  {
    Sort3(t[0], t[1], t[2])
  }

  /** The first of the four checks a triangle fails, given the keys of the
      triangles accepted before it; `None` when it passes all four. Each error
      is reported exactly when its check fails and every earlier one passes:
      the range check runs before the distinct-vertices check. */
  function FirstViolation(t: Triangle, nbPoints: int, seen: set<Key>): (r: Option<Violation>)
    ensures r.None? <==> WellFormed(t, nbPoints) && SortedKey(t) !in seen
    ensures r == Some(WrongIndexCount) <==> |t| != 3
    ensures r == Some(IndexOutOfRange) <==> |t| == 3 && exists v :: v in t && !(0 <= v < nbPoints)
    ensures r == Some(RepeatedVertex) <==> |t| == 3 && IndicesInRange(t, nbPoints) && !DistinctVertices(t)
    ensures r == Some(DuplicateTriangle) <==> WellFormed(t, nbPoints) && SortedKey(t) in seen
  {
    if !HasThreeIndices(t) then Some(WrongIndexCount)
    else if !IndicesInRange(t, nbPoints) then Some(IndexOutOfRange)
    else if !DistinctVertices(t) then Some(RepeatedVertex)
    else if SortedKey(t) in seen then Some(DuplicateTriangle)
    else None
  }

  /** A triangle that passes the first three checks on its own. */
  ghost predicate WellFormed(t: Triangle, nbPoints: int)
  {
    |t| == 3 && IndicesInRange(t, nbPoints) && DistinctVertices(t)
  }

  /** The mesh invariants: every triangle well formed and no two with the same key. */
  ghost predicate ValidMesh(triangles: seq<Triangle>, nbPoints: int)
  {
    && (forall k :: 0 <= k < |triangles| ==> WellFormed(triangles[k], nbPoints))
    && (forall j, k :: 0 <= j < k < |triangles| ==> SortedKey(triangles[j]) != SortedKey(triangles[k]))
  }

  /** The keys of a list of three-index triangles. */
  ghost function KeysOf(triangles: seq<Triangle>): set<Key>
    requires forall k :: 0 <= k < |triangles| ==> |triangles[k]| == 3
  {
    set k | 0 <= k < |triangles| :: SortedKey(triangles[k])
  }

  /** `e` is the error the constructor reports: every triangle before `e.at`
      passes, and `e.violation` is the first check triangle `e.at` fails. */
  ghost predicate FirstFailure(triangles: seq<Triangle>, nbPoints: int, e: MeshError)
  {
    && e.at < |triangles|
    && ValidMesh(triangles[..e.at], nbPoints)
    && FirstViolation(triangles[e.at], nbPoints, KeysOf(triangles[..e.at])) == Some(e.violation)
  }

  /** A set written with three elements has three members exactly when they differ. */
  lemma ThreeElements(a: int, b: int, c: int)
    ensures |{a, b, c}| == 3 <==> a != b && b != c && a != c
  {
    if a == b {
      assert {a, b, c} == {a, c};
    } else if b == c || a == c {
      assert {a, b, c} == {a, b};
    }
  }

  /** Two triangles collide in the duplicate check exactly when they have the
      same set of vertices: any reordering of a triangle is its duplicate. */
  lemma SameKeyIffSameVertices(s: Triangle, t: Triangle)
    requires |s| == 3 && |t| == 3
    requires DistinctVertices(s) && DistinctVertices(t)
    ensures SortedKey(s) == SortedKey(t) <==> Vertices(s) == Vertices(t)
  {
    assert Vertices(s) == {s[0], s[1], s[2]};
    assert Vertices(t) == {t[0], t[1], t[2]};
    var a, b := SortedKey(s), SortedKey(t);
    assert {a.0, a.1, a.2} == Vertices(s);
    assert {b.0, b.1, b.2} == Vertices(t);
    if Vertices(s) == Vertices(t) {
      assert a.0 in {b.0, b.1, b.2} && a.1 in {b.0, b.1, b.2} && a.2 in {b.0, b.1, b.2};
      assert b.0 in {a.0, a.1, a.2} && b.1 in {a.0, a.1, a.2} && b.2 in {a.0, a.1, a.2};
    }
  }

  /** The reported error is well defined: only one error fits the rule
      "first failing check of the first failing triangle". */
  lemma FirstFailureUnique(triangles: seq<Triangle>, nbPoints: int, e1: MeshError, e2: MeshError)
    requires FirstFailure(triangles, nbPoints, e1) && FirstFailure(triangles, nbPoints, e2)
    ensures e1 == e2
  {
    if e1.at < e2.at {
      PassesBefore(triangles, nbPoints, e1.at, e2.at);
    } else if e2.at < e1.at {
      PassesBefore(triangles, nbPoints, e2.at, e1.at);
    }
  }

  /** In a list whose first `m` triangles form a valid mesh, each triangle
      before `m` passes all four checks. */
  lemma PassesBefore(triangles: seq<Triangle>, nbPoints: int, k: nat, m: nat)
    requires k < m <= |triangles| && ValidMesh(triangles[..m], nbPoints)
    ensures ValidMesh(triangles[..k], nbPoints)
    ensures FirstViolation(triangles[k], nbPoints, KeysOf(triangles[..k])) == None
  {
    assert triangles[..m][k] == triangles[k];
    assert triangles[..k] == triangles[..m][..k];
    forall j | 0 <= j < k ensures SortedKey(triangles[..k][j]) != SortedKey(triangles[k]) {
      assert triangles[..k][j] == triangles[..m][j];
    }
  }

  /** A list rejected at its `k`-th triangle: if the triangles before `k`
      pass and triangle `k` fails check `v`, construction fails with exactly
      `MeshError(k, v)`, whatever follows. */
  lemma RejectedAt(triangles: seq<Triangle>, nbPoints: int, k: nat, v: Violation)
    requires k < |triangles| && ValidMesh(triangles[..k], nbPoints)
    requires FirstViolation(triangles[k], nbPoints, KeysOf(triangles[..k])) == Some(v)
    ensures !ValidMesh(triangles, nbPoints)
    ensures forall e :: FirstFailure(triangles, nbPoints, e) <==> e == MeshError(k, v)
  {
    forall e | FirstFailure(triangles, nbPoints, e) ensures e == MeshError(k, v) {
      FirstFailureUnique(triangles, nbPoints, e, MeshError(k, v));
    }
  }

  /** `_validate_triangles`: the four checks on each triangle in turn, with a
      growing set `seen` of the keys of the triangles accepted so far. */
  method ValidateTriangles(triangles: seq<Triangle>, nbPoints: int) returns (r: Outcome<MeshError>)
    ensures r.Pass? <==> ValidMesh(triangles, nbPoints)
    ensures r.Fail? ==> FirstFailure(triangles, nbPoints, r.error)
  {
    var seen: set<Key> := {};
    for k := 0 to |triangles|
      invariant ValidMesh(triangles[..k], nbPoints)
      invariant seen == KeysOf(triangles[..k])
    {
      var t := triangles[k];
      assert triangles[..k + 1] == triangles[..k] + [t];
      if !HasThreeIndices(t) {
        return Fail(MeshError(k, WrongIndexCount));
      }
      if !IndicesInRange(t, nbPoints) {
        return Fail(MeshError(k, IndexOutOfRange));
      }
      if !DistinctVertices(t) {
        return Fail(MeshError(k, RepeatedVertex));
      }
      var key := SortedKey(t);
      if key in seen {
        return Fail(MeshError(k, DuplicateTriangle));
      }
      seen := seen + {key};
      assert forall j :: 0 <= j < k ==> triangles[..k + 1][j] == triangles[..k][j];
    }
    assert triangles[..|triangles|] == triangles;
    return Pass;
  }

  /** `Triangles.__init__`: stores the point set and the list unchanged and
      validates; the constructed object exists only when validation passes. */
  method NewTriangles(pointSet: PS.PointSet, triangles: seq<Triangle>) returns (r: Result<Triangles, MeshError>)
    ensures r.Success? <==> ValidMesh(triangles, |pointSet.points|)
    ensures r.Success? ==> r.value == Triangles(pointSet, triangles)
    ensures r.Failure? ==> FirstFailure(triangles, |pointSet.points|, r.error)
  {
    var outcome := ValidateTriangles(triangles, |pointSet.points|);
    match outcome
    case Pass => return Success(Triangles(pointSet, triangles));
    case Fail(e) => return Failure(e);
  }

  // ---------------------------------------------------------------------
  // Encoding

  /** A triangle whose three indices each fit a `u32`. */
  ghost predicate U32Triple(t: Triangle)
  {
    |t| == 3 && 0 <= t[0] < 0x1_0000_0000 && 0 <= t[1] < 0x1_0000_0000 && 0 <= t[2] < 0x1_0000_0000
  }

  /** `struct.pack("<III", i, j, k)`. */
  function EncodeTriangle(t: Triangle): (r: seq<byte>)
    requires U32Triple(t)
    ensures |r| == 12
  {
    U32Bytes(t[0]) + U32Bytes(t[1]) + U32Bytes(t[2])
  }

  /** The triangles' index triples, one after the other, in list order. */
  function EncodeTriangles(triangles: seq<Triangle>): seq<byte>
    requires forall k :: 0 <= k < |triangles| ==> U32Triple(triangles[k])
  {
    if triangles == [] then [] else EncodeTriangle(triangles[0]) + EncodeTriangles(triangles[1..])
  }

  /** Where the triangles start in a mesh buffer over `nbPoints` points. */
  function BodyOffset(nbPoints: nat): nat
  {
    PS.EncodedSize(nbPoints) + 4
  }

  /** What `Triangles.to_bytes` writes: `4 + 8n + 4 + 12m` bytes, with the
      triangle count readable right after the point-set bytes. */
  function EncodeMesh(m: Triangles): (r: seq<byte>)
    requires |m.pointSet.points| < 0x1_0000_0000 && |m.triangles| < 0x1_0000_0000
    requires forall k :: 0 <= k < |m.triangles| ==> U32Triple(m.triangles[k])
    ensures |r| == BodyOffset(|m.pointSet.points|) + 12 * |m.triangles|
    ensures U32At(r, PS.EncodedSize(|m.pointSet.points|)) == |m.triangles|
  {
    var head := PS.Encode(m.pointSet.points) + U32Bytes(|m.triangles|);
    var r := head + EncodeTriangles(m.triangles);
    assert |EncodeTriangles(m.triangles)| == 12 * |m.triangles| by {
      if m.triangles != [] {
        EncodedTriangleAt(m.triangles, 0);
      }
    }
    var base := PS.EncodedSize(|m.pointSet.points|);
    assert r[base..base + 4] == U32Bytes(|m.triangles|);
    LittleEndian.U32AtSame(r, U32Bytes(|m.triangles|), base, 0);
    LittleEndian.ReadWritten(|m.triangles|);
    r
  }

  /** The triangles of a valid mesh over fewer than 2^32 points fit `u32`s. */
  lemma ValidMeshFitsU32(triangles: seq<Triangle>, nbPoints: int)
    requires ValidMesh(triangles, nbPoints) && nbPoints <= 0x1_0000_0000
    ensures forall k :: 0 <= k < |triangles| ==> U32Triple(triangles[k])
  {
  }

  lemma {:induction false} EncodeTrianglesConcat(a: seq<Triangle>, b: seq<Triangle>)
    requires forall k :: 0 <= k < |a| ==> U32Triple(a[k])
    requires forall k :: 0 <= k < |b| ==> U32Triple(b[k])
    ensures forall k :: 0 <= k < |a + b| ==> U32Triple((a + b)[k])
    ensures EncodeTriangles(a + b) == EncodeTriangles(a) + EncodeTriangles(b)
  {
    if a == [] {
      assert a + b == b;
    } else {
      assert (a + b)[1..] == a[1..] + b;
      EncodeTrianglesConcat(a[1..], b);
    }
  }

  /** The loop of `Triangles.to_bytes`: each triangle's three indices, in
      list order, appended to the buffer. */
  method AppendTriangles(start: seq<byte>, triangles: seq<Triangle>) returns (buf: seq<byte>)
    requires forall k :: 0 <= k < |triangles| ==> U32Triple(triangles[k])
    ensures buf == start + EncodeTriangles(triangles)
  {
    buf := start;
    for k := 0 to |triangles|
      invariant buf == start + EncodeTriangles(triangles[..k])
    {
      assert triangles[..k + 1] == triangles[..k] + [triangles[k]];
      var i, j, l := triangles[k][0], triangles[k][1], triangles[k][2];
      var packed := U32Bytes(i) + U32Bytes(j) + U32Bytes(l);
      assert EncodeTriangles(triangles[..k + 1]) == EncodeTriangles(triangles[..k]) + packed by {
        EncodeTrianglesConcat(triangles[..k], [triangles[k]]);
        assert EncodeTriangles([triangles[k]]) == packed + EncodeTriangles([]);
      }
      buf := buf + packed;
    }
    assert triangles[..|triangles|] == triangles;
  }

  /** `Triangles.to_bytes`: the point-set bytes, the triangle count, then each
      triangle's three indices, appended to a growing buffer. Every index
      must fit a `u32`, which holds for any object `NewTriangles` builds over
      fewer than 2^32 points (`ValidMeshFitsU32`). */
  method ToBytes(m: Triangles) returns (buf: seq<byte>)
    requires |m.pointSet.points| < 0x1_0000_0000 && |m.triangles| < 0x1_0000_0000
    requires forall k :: 0 <= k < |m.triangles| ==> U32Triple(m.triangles[k])
    ensures buf == EncodeMesh(m)
  {
    buf := PS.ToBytes(m.pointSet);
    buf := buf + U32Bytes(|m.triangles|);
    buf := AppendTriangles(buf, m.triangles);
  }


  lemma {:induction false} EncodedTriangleAt(triangles: seq<Triangle>, k: nat)
    requires forall j :: 0 <= j < |triangles| ==> U32Triple(triangles[j])
    requires k < |triangles|
    ensures |EncodeTriangles(triangles)| == 12 * |triangles|
    ensures EncodeTriangles(triangles)[12 * k..12 * k + 12] == EncodeTriangle(triangles[k])
  {
    var rest := EncodeTriangles(triangles[1..]);
    if |triangles| == 1 {
      assert rest == [];
    } else {
      EncodedTriangleAt(triangles[1..], if k == 0 then 0 else k - 1);
      if k > 0 {
        var e := EncodeTriangle(triangles[0]) + rest;
        assert e[12 * k..12 * k + 12] == rest[12 * (k - 1)..12 * (k - 1) + 12];
      }
    }
  }

  /** The three words read from an encoded triangle are its indices. */
  lemma TripleWords(e: seq<byte>, off: nat, t: Triangle)
    requires U32Triple(t) && off + 12 <= |e|
    requires e[off..off + 12] == EncodeTriangle(t)
    ensures U32At(e, off) == t[0] && U32At(e, off + 4) == t[1] && U32At(e, off + 8) == t[2]
  {
    var w := e[off..off + 12];
    var a, b, c := U32Bytes(t[0]), U32Bytes(t[1]), U32Bytes(t[2]);
    assert w == (a + b) + c;
    assert w[..8] == a + b && (a + b)[4..] == b;
    assert e[off..off + 4] == w[..4] == a;
    assert w[4..8] == (a + b)[4..] == b;
    assert e[off + 4..off + 8] == w[4..8] by {
      forall i | 0 <= i < 4 ensures e[off + 4..off + 8][i] == w[4..8][i] {
        assert w[4 + i] == e[off + 4 + i];
      }
    }
    assert e[off + 8..off + 12] == w[8..] == c;
    LittleEndian.U32AtSame(e, U32Bytes(t[0]), off, 0);
    LittleEndian.U32AtSame(e, U32Bytes(t[1]), off + 4, 0);
    LittleEndian.U32AtSame(e, U32Bytes(t[2]), off + 8, 0);
    LittleEndian.ReadWritten(t[0]);
    LittleEndian.ReadWritten(t[1]);
    LittleEndian.ReadWritten(t[2]);
  }

  /** The head of a mesh buffer: the point-set encoding, then the triangle count. */
  lemma MeshHeader(m: Triangles)
    requires |m.pointSet.points| < 0x1_0000_0000 && |m.triangles| < 0x1_0000_0000
    requires forall k :: 0 <= k < |m.triangles| ==> U32Triple(m.triangles[k])
    ensures PS.EncodedSize(|m.pointSet.points|) + 4 <= |EncodeMesh(m)|
    ensures EncodeMesh(m)[..PS.EncodedSize(|m.pointSet.points|)] == PS.Encode(m.pointSet.points)
    ensures U32At(EncodeMesh(m), PS.EncodedSize(|m.pointSet.points|)) == |m.triangles|
  {
    var points, ts := m.pointSet.points, m.triangles;
    var base := PS.EncodedSize(|points|);
    var e := EncodeMesh(m);
    var pe := PS.Encode(points);
    assert base + 4 <= |e| && e[..base] == pe && e[base..base + 4] == U32Bytes(|ts|) by {
      assert e == (pe + U32Bytes(|ts|)) + EncodeTriangles(ts);
    }
    LittleEndian.U32AtSame(e, U32Bytes(|ts|), base, 0);
    LittleEndian.ReadWritten(|ts|);
  }

  /** The body of a mesh buffer: triangle `k`'s three indices, in their given
      (unsorted) order, `12k` bytes past the count. */
  lemma MeshBody(m: Triangles)
    requires |m.pointSet.points| < 0x1_0000_0000 && |m.triangles| < 0x1_0000_0000
    requires forall k :: 0 <= k < |m.triangles| ==> U32Triple(m.triangles[k])
    ensures |EncodeMesh(m)| == BodyOffset(|m.pointSet.points|) + 12 * |m.triangles|
    ensures forall k :: 0 <= k < |m.triangles| ==>
      EncodeMesh(m)[BodyOffset(|m.pointSet.points|) + 12 * k..BodyOffset(|m.pointSet.points|) + 12 * k + 12]
        == EncodeTriangle(m.triangles[k])
  {
    var points, ts := m.pointSet.points, m.triangles;
    var head := PS.Encode(points) + U32Bytes(|ts|);
    assert EncodeMesh(m) == head + EncodeTriangles(ts);
    assert |head| == BodyOffset(|points|);
    if ts != [] {
      EncodedTriangleAt(ts, 0);
    } else {
      assert EncodeTriangles(ts) == [];
    }
    forall k | 0 <= k < |ts|
      ensures (head + EncodeTriangles(ts))[|head| + 12 * k..|head| + 12 * k + 12] == EncodeTriangle(ts[k])
    {
      TriangleSliceAfter(head, ts, k);
    }
  }

  /** Triangle `k`'s bytes in a buffer that ends with the triangles' encoding. */
  lemma TriangleSliceAfter(head: seq<byte>, ts: seq<Triangle>, k: nat)
    requires forall j :: 0 <= j < |ts| ==> U32Triple(ts[j])
    requires k < |ts|
    ensures |head + EncodeTriangles(ts)| == |head| + 12 * |ts|
    ensures (head + EncodeTriangles(ts))[|head| + 12 * k..|head| + 12 * k + 12] == EncodeTriangle(ts[k])
  {
    var body := EncodeTriangles(ts);
    EncodedTriangleAt(ts, k);
    assert (head + body)[|head| + 12 * k..|head| + 12 * k + 12] == body[12 * k..12 * k + 12];
  }

  // ---------------------------------------------------------------------
  // A reader for the mesh format. The source has no mesh decoder; this one
  // exists only to state what the encoding preserves.

  /** The `count` index triples that follow byte `off`, triangle `k` at `off + 12k`. */
  ghost function TrianglesAt(data: seq<byte>, off: nat, count: nat): (r: seq<Triangle>)
    requires off + 12 * count <= |data|
  {
    seq(count, k requires 0 <= k < count =>
      [U32At(data, off + 12 * k) as int, U32At(data, off + 12 * k + 4) as int, U32At(data, off + 12 * k + 8) as int])
  }

  /** Reads a mesh buffer: the point set, the triangle count, the index
      triples; the result is a mesh only if it passes the four checks. */
  ghost function DecodeMesh(data: seq<byte>): Option<Triangles>
  {
    match PS.Decode(data)
    case Failure(_) => None
    case Success(points) =>
      var off := PS.EncodedSize(|points|);
      if |data| < off + 4 then None
      else
        var count := U32At(data, off);
        if |data| < off + 4 + 12 * count then None
        else
          var triangles := TrianglesAt(data, off + 4, count);
          if ValidMesh(triangles, |points|) then Some(Triangles(PS.PointSet(points), triangles)) else None
  }

  /** The point-set part of a mesh buffer decodes to the mesh's points. */
  lemma DecodeMeshPoints(m: Triangles)
    requires |m.pointSet.points| < 0x1_0000_0000 && |m.triangles| < 0x1_0000_0000
    requires forall k :: 0 <= k < |m.triangles| ==> U32Triple(m.triangles[k])
    ensures PS.Decode(EncodeMesh(m)) == Success(m.pointSet.points)
  {
    var points := m.pointSet.points;
    var pe := PS.Encode(points);
    var base := PS.EncodedSize(|points|);
    PS.DecodeEncode(points);
    assert pe[..base] == pe;
    assert EncodeMesh(m)[..base] == pe;
    PS.TrailingBytesIgnored(pe, EncodeMesh(m));
  }

  /** Index triples stored one after the other are what the reader reads. */
  lemma ReadTriangles(e: seq<byte>, off: nat, ts: seq<Triangle>)
    requires forall k :: 0 <= k < |ts| ==> U32Triple(ts[k])
    requires off + 12 * |ts| <= |e|
    requires forall k :: 0 <= k < |ts| ==> e[off + 12 * k..off + 12 * k + 12] == EncodeTriangle(ts[k])
    ensures TrianglesAt(e, off, |ts|) == ts
  {
    var read := TrianglesAt(e, off, |ts|);
    forall k | 0 <= k < |ts| ensures read[k] == ts[k] {
      TripleWords(e, off + 12 * k, ts[k]);
      assert read[k] == [ts[k][0], ts[k][1], ts[k][2]];
    }
  }

  /** The triangles part of a mesh buffer reads back as the mesh's triangles. */
  lemma DecodeMeshTriangles(m: Triangles)
    requires |m.pointSet.points| < 0x1_0000_0000 && |m.triangles| < 0x1_0000_0000
    requires forall k :: 0 <= k < |m.triangles| ==> U32Triple(m.triangles[k])
    ensures BodyOffset(|m.pointSet.points|) + 12 * |m.triangles| <= |EncodeMesh(m)|
    ensures TrianglesAt(EncodeMesh(m), BodyOffset(|m.pointSet.points|), |m.triangles|) == m.triangles
  {
    MeshBody(m);
    ReadTriangles(EncodeMesh(m), BodyOffset(|m.pointSet.points|), m.triangles);
  }

  /** The reader accepts any buffer whose three parts read back as a valid mesh. */
  lemma DecodeMeshParts(data: seq<byte>, points: seq<PS.Point>, ts: seq<Triangle>)
    requires PS.Decode(data) == Success(points)
    requires BodyOffset(|points|) + 12 * |ts| <= |data|
    requires U32At(data, PS.EncodedSize(|points|)) == |ts|
    requires TrianglesAt(data, BodyOffset(|points|), |ts|) == ts
    requires ValidMesh(ts, |points|)
    ensures DecodeMesh(data) == Some(Triangles(PS.PointSet(points), ts))
  {
  }

  /** Round trip: reading back what `to_bytes` wrote gives the same mesh. */
  lemma DecodeEncodeMesh(m: Triangles)
    requires ValidMesh(m.triangles, |m.pointSet.points|)
    requires |m.pointSet.points| < 0x1_0000_0000 && |m.triangles| < 0x1_0000_0000
    ensures forall k :: 0 <= k < |m.triangles| ==> U32Triple(m.triangles[k])
    ensures DecodeMesh(EncodeMesh(m)) == Some(m)
  {
    ValidMeshFitsU32(m.triangles, |m.pointSet.points|);
    DecodeMeshPoints(m);
    MeshHeader(m);
    DecodeMeshTriangles(m);
    DecodeMeshParts(EncodeMesh(m), m.pointSet.points, m.triangles);
  }
}
