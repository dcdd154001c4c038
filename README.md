# Delaunay triangulation engine: codecs, mesh validation and the Bowyer-Watson skeleton

This project models in Dafny the core of a small Delaunay triangulation
service (`TP/src`). The core has three parts:

- **`PointSet`** decodes a point-set buffer and encodes it back. The buffer is a
  little-endian `u32` point count, then an `(x, y)` pair of `float32` per point.
- **`Triangles`** builds a mesh over a point set. It validates the triangles
  one by one, each through four checks in a fixed order, and reports the first
  failure. It encodes the mesh as the point-set bytes, a `u32` triangle count and
  three `u32` indices per triangle, in the order supplied.
- **`Triangulator`** rejects point sets with fewer than three points or a
  repeated point. It then runs the Bowyer-Watson insertion loop:
  - seed the working set with the super-triangle;
  - for each point, collect the bad triangles;
  - take the cavity boundary;
  - remove the bad triangles and add the fan around the new point;
  - finally drop every triangle that touches a super-vertex.

Modules, leaves first:

| file | module | contents |
|---|---|---|
| `wrappers.dfy` | `Wrappers` | `Option`, `Result`, `Outcome` |
| `little_endian.dfy` | `LittleEndian` | `struct "<I"`: bytes, words, reading and writing a word |
| `seqs.dfy` | `Seqs` | the list idioms the source uses (filtering loops, concatenation, `list.remove`) and their laws |
| `point_set.dfy` | `PointSets` | the point-set format (`Decode`, `Encode`) and the decoder and encoder loops |
| `triangles.dfy` | `TriangleMesh` | the four checks, the first-error rule, the validation loop, the mesh encoder and a reader used only to state the round trip |
| `bowyer_watson.dfy` | `BowyerWatson` | the insertion loop as functions on index triples (`InsertStep`, `Run`, `Triangulation`) and its invariant |
| `triangulator.dfy` | `Triangulators` | the construction checks and `triangulate`, written as the loops the source runs and proved equal to the functions of `BowyerWatson` |

Design choices:

- **Coordinates.** A coordinate is the 32-bit word that holds its `float32`. The
  codec only moves those words, and two points are equal when their words are
  equal.
- **In-circle test.** It is a parameter `inCircle`, as are the three
  super-triangle vertices, so every property of the triangulation holds whatever
  the test answers.
- **Objects.** Point sets, meshes and triangulators are never changed after
  construction, so they are datatypes.
- **Loops.** Each modelled loop of the source is a method. Most are proved equal
  to a specification function: decoding, encoding, the triangle encoding, and the
  insertion, bad-triangle, boundary, removal, fan and cleanup loops. The triangle
  validation and the duplicate-point scan are proved to decide a specification
  predicate instead (`ValidMesh`, `Distinct`) and to report the first failure. The
  bounding-box `min`/`max` loops of the super-triangle construction are not
  modelled (see "Left out").
- **Errors.** They are values: `DecodeError`, `MeshError` and
  `TriangulatorError`.

## Model

| member | source | states |
|---|---|---|
| LittleEndian.U32Bytes | TP/src/PointSet.py:35 | `struct.pack("<I", w)` writes four bytes, least significant first: a word below 256 is written as itself followed by three zero bytes |
| LittleEndian.U32At | TP/src/PointSet.py:18 | `struct.unpack_from("<I")` reads the least significant byte first: when the three bytes after it are zero, the word is that byte |
| LittleEndian.ReadWritten | TP/src/PointSet.py:18 | reading a `u32` back from the four bytes `struct.pack("<I")` writes gives the word |
| LittleEndian.WriteRead | TP/src/PointSet.py:35 | writing a word read from four bytes reproduces those bytes |
| LittleEndian.U32AtSame | TP/src/PointSet.py:26 | a word depends only on its own four bytes |
| PointSets.Decode | TP/src/PointSet.py:13-30 | decoding succeeds exactly when the buffer holds the 4-byte header and the `8 * count` bytes it announces; an error carries the buffer length; on success there are `count` points whose encodings, one after the other, are exactly the bytes after the header |
| PointSets.Encode | TP/src/PointSet.py:32-38 | `to_bytes` writes `4 + 8n` bytes whose header reads back as the point count `n` |
| PointSets.BuildFromBytes | TP/src/PointSet.py:13-30 | fewer than 4 bytes: `MissingCount`; otherwise it fails exactly when the buffer is shorter than `4 + 8 * count`; on success there are `count` points, point `k` being the words at `4 + 8k` and `8 + 8k`; the result is `Decode(data)` |
| PointSets.ToBytes | TP/src/PointSet.py:32-38 | the buffer built by appending the count and then each point's words is `Encode(points)` |
| PointSets.EncodedPointAt | TP/src/PointSet.py:36-37 | the points' bytes are `8n` long and point `k` occupies bytes `8k..8k+8` |
| PointSets.EncodeLayout | TP/src/PointSet.py:34-37 | the encoding has `4 + 8n` bytes; it begins with `n` as a little-endian word; point `k`'s eight bytes sit at `4 + 8k` |
| PointSets.EncodePoint | TP/src/PointSet.py:37 | `struct.pack("<ff", x, y)` writes eight bytes; `PointFromSlice` reads the point back from them |
| PointSets.PointFromSlice | TP/src/PointSet.py:26 | a point is read back from the eight bytes that encode it |
| PointSets.ReadPoints | TP/src/PointSet.py:24-28 | points stored one after the other after a header are what decoding reads |
| PointSets.DecodeEncode | TP/src/PointSet.py:13-38 | decoding what `to_bytes` wrote gives back exactly the points |
| PointSets.EncodePointsFrom | TP/src/PointSet.py:25-28 | re-encoding points read from consecutive bytes reproduces those bytes |
| PointSets.EncodeDecode | TP/src/PointSet.py:18-38 | re-encoding a decoded buffer reproduces its first `4 + 8 * count` bytes |
| PointSets.SameWindow | TP/src/PointSet.py:18-28 | two buffers that agree on their first `4 + 8 * count` bytes hold the same count word and the same `count` points |
| PointSets.TrailingBytesIgnored | TP/src/PointSet.py:21-28 | two buffers that agree on the first `4 + 8 * count` bytes decode to the same result |
| TriangleMesh.Sort3 | TP/src/Triangles.py:51 | `sorted((a, b, c))`: ascending, and a permutation of the three indices |
| TriangleMesh.HasThreeIndices | TP/src/Triangles.py:27-30 | the index-count check passes exactly when the triangle unpacks as three indices `i, j, k` |
| TriangleMesh.IndicesInRange | TP/src/Triangles.py:33-39 | the range check passes exactly when every index of the triangle lies in `[0, nb_points)` |
| TriangleMesh.DistinctVertices | TP/src/Triangles.py:42-45 | `len(set(t)) == 3` holds exactly when the three indices differ pairwise |
| TriangleMesh.SameKeyIffSameVertices | TP/src/Triangles.py:48-54 | two triangles with distinct vertices have the same sorted key exactly when they have the same vertex set, so any permutation of a triangle is its duplicate |
| TriangleMesh.FirstViolation | TP/src/Triangles.py:20-24 | each error is reported exactly when its check fails and every earlier check passes, in the order count, range, distinct, duplicate: a wrong index count exactly for triangles without three indices; an out-of-range index exactly for three indices one of which lies outside `[0, nb_points)`; a repeated vertex exactly for three in-range indices that are not pairwise distinct; a duplicate exactly for a well-formed triangle whose key was seen; no error exactly when it is well formed and its key is new |
| TriangleMesh.FirstFailureUnique | TP/src/Triangles.py:17-24 | at most one error fits "first failing check of the first failing triangle" |
| TriangleMesh.PassesBefore | TP/src/Triangles.py:17-24 | each triangle before a valid prefix's end passes all four checks against the keys before it |
| TriangleMesh.RejectedAt | TP/src/Triangles.py:17-54 | if the triangles before `k` pass and triangle `k` fails check `v`, the mesh is invalid and the only error that can be reported is `(k, v)`, whatever follows |
| TriangleMesh.ValidateTriangles | TP/src/Triangles.py:17-54 | the loop over the triangles with its growing `seen` set passes exactly when the list is a valid mesh; on failure it reports the first failing check of the first failing triangle |
| TriangleMesh.NewTriangles | TP/src/Triangles.py:11-15 | construction succeeds exactly when the list is a valid mesh; the list is then stored unchanged; otherwise it fails with the first error |
| TriangleMesh.EncodeMesh | TP/src/Triangles.py:56-67 | the mesh buffer is `4 + 8n + 4 + 12m` bytes long and the triangle count `m` reads back right after the point-set bytes |
| TriangleMesh.ValidMeshFitsU32 | TP/src/Triangles.py:64-65 | every index of a valid mesh over fewer than 2^32 points fits a `u32` |
| TriangleMesh.EncodeTrianglesConcat | TP/src/Triangles.py:64-65 | encoding a concatenation of triangle lists concatenates their encodings |
| TriangleMesh.AppendTriangles | TP/src/Triangles.py:64-65 | the loop appends each triangle's three indices, in list order and in their given order, to the buffer |
| TriangleMesh.ToBytes | TP/src/Triangles.py:56-67 | the buffer built by appending the point-set bytes, the count and each triangle's three words is `EncodeMesh(m)` |
| TriangleMesh.EncodedTriangleAt | TP/src/Triangles.py:64-65 | the triangles' bytes are `12n` long and triangle `k` occupies bytes `12k..12k+12` |
| TriangleMesh.EncodeTriangle | TP/src/Triangles.py:65 | `struct.pack("<III", i, j, k)` writes twelve bytes; `TripleWords` reads the three indices back from them |
| TriangleMesh.TripleWords | TP/src/Triangles.py:65 | the three words read from an encoded triangle are its indices, in their given order |
| TriangleMesh.MeshHeader | TP/src/Triangles.py:61-63 | a mesh buffer begins with the point-set encoding, followed by the triangle count as a little-endian word |
| TriangleMesh.MeshBody | TP/src/Triangles.py:63-65 | after the count, triangle `k`'s indices sit at `12k` bytes past it, in supplied (unsorted) order, and nothing follows |
| TriangleMesh.TriangleSliceAfter | TP/src/Triangles.py:64-65 | triangle `k`'s bytes in a buffer that ends with the triangles' encoding |
| TriangleMesh.DecodeMeshPoints | TP/src/Triangles.py:61 | the point-set part of a mesh buffer decodes to the mesh's points |
| TriangleMesh.ReadTriangles | TP/src/Triangles.py:64-65 | index triples stored one after the other are what the reader reads |
| TriangleMesh.DecodeMeshTriangles | TP/src/Triangles.py:63-65 | the triangle part of a mesh buffer reads back as the mesh's triangles |
| TriangleMesh.DecodeEncodeMesh | TP/src/Triangles.py:56-67 | reading back the encoding of a valid mesh gives the same mesh |
| Seqs.Filter | TP/src/Triangulator.py:63-65 | the kept list is no longer than the input, and holds only input elements that pass the test |
| Seqs.FilterMembership | TP/src/Triangulator.py:63-65 | an element is kept exactly when it is in the input and passes the test |
| Seqs.FilterSnoc | TP/src/Triangulator.py:63-65 | one more loop step appends the element exactly when it passes |
| Seqs.FilterSplitLength | TP/src/Triangulator.py:63-65 | the elements that pass a test and those that fail it are, together, as many as the list |
| Seqs.FilterDistinct | TP/src/Triangulator.py:61-65 | a sub-list of a list without repetitions has none |
| Seqs.FilterOutFiltered | TP/src/Triangulator.py:91-92 | removing the elements that pass a test leaves those that fail it, in order |
| Seqs.RemoveFirst | TP/src/Triangulator.py:92 | `list.remove(x)` drops exactly the first occurrence of `x`: the result is one shorter, and is the list with position `k` cut out, where `s[k] == x` and `x` does not occur before `k` |
| Seqs.RemoveFirstFromFiltered | TP/src/Triangulator.py:91-92 | in a list without repetitions, `list.remove` of one more element drops exactly that element |
| Seqs.FlatMapSnoc | TP/src/Triangulator.py:68-89 | one more outer-loop step appends that element's list |
| Seqs.FlatMapMembership | TP/src/Triangulator.py:68-89 | an element is in the concatenation exactly when some input's list holds it |
| BowyerWatson.Boundary | TP/src/Triangulator.py:67-89 | the cavity polygon has at most three edges per bad triangle |
| BowyerWatson.InsertStep | TP/src/Triangulator.py:60-96 | one insertion removes every bad triangle and adds one triangle per polygon edge |
| BowyerWatson.SortedEdge | TP/src/Triangulator.py:75 | `tuple(sorted(edge))` is ascending and joins the same two points as the edge |
| BowyerWatson.SortedEdgeIff | TP/src/Triangulator.py:75-85 | two edges have the same sorted form exactly when they join the same two points |
| BowyerWatson.BoundaryMembership | TP/src/Triangulator.py:67-89 | the cavity polygon holds edge `(a, b)` exactly when it is an edge of a bad triangle, in that triangle's orientation, and no other bad triangle shares it |
| BowyerWatson.TriEdgesDistinct | TP/src/Triangulator.py:69-73 | a triangle with distinct vertices has three edges joining different pairs |
| BowyerWatson.KeptEdgeApart | TP/src/Triangulator.py:74-89 | a boundary edge of one bad triangle joins other points than every edge of another bad triangle |
| BowyerWatson.BoundaryDistinct | TP/src/Triangulator.py:67-89 | no two polygon edges join the same two points |
| BowyerWatson.SeedInvariant | TP/src/Triangulator.py:57 | the seed `[(n, n+1, n+2)]` satisfies the working invariant before any insertion |
| BowyerWatson.InsertStepContents | TP/src/Triangulator.py:60-96 | after one insertion a triangle is present exactly when it was present and not bad, or it is `(a, b, i)` for a polygon edge `(a, b)` |
| BowyerWatson.BoundaryAllowed | TP/src/Triangulator.py:67-89 | every polygon edge joins two different indices already allowed before point `i` |
| BowyerWatson.FanInvariant | TP/src/Triangulator.py:94-96 | the fan around `i` consists of triangles with three distinct allowed indices through `i`, no two with the same vertex set |
| BowyerWatson.InsertPreservesInvariant | TP/src/Triangulator.py:60-96 | one insertion keeps the invariant: every working triangle has three distinct indices from `[0, i) ∪ {n, n+1, n+2}` and no two share a vertex set; this holds whatever the in-circle test answers |
| BowyerWatson.Run | TP/src/Triangulator.py:57-96 | after any number `k` of insertions the working invariant holds: every working triangle has three distinct indices from `[0, k) ∪ {n, n+1, n+2}` and no two share a vertex set, whatever the in-circle test answers |
| BowyerWatson.SortedKeyVertices | TP/src/Triangulator.py:104 | the sorted key of a produced triangle lists its vertex set |
| BowyerWatson.CleanupValid | TP/src/Triangulator.py:98-102 | once every point is inserted, the working triangles with all indices below `n`, as index lists, form a valid mesh with every index in `[0, n)` |
| BowyerWatson.Triangulation | TP/src/Triangulator.py:98-104 | the triangles `triangulate` hands to `Triangles` always pass its four checks, and every index lies in `[0, n)` |
| Triangulators.EnoughPoints | TP/src/Triangulator.py:19-22 | there are enough points exactly when the triangle `(0, 1, 2)` over them passes the first three `Triangles` checks |
| Triangulators.ValidateNoDuplicates | TP/src/Triangulator.py:24-32 | the scan with a growing `seen` set passes exactly when no point occurs twice |
| Triangulators.NewTriangulator | TP/src/Triangulator.py:12-22 | fewer than three points: `TooFewPoints`, checked first; otherwise it succeeds exactly when no point occurs twice and fails with `DuplicatePoints` when one does |
| Triangulators.Setup | TP/src/Triangulator.py:55-57 | the extended list is the input followed by the three super-vertices at `n, n+1, n+2`, with the input untouched; the working set is exactly `[(n, n+1, n+2)]`, which satisfies the invariant |
| Triangulators.CollectBad | TP/src/Triangulator.py:61-65 | the bad triangles are the working triangles the in-circle test accepts, in working order |
| Triangulators.IsShared | TP/src/Triangulator.py:75-87 | the scan with `continue` and `break` reports exactly whether another bad triangle has the same sorted edge |
| Triangulators.UnsharedEdges | TP/src/Triangulator.py:69-89 | the three edges of a bad triangle that no other bad triangle shares, in edge order |
| Triangulators.CavityBoundary | TP/src/Triangulator.py:67-89 | the nested loops build exactly the cavity polygon, in bad-triangle order then edge order |
| Triangulators.RemoveBad | TP/src/Triangulator.py:91-92 | removing the bad triangles one by one leaves the other triangles, in their order |
| Triangulators.AppendFan | TP/src/Triangulator.py:94-96 | the loop appends `(a, b, i)` for each polygon edge, in polygon order |
| Triangulators.Cleanup | TP/src/Triangulator.py:98-102 | the result is the working triangles with all three indices below `n`, in order, as index lists |
| Triangulators.InsertPoint | TP/src/Triangulator.py:60-96 | one pass of the loop body computes `InsertStep`: the non-bad triangles in order, then the fan of the cavity polygon |
| Triangulators.InsertAll | TP/src/Triangulator.py:60-96 | the loop over the points, starting from the seed triangle, computes `Run` after all `n` insertions |
| Triangulators.Triangulate | TP/src/Triangulator.py:34-104 | the result is over the same point set; its triangles are the specification `Triangulation`; they form a valid mesh, so the final `Triangles(...)` construction never fails |

## Left out

- `TP/src/app.py` (HTTP routing, identifier syntax check, remote fetch, status codes): I/O and transport, outside the core.
- `float32` interpretation of coordinates: a coordinate is its 32-bit word. Point equality in the duplicate check is therefore word equality. Python float equality differs for `NaN` (never equal to itself) and for `-0.0 == 0.0`, and these quirks are not modelled. Python also widens each `float32` to a `double` on decoding and narrows it back on encoding; for signalling-NaN words that conversion is not the identity (see `PointSets.EncodeDecode` below).
- PointSets.EncodeDecode: the round trip holds of the word model. In Python the decoded coordinates are `double` values: on CPython before 3.14, `struct` converts a signalling-NaN `float32` word through a C cast that sets its quiet bit, so re-encoding can change such a coordinate (`0x7F800001` comes back as `0x7FC00001`). Finite values, infinities and `-0.0` come back unchanged.
- Super-triangle geometry (bounding box, `20 * delta_max` offsets, `TP/src/Triangulator.py:40-53`): floating-point arithmetic. The three super-vertices are a parameter of `Triangulate`. Only the index layout `n, n+1, n+2` and the seed triangle are modelled. In the source they are double-precision values, which a `Point` of two `float32` words cannot hold in general; no property proved here depends on their values, because only the in-circle test reads them.
- `_is_point_in_circumcircle` (`TP/src/Triangulator.py:106-134`): floating-point arithmetic. It is the parameter `inCircle`, an arbitrary total test. The `|d| < 1e-9` degenerate-triangle policy and the strict `d_sq < r_sq - 1e-9` comparison are not stated, and no real-number version of the predicate is proved.
- Delaunay-ness of the result, and the concrete results for three points and for the unit square: these depend on the in-circle answers, which are abstract here.
- The bounding-box loops `min()`/`max()` over the coordinates (`TP/src/Triangulator.py:40-43`) are not modelled: they only feed the super-triangle geometry, which is a parameter here. They raise only on an empty list; `Triangulate` requires at least three points, which `NewTriangulator` guarantees for every triangulator it builds.
- PointSets.ToBytes: requires fewer than 2^32 points, because `struct.pack("<I")` raises `struct.error` beyond that.
- TriangleMesh.ToBytes: requires fewer than 2^32 points and triangles and every index in `u32` range, because `struct.pack` raises `struct.error` otherwise. It does not require a valid mesh: the weaker precondition is all the encoder needs, and `ValidMeshFitsU32` shows that any mesh `NewTriangles` builds over fewer than 2^32 points meets the index requirement; the triangle count must still be below 2^32, which a valid mesh need not meet (3000 points already have more than 2^32 distinct vertex sets).
- `MeshError.at`, the position of the failing triangle, is an addition of the model. The source raises `ValueError` with a message naming only the failed check. The check itself is the `Violation`.
- The mesh reader `DecodeMesh` has no counterpart in the source, which only encodes meshes. It is a ghost function that exists only to state the round trip `DecodeEncodeMesh`.
- In-place list mutation (`remove`, `append` on the working list, `bytearray +=`) is modelled by reassigning sequences.
- Triangulators.RemoveBad: requires the working list and the bad list to have no repeated triangle, and every bad triangle to be in the working list. `list.remove` removes only the first copy of a repeated element. The working invariant that `Run` keeps guarantees both requirements on every call `Triangulate` makes.
- Triangulators.InsertPoint: requires the working list to have no repeated triangle, for the same reason. The working invariant that `Run` keeps guarantees it.
- Timing and performance tests: no timing model.
