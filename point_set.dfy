/** The point-set binary format and its codec (TP/src/PointSet.py).

    Layout, little-endian: a `u32` point count, then for each point its `x`
    and its `y` as `float32`. A coordinate is kept as the 32-bit word that
    holds it: the codec moves those words and never interprets them. */
module PointSets {
  import opened Wrappers
  import opened LittleEndian
  import Seqs

  /** A point: the bit patterns of its two `float32` coordinates. */
  datatype Point = Point(x: u32, y: u32)

  /** `PointSet`: the decoded points, never changed after construction. */
  datatype PointSet = PointSet(points: seq<Point>)

  /** The two ways decoding fails, with the buffer length (and the count read). */
  datatype DecodeError =
    | MissingCount(length: nat)                // "buffer too short to contain point count"
    | MissingPoints(length: nat, count: nat)   // "buffer too short"

  const HEADER_SIZE: nat := 4
  const POINT_SIZE: nat := 8

  /** The point count in the header of a buffer of at least four bytes. */
  function Count(data: seq<byte>): u32
    requires |data| >= HEADER_SIZE
  {
    U32At(data, 0)
  }

  /** Number of bytes the header and `count` points take. */
  function EncodedSize(count: nat): nat
  {
    HEADER_SIZE + POINT_SIZE * count
  }

  /** The point whose `x` word starts at byte `off`. */
  function PointAt(data: seq<byte>, off: nat): Point
    requires off + POINT_SIZE <= |data|
  {
    Point(U32At(data, off), U32At(data, off + 4))
  }

  /** The `count` points that follow the header, point `k` at byte `4 + 8k`. */
  function PointsAfterHeader(data: seq<byte>, count: nat): seq<Point>
    requires EncodedSize(count) <= |data|
  {
    seq(count, k requires 0 <= k < count => PointAt(data, HEADER_SIZE + POINT_SIZE * k))
  }

  /** The format, read declaratively: the count, then the points. Decoding
      succeeds exactly when the buffer holds the header and all the points it
      announces; it then yields that many points, whose encodings are, one
      after the other, the bytes that follow the header. */
  function Decode(data: seq<byte>): (r: Result<seq<Point>, DecodeError>)
    ensures r.Success? <==> HEADER_SIZE <= |data| && EncodedSize(Count(data)) <= |data|
    ensures r.Failure? ==> r.error.length == |data|
    ensures r.Success? ==> |r.value| == Count(data)
    ensures r.Success? ==> Seqs.FlatMap(r.value, EncodePoint) == data[HEADER_SIZE..EncodedSize(|r.value|)]
  {
    if |data| < HEADER_SIZE then Failure(MissingCount(|data|))
    else if |data| < EncodedSize(Count(data)) then Failure(MissingPoints(|data|, Count(data)))
    else
      var points := PointsAfterHeader(data, Count(data));
      EncodePointsFrom(data, HEADER_SIZE, points);
      Success(points)
  }

  /** `struct.pack("<ff", x, y)`, coordinates kept as their words. */
  function EncodePoint(p: Point): (r: seq<byte>)
    ensures |r| == 8
  {
    U32Bytes(p.x) + U32Bytes(p.y)
  }

  /** The whole buffer `to_bytes` writes: the count, then every point in
      order; `4 + 8n` bytes whose header reads back as `n`. */
  function Encode(points: seq<Point>): (r: seq<byte>)
    requires |points| < 0x1_0000_0000
    ensures |r| == EncodedSize(|points|)
    ensures Count(r) == |points|
  {
    var header := U32Bytes(|points|);
    var r := header + Seqs.FlatMap(points, EncodePoint);
    assert |r| == EncodedSize(|points|) by {
      if points != [] {
        EncodedPointAt(points, 0);
      }
    }
    assert r[0..4] == header[0..4];
    LittleEndian.U32AtSame(r, header, 0, 0);
    LittleEndian.ReadWritten(|points|);
    r
  }

  /** `PointSet._build_from_bytes`: reads the count, checks the length, then
      reads the points one after the other, advancing an offset. */
  method BuildFromBytes(data: seq<byte>) returns (r: Result<seq<Point>, DecodeError>)
    ensures r == Decode(data)
    ensures |data| < HEADER_SIZE ==> r == Failure(MissingCount(|data|))
    ensures |data| >= HEADER_SIZE ==> (r.Failure? <==> |data| < EncodedSize(Count(data)))
    ensures r.Success? ==> |r.value| == Count(data) < 0x1_0000_0000
    ensures r.Success? ==> forall k :: 0 <= k < |r.value| ==>
      r.value[k] == Point(U32At(data, 4 + 8 * k), U32At(data, 4 + 8 * k + 4))
  {
    if |data| < HEADER_SIZE {
      return Failure(MissingCount(|data|));
    }
    var count := U32At(data, 0);
    var offset := HEADER_SIZE;
    if |data| < offset + count * POINT_SIZE {
      return Failure(MissingPoints(|data|, count));
    }
    var points: seq<Point> := [];
    for k := 0 to count
      invariant offset == HEADER_SIZE + POINT_SIZE * k
      invariant |points| == k
      invariant forall j :: 0 <= j < k ==> points[j] == PointAt(data, HEADER_SIZE + POINT_SIZE * j)
    {
      var x, y := U32At(data, offset), U32At(data, offset + 4);
      offset := offset + POINT_SIZE;
      points := points + [Point(x, y)];
    }
    assert points == PointsAfterHeader(data, count);
    return Success(points);
  }

  /** `PointSet.to_bytes`: the count, then each point's two words, appended
      to a growing buffer. */
  method ToBytes(ps: PointSet) returns (buf: seq<byte>)
    requires |ps.points| < 0x1_0000_0000
    ensures buf == Encode(ps.points)
  {
    buf := U32Bytes(|ps.points|);
    ghost var header := buf;
    for k := 0 to |ps.points|
      invariant buf == header + Seqs.FlatMap(ps.points[..k], EncodePoint)
    {
      var p := ps.points[k];
      assert Seqs.FlatMap(ps.points[..k + 1], EncodePoint) == Seqs.FlatMap(ps.points[..k], EncodePoint) + EncodePoint(p) by {
        Seqs.FlatMapSnoc(ps.points[..k], p, EncodePoint);
        assert ps.points[..k + 1] == ps.points[..k] + [p];
      }
      buf := buf + EncodePoint(p);
    }
    assert ps.points[..|ps.points|] == ps.points;
  }

  lemma {:induction false} EncodedPointAt(points: seq<Point>, k: nat)
    requires k < |points|
    ensures |Seqs.FlatMap(points, EncodePoint)| == POINT_SIZE * |points|
    ensures Seqs.FlatMap(points, EncodePoint)[POINT_SIZE * k..POINT_SIZE * k + POINT_SIZE] == EncodePoint(points[k])
  {
    var rest := Seqs.FlatMap(points[1..], EncodePoint);
    if |points| == 1 {
      assert rest == [];
    } else {
      EncodedPointAt(points[1..], if k == 0 then 0 else k - 1);
      if k > 0 {
        var e := EncodePoint(points[0]) + rest;
        assert e[POINT_SIZE * k..POINT_SIZE * k + POINT_SIZE]
            == rest[POINT_SIZE * (k - 1)..POINT_SIZE * (k - 1) + POINT_SIZE];
      }
    }
  }

  /** A point is read back from the eight bytes that encode it. */
  lemma PointFromSlice(e: seq<byte>, off: nat, p: Point)
    requires off + POINT_SIZE <= |e| && e[off..off + POINT_SIZE] == EncodePoint(p)
    ensures PointAt(e, off) == p
  {
    var w := e[off..off + POINT_SIZE];
    assert e[off..off + 4] == w[..4] == U32Bytes(p.x);
    assert e[off + 4..off + 8] == w[4..] == U32Bytes(p.y);
    LittleEndian.U32AtSame(e, U32Bytes(p.x), off, 0);
    LittleEndian.U32AtSame(e, U32Bytes(p.y), off + 4, 0);
    LittleEndian.ReadWritten(p.x);
    LittleEndian.ReadWritten(p.y);
  }

  /** What `to_bytes` writes: `4 + 8n` bytes, the count `n` first, then point
      `k`'s `x` and `y` words in bytes `4 + 8k` to `12 + 8k`. */
  lemma EncodeLayout(points: seq<Point>)
    requires |points| < 0x1_0000_0000
    ensures |Encode(points)| == EncodedSize(|points|)
    ensures Encode(points)[..HEADER_SIZE] == U32Bytes(|points|)
    ensures Count(Encode(points)) == |points|
    ensures forall k :: 0 <= k < |points| ==>
      Encode(points)[HEADER_SIZE + POINT_SIZE * k..HEADER_SIZE + POINT_SIZE * k + POINT_SIZE] == EncodePoint(points[k])
  {
    var body := Seqs.FlatMap(points, EncodePoint);
    var e := Encode(points);
    assert e[..HEADER_SIZE] == U32Bytes(|points|);
    forall k | 0 <= k < |points|
      ensures e[HEADER_SIZE + POINT_SIZE * k..HEADER_SIZE + POINT_SIZE * k + POINT_SIZE] == EncodePoint(points[k])
    {
      EncodedPointAt(points, k);
      var off := HEADER_SIZE + POINT_SIZE * k;
      assert e[off..off + POINT_SIZE] == body[POINT_SIZE * k..POINT_SIZE * k + POINT_SIZE];
    }
  }

  /** Points stored one after the other after the header are what decoding reads. */
  lemma ReadPoints(e: seq<byte>, points: seq<Point>)
    requires EncodedSize(|points|) <= |e|
    requires forall k :: 0 <= k < |points| ==>
      e[HEADER_SIZE + POINT_SIZE * k..HEADER_SIZE + POINT_SIZE * k + POINT_SIZE] == EncodePoint(points[k])
    ensures PointsAfterHeader(e, |points|) == points
  {
    forall k | 0 <= k < |points| ensures PointAt(e, HEADER_SIZE + POINT_SIZE * k) == points[k] {
      PointFromSlice(e, HEADER_SIZE + POINT_SIZE * k, points[k]);
    }
  }

  /** Round trip: decoding what `to_bytes` wrote gives back the points. */
  lemma DecodeEncode(points: seq<Point>)
    requires |points| < 0x1_0000_0000
    ensures Decode(Encode(points)) == Success(points)
  {
    EncodeLayout(points);
    ReadPoints(Encode(points), points);
  }

  lemma {:induction false} EncodePointsFrom(data: seq<byte>, off: nat, points: seq<Point>)
    requires off + POINT_SIZE * |points| <= |data|
    requires forall k :: 0 <= k < |points| ==> points[k] == PointAt(data, off + POINT_SIZE * k)
    ensures Seqs.FlatMap(points, EncodePoint) == data[off..off + POINT_SIZE * |points|]
    decreases |points|
  {
    if points != [] {
      EncodePointsFrom(data, off + POINT_SIZE, points[1..]);
      LittleEndian.WriteRead(data, off);
      LittleEndian.WriteRead(data, off + 4);
      assert EncodePoint(points[0]) == data[off..off + POINT_SIZE];
      assert data[off..off + POINT_SIZE * |points|]
          == data[off..off + POINT_SIZE] + data[off + POINT_SIZE..off + POINT_SIZE * |points|];
    }
  }

  /** Round trip the other way: re-encoding a decoded buffer reproduces its
      first `4 + 8 * count` bytes (the rest of the buffer was never read). */
  lemma EncodeDecode(data: seq<byte>)
    requires Decode(data).Success?
    ensures |Decode(data).value| < 0x1_0000_0000
    ensures Encode(Decode(data).value) == data[..EncodedSize(Count(data))]
  {
    LittleEndian.WriteRead(data, 0);
    assert data[..EncodedSize(Count(data))] == data[..HEADER_SIZE] + data[HEADER_SIZE..EncodedSize(Count(data))];
  }

  /** Two buffers that agree on their first `4 + 8 * count` bytes hold the
      same count word and the same `count` points. */
  lemma SameWindow(data: seq<byte>, other: seq<byte>, count: nat)
    requires EncodedSize(count) <= |data| && EncodedSize(count) <= |other|
    requires other[..EncodedSize(count)] == data[..EncodedSize(count)]
    ensures Count(other) == Count(data)
    ensures PointsAfterHeader(other, count) == PointsAfterHeader(data, count)
  {
    var size := EncodedSize(count);
    assert other[0..4] == data[0..4] by {
      assert other[0..4] == other[..size][0..4] && data[0..4] == data[..size][0..4];
    }
    LittleEndian.U32AtSame(other, data, 0, 0);
    forall k | 0 <= k < count
      ensures PointAt(other, HEADER_SIZE + POINT_SIZE * k) == PointAt(data, HEADER_SIZE + POINT_SIZE * k)
    {
      var off := HEADER_SIZE + POINT_SIZE * k;
      assert other[off..off + 4] == data[off..off + 4] by {
        assert other[off..off + 4] == other[..size][off..off + 4];
        assert data[off..off + 4] == data[..size][off..off + 4];
      }
      assert other[off + 4..off + 8] == data[off + 4..off + 8] by {
        assert other[off + 4..off + 8] == other[..size][off + 4..off + 8];
        assert data[off + 4..off + 8] == data[..size][off + 4..off + 8];
      }
      LittleEndian.U32AtSame(other, data, off, off);
      LittleEndian.U32AtSame(other, data, off + 4, off + 4);
    }
  }

  /** Trailing bytes are ignored: a buffer that agrees with a decodable one on
      its first `4 + 8 * count` bytes decodes to the same points. */
  lemma TrailingBytesIgnored(data: seq<byte>, other: seq<byte>)
    requires Decode(data).Success?
    requires |other| >= EncodedSize(Count(data))
    requires other[..EncodedSize(Count(data))] == data[..EncodedSize(Count(data))]
    ensures Decode(other) == Decode(data)
  {
    SameWindow(data, other, Count(data));
  }
}
