/** The one binary primitive both formats use: an unsigned 32-bit integer
    stored as four bytes, least significant first (`struct` format `"<I"`).
    The same four-byte word also carries each `float32` coordinate, whose
    bits the codecs never interpret. */
module LittleEndian {

  type byte = x: int | 0 <= x < 0x100
  type u32 = x: int | 0 <= x < 0x1_0000_0000

  /** `struct.pack("<I", w)`: four bytes, least significant first, so a
      word below 256 is written as itself followed by three zero bytes. */
  function U32Bytes(w: u32): (r: seq<byte>)
    ensures |r| == 4
    ensures w < 0x100 ==> r == [w, 0, 0, 0]
  {
    [w % 0x100, (w / 0x100) % 0x100, (w / 0x1_0000) % 0x100, w / 0x100_0000]
  }

  /** `struct.unpack_from("<I", b, off)`. The least significant byte comes
      first: with the three bytes after it zero, the word is that byte. */
  function U32At(b: seq<byte>, off: nat): (r: u32)
    requires off + 4 <= |b|
    ensures b[off + 1] == b[off + 2] == b[off + 3] == 0 ==> r == b[off]
  {
    b[off] as int + 0x100 * (b[off + 1] as int + 0x100 * (b[off + 2] as int + 0x100 * b[off + 3] as int))
  }

  lemma DivMod256(lo: int, hi: int)
    requires 0 <= lo < 0x100 && 0 <= hi
    ensures (lo + 0x100 * hi) % 0x100 == lo && (lo + 0x100 * hi) / 0x100 == hi
  {
  }

  /** Reading back a written word gives the word. */
  lemma ReadWritten(w: u32)
    ensures U32At(U32Bytes(w), 0) == w
  {
    var q1 := w / 0x100;
    var q2 := q1 / 0x100;
    assert w / 0x1_0000 == q2 && w / 0x100_0000 == q2 / 0x100;
    assert w == w % 0x100 + 0x100 * q1;
    assert q1 == q1 % 0x100 + 0x100 * q2;
    assert q2 == q2 % 0x100 + 0x100 * (q2 / 0x100);
  }

  /** Writing a read word reproduces the four bytes it was read from. */
  lemma WriteRead(b: seq<byte>, off: nat)
    requires off + 4 <= |b|
    ensures U32Bytes(U32At(b, off)) == b[off..off + 4]
  {
    var b0, b1, b2, b3 := b[off] as int, b[off + 1] as int, b[off + 2] as int, b[off + 3] as int;
    var v := U32At(b, off);
    DivMod256(b0, b1 + 0x100 * (b2 + 0x100 * b3));
    DivMod256(b1, b2 + 0x100 * b3);
    DivMod256(b2, b3);
    assert v / 0x1_0000 == (v / 0x100) / 0x100;
    assert v / 0x100_0000 == ((v / 0x100) / 0x100) / 0x100;
  }

  /** A word is read from its own four bytes only. */
  lemma U32AtSame(a: seq<byte>, b: seq<byte>, i: nat, j: nat)
    requires i + 4 <= |a| && j + 4 <= |b|
    requires a[i..i + 4] == b[j..j + 4]
    ensures U32At(a, i) == U32At(b, j)
  {
    assert a[i] == a[i..i + 4][0] && a[i + 1] == a[i..i + 4][1];
    assert a[i + 2] == a[i..i + 4][2] && a[i + 3] == a[i..i + 4][3];
    assert b[j] == b[j..j + 4][0] && b[j + 1] == b[j..j + 4][1];
    assert b[j + 2] == b[j..j + 4][2] && b[j + 3] == b[j..j + 4][3];
  }
}
