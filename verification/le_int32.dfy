/** The little-endian 32-bit encoding pe.go writes with `binary.Write`, and
    Go's `copy` into a slice of a larger buffer, which writes through to the
    buffer. */
module LittleEndian {
  import opened Bytes
  import X86

  /** The unsigned little-endian value of the four bytes at `off`. */
  function U32At(b: seq<byte>, off: nat): (v: nat)
    requires off + 4 <= |b|
    ensures v < X86.Two32
  {
    b[off] as int + 0x100 * (b[off + 1] as int) + 0x1_0000 * (b[off + 2] as int)
      + 0x100_0000 * (b[off + 3] as int)
  }

  /** The unsigned little-endian value of the two bytes at `off`. */
  function U16At(b: seq<byte>, off: nat): (v: nat)
    requires off + 2 <= |b|
    ensures v < 0x1_0000
  {
    b[off] as int + 0x100 * (b[off + 1] as int)
  }

  /** The four bytes read back as a Go `int32`. */
  function Int32At(b: seq<byte>, off: nat): (v: X86.Word)
    requires off + 4 <= |b|
  {
    var u := U32At(b, off);
    if u >= 0x8000_0000 then u - X86.Two32 else u
  }

  /** `int2byte` (and the bytes `writeInt32` copies): the value converted to
      `int32`, that is truncated to its low 32 bits, written lowest byte
      first. */
  function Int2Byte(data: int): (r: seq<byte>)
    ensures |r| == 4
    ensures U32At(r, 0) == data % X86.Two32
  {
    var u := data % X86.Two32;
    [u % 0x100, u / 0x100 % 0x100, u / 0x1_0000 % 0x100, u / 0x100_0000]
  }

  /** Decoding the bytes gives back the `int32` conversion of the value:
      the value itself when it fits, its two's complement wrap otherwise. */
  lemma Int2ByteRoundTrip(data: int)
    ensures Int32At(Int2Byte(data), 0) == X86.Wrap(data)
    ensures -0x8000_0000 <= data < 0x8000_0000 ==> Int32At(Int2Byte(data), 0) == data
  {
  }

  /** Four bytes are the encoding of the value they decode to: the encoding
      is onto, so no two values share one and every byte pattern is some
      `int32`. */
  lemma {:induction false} Int2ByteOfDecoded(b: seq<byte>)
    requires |b| == 4
    ensures Int2Byte(Int32At(b, 0)) == b
  {
    var u := U32At(b, 0);
    assert Int32At(b, 0) % X86.Two32 == u;
    var hi2 := b[2] as int + 0x100 * (b[3] as int);
    var hi1 := b[1] as int + 0x100 * hi2;
    assert u == b[0] as int + 0x100 * hi1;
    Digit(b[0], hi1);
    Digit(b[1], hi2);
    Digit(b[2], b[3]);
    var lo2 := b[0] as int + 0x100 * (b[1] as int);
    assert u == 0x1_0000 * hi2 + lo2 && 0 <= lo2 < 0x1_0000;
    assert u / 0x1_0000 == hi2;
    var lo3 := lo2 + 0x1_0000 * (b[2] as int);
    assert u == 0x100_0000 * (b[3] as int) + lo3 && 0 <= lo3 < 0x100_0000;
    assert u / 0x100_0000 == b[3] as int;
  }

  /** The low byte and the rest of `lo + 256 * hi`. */
  lemma Digit(lo: byte, hi: nat)
    ensures (lo + 0x100 * hi) % 0x100 == lo
    ensures (lo + 0x100 * hi) / 0x100 == hi
  {
  }

  /** Go's `copy(dst, src)`: as many bytes as both slices have room for,
      the rest of `dst` kept. */
  function Copy(dst: seq<byte>, src: seq<byte>): (r: seq<byte>)
    ensures |r| == |dst|
    ensures forall i :: 0 <= i < |r| ==> r[i] == (if i < |src| then src[i] else dst[i])
  {
    var n := if |src| < |dst| then |src| else |dst|;
    src[..n] + dst[n..]
  }

  /** `copy(buf[off:], src)`: the slice shares `buf`'s array, so the copy
      lands in `buf` at `off`. Slicing past the end is a Go panic, which
      no call in pe.go can reach. */
  function CopyAt(buf: seq<byte>, off: nat, src: seq<byte>): (r: seq<byte>)
    requires off <= |buf|
    ensures |r| == |buf|
    ensures off + |src| <= |buf| ==> r[off..off + |src|] == src
    ensures forall i :: 0 <= i < |buf| && !(off <= i < off + |src|) ==> r[i] == buf[i]
  {
    var r := buf[..off] + Copy(buf[off..], src);
    assert off + |src| <= |buf| ==> r[off..off + |src|] == src by {
      if off + |src| <= |buf| {
        forall i | 0 <= i < |src| ensures r[off..off + |src|][i] == src[i] {
          assert r[off + i] == Copy(buf[off..], src)[i];
        }
      }
    }
    r
  }

  /** `writeInt32(dest, data)`: the four encoded bytes copied over the
      front of `dest`, cut short when `dest` is shorter. */
  function WriteInt32(dest: seq<byte>, data: X86.Word): (r: seq<byte>)
    ensures |r| == |dest|
    ensures |dest| >= 4 ==> Int32At(r, 0) == data
    ensures forall i :: 4 <= i < |dest| ==> r[i] == dest[i]
    ensures forall i :: 0 <= i < |dest| && i < 4 ==> r[i] == Int2Byte(data)[i]
  {
    Int2ByteRoundTrip(data);
    Copy(dest, Int2Byte(data))
  }

  /** `writeInt32(buf[off:], data)`, which writes through to `buf`. */
  function WriteAt(buf: seq<byte>, off: nat, data: X86.Word): (r: seq<byte>)
    requires off <= |buf|
    ensures |r| == |buf|
    ensures off + 4 <= |buf| ==> Int32At(r, off) == data
    ensures forall i :: 0 <= i < |buf| && !(off <= i < off + 4) ==> r[i] == buf[i]
  {
    var w := WriteInt32(buf[off..], data);
    var r := buf[..off] + w;
    assert off + 4 <= |buf| ==> U32At(r, off) == U32At(w, 0);
    r
  }
}
