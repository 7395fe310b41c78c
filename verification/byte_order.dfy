/**
 * The two byte orders of Go's `encoding/binary` package, as used by the
 * mixers' word reads `r4` and `r8`. The native order is a process-wide
 * constant fixed at start-up; here it is a parameter.
 */
module ByteOrder {

  datatype Endian = LittleEndian | BigEndian

  /** `Endian.Uint32(b)`: the first four bytes of `b` as a 32-bit word. */
  function Uint32(order: Endian, b: seq<bv8>): (w: bv32)
    requires |b| >= 4
  {
    match order
    case LittleEndian =>
      (b[0] as bv32) | ((b[1] as bv32) << 8) | ((b[2] as bv32) << 16) | ((b[3] as bv32) << 24)
    case BigEndian =>
      (b[3] as bv32) | ((b[2] as bv32) << 8) | ((b[1] as bv32) << 16) | ((b[0] as bv32) << 24)
  }

  /** `Endian.Uint64(b)`: the first eight bytes of `b` as a 64-bit word. */
  function Uint64(order: Endian, b: seq<bv8>): (w: bv64)
    requires |b| >= 8
  {
    match order
    case LittleEndian =>
      (b[0] as bv64) | ((b[1] as bv64) << 8) | ((b[2] as bv64) << 16) | ((b[3] as bv64) << 24) | ((b[4] as bv64) << 32) | ((b[5] as bv64) << 40) | ((b[6] as bv64) << 48) | ((b[7] as bv64) << 56)
    case BigEndian =>
      (b[7] as bv64) | ((b[6] as bv64) << 8) | ((b[5] as bv64) << 16) | ((b[4] as bv64) << 24) | ((b[3] as bv64) << 32) | ((b[2] as bv64) << 40) | ((b[1] as bv64) << 48) | ((b[0] as bv64) << 56)
  }

  /** Byte `i` (0 = least significant) of a 32-bit word. */
  function Byte32(w: bv32, i: nat): bv8
    requires i < 4
  {
    var v := if i == 0 then w else if i == 1 then w >> 8 else if i == 2 then w >> 16 else w >> 24;
    (v & 0xff) as bv8
  }

  /** Byte `i` (0 = least significant) of a 64-bit word. */
  function Byte64(w: bv64, i: nat): bv8
    requires i < 8
  {
    var v :=
      if i == 0 then w else if i == 1 then w >> 8 else if i == 2 then w >> 16 else if i == 3 then w >> 24
      else if i == 4 then w >> 32 else if i == 5 then w >> 40 else if i == 6 then w >> 48 else w >> 56;
    (v & 0xff) as bv8
  }

  /** `Endian.PutUint32`: the four bytes that store `w` in the given order. */
  function PutUint32(order: Endian, w: bv32): (b: seq<bv8>)
    ensures |b| == 4
  {
    match order
    case LittleEndian => [Byte32(w, 0), Byte32(w, 1), Byte32(w, 2), Byte32(w, 3)]
    case BigEndian => [Byte32(w, 3), Byte32(w, 2), Byte32(w, 1), Byte32(w, 0)]
  }

  /** `Endian.PutUint64`: the eight bytes that store `w` in the given order. */
  function PutUint64(order: Endian, w: bv64): (b: seq<bv8>)
    ensures |b| == 8
  {
    match order
    case LittleEndian =>
      [Byte64(w, 0), Byte64(w, 1), Byte64(w, 2), Byte64(w, 3),
       Byte64(w, 4), Byte64(w, 5), Byte64(w, 6), Byte64(w, 7)]
    case BigEndian =>
      [Byte64(w, 7), Byte64(w, 6), Byte64(w, 5), Byte64(w, 4),
       Byte64(w, 3), Byte64(w, 2), Byte64(w, 1), Byte64(w, 0)]
  }

  /** The bytes of `b` last to first. */
  function Reverse(b: seq<bv8>): (r: seq<bv8>)
    ensures |r| == |b|
    ensures forall i :: 0 <= i < |b| ==> r[i] == b[|b| - 1 - i]
  {
    if b == [] then [] else Reverse(b[1..]) + [b[0]]
  }

  /** Each byte of `PutUint` is the matching 8-bit slice of the word. */
  lemma BytesOfWord32(w: bv32)
    ensures (Byte32(w, 0) as bv32) == w & 0xff
    ensures (Byte32(w, 1) as bv32) << 8 == w & 0xff00
    ensures (Byte32(w, 2) as bv32) << 16 == w & 0xff_0000
    ensures (Byte32(w, 3) as bv32) << 24 == w & 0xff00_0000
  {
  }

  lemma BytesOfWord64(w: bv64)
    ensures (Byte64(w, 0) as bv64) == w & 0xff
    ensures (Byte64(w, 1) as bv64) << 8 == w & 0xff00
    ensures (Byte64(w, 2) as bv64) << 16 == w & 0xff_0000
    ensures (Byte64(w, 3) as bv64) << 24 == w & 0xff00_0000
    ensures (Byte64(w, 4) as bv64) << 32 == w & 0xff_0000_0000
    ensures (Byte64(w, 5) as bv64) << 40 == w & 0xff00_0000_0000
    ensures (Byte64(w, 6) as bv64) << 48 == w & 0xff_0000_0000_0000
    ensures (Byte64(w, 7) as bv64) << 56 == w & 0xff00_0000_0000_0000
  {
  }

  /** A word is the union of its eight-bit slices. */
  lemma SlicesMakeWord32(w: bv32)
    ensures (w & 0xff) | (w & 0xff00) | (w & 0xff_0000) | (w & 0xff00_0000) == w
  {
  }

  lemma SlicesMakeWord64(w: bv64)
    ensures (w & 0xff) | (w & 0xff00) | (w & 0xff_0000) | (w & 0xff00_0000)
      | (w & 0xff_0000_0000) | (w & 0xff00_0000_0000) | (w & 0xff_0000_0000_0000) | (w & 0xff00_0000_0000_0000) == w
  {
  }

  /** Decoding what was encoded gives the word back, in either order. */
  lemma DecodeEncode32(order: Endian, w: bv32)
    ensures Uint32(order, PutUint32(order, w)) == w
  {
    BytesOfWord32(w);
    SlicesMakeWord32(w);
    var b := PutUint32(order, w);
    if order == LittleEndian {
      assert (b[0] as bv32) == w & 0xff;
      assert (b[1] as bv32) << 8 == w & 0xff00;
      assert (b[2] as bv32) << 16 == w & 0xff_0000;
      assert (b[3] as bv32) << 24 == w & 0xff00_0000;
    } else {
      assert (b[3] as bv32) == w & 0xff;
      assert (b[2] as bv32) << 8 == w & 0xff00;
      assert (b[1] as bv32) << 16 == w & 0xff_0000;
      assert (b[0] as bv32) << 24 == w & 0xff00_0000;
    }
  }

  lemma DecodeEncode64(order: Endian, w: bv64)
    ensures Uint64(order, PutUint64(order, w)) == w
  {
    BytesOfWord64(w);
    SlicesMakeWord64(w);
    var b := PutUint64(order, w);
    if order == LittleEndian {
      assert (b[0] as bv64) == w & 0xff;
      assert (b[1] as bv64) << 8 == w & 0xff00;
      assert (b[2] as bv64) << 16 == w & 0xff_0000;
      assert (b[3] as bv64) << 24 == w & 0xff00_0000;
      assert (b[4] as bv64) << 32 == w & 0xff_0000_0000;
      assert (b[5] as bv64) << 40 == w & 0xff00_0000_0000;
      assert (b[6] as bv64) << 48 == w & 0xff_0000_0000_0000;
      assert (b[7] as bv64) << 56 == w & 0xff00_0000_0000_0000;
    } else {
      assert (b[7] as bv64) == w & 0xff;
      assert (b[6] as bv64) << 8 == w & 0xff00;
      assert (b[5] as bv64) << 16 == w & 0xff_0000;
      assert (b[4] as bv64) << 24 == w & 0xff00_0000;
      assert (b[3] as bv64) << 32 == w & 0xff_0000_0000;
      assert (b[2] as bv64) << 40 == w & 0xff00_0000_0000;
      assert (b[1] as bv64) << 48 == w & 0xff_0000_0000_0000;
      assert (b[0] as bv64) << 56 == w & 0xff00_0000_0000_0000;
    }
  }

  /** Encoding a decoded word gives back the bytes it was read from. */
  lemma EncodeDecode32(order: Endian, b: seq<bv8>)
    requires |b| == 4
    ensures PutUint32(order, Uint32(order, b)) == b
  {
  }

  lemma EncodeDecode64(order: Endian, b: seq<bv8>)
    requires |b| == 8
    ensures PutUint64(order, Uint64(order, b)) == b
  {
  }

  /**
   * `r4(p + off)`: the four bytes at `off` in the native order. `r4` hands
   * them back widened to a `uintptr`; the 64-bit mixer widens the word where
   * it uses it, the 32-bit one takes it as it is (`uint32(r4(p))`).
   */
  function R4(order: Endian, p: seq<bv8>, off: nat): bv32
    requires off + 4 <= |p|
  {
    Uint32(order, p[off..off + 4])
  }

  /** `r8(p + off)`: the eight bytes at `off` in the native order. */
  function R8(order: Endian, p: seq<bv8>, off: nat): bv64
    requires off + 8 <= |p|
  {
    Uint64(order, p[off..off + 8])
  }

  /** `r4` reads exactly the four bytes at `off`: storing the word back gives them again. */
  lemma R4Reads(order: Endian, p: seq<bv8>, off: nat)
    requires off + 4 <= |p|
    ensures PutUint32(order, R4(order, p, off)) == p[off..off + 4]
  {
    EncodeDecode32(order, p[off..off + 4]);
  }

  /** `r8` reads exactly the eight bytes at `off`. */
  lemma R8Reads(order: Endian, p: seq<bv8>, off: nat)
    requires off + 8 <= |p|
    ensures PutUint64(order, R8(order, p, off)) == p[off..off + 8]
  {
    EncodeDecode64(order, p[off..off + 8]);
  }

  /**
   * The two orders differ exactly by reversing the bytes. These two lemmas
   * and `Reverse` are not in the source: they relate the big-endian reads
   * to the little-endian ones, so a fact about one order carries over.
   */
  lemma BigIsReversedLittle64(b: seq<bv8>)
    requires |b| == 8
    ensures Uint64(BigEndian, b) == Uint64(LittleEndian, Reverse(b))
  {
  }

  lemma BigIsReversedLittle32(b: seq<bv8>)
    requires |b| == 4
    ensures Uint32(BigEndian, b) == Uint32(LittleEndian, Reverse(b))
  {
  }

  /**
   * The 1..3-byte case of both mixers: the first, the middle (`s >> 1`) and
   * the last byte packed into the low three bytes of a word.
   */
  function Pack3(p: seq<bv8>): (w: bv32)
    requires 1 <= |p| <= 3
    ensures w & 0xff == p[0] as bv32
    ensures (w >> 8) & 0xff == p[|p| / 2] as bv32
    ensures w >> 16 == p[|p| - 1] as bv32
  {
    var s := |p|;
    (p[0] as bv32) | ((p[s / 2] as bv32) << 8) | ((p[s - 1] as bv32) << 16)
  }
}
