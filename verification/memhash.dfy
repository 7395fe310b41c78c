/**
 * The target the hash runs on, and the choice between the two mixers: a
 * 64-bit `uintptr` selects `memhashFallback64`, a 32-bit one
 * `memhashFallback32`; the native byte order is the order `r4`/`r8` read in.
 */
module Memhash {
  import opened Results
  import opened ByteOrder
  import Hash64
  import Hash32

  datatype WordSize = Bits32 | Bits64

  datatype Platform = Platform(width: WordSize, order: Endian)

  /** 2^w: `uintptr` arithmetic wraps modulo this. */
  function WordModulus(width: WordSize): (m: nat)
    ensures m == if width == Bits64 then Hash64.TWO64 else Hash32.TWO32
  {
    match width
    case Bits64 => 0x1_0000_0000_0000_0000
    case Bits32 => 0x1_0000_0000
  }

  /** `is64Bit`: the all-ones `uintptr`, widened, equals the all-ones `uint64`. */
  function Is64Bit(width: WordSize): (b: bool)
    ensures b <==> width == Bits64
  {
    WordModulus(width) - 1 == 0xFFFF_FFFF_FFFF_FFFF
  }

  /**
   * The native-order check of `init`: `0xABCD` stored as a native `uint16`
   * reads back as the bytes `CD AB` on a little-endian target and `AB CD`
   * on a big-endian one; anything else panics (`None` here).
   */
  function DetectEndian(buf: seq<bv8>): (r: Option<Endian>)
    requires |buf| == 2
    ensures r.Some? <==> buf == [0xCD, 0xAB] || buf == [0xAB, 0xCD]
  {
    if buf == [0xCD, 0xAB] then Some(LittleEndian)
    else if buf == [0xAB, 0xCD] then Some(BigEndian)
    else None
  }

  /** How a target lays out the `uint16` `0xABCD` in memory. */
  function StoreAbcd(order: Endian): seq<bv8> {
    match order
    case LittleEndian => [0xCD, 0xAB]
    case BigEndian => [0xAB, 0xCD]
  }

  /** The check recognises the order of every target that stores words in one. */
  lemma DetectEndianRecognises(order: Endian)
    ensures DetectEndian(StoreAbcd(order)) == Some(order)
  {
  }

  /** A `uintptr` of the target: 64 or 32 bits wide. */
  datatype Word = W64(w64: bv64) | W32(w32: bv32)

  /** The word is as wide as the target's `uintptr`. */
  predicate Fits(pl: Platform, w: Word) {
    w.W64? <==> pl.width == Bits64
  }

  /**
   * `MemhashFallback(p, seed, s)` over the bytes `p`: `memhashFallback64`
   * when `uintptr` is 64 bits wide, `memhashFallback32` otherwise.
   */
  function MemhashFallback(pl: Platform, p: seq<bv8>, seed: Word): (h: Word)
    requires Fits(pl, seed) && |p| < WordModulus(pl.width)
    ensures Fits(pl, h)
    ensures pl.width == Bits64 ==> h == W64(Hash64.MemhashFallback64(pl.order, p, seed.w64))
    ensures pl.width == Bits32 ==> h == W32(Hash32.MemhashFallback32(pl.order, p, seed.w32))
  {
    if Is64Bit(pl.width) then W64(Hash64.MemhashFallback64(pl.order, p, seed.w64))
    else W32(Hash32.MemhashFallback32(pl.order, p, seed.w32))
  }
}
