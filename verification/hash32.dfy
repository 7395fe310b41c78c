/**
 * The 32-bit register variant of the mixer (`memhashFallback32`), the one a
 * 32-bit target runs: `uintptr` is 32 bits wide there, so the seed, the
 * length and the result are `bv32`. As in `Hash64`, the buffer is the
 * sequence `p` and `s == |p|`.
 */
module Hash32 {
  import opened ByteOrder

  const K1: bv32 := 0x53c5ca59
  const K2: bv32 := 0x74743c1b

  /** 2^32: one more than the largest `uintptr` on a 32-bit target. */
  const TWO32: nat := 0x1_0000_0000

  /** The mixer's two 32-bit registers. */
  datatype Regs = Regs(a: bv32, b: bv32)

  /** `uint64(a^0x53c5ca59) * uint64(b^0x74743c1b)`: the product of the keyed inputs. */
  function Product(a: bv32, b: bv32): bv64 {
    ((a ^ K1) as bv64) * ((b ^ K2) as bv64)
  }

  /** `uint32(c), uint32(c >> 32)`: the low and the high word of `c`. */
  function Split(c: bv64): Regs {
    Regs((c & 0xFFFF_FFFF) as bv32, (c >> 32) as bv32)
  }

  /** The high word above the low word: the inverse of `Split`. */
  function Join(r: Regs): bv64 {
    ((r.b as bv64) << 32) | (r.a as bv64)
  }

  /** Splitting a word and joining the halves gives the word back. */
  lemma JoinSplit(c: bv64)
    ensures Join(Split(c)) == c
  {
  }

  /**
   * `mix32`: the 64-bit product of the two keyed inputs, split into its low
   * word (the new `a`) and its high word (the new `b`).
   */
  function Mix32(a: bv32, b: bv32): Regs {
    Split(Product(a, b))
  }

  /** One trip through the 8-byte loop body, on the block at `off`. */
  function Round8(order: Endian, p: seq<bv8>, off: nat, r: Regs): Regs
    requires off + 8 <= |p|
  {
    Mix32(r.a ^ R4(order, p, off), r.b ^ R4(order, p, off + 4))
  }

  /**
   * What `for ; s > 8; s -= 8` leaves in `s`: entered with at least one
   * byte, it stops with between 1 and 8.
   */
  function Left8(l: nat): (r: nat)
    requires l > 0
    ensures 0 < r <= 8 && r <= l
  {
    if l > 8 then Left8(l - 8) else l
  }

  /** Closed form of `Left8`: every whole 8-byte block but a last, possibly full, one. */
  lemma {:induction false} Left8ClosedForm(l: nat)
    requires l > 0
    ensures Left8(l) == l - 8 * ((l - 1) / 8)
  {
    if l > 8 {
      Left8ClosedForm(l - 8);
      assert (l - 1) / 8 == (l - 8 - 1) / 8 + 1;
    }
  }

  /** Loop state: `p` as an offset into the buffer, `l` bytes left. */
  datatype Cursor = Cursor(off: nat, l: nat, regs: Regs)

  /** The 8-byte loop: offset plus count still ends at the buffer end. */
  function Loop8(order: Endian, p: seq<bv8>, off: nat, l: nat, r: Regs): (c: Cursor)
    requires off + l == |p| && l > 0
    ensures c.off + c.l == |p| && c.l == Left8(l)
    decreases l
  {
    if l > 8 then Loop8(order, p, off + 8, l - 8, Round8(order, p, off, r))
    else Cursor(off, l, r)
  }

  /**
   * The bytes folded in after the loop, `l` of them at `off`, with
   * `off + l == |p|`: two (possibly overlapping) words when at least four
   * are left, the second one ending at the buffer end, otherwise the
   * first, middle and last of the remaining bytes into `b`.
   */
  function Tail(order: Endian, p: seq<bv8>, off: nat, l: nat, r: Regs): (t: Regs)
    requires off + l == |p| && 0 < l <= 8
    ensures l >= 4 ==> t == Regs(r.a ^ R4(order, p, off), r.b ^ R4(order, p, |p| - 4))
    ensures l < 4 ==> t == Regs(r.a, r.b ^ Pack3(p[|p| - l..]))
  {
    var last := off + l - 4;
    assert last == |p| - 4;
    if l >= 4 then Regs(r.a ^ R4(order, p, off), r.b ^ R4(order, p, last))
    else
      assert p[off..off + l] == p[|p| - l..];
      Regs(r.a, r.b ^ Pack3(p[off..off + l]))
  }

  /** The two closing `mix32` rounds and the fold `a ^ b`. */
  function Finish(r: Regs): bv32 {
    var f := Mix32(r.a, r.b);
    var g := Mix32(f.a, f.b);
    g.a ^ g.b
  }

  /** The opening `mix32(uint32(seed ^ (s >> 32)), uint32(s))`. */
  function Start(seed: bv32, s: bv32): Regs {
    Mix32(Shifted(seed, s), s)
  }

  /** `uint32(seed ^ (s >> 32))` with both already 32 bits wide. */
  function Shifted(seed: bv32, s: bv32): bv32 {
    seed ^ (s >> 32)
  }

  /** On a 32-bit `uintptr` the shift leaves nothing. */
  lemma ShiftedIsSeed(seed: bv32, s: bv32)
    ensures Shifted(seed, s) == seed
  {
  }

  /** So the opening mix takes the seed as it is. */
  lemma StartIgnoresShift(seed: bv32, s: bv32)
    ensures Start(seed, s) == Mix32(seed, s)
  {
    ShiftedIsSeed(seed, s);
  }

  /**
   * The first `n` 8-byte blocks of `p` folded into `r`, the last block last:
   * what the loop computes, stated by block count instead of by cursor.
   */
  function Blocks(order: Endian, p: seq<bv8>, n: nat, r: Regs): Regs
    requires 8 * n <= |p|
  {
    if n == 0 then r else Round8(order, p, 8 * (n - 1), Blocks(order, p, n - 1, r))
  }

  /**
   * The loop, entered after `j` blocks, runs through block `(s - 1) / 8 - 1`
   * and stops with the rest, 1 to 8 bytes, at `8 * ((s - 1) / 8)`.
   */
  lemma {:induction false} LoopIsBlocks(order: Endian, p: seq<bv8>, j: nat, r: Regs)
    requires 8 * j < |p|
    ensures var k := (|p| - 1) / 8;
      8 * k < |p| &&
      Loop8(order, p, 8 * j, |p| - 8 * j, Blocks(order, p, j, r))
        == Cursor(8 * k, |p| - 8 * k, Blocks(order, p, k, r))
    decreases |p| - 8 * j
  {
    var k := (|p| - 1) / 8;
    if |p| - 8 * j > 8 {
      var b := Blocks(order, p, j, r);
      assert Blocks(order, p, j + 1, r) == Round8(order, p, 8 * j, b);
      assert Loop8(order, p, 8 * j, |p| - 8 * j, b)
          == Loop8(order, p, 8 * (j + 1), |p| - 8 * (j + 1), Round8(order, p, 8 * j, b));
      LoopIsBlocks(order, p, j + 1, r);
    } else {
      assert k == j;
    }
  }

  /** The bytes left after `n` blocks, at absolute offsets. */
  function TailAt(order: Endian, p: seq<bv8>, n: nat, r: Regs): Regs
    requires 8 * n < |p| <= 8 * n + 8
  {
    if |p| - 8 * n >= 4 then Regs(r.a ^ R4(order, p, 8 * n), r.b ^ R4(order, p, |p| - 4))
    else Regs(r.a, r.b ^ Pack3(p[8 * n..]))
  }

  /**
   * After `n` blocks, the tail's reads land at absolute offsets: the word at
   * `8 * n` and the word ending at the buffer end, or the packed first,
   * middle and last of the remaining bytes.
   */
  lemma TailAtEnd(order: Endian, p: seq<bv8>, n: nat, r: Regs)
    requires 8 * n < |p| <= 8 * n + 8
    ensures Tail(order, p, 8 * n, |p| - 8 * n, r) == TailAt(order, p, n, r)
  {
    assert 8 * n + (|p| - 8 * n) - 4 == |p| - 4;
    assert p[8 * n..8 * n + (|p| - 8 * n)] == p[8 * n..];
  }

  /** The length `s` as the 32-bit word `uint32(s)`. */
  function LenWord(p: seq<bv8>): (s: bv32)
    requires |p| < TWO32
  {
    |p| as bv32
  }

  /**
   * `memhashFallback32(p, seed, s)` with `s == |p|`: the opening mix of seed
   * and length, every whole 8-byte block but the last, then the last 1 to 8
   * bytes, read as the word at `8 * ((s - 1) / 8)` and the word ending at
   * `s` or as the packed first, middle and last byte, and the close.
   */
  function MemhashFallback32(order: Endian, p: seq<bv8>, seed: bv32): (h: bv32)
    requires |p| < TWO32
    ensures |p| > 0 ==>
      var k := (|p| - 1) / 8;
      8 * k < |p| <= 8 * k + 8
      && h == Finish(TailAt(order, p, k, Blocks(order, p, k, Mix32(seed, LenWord(p)))))
  {
    var r0 := Start(seed, LenWord(p));
    if |p| == 0 then r0.a ^ r0.b
    else
      ShiftedIsSeed(seed, LenWord(p));
      var c := Loop8(order, p, 0, |p|, r0);
      LoopIsBlocks(order, p, 0, r0);
      TailAtEnd(order, p, (|p| - 1) / 8, c.regs);
      Finish(Tail(order, p, c.off, c.l, c.regs))
  }

  /**
   * An empty input returns before the loop: the result is the opening mix
   * of seed and length, folded, and no byte of the buffer is read.
   */
  lemma EmptyInput32(order: Endian, p: seq<bv8>, seed: bv32)
    requires |p| == 0
    ensures var r := Start(seed, LenWord(p)); MemhashFallback32(order, p, seed) == r.a ^ r.b
  {
  }

  /** With no byte read, the native byte order cannot show in the result. */
  lemma EmptyIgnoresOrder(p: seq<bv8>, seed: bv32)
    requires |p| == 0
    ensures MemhashFallback32(LittleEndian, p, seed) == MemhashFallback32(BigEndian, p, seed)
  {
  }

  /**
   * `mix32` loses nothing of the product: its high word above its low word
   * is the 64-bit product of the keyed inputs.
   */
  lemma Mix32Halves(a: bv32, b: bv32)
    ensures Join(Mix32(a, b)) == ((a ^ K1) as bv64) * ((b ^ K2) as bv64)
  {
    JoinSplit(Product(a, b));
  }

  /**
   * Where the 8-byte loop stops on a non-empty input: after `(s - 1) / 8`
   * blocks, with 1 to 8 bytes left, so the closing reads at `s - 4` (or at
   * the last byte) reach the end of the buffer.
   */
  lemma LoopStops(order: Endian, p: seq<bv8>, r: Regs)
    requires |p| > 0
    ensures Loop8(order, p, 0, |p|, r).off == 8 * ((|p| - 1) / 8)
  {
    Left8ClosedForm(|p|);
  }
}
