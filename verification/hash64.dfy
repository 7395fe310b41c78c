/**
 * The 64-bit register variant of the wyhash-style mixer (`memhashFallback64`),
 * over the `s` bytes that start at `p`. The buffer is the sequence `p` itself,
 * so `s == |p|`; every read is a slice of `p`, and Dafny's bounds checks are
 * the proof that no read leaves `[0, s)`.
 */
module Hash64 {
  import opened ByteOrder

  const M1: bv64 := 0xa0761d6478bd642f
  const M2: bv64 := 0xe7037ed1a0b428db
  const M3: bv64 := 0x8ebc6af09c88c6e3
  const M4: bv64 := 0x589965cc75374cc3
  const M5: bv64 := 0x1d8e4e27c47d124f

  /** 2^64: one more than the largest `uintptr` on a 64-bit target. */
  const TWO64: nat := 0x1_0000_0000_0000_0000

  /**
   * `bits.Mul64`, as the portable code of Go's `math/bits` computes it from
   * 32-bit limbs: the high and the low word of the 128-bit product.
   */
  function Mul64(x: bv64, y: bv64): (bv64, bv64)
  {
    var x0 := x & 0xFFFF_FFFF;
    var x1 := x >> 32;
    var y0 := y & 0xFFFF_FFFF;
    var y1 := y >> 32;
    var w0 := x0 * y0;
    var t := x1 * y0 + (w0 >> 32);
    var w1 := (t & 0xFFFF_FFFF) + x0 * y1;
    var w2 := t >> 32;
    (x1 * y1 + w2 + (w1 >> 32), x * y)
  }

  /**
   * Where the product fits one word, the limb code gets the high word right:
   * two operands below 2^32 give a zero high word, and `mix` returns the
   * plain product.
   */
  lemma Mul64Narrow(x: bv64, y: bv64)
    requires x >> 32 == 0 && y >> 32 == 0
    ensures Mul64(x, y).0 == 0
    ensures Mix(x, y) == x * y
  {
  }

  /** `mix`: the high half of the product XOR its low half. */
  function Mix(a: bv64, b: bv64): bv64 {
    var (hi, lo) := Mul64(a, b);
    hi ^ lo
  }

  /** `r4`'s word as the `uintptr` it returns on a 64-bit target. */
  function R4Word(order: Endian, p: seq<bv8>, off: nat): bv64
    requires off + 4 <= |p|
  {
    R4(order, p, off) as bv64
  }

  /** The three lanes of the 48-byte loop. */
  datatype Lanes = Lanes(seed: bv64, seed1: bv64, seed2: bv64)

  /** One trip through the 48-byte loop body, on the block at `off`. */
  function Round48(order: Endian, p: seq<bv8>, off: nat, ln: Lanes): Lanes
    requires off + 48 <= |p|
  {
    Lanes(
      Mix(R8(order, p, off) ^ M2, R8(order, p, off + 8) ^ ln.seed),
      Mix(R8(order, p, off + 16) ^ M3, R8(order, p, off + 24) ^ ln.seed1),
      Mix(R8(order, p, off + 32) ^ M4, R8(order, p, off + 40) ^ ln.seed2))
  }

  /** One trip through the 16-byte loop body, on the block at `off`. */
  function Round16(order: Endian, p: seq<bv8>, off: nat, seed: bv64): bv64
    requires off + 16 <= |p|
  {
    Mix(R8(order, p, off) ^ M2, R8(order, p, off + 8) ^ seed)
  }

  /** Loop state: `p` as an offset into the buffer, and `l` bytes left. */
  datatype Cursor<S> = Cursor(off: nat, l: nat, state: S)

  /**
   * What `for ; l > 48; l -= 48` leaves in `l`: entered with at least one
   * byte, it stops with between 1 and 48, having taken whole blocks.
   */
  function Left48(l: nat): (r: nat)
    requires l > 0
    ensures 0 < r <= 48 && r <= l
  {
    if l > 48 then Left48(l - 48) else l
  }

  /** What `for ; l > 16; l -= 16` leaves in `l`: between 1 and 16 bytes. */
  function Left16(l: nat): (r: nat)
    requires l > 0
    ensures 0 < r <= 16 && r <= l
  {
    if l > 16 then Left16(l - 16) else l
  }

  /**
   * The 48-byte loop of `memhashFallback64`, with `p` advancing by 48 while
   * `l` counts down: the pointer plus the count still ends at the buffer end.
   */
  function Loop48(order: Endian, p: seq<bv8>, off: nat, l: nat, ln: Lanes): (r: Cursor<Lanes>)
    requires off + l == |p| && l > 0
    ensures r.off + r.l == |p| && r.l == Left48(l)
    decreases l
  {
    if l > 48 then Loop48(order, p, off + 48, l - 48, Round48(order, p, off, ln))
    else Cursor(off, l, ln)
  }

  /** The 16-byte loop of `memhashFallback64`. */
  function Loop16(order: Endian, p: seq<bv8>, off: nat, l: nat, seed: bv64): (r: Cursor<bv64>)
    requires off + l == |p| && l > 0
    ensures r.off + r.l == |p| && r.l == Left16(l)
    decreases l
  {
    if l > 16 then Loop16(order, p, off + 16, l - 16, Round16(order, p, off, seed))
    else Cursor(off, l, seed)
  }

  /** The two words `a`, `b` fed to the last mix, and the seed they meet. */
  datatype Tail = Tail(a: bv64, b: bv64, seed: bv64)

  /**
   * How many times the 48-byte loop body runs on an input of `s > 16` bytes.
   * This and `Rounds16` are not in the source: they are the closed forms
   * `LoopsStop` states the loops' stopping point with.
   */
  function Rounds48(s: nat): nat {
    if s > 48 then (s - 1) / 48 else 0
  }

  /** How many times the 16-byte loop body runs on an input of `s > 16` bytes. */
  function Rounds16(s: nat): nat
    requires s > 16
  {
    (s - 48 * Rounds48(s) - 1) / 16
  }

  /** Closed form of `Left48`: the loop takes every whole block but a last, possibly full, one. */
  lemma {:induction false} Left48ClosedForm(l: nat)
    requires l > 0
    ensures Left48(l) == l - 48 * ((l - 1) / 48)
  {
    if l > 48 {
      Left48ClosedForm(l - 48);
      assert (l - 1) / 48 == (l - 48 - 1) / 48 + 1;
    }
  }

  /** Closed form of `Left16`. */
  lemma {:induction false} Left16ClosedForm(l: nat)
    requires l > 0
    ensures Left16(l) == l - 16 * ((l - 1) / 16)
  {
    if l > 16 {
      Left16ClosedForm(l - 16);
      assert (l - 1) / 16 == (l - 16 - 1) / 16 + 1;
    }
  }

  /**
   * Both loops of the `s > 16` branch. They stop with 1 to 16 bytes left,
   * so the closing 16-byte window `[s - 16, s)` starts at or before the
   * point where they stopped: every byte of the input is read.
   */
  function LongLoops(order: Endian, p: seq<bv8>, seed: bv64): (c: Cursor<bv64>)
    requires |p| > 16
    ensures c.off + c.l == |p| && 0 < c.l <= 16
  {
    var c48 :=
      if |p| > 48 then
        var c := Loop48(order, p, 0, |p|, Lanes(seed, seed, seed));
        Cursor(c.off, c.l, c.state.seed ^ c.state.seed1 ^ c.state.seed2)
      else Cursor(0, |p|, seed);
    Loop16(order, p, c48.off, c48.l, c48.state)
  }

  /**
   * Where the loops of the `s > 16` branch stop: after `Rounds48` blocks of
   * 48 bytes and `Rounds16` blocks of 16.
   */
  lemma LongLoopsStop(order: Endian, p: seq<bv8>, seed: bv64)
    requires |p| > 16
    ensures LongLoops(order, p, seed).l == Left16(Left48(|p|))
  {
  }

  lemma LoopsStop(s: nat)
    requires s > 16
    ensures s - Left16(Left48(s)) == 48 * Rounds48(s) + 16 * Rounds16(s)
    ensures 48 * Rounds48(s) + 16 * Rounds16(s) < s <= 48 * Rounds48(s) + 16 * Rounds16(s) + 16
  {
    Left48ClosedForm(s);
    Left16ClosedForm(Left48(s));
  }

  /**
   * The `s > 16` branch: whatever the loops consumed, `a` and `b` are the
   * eight-byte words at absolute offsets `s - 16` and `s - 8`.
   */
  function LongTail(order: Endian, p: seq<bv8>, seed: bv64): (t: Tail)
    requires |p| > 16
    ensures t.a == R8(order, p, |p| - 16)
    ensures t.b == R8(order, p, |p| - 8)
  {
    var c := LongLoops(order, p, seed);
    var end := c.off + c.l;
    assert end == |p|;
    Tail(R8(order, p, end - 16), R8(order, p, end - 8), c.state)
  }

  /** `memhashFallback64(p, seed, s)` with `s == |p|`. */
  function MemhashFallback64(order: Endian, p: seq<bv8>, seed: bv64): (r: bv64)
    requires |p| < TWO64
    ensures |p| == 0 ==> r == seed ^ M1
    ensures 1 <= |p| <= 3 ==> r == Finish(|p|, Pack3(p) as bv64, 0, seed ^ M1)
    ensures 4 <= |p| <= 7 ==> r == Finish(|p|, R4Word(order, p, 0), R4Word(order, p, |p| - 4), seed ^ M1)
    ensures 8 <= |p| <= 16 ==> r == Finish(|p|, R8(order, p, 0), R8(order, p, |p| - 8), seed ^ M1)
    ensures |p| > 16 ==>
      r == Finish(|p|, R8(order, p, |p| - 16), R8(order, p, |p| - 8), LongTail(order, p, seed ^ M1).seed)
  {
    var s := |p|;
    var seed := seed ^ M1;
    if s == 0 then seed
    else
      var t :=
        if s < 4 then Tail(Pack3(p) as bv64, 0, seed)
        else if s == 4 then var a := R4Word(order, p, 0); Tail(a, a, seed)
        else if s < 8 then Tail(R4Word(order, p, 0), R4Word(order, p, s - 4), seed)
        else if s == 8 then var a := R8(order, p, 0); Tail(a, a, seed)
        else if s <= 16 then Tail(R8(order, p, 0), R8(order, p, s - 8), seed)
        else LongTail(order, p, seed);
      Finish(s, t.a, t.b, t.seed)
  }

  /** The closing step `mix(m5^s, mix(a^m2, b^seed))`. */
  function Finish(s: nat, a: bv64, b: bv64, seed: bv64): bv64
    requires s < TWO64
  {
    Mix(M5 ^ (s as bv64), Mix(a ^ M2, b ^ seed))
  }
}
