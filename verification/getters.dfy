/**
 * The pointer-and-size getters: each one, given the address of the value
 * being hashed, finds one contiguous byte region inside it (or behind its
 * pointers) for the mixer to consume.
 *
 * Memory is a read-only snapshot: what pointer is stored at an address,
 * what string or slice header is stored there, and what byte. Addresses are
 * naturals below the word modulus `w`; `uintptr` sums and products wrap
 * modulo `w`, and `uintptr(n)` of an `int` is `n` modulo `w`.
 */
module Getters {
  /** The `Data` and `Len` words of a `reflect.StringHeader` or `reflect.SliceHeader`. */
  datatype Header = Header(data: nat, len: nat)

  datatype Memory = Memory(ptrAt: nat -> nat, headerAt: nat -> Header, byteAt: nat -> bv8)

  /** Every pointer stored in memory is a valid `uintptr` for modulus `w`. */
  ghost predicate PointersFit(mem: Memory, w: nat) {
    forall a :: mem.ptrAt(a) < w
  }

  /** `indirect(p, depth)`: follow `depth` stored pointers starting at `p`. */
  function Indirect(mem: Memory, p: nat, depth: nat): (r: nat)
    ensures r == Deref(mem, p, depth)
    decreases depth
  {
    if depth == 0 then p
    else if depth == 1 then mem.ptrAt(p)
    else
      DerefFirst(mem, p, depth - 1);
      Indirect(mem, mem.ptrAt(p), depth - 1)
  }

  /** `depth` loads, counted from the last one: the reference reading of `indirect`. */
  function Deref(mem: Memory, p: nat, depth: nat): nat
    decreases depth
  {
    if depth == 0 then p else mem.ptrAt(Deref(mem, p, depth - 1))
  }

  /** `indirect` loads exactly `depth` times: one more level is one more load of the result. */
  lemma {:induction false} IndirectIsDeref(mem: Memory, p: nat, depth: nat)
    ensures Indirect(mem, p, depth) == Deref(mem, p, depth)
    ensures Indirect(mem, p, depth + 1) == mem.ptrAt(Indirect(mem, p, depth))
    decreases depth
  {
    if depth >= 2 {
      IndirectIsDeref(mem, mem.ptrAt(p), depth - 1);
      DerefFirst(mem, p, depth - 1);
    }
  }

  /** Loading first and then `depth` more times is `depth + 1` loads. */
  lemma {:induction false} DerefFirst(mem: Memory, p: nat, depth: nat)
    ensures Deref(mem, mem.ptrAt(p), depth) == Deref(mem, p, depth + 1)
    decreases depth
  {
    if depth > 0 {
      DerefFirst(mem, p, depth - 1);
    }
  }

  /**
   * The four getters. `offset` is where the field sits in the hashed value,
   * `ptrDepth` how many pointers lead from there to the data.
   */
  datatype Getter =
    | BaseTypeGetter(offset: nat, ptrDepth: nat, elemSz: nat)
    | StringGetter(offset: nat, ptrDepth: nat)
    | SliceGetter(offset: nat, ptrDepth: nat, elemSz: nat)
    | ArrayGetter(offset: nat, ptrDepth: nat, len: nat, elemSz: nat)

  /** A byte region: its start address and its length. */
  datatype Region = Region(ptr: nat, size: nat)

  /** `getPtrAndSize(p)` on a target whose `uintptr` is taken modulo `w`. */
  function GetPtrAndSize(g: Getter, w: nat, mem: Memory, p: nat): (r: Region)
    requires w > 0
    ensures r.size < w
    ensures g.BaseTypeGetter? ==> r.ptr == Deref(mem, (p + g.offset) % w, g.ptrDepth) && r.size == g.elemSz % w
    ensures g.StringGetter? || g.SliceGetter? ==>
      r.ptr == mem.headerAt(Deref(mem, (p + g.offset) % w, g.ptrDepth)).data
    ensures g.StringGetter? ==>
      r.size == mem.headerAt(Deref(mem, (p + g.offset) % w, g.ptrDepth)).len % w
    ensures g.SliceGetter? ==>
      r.size == (mem.headerAt(Deref(mem, (p + g.offset) % w, g.ptrDepth)).len * g.elemSz) % w
    ensures g.ArrayGetter? ==>
      r.ptr == Deref(mem, (p + g.offset) % w, g.ptrDepth) && r.size == (g.len * g.elemSz) % w
  {
    var np := Indirect(mem, (p + g.offset) % w, g.ptrDepth);
    IndirectIsDeref(mem, (p + g.offset) % w, g.ptrDepth);
    match g
    case BaseTypeGetter(_, _, elemSz) => Region(np, elemSz % w)
    case StringGetter(_, _) =>
      var sh := mem.headerAt(np);
      Region(sh.data, sh.len % w)
    case SliceGetter(_, _, elemSz) =>
      var sh := mem.headerAt(np);
      Region(sh.data, (sh.len * elemSz) % w)
    case ArrayGetter(_, _, len, elemSz) => Region(np, (len * elemSz) % w)
  }

  /** The bytes of a region, in address order. */
  function Bytes(mem: Memory, r: Region): (b: seq<bv8>)
    ensures |b| == r.size
    ensures forall i :: 0 <= i < r.size ==> b[i] == mem.byteAt(r.ptr + i)
  {
    seq(r.size, i requires 0 <= i => mem.byteAt(r.ptr + i))
  }

  /**
   * A string and a `[]byte` are read alike: under the same header the
   * string getter and a slice getter with one-byte elements give the same
   * region.
   */
  lemma StringReadsLikeByteSlice(w: nat, mem: Memory, p: nat, offset: nat, ptrDepth: nat)
    requires w > 0
    ensures GetPtrAndSize(StringGetter(offset, ptrDepth), w, mem, p)
         == GetPtrAndSize(SliceGetter(offset, ptrDepth, 1), w, mem, p)
  {
  }

  /**
   * A getter one pointer deeper, at offset zero, reads what the same getter
   * reads from the address stored at `p`.
   */
  lemma {:induction false} OneMorePointer(g: Getter, w: nat, mem: Memory, p: nat)
    requires w > 0 && g.offset == 0 && p < w && PointersFit(mem, w)
    ensures GetPtrAndSize(g.(ptrDepth := g.ptrDepth + 1), w, mem, p)
         == GetPtrAndSize(g, w, mem, mem.ptrAt(p))
  {
    var d := g.ptrDepth;
    assert (p + 0) % w == p;
    assert (mem.ptrAt(p) + 0) % w == mem.ptrAt(p);
    DerefFirst(mem, p, d);
    IndirectIsDeref(mem, p, d + 1);
    IndirectIsDeref(mem, mem.ptrAt(p), d);
  }

  lemma {:induction false} MulAtLeast(m: int, w: int)
    requires m >= 1 && w > 0
    ensures m * w >= w
  {
    if m > 1 {
      MulAtLeast(m - 1, w);
      assert m * w == (m - 1) * w + w;
    }
  }

  /** A quotient-remainder split of `a` with the remainder in range is the one `%` finds. */
  lemma ModUnique(a: int, w: int, q: int, r: int)
    requires w > 0 && 0 <= r < w && a == q * w + r
    ensures a % w == r
  {
    var q0 := a / w;
    if q0 < q {
      assert (q - q0) * w == q * w - q0 * w;
      MulAtLeast(q - q0, w);
    } else if q0 > q {
      assert (q0 - q) * w == q0 * w - q * w;
      MulAtLeast(q0 - q, w);
    }
  }

  /**
   * Wrapping the base address first changes nothing: adding `o + d` to `p`
   * is adding `o` to `p + d` taken modulo the word.
   */
  lemma ModShift(p: nat, o: nat, d: nat, w: nat)
    requires w > 0
    ensures (p + (o + d)) % w == ((p + d) % w + o) % w
  {
    var k := (p + d) / w;
    var q := (p + d) % w;
    var x := q + o;
    assert p + (o + d) == k * w + x;
    assert x == (x / w) * w + x % w;
    assert p + (o + d) == (k + x / w) * w + x % w;
    ModUnique(p + (o + d), w, k + x / w, x % w);
  }

  /**
   * A getter whose offset is `d` further on reads, from base `p`, what the
   * getter reads from base `p + d`: a field's getters inside a struct read
   * what the field's own getters read at the field's address.
   */
  lemma ShiftGetter(g: Getter, w: nat, mem: Memory, p: nat, d: nat)
    requires w > 0
    ensures GetPtrAndSize(g.(offset := g.offset + d), w, mem, p) == GetPtrAndSize(g, w, mem, (p + d) % w)
  {
    ModShift(p, g.offset, d, w);
  }
}
