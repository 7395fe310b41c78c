/**
 * `NewAnyHasher` and `GetHash`: build the getter plan for a type once,
 * then hash a value by feeding each getter's region to the mixer in turn,
 * each result seeding the next.
 */
module AnyHash {
  import opened Results
  import opened Types
  import opened Getters
  import opened CycleCheck
  import opened Plan
  import opened ByteOrder
  import opened Memhash
  import Hash64
  import Hash32

  /** `AnyHasher[T]`: the plan, and the seed (a `uint`, as wide as `uintptr`). */
  datatype AnyHasher = AnyHasher(getters: seq<Getter>, seed: Word)

  /** The builder `NewAnyHasher` starts from: no getters, empty maps, the root type's name. */
  function InitialBuilder(t: TypeShape): Builder {
    Builder([], map[], map[], t.name)
  }

  /**
   * `NewAnyHasher[T](seed)` for `T` of shape `t`. For an interface `T` the
   * zero value boxes to the zero `reflect.Value`, whose `Type()` panics
   * before `fill` runs.
   */
  function NewAnyHasher(t: TypeShape, seed: Word): (r: Result<AnyHasher, HashError>)
    ensures t.Opaque? && t.kind == Interface ==> r == Failure(ZeroValuePanic)
    ensures r.Success? ==> r.value.getters == Flatten(t, 0, 0) && r.value.seed == seed
  {
    if t.Opaque? && t.kind == Interface then Failure(ZeroValuePanic)
    else
      var b :- Fill(t, 0, None, 0, InitialBuilder(t));
      Success(AnyHasher(b.getters, seed))
  }

  /** The references recorded for `t` walked from the top. */
  function DeclGraph(t: TypeShape): Graph {
    Declared(map[], t, None)
  }

  lemma EmptyGraphNoCycle(root: string)
    ensures !CycleReachable(map[], root)
  {
    forall p | true
      ensures !Lasso(map[], root, p)
    {
      if |p| >= 2 {
        assert !Edge(map[], p[0], p[1]);
      }
    }
  }

  /**
   * `NewAnyHasher` returns a hasher exactly when the type is acceptable and
   * its declared references close no cycle reachable from it; the plan is
   * then `Flatten` of the type.
   */
  lemma NewAnyHasherExact(t: TypeShape, seed: Word)
    ensures NewAnyHasher(t, seed).Success? <==> Hashable(t) && !CycleReachable(DeclGraph(t), t.name)
    ensures forall a, b :: Edge(DeclGraph(t), a, b) <==> DeclEdge(t, None, a, b)
  {
    EmptyGraphNoCycle(t.name);
    FillExact(t, 0, None, 0, InitialBuilder(t));
    DeclaredEdges(map[], t, None);
  }

  /**
   * The `for _, getter := range` loop of `GetHash`: each getter's turn
   * mixes its region into the running hash, which seeds the next turn.
   */
  function Fold<W>(step: (Getter, W) -> W, gs: seq<Getter>, seed: W): W {
    if gs == [] then seed else Fold(step, gs[1..], step(gs[0], seed))
  }

  /** A getter's turn on a 64-bit target: its region's bytes through `memhashFallback64`. */
  function Absorb64(order: Endian, mem: Memory, p: nat, g: Getter, seed: bv64): bv64 {
    Hash64.MemhashFallback64(order, Bytes(mem, GetPtrAndSize(g, Hash64.TWO64, mem, p)), seed)
  }

  /** A getter's turn on a 32-bit target: its region's bytes through `memhashFallback32`. */
  function Absorb32(order: Endian, mem: Memory, p: nat, g: Getter, seed: bv32): bv32 {
    Hash32.MemhashFallback32(order, Bytes(mem, GetPtrAndSize(g, Hash32.TWO32, mem, p)), seed)
  }

  /** Each turn of the 64-bit loop is one call of `MemhashFallback`. */
  lemma Absorb64IsMemhashFallback(order: Endian, mem: Memory, p: nat, g: Getter, seed: bv64)
    ensures W64(Absorb64(order, mem, p, g, seed))
         == MemhashFallback(Platform(Bits64, order), Bytes(mem, GetPtrAndSize(g, Hash64.TWO64, mem, p)), W64(seed))
  {
  }

  /** Each turn of the 32-bit loop is one call of `MemhashFallback`. */
  lemma Absorb32IsMemhashFallback(order: Endian, mem: Memory, p: nat, g: Getter, seed: bv32)
    ensures W32(Absorb32(order, mem, p, g, seed))
         == MemhashFallback(Platform(Bits32, order), Bytes(mem, GetPtrAndSize(g, Hash32.TWO32, mem, p)), W32(seed))
  {
  }

  /** `GetHash` on a 64-bit target. */
  function Plan64(order: Endian, mem: Memory, p: nat, gs: seq<Getter>, seed: bv64): bv64 {
    Fold((g, s) => Absorb64(order, mem, p, g, s), gs, seed)
  }

  /** `GetHash` on a 32-bit target. */
  function Plan32(order: Endian, mem: Memory, p: nat, gs: seq<Getter>, seed: bv32): bv32 {
    Fold((g, s) => Absorb32(order, mem, p, g, s), gs, seed)
  }

  /**
   * `GetHash(v)` for the value stored at address `p`. The word width is a
   * constant of the target, so the choice `MemhashFallback` makes on every
   * turn is made once, outside the loop.
   */
  function GetHash(h: AnyHasher, pl: Platform, mem: Memory, p: nat): (r: Word)
    requires Fits(pl, h.seed)
    ensures Fits(pl, r)
  {
    if Is64Bit(pl.width) then W64(Plan64(pl.order, mem, p, h.getters, h.seed.w64))
    else W32(Plan32(pl.order, mem, p, h.getters, h.seed.w32))
  }

  /** An empty plan hashes every value to the seed: the loop never runs. */
  lemma EmptyPlanHashesToSeed(h: AnyHasher, pl: Platform, mem: Memory, p: nat)
    requires Fits(pl, h.seed) && h.getters == []
    ensures GetHash(h, pl, mem, p) == h.seed
  {
    if pl.width == Bits64 {
      GetHashIs64(h, pl, mem, p);
    } else {
      GetHashIs32(h, pl, mem, p);
    }
  }

  /**
   * A value with nothing to read (an empty struct) hashes to the seed: the
   * loop never runs.
   */
  lemma EmptyStructHashesToSeed(name: string, seed: Word, pl: Platform, mem: Memory, p: nat)
    requires Fits(pl, seed)
    ensures NewAnyHasher(Struct(name, 0, []), seed).Success?
    ensures GetHash(NewAnyHasher(Struct(name, 0, []), seed).value, pl, mem, p) == seed
  {
    var t := Struct(name, 0, []);
    NewAnyHasherExact(t, seed);
    EmptyGraphNoCycle(name);
    SameEdgesSameCycles(DeclGraph(t), map[], name);
  }

  /** Hashing through two plans in a row is hashing through their concatenation. */
  lemma {:induction false} FoldAppend<W>(step: (Getter, W) -> W, a: seq<Getter>, b: seq<Getter>, seed: W)
    ensures Fold(step, a + b, seed) == Fold(step, b, Fold(step, a, seed))
    decreases |a|
  {
    if a == [] {
      assert a + b == b;
    } else {
      assert (a + b)[0] == a[0] && (a + b)[1..] == a[1..] + b;
      FoldAppend(step, a[1..], b, step(a[0], seed));
    }
  }

  /**
   * A struct's fields hashed one after the other, each field's plan
   * seeded with the hash of the fields before it.
   */
  function FieldFold<W>(step: (Getter, W) -> W, t: TypeShape, i: nat, seed: W): W
    requires t.Struct? && i <= |t.fields|
    decreases |t.fields| - i
  {
    if i == |t.fields| then seed
    else
      var f := t.fields[i];
      FieldFold(step, t, i + 1, Fold(step, Flatten(f.typ, f.offset, 0), seed))
  }

  lemma {:induction false} FieldsFoldInOrder<W>(step: (Getter, W) -> W, t: TypeShape, i: nat, seed: W)
    requires t.Struct? && i <= |t.fields|
    ensures Fold(step, FlattenFields(t, i, 0, 0), seed) == FieldFold(step, t, i, seed)
    decreases |t.fields| - i
  {
    if i < |t.fields| {
      var f := t.fields[i];
      var first := Flatten(f.typ, f.offset + 0, 0);
      assert f.offset + 0 == f.offset;
      FoldAppend(step, first, FlattenFields(t, i + 1, 0, 0), seed);
      FieldsFoldInOrder(step, t, i + 1, Fold(step, first, seed));
    }
  }

  /**
   * Folding getters moved `d` bytes on is folding the getters themselves
   * with a step that already looks `d` bytes further on.
   */
  lemma {:induction false} FoldShift<W>(s1: (Getter, W) -> W, s2: (Getter, W) -> W, gs: seq<Getter>, d: nat, seed: W)
    requires forall g: Getter, x: W :: s1(g.(offset := g.offset + d), x) == s2(g, x)
    ensures Fold(s1, Shift(gs, d), seed) == Fold(s2, gs, seed)
    decreases |gs|
  {
    if gs != [] {
      assert Shift(gs, d)[1..] == Shift(gs[1..], d);
      FoldShift(s1, s2, gs[1..], d, s2(gs[0], seed));
    }
  }

  /** A plan moved `d` bytes on, run at `p`, hashes as the plan run at `p + d`. */
  lemma GetHashShift(pl: Platform, mem: Memory, p: nat, gs: seq<Getter>, d: nat, s: Word)
    requires Fits(pl, s)
    ensures GetHash(AnyHasher(Shift(gs, d), s), pl, mem, p)
         == GetHash(AnyHasher(gs, s), pl, mem, (p + d) % WordModulus(pl.width))
  {
    var q := (p + d) % WordModulus(pl.width);
    if pl.width == Bits64 {
      var s1 := (g, x) => Absorb64(pl.order, mem, p, g, x);
      var s2 := (g, x) => Absorb64(pl.order, mem, q, g, x);
      forall g: Getter, x: bv64
        ensures s1(g.(offset := g.offset + d), x) == s2(g, x)
      {
        ShiftGetter(g, Hash64.TWO64, mem, p, d);
      }
      FoldShift(s1, s2, gs, d, s.w64);
      GetHashIs64(AnyHasher(Shift(gs, d), s), pl, mem, p);
      GetHashIs64(AnyHasher(gs, s), pl, mem, q);
    } else {
      var s1 := (g, x) => Absorb32(pl.order, mem, p, g, x);
      var s2 := (g, x) => Absorb32(pl.order, mem, q, g, x);
      forall g: Getter, x: bv32
        ensures s1(g.(offset := g.offset + d), x) == s2(g, x)
      {
        ShiftGetter(g, Hash32.TWO32, mem, p, d);
      }
      FoldShift(s1, s2, gs, d, s.w32);
      GetHashIs32(AnyHasher(Shift(gs, d), s), pl, mem, p);
      GetHashIs32(AnyHasher(gs, s), pl, mem, q);
    }
  }

  /** Hashing through two plans in a row, for either width. */
  lemma GetHashAppend(pl: Platform, mem: Memory, p: nat, a: seq<Getter>, b: seq<Getter>, s: Word)
    requires Fits(pl, s)
    ensures GetHash(AnyHasher(a + b, s), pl, mem, p)
         == GetHash(AnyHasher(b, GetHash(AnyHasher(a, s), pl, mem, p)), pl, mem, p)
  {
    var m := GetHash(AnyHasher(a, s), pl, mem, p);
    if pl.width == Bits64 {
      FoldAppend((g, x) => Absorb64(pl.order, mem, p, g, x), a, b, s.w64);
      GetHashIs64(AnyHasher(a + b, s), pl, mem, p);
      GetHashIs64(AnyHasher(a, s), pl, mem, p);
      GetHashIs64(AnyHasher(b, m), pl, mem, p);
    } else {
      FoldAppend((g, x) => Absorb32(pl.order, mem, p, g, x), a, b, s.w32);
      GetHashIs32(AnyHasher(a + b, s), pl, mem, p);
      GetHashIs32(AnyHasher(a, s), pl, mem, p);
      GetHashIs32(AnyHasher(b, m), pl, mem, p);
    }
  }

  /** The address `offset` bytes into the value at `p`: a wrapping `uintptr` sum. */
  function FieldAddress(pl: Platform, p: nat, offset: nat): nat {
    (p + offset) % WordModulus(pl.width)
  }

  /**
   * The getters of a type placed at `offset`, run at `p`, hash as the
   * type's getters placed at zero, run at `p + offset`.
   */
  lemma FlattenAt(t: TypeShape, offset: nat, h: AnyHasher, pl: Platform, mem: Memory, p: nat)
    requires Fits(pl, h.seed) && h.getters == Flatten(t, 0, 0)
    ensures GetHash(AnyHasher(Flatten(t, offset, 0), h.seed), pl, mem, p)
         == GetHash(h, pl, mem, FieldAddress(pl, p, offset))
  {
    var gs := Flatten(t, 0, 0);
    FlattenShift(t, 0, offset, 0);
    assert 0 + offset == offset;
    assert Flatten(t, offset, 0) == Shift(gs, offset);
    GetHashShift(pl, mem, p, gs, offset, h.seed);
    assert h == AnyHasher(gs, h.seed);
  }

  /**
   * A field's getters inside the struct at `p` hash as the field's own
   * hasher at the field's address `p + offset`.
   */
  lemma FieldHashesAlone(f: Field, s: Word, pl: Platform, mem: Memory, p: nat)
    requires Fits(pl, s) && NewAnyHasher(f.typ, s).Success?
    ensures GetHash(AnyHasher(Flatten(f.typ, f.offset, 0), s), pl, mem, p)
         == GetHash(NewAnyHasher(f.typ, s).value, pl, mem, FieldAddress(pl, p, f.offset))
  {
    FlattenAt(f.typ, f.offset, NewAnyHasher(f.typ, s).value, pl, mem, p);
  }

  /**
   * A cycle among a field type's own references is a cycle of the struct:
   * the struct records all of them, and a reference to the field type.
   */
  lemma FieldCycleIsStructCycle(t: TypeShape, i: nat)
    requires t.Struct? && i < |t.fields|
    ensures var f := t.fields[i].typ;
      CycleReachable(DeclGraph(f), f.name) ==> CycleReachable(DeclGraph(t), t.name)
  {
    var f := t.fields[i].typ;
    if CycleReachable(DeclGraph(f), f.name) {
      DeclaredEdges(map[], f, None);
      DeclaredEdges(map[], t, None);
      forall a, b | Edge(DeclGraph(f), a, b)
        ensures Edge(DeclGraph(t), a, b)
      {
        DeclEdgeUnderParent(f, t.name, a, b);
        assert DeclEdge(t.fields[i].typ, Some(t.name), a, b);
      }
      CycleMonotone(DeclGraph(f), DeclGraph(t), f.name);
      assert DeclEdge(t.fields[i].typ, Some(t.name), t.name, f.name);
      CycleThroughEdge(DeclGraph(t), t.name, f.name);
    }
  }

  /**
   * One field hashed by its own hasher at the field's address inside the
   * struct at `p`, seeded with `s`; a field type with no hasher gives its
   * error.
   */
  function FieldLink(f: Field, pl: Platform, mem: Memory, p: nat, s: Word): (r: Result<Word, HashError>)
    requires Fits(pl, s)
    ensures r.Success? ==> Fits(pl, r.value)
  {
    var hr := NewAnyHasher(f.typ, s);
    if hr.Failure? then Failure(hr.error)
    else Success(GetHash(hr.value, pl, mem, FieldAddress(pl, p, f.offset)))
  }

  /**
   * The fields from `i` on, each hashed by its own hasher at its own
   * address, each seeded with the hash of the fields before it; a field
   * type with no hasher stops the chain with its error.
   */
  function FieldChain(t: TypeShape, i: nat, pl: Platform, mem: Memory, p: nat, s: Word): Result<Word, HashError>
    requires t.Struct? && i <= |t.fields| && Fits(pl, s)
    decreases |t.fields| - i
  {
    if i == |t.fields| then Success(s)
    else
      var next :- FieldLink(t.fields[i], pl, mem, p, s);
      FieldChain(t, i + 1, pl, mem, p, next)
  }

  /**
   * A field with a hasher links on what its getters inside the struct
   * hash to.
   */
  lemma FieldLinkInPlace(f: Field, pl: Platform, mem: Memory, p: nat, s: Word)
    requires Fits(pl, s) && NewAnyHasher(f.typ, s).Success?
    ensures FieldLink(f, pl, mem, p, s) == Success(GetHash(AnyHasher(Flatten(f.typ, f.offset, 0), s), pl, mem, p))
  {
    FieldHashesAlone(f, s, pl, mem, p);
  }

  /**
   * From field `i` on, when every remaining field type is acceptable and
   * cycle-free, the chain ends on the hash of the remaining fields'
   * getters run inside the struct.
   */
  lemma {:induction false} FieldChainFrom(t: TypeShape, i: nat, pl: Platform, mem: Memory, p: nat, s: Word)
    requires t.Struct? && i <= |t.fields| && Fits(pl, s)
    requires forall j :: i <= j < |t.fields| ==>
      Hashable(t.fields[j].typ) && !CycleReachable(DeclGraph(t.fields[j].typ), t.fields[j].typ.name)
    ensures FieldChain(t, i, pl, mem, p, s) == Success(GetHash(AnyHasher(FlattenFields(t, i, 0, 0), s), pl, mem, p))
    decreases |t.fields| - i
  {
    if i == |t.fields| {
      EmptyPlanHashesToSeed(AnyHasher([], s), pl, mem, p);
    } else {
      var f := t.fields[i];
      NewAnyHasherExact(f.typ, s);
      var seg := Flatten(f.typ, f.offset, 0);
      var rest := FlattenFields(t, i + 1, 0, 0);
      assert FlattenFields(t, i, 0, 0) == seg + rest by {
        assert f.offset + 0 == f.offset;
      }
      FieldLinkInPlace(f, pl, mem, p, s);
      GetHashAppend(pl, mem, p, seg, rest, s);
      FieldChainFrom(t, i + 1, pl, mem, p, GetHash(AnyHasher(seg, s), pl, mem, p));
    }
  }

  /**
   * A struct hashes as its fields' own hashers chained seed to seed, in
   * declaration order, each at the field's address: every field type has
   * a hasher, and the chain ends on the struct's hash.
   */
  lemma StructHashChainsFields(t: TypeShape, seed: Word, pl: Platform, mem: Memory, p: nat)
    requires t.Struct? && NewAnyHasher(t, seed).Success? && Fits(pl, seed)
    ensures FieldChain(t, 0, pl, mem, p, seed) == Success(GetHash(NewAnyHasher(t, seed).value, pl, mem, p))
  {
    NewAnyHasherExact(t, seed);
    forall j | 0 <= j < |t.fields|
      ensures !CycleReachable(DeclGraph(t.fields[j].typ), t.fields[j].typ.name)
    {
      FieldCycleIsStructCycle(t, j);
    }
    FieldChainFrom(t, 0, pl, mem, p, seed);
  }

  /** A plan of one getter is one turn of the loop. */
  lemma {:induction false} SingleTurn<W>(step: (Getter, W) -> W, g: Getter, seed: W)
    ensures Fold(step, [g], seed) == step(g, seed)
  {
    assert [g][1..] == [];
  }

  /**
   * Two plans of equal length whose getters pairwise take the same turn
   * fold to the same hash.
   */
  lemma {:induction false} FoldPairwise<W>(s1: (Getter, W) -> W, gs1: seq<Getter>, s2: (Getter, W) -> W, gs2: seq<Getter>, seed: W)
    requires |gs1| == |gs2|
    requires forall i, x :: 0 <= i < |gs1| ==> s1(gs1[i], x) == s2(gs2[i], x)
    ensures Fold(s1, gs1, seed) == Fold(s2, gs2, seed)
    decreases |gs1|
  {
    if gs1 != [] {
      assert s1(gs1[0], seed) == s2(gs2[0], seed);
      FoldPairwise(s1, gs1[1..], s2, gs2[1..], s1(gs1[0], seed));
    }
  }

  /** Plans of equal length whose getters pairwise find the same regions hash alike. */
  lemma SameRegion64(order: Endian, mem: Memory, gs1: seq<Getter>, p1: nat, gs2: seq<Getter>, p2: nat, seed: bv64)
    requires |gs1| == |gs2|
    requires forall i :: 0 <= i < |gs1| ==>
      GetPtrAndSize(gs1[i], Hash64.TWO64, mem, p1) == GetPtrAndSize(gs2[i], Hash64.TWO64, mem, p2)
    ensures Plan64(order, mem, p1, gs1, seed) == Plan64(order, mem, p2, gs2, seed)
  {
    FoldPairwise((g, s) => Absorb64(order, mem, p1, g, s), gs1, (g, s) => Absorb64(order, mem, p2, g, s), gs2, seed);
  }

  lemma SameRegion32(order: Endian, mem: Memory, gs1: seq<Getter>, p1: nat, gs2: seq<Getter>, p2: nat, seed: bv32)
    requires |gs1| == |gs2|
    requires forall i :: 0 <= i < |gs1| ==>
      GetPtrAndSize(gs1[i], Hash32.TWO32, mem, p1) == GetPtrAndSize(gs2[i], Hash32.TWO32, mem, p2)
    ensures Plan32(order, mem, p1, gs1, seed) == Plan32(order, mem, p2, gs2, seed)
  {
    FoldPairwise((g, s) => Absorb32(order, mem, p1, g, s), gs1, (g, s) => Absorb32(order, mem, p2, g, s), gs2, seed);
  }

  /** On a 64-bit target `GetHash` is the 64-bit loop. */
  lemma GetHashIs64(h: AnyHasher, pl: Platform, mem: Memory, p: nat)
    requires pl.width == Bits64 && h.seed.W64?
    ensures GetHash(h, pl, mem, p) == W64(Plan64(pl.order, mem, p, h.getters, h.seed.w64))
  {
  }

  /** On a 32-bit target `GetHash` is the 32-bit loop. */
  lemma GetHashIs32(h: AnyHasher, pl: Platform, mem: Memory, p: nat)
    requires pl.width == Bits32 && h.seed.W32?
    ensures GetHash(h, pl, mem, p) == W32(Plan32(pl.order, mem, p, h.getters, h.seed.w32))
  {
  }

  /**
   * Two hashers with the same seed whose plans have the same length and
   * pairwise find the same regions give the same hash.
   */
  lemma SameRegionSameHash(h1: AnyHasher, p1: nat, h2: AnyHasher, p2: nat, pl: Platform, mem: Memory)
    requires h1.seed == h2.seed && Fits(pl, h1.seed)
    requires |h1.getters| == |h2.getters|
    requires forall i :: 0 <= i < |h1.getters| ==>
      GetPtrAndSize(h1.getters[i], WordModulus(pl.width), mem, p1)
        == GetPtrAndSize(h2.getters[i], WordModulus(pl.width), mem, p2)
    ensures GetHash(h1, pl, mem, p1) == GetHash(h2, pl, mem, p2)
  {
    if pl.width == Bits64 {
      GetHashIs64(h1, pl, mem, p1);
      GetHashIs64(h2, pl, mem, p2);
      SameRegion64(pl.order, mem, h1.getters, p1, h2.getters, p2, h1.seed.w64);
    } else {
      GetHashIs32(h1, pl, mem, p1);
      GetHashIs32(h2, pl, mem, p2);
      SameRegion32(pl.order, mem, h1.getters, p1, h2.getters, p2, h1.seed.w32);
    }
  }

  /**
   * A string and a `[]byte` (one-byte elements) holding the same header
   * hash the same.
   */
  lemma StringHashesLikeByteSlice(s: TypeShape, bs: TypeShape, seed: Word, pl: Platform, mem: Memory, p: nat)
    requires s.Str? && bs.Slice? && bs.elem.Basic? && bs.elem.size == 1
    requires Fits(pl, seed)
    ensures NewAnyHasher(s, seed).Success? && NewAnyHasher(bs, seed).Success?
    ensures GetHash(NewAnyHasher(s, seed).value, pl, mem, p) == GetHash(NewAnyHasher(bs, seed).value, pl, mem, p)
  {
    NewAnyHasherExact(s, seed);
    NewAnyHasherExact(bs, seed);
    EmptyGraphNoCycle(s.name);
    EmptyGraphNoCycle(bs.name);
    SameEdgesSameCycles(DeclGraph(s), map[], s.name);
    SameEdgesSameCycles(DeclGraph(bs), map[], bs.name);
    StringReadsLikeByteSlice(WordModulus(pl.width), mem, p, 0, 0);
    SameRegionSameHash(NewAnyHasher(s, seed).value, p, NewAnyHasher(bs, seed).value, p, pl, mem);
  }

  /**
   * The plan of a hashable type that is not a struct: a single getter at
   * offset zero, one level deeper when behind one more pointer.
   */
  lemma {:induction false} LeafPlan(e: TypeShape, d: nat)
    requires Hashable(e) && !e.Struct?
    ensures |Flatten(e, 0, d)| == 1 && Flatten(e, 0, d)[0].offset == 0
    ensures Flatten(e, 0, d + 1) == [Flatten(e, 0, d)[0].(ptrDepth := Flatten(e, 0, d)[0].ptrDepth + 1)]
  {
    if e.Pointer? {
      LeafPlan(e.elem, d + 1);
    }
  }

  /**
   * Hashing a pointer hashes what it points to: the hasher for `*E` at `p`
   * gives what the hasher for `E` gives at the address stored in `p`.
   */
  lemma PointerHashesTarget(ptr: TypeShape, seed: Word, pl: Platform, mem: Memory, p: nat)
    requires ptr.Pointer?
    requires NewAnyHasher(ptr, seed).Success? && NewAnyHasher(ptr.elem, seed).Success?
    requires Fits(pl, seed) && p < WordModulus(pl.width) && PointersFit(mem, WordModulus(pl.width))
    ensures GetHash(NewAnyHasher(ptr, seed).value, pl, mem, p)
         == GetHash(NewAnyHasher(ptr.elem, seed).value, pl, mem, mem.ptrAt(p))
  {
    var h := NewAnyHasher(ptr.elem, seed).value;
    PointerPlan(ptr, seed);
    OneMorePointer(h.getters[0], WordModulus(pl.width), mem, p);
    SameRegionSameHash(NewAnyHasher(ptr, seed).value, p, h, mem.ptrAt(p), pl, mem);
  }

  /**
   * The plan of `*E` is the one getter of `E`'s plan, one pointer deeper;
   * `fill` refuses a pointer to a struct, so that plan has one getter.
   */
  lemma PointerPlan(ptr: TypeShape, seed: Word)
    requires ptr.Pointer?
    requires NewAnyHasher(ptr, seed).Success? && NewAnyHasher(ptr.elem, seed).Success?
    ensures var gs := NewAnyHasher(ptr.elem, seed).value.getters;
      |gs| == 1 && gs[0].offset == 0
      && NewAnyHasher(ptr, seed).value.getters == [gs[0].(ptrDepth := gs[0].ptrDepth + 1)]
      && NewAnyHasher(ptr, seed).value.seed == NewAnyHasher(ptr.elem, seed).value.seed
  {
    NewAnyHasherExact(ptr, seed);
    LeafPlan(ptr.elem, 0);
  }

  /**
   * Nested arrays are hashed as one flat array: `[2][2]int16` gets the
   * same hasher as `[4]int16`.
   */
  lemma NestedArrayLikeFlat(nested: TypeShape, flat: TypeShape, seed: Word)
    requires nested.Array? && flat.Array? && !flat.elem.Array?
    requires flat.elem == Innermost(nested) && flat.len == FlatLen(nested)
    ensures NewAnyHasher(nested, seed).Success? <==> NewAnyHasher(flat, seed).Success?
    ensures NewAnyHasher(nested, seed).Success? ==> NewAnyHasher(nested, seed).value == NewAnyHasher(flat, seed).value
  {
    NewAnyHasherExact(nested, seed);
    NewAnyHasherExact(flat, seed);
    EmptyGraphNoCycle(nested.name);
    EmptyGraphNoCycle(flat.name);
    SameEdgesSameCycles(DeclGraph(nested), map[], nested.name);
    SameEdgesSameCycles(DeclGraph(flat), map[], flat.name);
  }

  /**
   * Name collisions are what make cycles: a struct with a field whose type
   * prints the same as the struct itself (two packages both named `x`,
   * say) is refused as a cycle declaration.
   */
  lemma CollidingNamesRejected(name: string, size: nat, inner: seq<Field>, seed: Word)
    requires forall i :: 0 <= i < |inner| ==> inner[i].typ.Basic?
    ensures NewAnyHasher(Struct(name, size, [Field(0, Struct(name, size, inner))]), seed).Failure?
  {
    var t := Struct(name, size, [Field(0, Struct(name, size, inner))]);
    NewAnyHasherExact(t, seed);
    assert DeclEdge(t.fields[0].typ, Some(name), name, name);
    assert DeclEdge(t, None, name, name);
    var p := [name, name];
    assert Edge(DeclGraph(t), p[0], p[1]);
    assert p[..1] == [name];
    assert Lasso(DeclGraph(t), name, p);
  }

  /**
   * A slice of arrays of pointers is accepted: the element check does not
   * look inside array-typed elements, so the plan hashes the pointer words
   * themselves.
   */
  lemma SliceOfPointerArraysAccepted(name: string, size: nat, arr: TypeShape, seed: Word)
    requires arr.Array? && arr.elem.Pointer?
    ensures NewAnyHasher(Slice(name, size, arr), seed).Success?
    ensures ReachesPointer(arr)
  {
    var t := Slice(name, size, arr);
    NewAnyHasherExact(t, seed);
    EmptyGraphNoCycle(name);
    SameEdgesSameCycles(DeclGraph(t), map[], name);
  }

  /**
   * The refusals: an opaque kind, a pointer to a struct, and a slice or
   * array whose element shows a pointer each fail at the top with their
   * own error, and a struct fails when any of its fields would.
   */
  lemma DisallowedTypesRejected(t: TypeShape, seed: Word)
    ensures t.Opaque? && t.kind != Interface ==> NewAnyHasher(t, seed) == Failure(CannotBeHashed(t.kind))
    ensures t.Pointer? && t.elem.Struct? ==> NewAnyHasher(t, seed) == Failure(PointerOfStruct)
    ensures t.Slice? && ShallowPointer(t.elem) ==> NewAnyHasher(t, seed) == Failure(InvalidElem)
    ensures t.Array? && ShallowPointer(Innermost(t)) ==> NewAnyHasher(t, seed) == Failure(InvalidElem)
    ensures t.Struct? && (exists i :: 0 <= i < |t.fields| && !Hashable(t.fields[i].typ)) ==> NewAnyHasher(t, seed).Failure?
  {
    NewAnyHasherExact(t, seed);
    if t.Array? {
      CheckElemExact(Innermost(t));
    }
  }
}
