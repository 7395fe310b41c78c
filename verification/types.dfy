/**
 * The shape of a Go type as `reflect` shows it to the hasher, and the
 * element checks `anyhash` applies to arrays and slices.
 *
 * `name` is `Type.String()`, the key the declaration-cycle check works on;
 * `size` is `Type.Size()`. Struct fields carry their byte offsets, as
 * `StructField.Offset` reports them.
 */
module Types {
  import opened Results

  /** The kinds `fill` refuses outright. */
  datatype OpaqueKind = Invalid | Chan | Func | Interface | Map | UnsafePointer

  datatype TypeShape =
      /** Bool, the integer, float and complex kinds, and `uintptr`. */
    | Basic(name: string, size: nat)
    | Str(name: string, size: nat)
    | Array(name: string, size: nat, len: nat, elem: TypeShape)
    | Slice(name: string, size: nat, elem: TypeShape)
    | Struct(name: string, size: nat, fields: seq<Field>)
    | Pointer(name: string, size: nat, elem: TypeShape)
    | Opaque(name: string, size: nat, kind: OpaqueKind)

  datatype Field = Field(offset: nat, typ: TypeShape)

  datatype HashError =
    | CycleDeclaration
    | CannotBeHashed(kind: OpaqueKind)
    | PointerOfStruct
    | InvalidElem
    | ExpectedArray
      /** `NewAnyHasher` on an interface type: `reflect.ValueOf` of a nil interface has no type. */
    | ZeroValuePanic

  /**
   * `elemHasPointers`: the kinds whose values hold a pointer at the top
   * level, which is every kind but the basic ones, arrays and structs.
   */
  predicate ElemHasPointers(t: TypeShape): (b: bool)
    ensures b <==> !(t.Basic? || t.Array? || t.Struct?)
  {
    t.Opaque? || t.Pointer? || t.Slice? || t.Str?
  }

  /**
   * `structHasPointers`: a field of a pointer kind, or a struct field that
   * has one, field by field in declaration order.
   */
  predicate StructHasPointers(t: TypeShape)
    requires t.Struct?
    decreases t, 1
  {
    FieldsHavePointers(t, 0)
  }

  /** The loop of `structHasPointers`, from field `i` on. */
  predicate FieldsHavePointers(t: TypeShape, i: nat)
    requires t.Struct? && i <= |t.fields|
    decreases t, 0, |t.fields| - i
  {
    if i == |t.fields| then false
    else
      var f := t.fields[i].typ;
      if ElemHasPointers(f) then true
      else if f.Struct? && StructHasPointers(f) then true
      else FieldsHavePointers(t, i + 1)
  }

  /**
   * What the two checks see: a pointer kind at the top, or inside a
   * struct's fields, nested structs included; array-typed fields are not
   * looked into.
   */
  ghost predicate ShallowPointer(t: TypeShape) {
    ElemHasPointers(t)
    || (t.Struct? && exists i :: 0 <= i < |t.fields| && ShallowPointer(t.fields[i].typ))
  }

  /** A pointer anywhere in the value's own memory, arrays included. */
  ghost predicate ReachesPointer(t: TypeShape) {
    ElemHasPointers(t)
    || (t.Struct? && exists i :: 0 <= i < |t.fields| && ReachesPointer(t.fields[i].typ))
    || (t.Array? && ReachesPointer(t.elem))
  }

  /** The loop finds a pointer from field `i` on exactly when some later field shows one. */
  lemma {:induction false} FieldsHavePointersExact(t: TypeShape, i: nat)
    requires t.Struct? && i <= |t.fields|
    ensures FieldsHavePointers(t, i) <==> exists j :: i <= j < |t.fields| && ShallowPointer(t.fields[j].typ)
    decreases t, 0, |t.fields| - i
  {
    if i < |t.fields| {
      var f := t.fields[i].typ;
      if f.Struct? {
        StructHasPointersExact(f);
      }
      FieldsHavePointersExact(t, i + 1);
      if !FieldsHavePointers(t, i) {
        assert !ShallowPointer(f);
      }
    }
  }

  /** `structHasPointers` answers whether the struct shows a pointer. */
  lemma {:induction false} StructHasPointersExact(t: TypeShape)
    requires t.Struct?
    ensures StructHasPointers(t) <==> ShallowPointer(t)
    decreases t, 1
  {
    FieldsHavePointersExact(t, 0);
  }

  /**
   * `checkElemTypeOfArrayOrSlice`: `None` when the element type is
   * accepted.
   */
  function CheckElemTypeOfArrayOrSlice(e: TypeShape): (r: Option<HashError>)
    ensures r.Some? ==> r.value == InvalidElem
  {
    if ElemHasPointers(e) then Some(InvalidElem)
    else if e.Struct? && StructHasPointers(e) then Some(InvalidElem)
    else None
  }

  /** An element type is accepted exactly when it shows no pointer. */
  lemma CheckElemExact(e: TypeShape)
    ensures CheckElemTypeOfArrayOrSlice(e).None? <==> !ShallowPointer(e)
  {
    if e.Struct? {
      StructHasPointersExact(e);
    }
  }

  /** Every pointer-free element type is accepted. */
  lemma PointerFreeAccepted(e: TypeShape)
    requires !ReachesPointer(e)
    ensures CheckElemTypeOfArrayOrSlice(e).None?
  {
    NoReachNoShallow(e);
    CheckElemExact(e);
  }

  lemma {:induction false} NoReachNoShallow(t: TypeShape)
    ensures ShallowPointer(t) ==> ReachesPointer(t)
  {
    if t.Struct? && ShallowPointer(t) && !ElemHasPointers(t) {
      var i :| 0 <= i < |t.fields| && ShallowPointer(t.fields[i].typ);
      NoReachNoShallow(t.fields[i].typ);
    }
  }

  /**
   * The converse fails: an array of pointers is neither a pointer kind nor
   * a struct, so it is accepted although it holds pointers.
   */
  lemma ArrayOfPointersAccepted(name: string, size: nat, len: nat, p: TypeShape)
    requires p.Pointer?
    ensures CheckElemTypeOfArrayOrSlice(Array(name, size, len, p)).None?
    ensures ReachesPointer(Array(name, size, len, p))
  {
  }

  /** The innermost element type of an array, through nested arrays. */
  function Innermost(t: TypeShape): (e: TypeShape)
    requires t.Array?
    ensures !e.Array?
  {
    if t.elem.Array? then Innermost(t.elem) else t.elem
  }

  /** How many innermost elements an array holds: the product of the nested lengths. */
  function FlatLen(t: TypeShape): nat
    requires t.Array?
  {
    if t.elem.Array? then t.len * FlatLen(t.elem) else t.len
  }

  /** The `for elemTyp.Kind() == reflect.Array` loop: `len` multiplied by each nested length. */
  function FlattenArray(elem: TypeShape, len: nat): (r: (nat, TypeShape))
    ensures !r.1.Array?
    ensures elem.Array? ==> r.1 == Innermost(elem)
    ensures !elem.Array? ==> r == (len, elem)
  {
    if elem.Array? then FlattenArray(elem.elem, len * elem.len) else (len, elem)
  }

  /** The loop's running product agrees with `FlatLen`, whatever it started from. */
  lemma {:induction false} FlattenArrayCounts(elem: TypeShape, len: nat)
    requires elem.Array?
    ensures FlattenArray(elem, len).0 == len * FlatLen(elem)
  {
    if elem.elem.Array? {
      FlattenArrayCounts(elem.elem, len * elem.len);
      assert len * elem.len * FlatLen(elem.elem) == len * (elem.len * FlatLen(elem.elem));
    }
  }

  /**
   * `getLenAndElemSzArray`: the total count of innermost elements and the
   * innermost element's size, or the element check's error.
   */
  function GetLenAndElemSzArray(t: TypeShape): (r: Result<(nat, nat), HashError>)
    ensures !t.Array? ==> r == Failure(ExpectedArray)
    ensures t.Array? ==>
      (r.Success? <==> CheckElemTypeOfArrayOrSlice(Innermost(t)).None?)
      && (r.Success? ==> r.value == (FlatLen(t), Innermost(t).size))
      && (r.Failure? ==> r.error == InvalidElem)
  {
    if !t.Array? then Failure(ExpectedArray)
    else
      var (len, e) := FlattenArray(t.elem, t.len);
      assert len == FlatLen(t) && (!t.elem.Array? ==> e == t.elem) by {
        if t.elem.Array? {
          FlattenArrayCounts(t.elem, t.len);
        }
      }
      match CheckElemTypeOfArrayOrSlice(e)
      case Some(err) => Failure(err)
      case None => Success((len, e.size))
  }

  /** `getElemSzOfSlice`: the element's size, or the element check's error. */
  function GetElemSzOfSlice(e: TypeShape): (r: Result<nat, HashError>)
    ensures r.Success? <==> !ShallowPointer(e)
    ensures r.Success? ==> r.value == e.size
    ensures r.Failure? ==> r.error == InvalidElem
  {
    CheckElemExact(e);
    match CheckElemTypeOfArrayOrSlice(e)
    case Some(err) => Failure(err)
    case None => Success(e.size)
  }

  /**
   * Sizes as `reflect` reports them for arrays: `len` times the element's
   * size, all the way down.
   */
  ghost predicate ArraySized(t: TypeShape) {
    t.Array? ==> t.size == t.len * t.elem.size && ArraySized(t.elem)
  }

  /** The array getter covers the array's whole memory: count times element size is its size. */
  lemma {:induction false} ArrayGetterCoversArray(t: TypeShape)
    requires t.Array? && ArraySized(t)
    ensures FlatLen(t) * Innermost(t).size == t.size
  {
    if t.elem.Array? {
      ArrayGetterCoversArray(t.elem);
      assert t.len * FlatLen(t.elem) * Innermost(t.elem).size == t.len * (FlatLen(t.elem) * Innermost(t.elem).size);
    }
  }
}
