/**
 * `hashBuilder.fill`: the walk over a type that collects one getter per
 * hashable leaf, records which declared type refers to which in the cycle
 * checker, and stops at the first error.
 *
 * Next to it stand three descriptions that do not walk step by step:
 * `Hashable` (which types are accepted), `Flatten` (which getters they
 * get) and `DeclEdge` (which references get recorded); `FillExact` ties
 * `fill` to them.
 */
module Plan {
  import opened Results
  import opened Types
  import opened Getters
  import opened CycleCheck

  /** `hashBuilder`: the getters so far, the checker's two maps, and `baseTyp.String()`. */
  datatype Builder = Builder(getters: seq<Getter>, edges: Graph, visits: Visits, root: string)

  /** The graph after entering type `name` from `parent` (lines 48-54 of `fill`). */
  function EnterGraph(g: Graph, name: string, parent: Option<string>): (r: Graph)
    ensures forall x, y :: Edge(r, x, y) <==> Edge(g, x, y) || (parent == Some(x) && y == name)
  {
    var g1 := Register(g, name);
    if parent.Some? then AddEdge(g1, parent.value, name) else g1
  }

  /**
   * The start of `fill`: mark the type not-visiting, give it an edge set,
   * and when it has a parent record the reference and run the cycle check
   * from the root type.
   */
  function Enter(b: Builder, name: string, parent: Option<string>): (r: Result<Builder, HashError>)
    ensures r.Failure? ==> r.error == CycleDeclaration
    ensures parent.None? ==> r.Success?
    ensures parent.Some? ==> (r.Success? <==> !CycleReachable(EnterGraph(b.edges, name, parent), b.root))
    ensures r.Success? ==>
      r.value.edges == EnterGraph(b.edges, name, parent) && r.value.getters == b.getters && r.value.root == b.root
  {
    var b1 := b.(visits := b.visits[name := NotVisiting], edges := Register(b.edges, name));
    if parent.None? then Success(b1)
    else
      var g := AddEdge(b1.edges, parent.value, name);
      IsCycleExact(g, b.root, b1.visits);
      var (found, vs) := IsCycle(g, b.root, true, b1.visits);
      if found then Failure(CycleDeclaration) else Success(b1.(edges := g, visits := vs))
  }

  /** The types `fill` accepts, error paths aside from the cycle check. */
  ghost predicate Hashable(t: TypeShape) {
    match t
    case Basic(_, _) => true
    case Str(_, _) => true
    case Slice(_, _, e) => !ShallowPointer(e)
    case Array(_, _, _, _) => !ShallowPointer(Innermost(t))
    case Struct(_, _, fields) => forall i :: 0 <= i < |fields| ==> Hashable(fields[i].typ)
    case Pointer(_, _, e) => !e.Struct? && Hashable(e)
    case Opaque(_, _, _) => false
  }

  /**
   * The getters a type at `offset`, `ptrDepth` pointers deep, is hashed
   * through: one per leaf, struct fields in declaration order, a pointer
   * adding one level of indirection to what it points to.
   */
  function Flatten(t: TypeShape, offset: nat, ptrDepth: nat): seq<Getter>
    decreases t, 1
  {
    match t
    case Basic(_, size) => [BaseTypeGetter(offset, ptrDepth, size)]
    case Str(_, _) => [StringGetter(offset, ptrDepth)]
    case Slice(_, _, e) => [SliceGetter(offset, ptrDepth, e.size)]
    case Array(_, _, _, _) => [ArrayGetter(offset, ptrDepth, FlatLen(t), Innermost(t).size)]
    case Struct(_, _, _) => FlattenFields(t, 0, offset, ptrDepth)
    case Pointer(_, _, e) => Flatten(e, offset, ptrDepth + 1)
    case Opaque(_, _, _) => []
  }

  /** The getters of fields `i..` of struct `t`, each at its own offset. */
  function FlattenFields(t: TypeShape, i: nat, offset: nat, ptrDepth: nat): seq<Getter>
    requires t.Struct? && i <= |t.fields|
    decreases t, 0, |t.fields| - i
  {
    if i == |t.fields| then []
    else
      var f := t.fields[i];
      Flatten(f.typ, f.offset + offset, ptrDepth) + FlattenFields(t, i + 1, offset, ptrDepth)
  }

  /** The getters `gs` moved `d` bytes further into the value. */
  function Shift(gs: seq<Getter>, d: nat): (r: seq<Getter>)
    ensures |r| == |gs|
    ensures forall i :: 0 <= i < |gs| ==> r[i] == gs[i].(offset := gs[i].offset + d)
  {
    if gs == [] then [] else [gs[0].(offset := gs[0].offset + d)] + Shift(gs[1..], d)
  }

  lemma {:induction false} ShiftAppend(a: seq<Getter>, b: seq<Getter>, d: nat)
    ensures Shift(a + b, d) == Shift(a, d) + Shift(b, d)
    decreases |a|
  {
    if a == [] {
      assert a + b == b;
    } else {
      assert (a + b)[1..] == a[1..] + b;
      ShiftAppend(a[1..], b, d);
    }
  }

  /**
   * A type placed `d` bytes further on gets the same getters, each `d`
   * bytes further on: offsets only ever add up.
   */
  lemma {:induction false} FlattenShift(t: TypeShape, offset: nat, d: nat, ptrDepth: nat)
    ensures Flatten(t, offset + d, ptrDepth) == Shift(Flatten(t, offset, ptrDepth), d)
    decreases t, 1
  {
    match t
    case Struct(_, _, _) => FieldsShift(t, 0, offset, d, ptrDepth);
    case Pointer(_, _, e) => FlattenShift(e, offset, d, ptrDepth + 1);
    case _ =>
  }

  lemma {:induction false} FieldsShift(t: TypeShape, i: nat, offset: nat, d: nat, ptrDepth: nat)
    requires t.Struct? && i <= |t.fields|
    ensures FlattenFields(t, i, offset + d, ptrDepth) == Shift(FlattenFields(t, i, offset, ptrDepth), d)
    decreases t, 0, |t.fields| - i
  {
    if i < |t.fields| {
      var f := t.fields[i];
      assert f.offset + (offset + d) == (f.offset + offset) + d;
      FlattenShift(f.typ, f.offset + offset, d, ptrDepth);
      FieldsShift(t, i + 1, offset, d, ptrDepth);
      ShiftAppend(Flatten(f.typ, f.offset + offset, ptrDepth), FlattenFields(t, i + 1, offset, ptrDepth), d);
    }
  }

  /**
   * The references `fill` records for type `t` entered from `parent`: the
   * parent to `t`, each struct to its fields' types, and a pointer's
   * parent to what it points to (not the pointer type itself).
   */
  ghost predicate DeclEdge(t: TypeShape, parent: Option<string>, a: string, b: string) {
    (parent == Some(a) && b == t.name)
    || (t.Struct? && exists i :: 0 <= i < |t.fields| && DeclEdge(t.fields[i].typ, Some(t.name), a, b))
    || (t.Pointer? && DeclEdge(t.elem, parent, a, b))
  }

  /**
   * A type walked under a parent records every reference it records at
   * the top, and the one from the parent besides.
   */
  lemma {:induction false} DeclEdgeUnderParent(t: TypeShape, parent: string, a: string, b: string)
    requires DeclEdge(t, None, a, b)
    ensures DeclEdge(t, Some(parent), a, b)
    decreases t
  {
    if t.Pointer? && DeclEdge(t.elem, None, a, b) {
      DeclEdgeUnderParent(t.elem, parent, a, b);
    }
  }

  /** The checker's graph once `t` has been walked from `parent`, in `fill`'s order. */
  function Declared(g: Graph, t: TypeShape, parent: Option<string>): Graph
    decreases t, 1
  {
    var g2 := EnterGraph(g, t.name, parent);
    match t
    case Struct(_, _, _) => DeclaredFields(g2, t, 0)
    case Pointer(_, _, e) => Declared(g2, e, parent)
    case _ => g2
  }

  function DeclaredFields(g: Graph, t: TypeShape, i: nat): Graph
    requires t.Struct? && i <= |t.fields|
    decreases t, 0, |t.fields| - i
  {
    if i == |t.fields| then g
    else DeclaredFields(Declared(g, t.fields[i].typ, Some(t.name)), t, i + 1)
  }

  /** The walk adds exactly the references `DeclEdge` names, to whatever was there. */
  lemma {:induction false} DeclaredEdges(g: Graph, t: TypeShape, parent: Option<string>)
    ensures forall a, b :: Edge(Declared(g, t, parent), a, b) <==> Edge(g, a, b) || DeclEdge(t, parent, a, b)
    decreases t, 1
  {
    var g2 := EnterGraph(g, t.name, parent);
    match t
    case Struct(_, _, fields) =>
      DeclaredFieldsEdges(g2, t, 0);
      forall a, b ensures DeclEdge(t, parent, a, b) <==>
        (parent == Some(a) && b == t.name) || exists j :: 0 <= j < |fields| && DeclEdge(fields[j].typ, Some(t.name), a, b)
      {
      }
    case Pointer(_, _, e) =>
      DeclaredEdges(g2, e, parent);
    case _ =>
  }

  lemma {:induction false} DeclaredFieldsEdges(g: Graph, t: TypeShape, i: nat)
    requires t.Struct? && i <= |t.fields|
    ensures forall a, b :: Edge(DeclaredFields(g, t, i), a, b) <==>
      Edge(g, a, b) || exists j :: i <= j < |t.fields| && DeclEdge(t.fields[j].typ, Some(t.name), a, b)
    decreases t, 0, |t.fields| - i
  {
    if i < |t.fields| {
      var g1 := Declared(g, t.fields[i].typ, Some(t.name));
      DeclaredEdges(g, t.fields[i].typ, Some(t.name));
      DeclaredFieldsEdges(g1, t, i + 1);
      forall a, b ensures (exists j :: i <= j < |t.fields| && DeclEdge(t.fields[j].typ, Some(t.name), a, b)) <==>
        DeclEdge(t.fields[i].typ, Some(t.name), a, b)
        || exists j :: i + 1 <= j < |t.fields| && DeclEdge(t.fields[j].typ, Some(t.name), a, b)
      {
      }
    }
  }

  function Append(b: Builder, g: Getter): (r: Builder)
    ensures r.getters == b.getters + [g] && r.edges == b.edges && r.root == b.root
  {
    b.(getters := b.getters + [g])
  }

  /**
   * `fill(v, offset, parentTyp, ptrDepth)` for a value of type `t`. A
   * successful walk leaves exactly the getters `Flatten` lists, after those
   * already collected, and the graph `Declared` describes.
   */
  function Fill(t: TypeShape, offset: nat, parent: Option<string>, ptrDepth: nat, b: Builder): (r: Result<Builder, HashError>)
    ensures r.Success? ==>
      r.value.getters == b.getters + Flatten(t, offset, ptrDepth)
      && r.value.edges == Declared(b.edges, t, parent)
      && r.value.root == b.root
      && Hashable(t)
    decreases t, 1
  {
    var b2 :- Enter(b, t.name, parent);
    match t
    case Str(_, _) => Success(Append(b2, StringGetter(offset, ptrDepth)))
    case Slice(_, _, e) =>
      var elemSz :- GetElemSzOfSlice(e);
      Success(Append(b2, SliceGetter(offset, ptrDepth, elemSz)))
    case Array(_, _, _, _) =>
      var lenSz :- GetLenAndElemSzArray(t);
      CheckElemExact(Innermost(t));
      Success(Append(b2, ArrayGetter(offset, ptrDepth, lenSz.0, lenSz.1)))
    case Struct(_, _, _) => FillFields(t, 0, offset, ptrDepth, b2)
    case Pointer(_, _, e) =>
      if e.Struct? then Failure(PointerOfStruct)
      else Fill(e, offset, parent, ptrDepth + 1, b2)
    case Opaque(_, _, k) => Failure(CannotBeHashed(k))
    case Basic(_, size) => Success(Append(b2, BaseTypeGetter(offset, ptrDepth, size)))
  }

  /** The `for i := 0; i < typ.NumField(); i++` loop of `fill`, from field `i` on. */
  function FillFields(t: TypeShape, i: nat, offset: nat, ptrDepth: nat, b: Builder): (r: Result<Builder, HashError>)
    requires t.Struct? && i <= |t.fields|
    ensures r.Success? ==>
      r.value.getters == b.getters + FlattenFields(t, i, offset, ptrDepth)
      && r.value.edges == DeclaredFields(b.edges, t, i)
      && r.value.root == b.root
      && forall j :: i <= j < |t.fields| ==> Hashable(t.fields[j].typ)
    decreases t, 0, |t.fields| - i
  {
    if i == |t.fields| then Success(b)
    else
      var f := t.fields[i];
      var b1 :- Fill(f.typ, f.offset + offset, Some(t.name), ptrDepth, b);
      FillFields(t, i + 1, offset, ptrDepth, b1)
  }

  /** A cycle reachable partway through the walk is still reachable at its end. */
  lemma CycleStays(g: Graph, t: TypeShape, parent: Option<string>, root: string)
    requires CycleReachable(g, root)
    ensures CycleReachable(Declared(g, t, parent), root)
  {
    DeclaredEdges(g, t, parent);
    CycleMonotone(g, Declared(g, t, parent), root);
  }

  lemma CycleStaysFields(g: Graph, t: TypeShape, i: nat, root: string)
    requires t.Struct? && i <= |t.fields| && CycleReachable(g, root)
    ensures CycleReachable(DeclaredFields(g, t, i), root)
  {
    DeclaredFieldsEdges(g, t, i);
    CycleMonotone(g, DeclaredFields(g, t, i), root);
  }

  /**
   * A successful walk leaves no cycle reachable from the root type: every
   * reference it adds is followed at once by the cycle check.
   */
  lemma {:induction false} FillSound(t: TypeShape, offset: nat, parent: Option<string>, ptrDepth: nat, b: Builder)
    requires !CycleReachable(b.edges, b.root)
    ensures Fill(t, offset, parent, ptrDepth, b).Success? ==> !CycleReachable(Declared(b.edges, t, parent), b.root)
    decreases t, 1
  {
    var e := Enter(b, t.name, parent);
    if parent.None? {
      SameEdgesSameCycles(b.edges, EnterGraph(b.edges, t.name, parent), b.root);
    }
    if e.Success? {
      match t
      case Struct(_, _, _) => FillFieldsSound(t, 0, offset, ptrDepth, e.value);
      case Pointer(_, _, el) =>
        if !el.Struct? {
          FillSound(el, offset, parent, ptrDepth + 1, e.value);
        }
      case _ =>
    }
  }

  lemma {:induction false} FillFieldsSound(t: TypeShape, i: nat, offset: nat, ptrDepth: nat, b: Builder)
    requires t.Struct? && i <= |t.fields|
    requires !CycleReachable(b.edges, b.root)
    ensures FillFields(t, i, offset, ptrDepth, b).Success? ==> !CycleReachable(DeclaredFields(b.edges, t, i), b.root)
    decreases t, 0, |t.fields| - i
  {
    if i < |t.fields| {
      var f := t.fields[i];
      var r1 := Fill(f.typ, f.offset + offset, Some(t.name), ptrDepth, b);
      if r1.Success? {
        FillSound(f.typ, f.offset + offset, Some(t.name), ptrDepth, b);
        FillFieldsSound(t, i + 1, offset, ptrDepth, r1.value);
      }
    }
  }

  /**
   * An acceptable type whose declared references close no cycle reachable
   * from the root type is walked to the end.
   */
  lemma {:induction false} FillComplete(t: TypeShape, offset: nat, parent: Option<string>, ptrDepth: nat, b: Builder)
    requires Hashable(t) && !CycleReachable(Declared(b.edges, t, parent), b.root)
    ensures Fill(t, offset, parent, ptrDepth, b).Success?
    decreases t, 1
  {
    var g2 := EnterGraph(b.edges, t.name, parent);
    if CycleReachable(g2, b.root) {
      CycleStays(g2, t, parent, b.root);
      match t
      case Struct(_, _, _) => CycleStaysFields(g2, t, 0, b.root);
      case Pointer(_, _, el) => CycleStays(g2, el, parent, b.root);
      case _ =>
    }
    var b2 := Enter(b, t.name, parent).value;
    match t
    case Array(_, _, _, _) => CheckElemExact(Innermost(t));
    case Struct(_, _, _) => FillFieldsComplete(t, 0, offset, ptrDepth, b2);
    case Pointer(_, _, el) => FillComplete(el, offset, parent, ptrDepth + 1, b2);
    case _ =>
  }

  lemma {:induction false} FillFieldsComplete(t: TypeShape, i: nat, offset: nat, ptrDepth: nat, b: Builder)
    requires t.Struct? && i <= |t.fields|
    requires forall j :: i <= j < |t.fields| ==> Hashable(t.fields[j].typ)
    requires !CycleReachable(DeclaredFields(b.edges, t, i), b.root)
    ensures FillFields(t, i, offset, ptrDepth, b).Success?
    decreases t, 0, |t.fields| - i
  {
    if i < |t.fields| {
      var f := t.fields[i];
      var g1 := Declared(b.edges, f.typ, Some(t.name));
      if CycleReachable(g1, b.root) {
        CycleStaysFields(g1, t, i + 1, b.root);
      }
      FillComplete(f.typ, f.offset + offset, Some(t.name), ptrDepth, b);
      var r1 := Fill(f.typ, f.offset + offset, Some(t.name), ptrDepth, b);
      FillFieldsComplete(t, i + 1, offset, ptrDepth, r1.value);
    }
  }

  /**
   * `fill` succeeds exactly when the type is acceptable and the references
   * it declares close no cycle reachable from the root type. The checks
   * run on the graph as it grows, but a cycle once present stays, so only
   * the final graph matters.
   */
  lemma FillExact(t: TypeShape, offset: nat, parent: Option<string>, ptrDepth: nat, b: Builder)
    requires !CycleReachable(b.edges, b.root)
    ensures Fill(t, offset, parent, ptrDepth, b).Success?
        <==> Hashable(t) && !CycleReachable(Declared(b.edges, t, parent), b.root)
  {
    FillSound(t, offset, parent, ptrDepth, b);
    if Hashable(t) && !CycleReachable(Declared(b.edges, t, parent), b.root) {
      FillComplete(t, offset, parent, ptrDepth, b);
    }
  }

}
