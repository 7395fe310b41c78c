# anyhash, modelled in Dafny

`anyhash` hashes Go values of any hashable type `T`. `NewAnyHasher[T]`
walks the type once (`fill`) and compiles it into a plan: an ordered list
of getters, one per leaf of the type. Each getter finds one contiguous byte
region of a value, following the value's pointers and string or slice
headers. `GetHash` runs the plan on a value. It folds a wyhash-style mixer
over the regions in plan order, and each region's hash seeds the next.

While it walks, `fill` records which declared type refers to which, by the
names the types print as. It runs a three-colour depth-first search
(`isCycle`) after every new reference and refuses the type when a cycle is
reachable from the root. Only a struct passes itself on as the parent of
what it holds, so only struct names start a reference. A pointer to a
struct is refused as such: `type T struct{ next *T }` records `T` to `*T`
and is then refused as a pointer to a struct, not as a cycle. Slices and
arrays do not walk into their elements. So the cycle error can only come
from distinct types that print the same name. Slice and array elements
that show a pointer at the top level or in their (nested) struct fields
are refused. Arrays inside an element are not looked into: a slice of
arrays of pointers, or an element struct with an array-of-pointers field,
is accepted.

The model:

- `Types`: the type shape that `reflect` shows (`TypeShape`) and the element checks.
- `CycleCheck`: the declaration-cycle detector.
- `Getters`: the getters over an abstract memory.
- `Plan`: `fill`.
- `AnyHash`: `NewAnyHasher` and `GetHash`.
- `Hash64` and `Hash32`: the two mixers, over `seq<bv8>`.
- `ByteOrder`: native byte order.
- `Memhash`: the choice between the mixers by word width.

Most walks and loops are paired with a definition that does not walk step
by step, and a lemma ties the two together:

- `Hashable`, `Flatten` and `DeclEdge` describe which types `fill` accepts, which getters it emits and which references it records.
- `CycleReachable` (a lasso reachable from the root) describes what `isCycle` reports.
- `ShallowPointer` describes what the element checks reject.
- `Deref` describes `indirect`.
- `Hash32.Blocks` and `Hash32.TailAt` describe the reads of `memhashFallback32` by absolute offset.
- `FieldChain` describes the hash of a struct as its fields' own hashers, chained.

The loops of `memhashFallback64` are described by absolute offset only in
where they stop (`Hash64.LoopsStop`) and in the two words read after them
(`Hash64.LongTail`). The state they carry from block to block has no such
reference.

## Model

| member | source | states |
|---|---|---|
| Types.FieldsHavePointersExact | anyhash.go:129-141 | the field loop of `structHasPointers` finds a pointer from field `i` on exactly when a later field shows one, nested structs included |
| Types.StructHasPointersExact | anyhash.go:128-144 | `structHasPointers` holds exactly when a pointer kind occurs among the fields, looking through nested structs but never into arrays |
| Types.CheckElemTypeOfArrayOrSlice | anyhash.go:146-160 | the only error the element check gives is the invalid-element error |
| Types.CheckElemExact | anyhash.go:146-160 | an element type is accepted exactly when it shows no pointer kind, at the top or inside its (nested) struct fields |
| Types.PointerFreeAccepted | anyhash.go:146-160 | every element type that holds no pointer at all is accepted |
| Types.NoReachNoShallow | anyhash.go:118-144 | a pointer the checks see is a pointer the value really holds |
| Types.ArrayOfPointersAccepted | anyhash.go:118-126 | an array of pointers as element is accepted although it holds pointers, because arrays are not looked into |
| Types.FlattenArray | anyhash.go:167-172 | the nested-array loop ends on the first non-array element, which is the innermost element type |
| Types.FlattenArrayCounts | anyhash.go:169-172 | the loop's running product of lengths is the starting length times all nested lengths |
| Types.GetLenAndElemSzArray | anyhash.go:162-175 | a non-array is an error; otherwise the call succeeds exactly when the innermost element passes the check, and returns the total element count and that element's size |
| Types.GetElemSzOfSlice | anyhash.go:177-183 | succeeds exactly when the element shows no pointer, with the element's size |
| Types.ArrayGetterCoversArray | anyhash.go:162-175 | when sizes are as `reflect` reports them, count times innermost size is the array's whole size, so the array getter reads all of it |
| CycleCheck.Reset | cycle_decl_checker.go:17-21 | the reset keeps every key and leaves every status `notVisiting` |
| CycleCheck.IsCycle | cycle_decl_checker.go:16-36 | a nested call never turns a reached node unreached again, which bounds the recursion |
| CycleCheck.Scan | cycle_decl_checker.go:23-35 | the loop over `typEdge[v]` never turns a reached node unreached again |
| CycleCheck.ScanCorrect | cycle_decl_checker.go:23-35 | a reported cycle is a real lasso from the root; otherwise `v` leaves the stack as visited, and the stack, visited-order and ranking invariant holds again |
| CycleCheck.DescendCorrect | cycle_decl_checker.go:28-31 | the same for the step that recurses into a `notVisiting` successor |
| CycleCheck.FinishKeepsInv | cycle_decl_checker.go:34-35 | marking `v` visited once all its successors are visited keeps the invariant |
| CycleCheck.PushKeepsInv | cycle_decl_checker.go:23 | marking a successor in-visiting extends the stack path and keeps the invariant |
| CycleCheck.BackEdgeIsCycle | cycle_decl_checker.go:26-27 | meeting an in-visiting successor closes a cycle reachable from the root |
| CycleCheck.Descend | cycle_decl_checker.go:29-35 | along any walk from a visited node every node is visited, ranked strictly below the previous ones |
| CycleCheck.NoLassoFromRanked | cycle_decl_checker.go:34-35 | no cycle is reachable from a node that was finished as visited |
| CycleCheck.IsCycleExact | cycle_decl_checker.go:16-36 | with `resetVisits`, `isCycle(v)` is true exactly when a cycle is reachable from `v`, whatever the visit map held |
| CycleCheck.IsCycleOrderFree | cycle_decl_checker.go:24 | the answer does not depend on the order the edge sets are walked in |
| CycleCheck.SelfLoopIsCycle | cycle_decl_checker.go:23-27 | a node with an edge to itself is reported as a cycle |
| CycleCheck.IsCycleVisitsReachable | cycle_decl_checker.go:29-35 | when no cycle is found, `v` and every node reachable from it end `visited` |
| CycleCheck.LassoMeansReachableCycle | cycle_decl_checker.go:16-36 | a lasso from the root exists exactly when some node reachable from the root lies on a cycle |
| CycleCheck.AddEdge | anyhash.go:54 | setting `typEdge[a][b]` adds the edge a to b and changes no other edge |
| CycleCheck.Register | anyhash.go:49-51 | giving a type an edge set adds no edge |
| CycleCheck.CycleMonotone | anyhash.go:53-57 | a reachable cycle stays reachable when edges are added |
| CycleCheck.CycleThroughEdge | cycle_decl_checker.go:16-36 | a node with an edge to a node from which a cycle is reachable also reaches that cycle |
| CycleCheck.SameEdgesSameCycles | cycle_decl_checker.go:16-36 | two edge maps with the same edges have the same reachable cycles |
| Types.ElemHasPointers | anyhash.go:118-126 | the kinds counted as pointers are exactly those other than the base kinds, arrays and structs |
| Getters.Indirect | ptr_and_size_getter.go:9-18 | `indirect(p, depth)` is `depth` loads, the reference `Deref`, for depth 0, 1 and the recursive case alike |
| Getters.IndirectIsDeref | ptr_and_size_getter.go:9-18 | `indirect(p, d)` loads exactly `d` times, and one more level is one more load of its result |
| Getters.DerefFirst | ptr_and_size_getter.go:17 | loading first and then `d` times is `d + 1` loads |
| Getters.GetPtrAndSize | ptr_and_size_getter.go:30-69 | every getter adds its offset modulo the word, then loads `ptrDepth` times; base types and arrays read at the result with `elemSz` and `len * elemSz` bytes; strings and slices read the header's data pointer with `Len` and `Len * elemSz` bytes; every size is below the word modulus |
| Getters.Bytes | anyhash.go:27-28 | the region's bytes are the bytes at its start address onwards, as many as its size |
| Getters.StringReadsLikeByteSlice | ptr_and_size_getter.go:41-57 | the string getter reads the same region as a slice getter with one-byte elements |
| Getters.OneMorePointer | ptr_and_size_getter.go:9-18 | a getter one pointer deeper at offset zero reads what the same getter reads at the address stored there |
| Getters.ModShift | ptr_and_size_getter.go:31 | adding `o + d` to `p` and wrapping is adding `o` to the wrapped `p + d` and wrapping again |
| Getters.ShiftGetter | ptr_and_size_getter.go:30-69 | a getter whose offset is `d` further on reads, from base `p`, the region the getter reads from the wrapped base `p + d` |
| Plan.EnterGraph | anyhash.go:48-54 | entering a type adds exactly the reference from its parent, if it has one |
| Plan.Enter | anyhash.go:47-58 | without a parent, entering always succeeds; with one, it fails with the cycle error exactly when the grown graph has a cycle reachable from the root type, and on success it leaves the grown graph |
| Plan.DeclaredEdges | anyhash.go:47-101 | the walk records exactly the references parent to type, struct to field type, and a pointer's parent to what it points to |
| Plan.DeclaredFieldsEdges | anyhash.go:88-94 | the field loop records exactly the references of the remaining fields |
| Plan.FlattenShift | anyhash.go:88-94 | a type placed `d` bytes further on gets the same getters in the same order, each `d` bytes further on, through any nesting of structs and pointers |
| Plan.FieldsShift | anyhash.go:89-94 | the same for the getters of a struct's fields from `i` on |
| Plan.DeclEdgeUnderParent | anyhash.go:47-58 | every reference a type declares from the top is also declared when the type is walked under a parent |
| Plan.Fill | anyhash.go:40-116 | a successful walk appends exactly the getters of `Flatten`, in order, leaves the graph of `Declared`, and the type is acceptable |
| Plan.FillFields | anyhash.go:89-94 | a successful field loop appends the getters of the remaining fields in declaration order, records their references, and every remaining field is acceptable |
| Plan.CycleStays | anyhash.go:53-57 | a cycle found partway through the walk is still there at its end |
| Plan.CycleStaysFields | anyhash.go:89-94 | the same for the remaining fields of a struct |
| Plan.FillExact | anyhash.go:40-116 | `fill` succeeds exactly when the type is acceptable and the references it declares close no cycle reachable from the root type |
| Plan.FillSound | anyhash.go:47-116 | a successful walk from a cycle-free graph leaves no cycle reachable from the root type, because every reference it adds is checked at once |
| Plan.FillFieldsSound | anyhash.go:88-94 | the same for a successful field loop |
| Plan.FillComplete | anyhash.go:40-116 | an acceptable type whose declared references close no cycle reachable from the root type is walked without error |
| Plan.FillFieldsComplete | anyhash.go:88-94 | the field loop runs to the end when every remaining field is acceptable and their references close no reachable cycle |
| AnyHash.NewAnyHasher | anyhash.go:185-208 | an interface type panics; a hasher that is returned holds the plan `Flatten` of the type at offset 0 and depth 0, and the seed |
| AnyHash.NewAnyHasherExact | anyhash.go:185-208 | a hasher is returned exactly when the type is acceptable and its declarations are cycle-free; the recorded references are exactly those of `DeclEdge` |
| AnyHash.EmptyGraphNoCycle | anyhash.go:193-196 | the checker starts with no cycle |
| AnyHash.GetHash | anyhash.go:23-32 | the hash is a word of the target's width |
| AnyHash.Absorb64IsMemhashFallback | anyhash.go:27-28 | each turn of the 64-bit loop is one `MemhashFallback` call on the getter's region, seeded with the hash so far |
| AnyHash.Absorb32IsMemhashFallback | anyhash.go:27-28 | the same on a 32-bit target |
| AnyHash.EmptyPlanHashesToSeed | anyhash.go:25-31 | an empty plan returns the seed |
| AnyHash.EmptyStructHashesToSeed | anyhash.go:88-94 | an empty struct is accepted and hashes every value to the seed |
| AnyHash.FoldAppend | anyhash.go:26-29 | hashing through the concatenation of two plans is hashing through the first, then through the second seeded with the result |
| AnyHash.FieldsFoldInOrder | anyhash.go:89-94 | a struct's getters from field `i` on hash as the fields in order, each field's getters seeded with the hash of the fields before it |
| AnyHash.FoldShift | anyhash.go:26-29 | folding getters moved `d` bytes on is folding the getters themselves with a step that looks `d` bytes further on |
| AnyHash.GetHashShift | anyhash.go:23-32 | a plan whose getters are all moved `d` bytes on, run at `p`, hashes as the plan run at `(p + d)` modulo the word |
| AnyHash.GetHashAppend | anyhash.go:25-31 | for either width, hashing through two plans in a row is hashing through their concatenation |
| AnyHash.FlattenAt | anyhash.go:88-94 | a type's getters placed at `offset`, run at `p`, hash as its getters placed at zero run at the wrapped address `p + offset` |
| AnyHash.FieldHashesAlone | anyhash.go:88-94 | a field's getters inside the struct at `p` hash as the field type's own hasher at the field's address, with the same seed |
| AnyHash.FieldCycleIsStructCycle | anyhash.go:88-94 | a declaration cycle reachable in a field type's own graph is reachable in the struct's graph, so a struct with a hasher has fields with hashers |
| AnyHash.FieldLinkInPlace | anyhash.go:89-94 | a field whose type has a hasher passes on what its getters inside the struct hash to |
| AnyHash.FieldChainFrom | anyhash.go:88-94 | from field `i` on, when every remaining field type has a hasher, chaining the fields' own hashers gives the hash of the remaining getters of the struct |
| AnyHash.StructHashChainsFields | anyhash.go:88-94 | a struct with a hasher hashes as its fields' own hashers chained seed to seed, in declaration order, each run at the field's address `(p + offset)` modulo the word: every field type gets a hasher, and the chain ends on the struct's hash, for either mixer |
| AnyHash.FoldPairwise | anyhash.go:26-29 | two plans of equal length whose getters pairwise take the same turn fold to the same hash |
| AnyHash.SingleTurn | anyhash.go:26-29 | a one-getter plan is one turn of the loop |
| AnyHash.SameRegion64 | anyhash.go:26-29 | plans of equal length whose getters pairwise find the same regions, in two values, hash the same on a 64-bit target |
| AnyHash.SameRegion32 | anyhash.go:26-29 | the same on a 32-bit target |
| AnyHash.SameRegionSameHash | anyhash.go:23-32 | two hashers with the same seed and plans of equal length whose getters pairwise find the same regions give the same hash |
| AnyHash.StringHashesLikeByteSlice | anyhash.go:62-76 | a string and a `[]byte` under the same header hash the same |
| AnyHash.LeafPlan | anyhash.go:95-111 | a hashable non-struct type has a one-getter plan, and one more pointer in front adds one level of depth to it |
| AnyHash.PointerPlan | anyhash.go:95-101 | the plan of `*E` is the single getter of `E`'s plan at offset 0, one pointer level deeper, with the same seed |
| AnyHash.PointerHashesTarget | anyhash.go:95-101 | the hasher of `*E` at `p` gives what the hasher of `E` gives at the address stored at `p` |
| AnyHash.NestedArrayLikeFlat | anyhash.go:77-87 | a nested array gets the same hasher as the flat array of its innermost elements |
| AnyHash.CollidingNamesRejected | anyhash.go:47-58 | a struct with a field whose type prints the same as the struct itself is refused |
| AnyHash.SliceOfPointerArraysAccepted | anyhash.go:67-76 | a slice of arrays of pointers is accepted although its elements hold pointers |
| AnyHash.DisallowedTypesRejected | anyhash.go:95-104 | a channel, func, map or unsafe-pointer type is refused as not hashable, a pointer to a struct as such, a slice or array whose element shows a pointer as an invalid element, and a struct with any such field is refused |
| ByteOrder.DecodeEncode32 | internal/hash64.go:67-70 | decoding the four bytes a word encodes to gives the word back, in either order |
| ByteOrder.DecodeEncode64 | internal/hash64.go:72-75 | the same for eight bytes |
| ByteOrder.EncodeDecode32 | internal/hash64.go:67-70 | encoding a decoded four-byte sequence gives the bytes back |
| ByteOrder.EncodeDecode64 | internal/hash64.go:72-75 | the same for eight bytes |
| ByteOrder.R4Reads | internal/hash64.go:67-70 | `r4` reads exactly the four bytes at its address: storing the word back gives them again |
| ByteOrder.R8Reads | internal/hash64.go:72-75 | `r8` reads exactly the eight bytes at its address |
| ByteOrder.BigIsReversedLittle32 | internal/hash64.go:67-70 | big-endian is little-endian on the reversed bytes |
| ByteOrder.BigIsReversedLittle64 | internal/hash64.go:72-75 | the same for eight bytes |
| ByteOrder.Pack3 | internal/hash64.go:22-25 | for one to three bytes: the first byte is in bits 0-7, the byte at `s>>1` in bits 8-15, the last byte in bits 16-23 |
| Hash64.Mul64Narrow | internal/hash64.go:62-65 | for factors below 2^32 the high word of `bits.Mul64` is zero and `mix` is the plain product |
| Hash64.Left48 | internal/hash64.go:43 | the 48-byte loop leaves between 1 and 48 bytes |
| Hash64.Left16 | internal/hash64.go:51 | the 16-byte loop leaves between 1 and 16 bytes |
| Hash64.Left48ClosedForm | internal/hash64.go:43 | the 48-byte loop consumes every whole block but a last, possibly full, one |
| Hash64.Left16ClosedForm | internal/hash64.go:51 | the same for the 16-byte loop |
| Hash64.Loop48 | internal/hash64.go:40-48 | the advanced pointer plus the remaining count still ends at the buffer end |
| Hash64.Loop16 | internal/hash64.go:51-54 | the same for the 16-byte loop |
| Hash64.LongLoops | internal/hash64.go:39-54 | the loops stop with 1 to 16 bytes left before the buffer end |
| Hash64.LongLoopsStop | internal/hash64.go:39-54 | what is left is what the 16-byte loop leaves of what the 48-byte loop leaves |
| Hash64.LoopsStop | internal/hash64.go:43-51 | the loops consume `48 * Rounds48 + 16 * Rounds16` bytes, fewer than `s` and at least `s - 16` |
| Hash64.LongTail | internal/hash64.go:38-57 | above 16 bytes, `a` and `b` are the eight-byte words at absolute offsets `s - 16` and `s - 8`, whatever the loops consumed |
| Hash64.MemhashFallback64 | internal/hash64.go:16-60 | empty input gives `seed ^ m1`; otherwise the result is `mix(m5^s, mix(a^m2, b^seed))`, where `a` and `b` are the packed first, middle and last byte (1 to 3 bytes), the first and last four bytes (4 to 7), the first and last eight bytes (8 to 16), or the last sixteen bytes after the loops (above 16) |
| Hash32.Left8 | internal/hash32.go:10 | the loop leaves between 1 and 8 bytes |
| Hash32.Left8ClosedForm | internal/hash32.go:10 | the loop consumes every whole 8-byte block but a last, possibly full, one |
| Hash32.Loop8 | internal/hash32.go:10-15 | the advanced pointer plus the remaining count still ends at the buffer end |
| Hash32.LoopStops | internal/hash32.go:10-15 | on a non-empty input the loop stops at offset `8 * ((s - 1) / 8)` |
| Hash32.JoinSplit | internal/hash32.go:30-33 | the low and high words `mix32` returns reassemble the word they were cut from |
| Hash32.Mix32Halves | internal/hash32.go:30-33 | `mix32` returns the low and the high word of the 64-bit product of the keyed inputs, losing nothing of it |
| Hash32.ShiftedIsSeed | internal/hash32.go:6 | on a 32-bit `uintptr` the shift `s >> 32` is zero, so `seed ^ (s >> 32)` is the seed |
| Hash32.StartIgnoresShift | internal/hash32.go:6 | so the opening mix is `mix32(seed, s)` |
| Hash32.LoopIsBlocks | internal/hash32.go:10-15 | the loop folds in the blocks at offsets 0, 8, 16, and so on, through the one before `8 * ((s - 1) / 8)`, and stops there with the rest |
| Hash32.Tail | internal/hash32.go:16-24 | with 4 or more bytes left, `a` takes the word at the cursor and `b` the word ending at the buffer end; with fewer, `b` takes the packed first, middle and last of the remaining bytes and `a` is unchanged |
| Hash32.TailAtEnd | internal/hash32.go:16-24 | after `n` blocks, those reads land at absolute offsets `8 * n` and `s - 4`, or on the bytes from `8 * n` on |
| Hash32.MemhashFallback32 | internal/hash32.go:5-28 | on a non-empty input the result is the opening `mix32(seed, s)`, then every whole 8-byte block but the last, by absolute offset, then the word at `8 * ((s - 1) / 8)` and the word ending at `s` (or the packed bytes when fewer than four are left), then the two closing rounds and the fold |
| Hash32.EmptyInput32 | internal/hash32.go:6-9 | an empty input returns the folded opening mix and reads no byte |
| Hash32.EmptyIgnoresOrder | internal/hash32.go:6-9 | on an empty input the native byte order makes no difference |
| Memhash.WordModulus | internal/init.go:8 | `uintptr` wraps at 2^64 on a 64-bit target and at 2^32 on a 32-bit one |
| Memhash.Is64Bit | internal/init.go:8 | the all-ones test holds exactly on a 64-bit target |
| Memhash.DetectEndian | internal/init.go:16-26 | exactly the two layouts `CD AB` and `AB CD` are recognised |
| Memhash.DetectEndianRecognises | internal/init.go:16-26 | every little- or big-endian target is recognised with its own order |
| Memhash.MemhashFallback | internal/init.go:28-32 | a 64-bit target runs `memhashFallback64`, a 32-bit one `memhashFallback32`, and the result has the target's width |

## Left out

- `reflect` is replaced by the `TypeShape` datatype. A type's `String()` is its `name` field, and nothing ties equal names to equal shapes, just as in Go.
- Recursive types are not modelled: `TypeShape` is an inductive datatype, so it can express no type that refers to itself, directly or through a pointer, slice, array or struct field. In Go, `type P *P` makes `fill` recurse forever, since the pointer case passes the parent type on and never records a self edge; `type T struct{ next *T }` is refused as a pointer to a struct. The cycle error is modelled on distinct types that print the same name.
- `unsafe.Pointer` arithmetic and `noescape` are replaced by an abstract memory: the pointer, header and byte stored at each address. Header layouts are a (data, len) record.
- Byte addresses inside a region (`ptr + i`) are not wrapped at the word modulus.
- The debug `fmt.Println` in the base-type getter is left out, as output with no effect on the hash.
- The `init` panic when no byte order is recognised becomes `None` from `DetectEndian`. The platform (width and order) is a parameter.
- Go walks `typEdge` in random map order. The model fixes insertion order, and `CycleCheck.IsCycleOrderFree` shows that the order does not matter.
- A `len *=` overflow in `getLenAndElemSzArray` and a `field.Offset + offset` overflow are kept unbounded in the plan. They are reduced modulo the word size where the getters use them, which gives the same address and size as wrapping first.
- Hash quality, concurrency and the benchmarks are not modelled. The byte encodings of base values are not modelled either, because memory is given as bytes.
- The tests call `New`, but `anyhash.go` declares `NewAnyHasher`, so the model follows `NewAnyHasher`. For an interface type the tests expect an error, while `NewAnyHasher` panics at `val.Type()`. The model keeps that case apart as `ZeroValuePanic`.
- Hash64.Mul64: it follows the limb arithmetic of `bits.Mul64` but carries no contract that the pair is the 128-bit product in general, so `Hash64.Mix` has none either. Proving that needs 128-bit bit-vector products that are too costly to prove. `Hash64.Mul64Narrow` covers only factors below 2^32.
- Hash32.Mix32: `Hash32.Mix32Halves` shows that the two words it returns reassemble the 64-bit bit-vector product. It does not state that this equals the unbounded integer product of the factors (both are below 2^32, so nothing wraps), because relating bit-vector and integer products is too costly to prove.
- AnyHash.GetHash: the word-width test that `MemhashFallback` makes on every turn is made once, outside the loop, because the width is a constant of the target. `AnyHash.Absorb64IsMemhashFallback` and `AnyHash.Absorb32IsMemhashFallback` tie each turn back to `MemhashFallback`.
- On a 32-bit target the untyped constants of `internal/hash64.go` do not fit a `uintptr`, so the package as written does not build there. The 32-bit path is modelled as the code states it.
