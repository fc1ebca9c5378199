# deepcopy — a Dafny model of the Go deep-copy library

The library copies any Go value through reflection. It has three parts, modelled
here as pure functions over immutable data:

- **The type classifier.** `analyzeTypeRecursive` decides, per type, whether a
  value of that type can be returned as it is ("value-only"). It also records six
  informational flags and a per-field map for structs. A per-pass `visited` map
  stops the recursion on self-referential types. A per-manager memo
  (`getOrAnalyzeType`) and a call-site cache keyed by caller strings
  (`getOrCreateBusinessCopyInfo` / `initializeCopyInfo`) sit in front of it.
- **The copy engine.** `copyRecursive` and its twin `copyRecursiveWithCache` copy
  a value graph. A visited table maps each source pointer to its copy, so shared
  pointers stay shared and pointer cycles stay pointer cycles. A user-declared `DeepCopy` method
  (`hasDeepCopyMethod`) replaces the default rule for a node.
- **The entry points.** `Copy`, `CopyWithKey`, `DeepCopyManager.CopyValue`,
  `AnalyzeValue` and `AnalyzeType` each choose among four outcomes:
  - the zero value;
  - the `DeepCopy` result;
  - the source unchanged, because its type is value-only;
  - a traversal.

  Each entry point checks these in its own order.

**How the model represents Go.**

- **Types.** Go types are the datatype `GoType`. A defined type is `Named(id)`,
  resolved through a `TypeEnv`, so self-referential types are finite terms.
- **Values and pointers.** Values are the datatype `Val`, and every value carries
  its type. The source heap is a sequence of cells, and a pointer is an address
  into it.
- **Copies.** Copying returns the value its destination slot ends up holding. It
  also returns the state it leaves behind: fresh cells, numbered above every
  source address, and the visited table.
- **User `DeepCopy` methods.** These are uninterpreted functions supplied in a
  per-type method table.
- **The caches.** The process-wide caches are passed in and returned.

The main results:

- **Isomorphism.** Without overrides, a traversal produces the source graph
  with each reachable source cell replaced by its own fresh cell
  (`EngineProofs.CopyIsIsomorphic`).
- **The twin engine.** `copyRecursiveWithCache` computes exactly what
  `copyRecursive` computes (`CachedEngine.WithInfoIsCopyVal`).
- **The classifier.** For every type Go accepts, defined and self-referential
  types included, a fresh pass is value-only exactly for the types whose values
  hold no reference and no unexported field (`DefinedTypeProofs.AnalyzeValueOnly`).
  On types without named references, the whole result, flags included, equals a
  memo-free structural recursion (`ClassifierProofs.AnalyzeClosedType`).
- **The value-only shortcut.** For every concrete T Go accepts, with a memo
  holding fresh-pass results and no usable DeepCopy method on T itself, Copy
  takes the shortcut exactly when T is value-only. The shortcut returns what a
  traversal would return only when no type declares a usable DeepCopy method
  (`FacadeProofs.ShortcutIsSound`). Otherwise a DeepCopy on a field's type is
  skipped by the shortcut and called by a traversal
  (`Scenarios.NestedDeepCopySkipped`).
- **The call-site cache.** The first call for a key fixes its entry for good
  (`ClassifierProofs.FirstCallWins`).

`Copy`'s doc comment (deepcopy.go:138-140) says it returns a value directly only
when its data holds nothing but value types, and the classifier never calls an
interface kind value-only (deepcopy.go:413-415). For an interface-typed `T` the
code does otherwise. It takes the analysis from `reflect.TypeOf` of T's zero
value, which is nil for such a `T`. A nil type gets a synthetic value-only result
(deepcopy.go:97-103), so `Copy[any]` returns its argument unchanged. The model
follows the code (`Facade.Copy`). It also proves the corrected variant
(`Facade.CopyCorrected`). See "Findings".

## Model

| member | source | states |
|---|---|---|
| Engine.HasDeepCopyMethod | deepcopy.go:112-127 | An invalid value never has an override. A method is found only when the value's type declares one, and then it has the accepted signature: a valid function taking only the receiver and returning one value. Under a method table with no such method the detector never fires |
| Engine.CopyVal | deepcopy.go:465-596 | The state only grows: allocated cells are never rewritten and visited entries never change. Nil pointers, interfaces, slices and maps stay nil, with nothing allocated. Non-nil slices keep type, length and capacity; maps and arrays keep their length. Scalars, channels, funcs, unsafe pointers and time.Time pass through unchanged. A struct's override result is taken verbatim; otherwise field names and visibility are kept and unexported fields are zero |
| Engine.CopyPtr | deepcopy.go:468-515 | A visited pointer yields the recorded copy without any change. Otherwise the copy is recorded under the source address. The pointer's own override comes first: a result of the pointer's type is stored as it is, with nothing allocated; any other result goes into one fresh cell. Only when the pointer has no override is its referent's override consulted, and its result also goes into one fresh cell. With neither override the copy is a pointer to a newly allocated cell above every source address |
| CachedEngine.CopyValWithInfo | deepcopy.go:599-733 | The twin only grows the copy state, as copyRecursive does |
| CachedEngine.WithInfoIsCopyVal | deepcopy.go:599-733 | For every type-analysis argument, copyRecursiveWithCache returns the value and state copyRecursive returns: the threaded analysis never changes a decision |
| EngineProofs.CopyIsIsomorphic | deepcopy.go:465-596 | Without overrides, from an empty visited table, the result is the source value with every reached source address replaced by its recorded copy. Each recorded address has exactly one fresh cell, and distinct addresses get distinct cells. Each fresh cell holds the copy of its source cell, so sharing and cycles are preserved and no source cell is reused |
| EngineProofs.CopyValIsomorphic | deepcopy.go:465-596 | Without overrides, from any state, the result is the copy of the value under the final visited table. Every cell allocated during the call ends holding the copy of its source cell, even though a pointer's cell is allocated before its referent is copied (deepcopy.go:512-515) |
| EngineProofs.CopyValOneCellEach | deepcopy.go:474-515 | Without overrides, each call allocates exactly one cell per address it newly records. Distinct recorded addresses keep distinct cells |
| EngineProofs.MatchGrows | deepcopy.go:476-479 | A copy stays a copy when more addresses are recorded, because recorded entries are never changed |
| EngineProofs.AllocationBound | deepcopy.go:474-515 | Whatever DeepCopy methods exist, a copy allocates at most one cell per visited entry and visits each source address at most once |
| Classifier.Analyze | deepcopy.go:281-423 | A type already in visited returns its entry with visited unchanged; otherwise visited grows and ends holding the result under the type. Basic kinds are value-only; pointer, slice, map, chan, func, interface, unsafe-pointer and invalid kinds are never value-only |
| Classifier.AnalyzeShape | deepcopy.go:296-420 | Per kind: pointers, slices and maps set their own flag, are not value-only and carry no field map. Chan, func and interface give exactly their own flag. A struct's field map has exactly its exported field names. A struct with an unexported field is not value-only. A value-only struct has only value-only fields; the converse is ClassifierProofs.StructValueOnlyIff, and the array case is ClassifierProofs.ArrayTakesElement |
| Classifier.AnalyzeFields | deepcopy.go:334-368 | The field loop ends with a field map keyed by exactly the exported names and leaves the struct's entry in visited equal to its result. Value-only at the end means no unexported field and every recorded field value-only; the converse is ClassifierProofs.FieldsBitIsConjunction |
| Classifier.GetOrAnalyze | deepcopy.go:265-278 | A cached type is answered from the memo with the memo unchanged; otherwise the memo gains exactly one entry, the type with the returned result. That the result is a fresh pass's is ClassifierProofs.MemoIsTransparent |
| ClassifierProofs.MemoIsTransparent | deepcopy.go:265-278 | When every memo entry is what a fresh pass computes, a lookup returns what a fresh pass computes, every entry of the new memo is still a fresh pass's result, and a repeated lookup is answered from the memo with nothing changed |
| Classifier.InitializeCopyInfo | deepcopy.go:452-462 | A nil type gives a value-only entry without analysis and leaves the memo alone; otherwise the entry's value-only bit is that of the memoised analysis of its type |
| Classifier.GetOrCreateCopyInfo | deepcopy.go:426-449 | An existing key returns its stored entry and changes nothing. A new key stores a fresh entry for the given type and adds nothing else to the call-site cache |
| ClassifierProofs.AnalyzeIsClassify | deepcopy.go:281-423 | On a type without named references, with every smaller visited entry final, the visited map never changes the answer: the result equals the memo-free structural recursion Classify, and every entry the pass adds is final |
| ClassifierProofs.ClassifyValueOnly | deepcopy.go:296-420 | The reference is value-only exactly for basic types, arrays of value-only elements, and structs whose fields are all exported and value-only |
| ClassifierProofs.ClassifyFlags | deepcopy.go:304-416 | Each flag is set exactly when its kind is reachable through array elements, exported fields, pointer referents, slice elements, map keys and map elements |
| ClassifierProofs.ClassifyFieldsValueOnly | deepcopy.go:316-349 | The field loop keeps the value-only bit exactly when it held before and every exported field from there on is value-only |
| ClassifierProofs.ClassifyFieldsFlag | deepcopy.go:350-367 | The field loop sets a flag exactly when it was already set or some exported field from there on sets it |
| ClassifierProofs.AnalyzeClosedType | deepcopy.go:272 | A fresh analysis pass of a type without named references is value-only exactly on value-only types, and sets each flag exactly when its kind is reachable |
| ClassifierProofs.FieldsBitIsConjunction | deepcopy.go:316-368 | With pairwise distinct field names, the field loop ends value-only exactly when the struct has no unexported field and every entry of its field map is value-only |
| ClassifierProofs.StructValueOnlyIff | deepcopy.go:316-368 | A struct type not yet visited gets a field map keyed by exactly its exported names, and is value-only exactly when it has no unexported field and every recorded field is value-only |
| ClassifierProofs.ArrayTakesElement | deepcopy.go:304-312 | An array type not yet visited has its element's value-only bit and each of its element's six flags, and no field map |
| DefinedTypeProofs.AnalyzeValueOnly | deepcopy.go:281-423 | For every type environment Go accepts (no defined type holds itself inline), a fresh pass is value-only exactly when the type's values hold no reference and no unexported field, looking through defined types; self-referential types included |
| DefinedTypeProofs.AnalyzeComplete | deepcopy.go:283-368 | A type whose values hold no reference is found value-only from any visited map whose smaller value-only entries are value-only, and every entry the pass adds for a value-only type is value-only |
| DefinedTypeProofs.AnalyzeSound | deepcopy.go:283-368 | A pass that answers value-only is right about the type, from any visited map whose smaller value-only entries are right, and every value-only entry it adds is right |
| ClassifierProofs.EntryPersists | deepcopy.go:428-430 | Once a key has an entry, every later call with that key returns it and it stays in the cache |
| ClassifierProofs.FirstCallWins | deepcopy.go:426-449 | For a new key, the first call fixes the entry from its own type argument; every later call with that key returns that same entry whatever type it passes; a nil type gives a value-only entry |
| ClassifierProofs.NodeAnalysis | deepcopy_test.go:1035-1038 | Analysing `Node { Next *Node; Value int }` terminates through the visited guard of deepcopy.go:283-293. Node is not value-only and holds a pointer. Its field map has exactly Next and Value; Next is a non-value-only pointer and Value is value-only |
| ShortcutProofs.ValueOnlyTypeIsPlain | deepcopy.go:296-332 | A value of a value-only type, defined types included, holds no pointer, slice, map, interface, channel, func or unexported field |
| ShortcutProofs.PlainCopiesToItself | deepcopy.go:527-594 | Without overrides, copyRecursive rebuilds such a value as itself, allocating and recording nothing |
| Facade.ValueOf | deepcopy.go:143-147 | The reflect value is invalid exactly for the nil interface, and a non-interface value is its own reflect value |
| FacadeProofs.TypedAnalysisDecides | deepcopy.go:94-109 | For every type environment Go accepts (no defined type holds itself inline) and a memo holding fresh-pass results, a typed manager's analysis is value-only exactly when T is an interface type or T's values hold no reference. An interface-typed T leaves the memo alone; any other T gets what a fresh pass computes, and the memo stays faithful |
| Facade.CopyValue | deepcopy.go:213-249 | An invalid value gives nil. The shortcut is taken exactly when the dynamic type's memoised analysis is value-only, and returns the source. The override is used exactly when the type is not value-only and the method yields a valid result. Otherwise the result and state are those of copyRecursive from an empty table |
| Facade.Copy | deepcopy.go:141-171 | An invalid input gives the zero value. A usable override wins before any classification and leaves both caches unchanged. An interface-typed T without override always takes the shortcut and returns the source. For a concrete T and a value of that type without override, the shortcut is taken exactly when T's memoised analysis is value-only, the memo is updated as getOrAnalyzeType does, and every other call traverses. The shortcut returns the source as T holds it. A traversal's result is copyRecursive's result |
| Facade.CopyCorrected | deepcopy.go:141-171 | Agrees with Copy for every non-interface T. For an interface-typed T without override, the result is CopyValue's outcome on the dynamic value, wrapped in the interface |
| Facade.CopyWithKey | deepcopy.go:175-205 | The caches are updated exactly as getOrCreateBusinessCopyInfo does. A key bound to a value-only entry returns the source, whatever T is now. The shortcut is taken exactly when the entry is value-only. A nil input otherwise gives the nil interface. An override result is taken verbatim |
| Facade.AnalyzeValue | deepcopy.go:252-262 | The nil interface gives the value-only result without touching the memo; otherwise the memo ends holding the result under the dynamic type, and a cached type is answered unchanged |
| FacadeProofs.OverridePrecedence | deepcopy.go:149-166 | For a value-only type with a usable DeepCopy method, Copy returns the method's result while CopyValue (deepcopy.go:225-228) returns the source without calling it |
| FacadeProofs.CopyIsDeep | deepcopy.go:163-170 | Copy of a non-interface, not value-only T without overrides traverses. It returns the source graph with each reachable cell replaced by its own fresh, distinct cell holding the copy of the source cell |
| FacadeProofs.CopyOfPointer | deepcopy.go:468-515 | Without DeepCopy methods and with a memo holding fresh-pass results, Copy[*T] of a non-nil pointer returns the pointer recorded for its target, to a fresh cell above every source address, which holds the copy of the pointee |
| FacadeProofs.ShortcutIsSound | deepcopy.go:149-166 | For every concrete T Go accepts, defined types included, with a memo holding fresh-pass results and no usable DeepCopy method on T itself, Copy takes the shortcut exactly when T's values hold no reference and no unexported field, and then returns the source, whatever methods the types inside T declare. When no type declares a usable DeepCopy method, a full traversal would return that same value and allocate nothing |
| FacadeProofs.WithKeyTraversalIsCopyRecursive | deepcopy.go:199-204 | CopyWithKey's traversal delivers exactly copyRecursive's value and state |
| FacadeProofs.KeyReuseIsShallow | deepcopy.go:177-182 | Once a key has been used with a value-only T, a later call with that key returns its source unchanged, even for a type holding pointers |
| FacadeProofs.AnalyzeValueIsStable | deepcopy_enhanced_test.go:62-88 | A second AnalyzeValue on a value of the same type returns the first result and leaves the memo as it was |
| FacadeProofs.InterfaceCopyIsShallow | deepcopy.go:64-75 | Copy[any] of a pointer to an int returns the source pointer itself, while CopyValue on the same value returns a pointer to a fresh cell |
| FacadeProofs.CorrectedInterfaceCopyIsDeep | deepcopy.go:213-249 | Without DeepCopy methods and with a memo holding fresh-pass results, the corrected Copy on an interface-typed T traverses every value whose dynamic type is not value-only. The interface holds a copy built from fresh, distinct cells |
| FacadeProofs.CorrectedInterfaceCopyOfPointer | deepcopy.go:239-248 | Without DeepCopy methods and with a memo holding fresh-pass results, the corrected Copy[any] of a non-nil pointer returns a pointer to a fresh cell above every source address |
| Scenarios.CircularCopy | copyrecursive_analysis_test.go:122-159 | Copying the ring A→B→C→A (Prev the other way) gives three fresh, pairwise distinct nodes with the same names. Next leads A'→B'→C'→A', Prev runs backwards, and the result is A' |
| Scenarios.SharedTargetStaysShared | deepcopy.go:474-479 | Two fields pointing at one int copy to one and the same fresh pointer, whose cell holds the int |
| Scenarios.SliceKeepsLenAndCap | deepcopy.go:553-561 | A slice of length 3 and capacity 5 copies to a non-nil slice with the same elements, length and capacity |
| Scenarios.EmptyContainersStayNonNil | copyrecursive_analysis_test.go:365-392 | An empty non-nil slice or map copies to an empty non-nil one, allocating nothing |
| Scenarios.PointerCopyIsFresh | copyrecursive_analysis_test.go:91-120 | A pointer to 42 copies to a pointer to a different cell, which holds 42 |
| Scenarios.UnexportedFieldsStayZero | deepcopy_test.go:454-491 | Copy[*Unexported] gives a different pointer. Its cell has A and B copied, and aa, bb, cc and dd at "", 0, a nil slice and a nil map |
| Scenarios.ValueReceiverOverride | copyrecursive_analysis_test.go:293-305 | A struct whose DeepCopy adds 100 copies {10} to {110}, allocating nothing |
| Scenarios.PointerReceiverOverride | copyrecursive_analysis_test.go:307-319 | A pointer whose DeepCopy returns a struct {Value+200} copies &{20} to a pointer to a fresh cell holding {220}, recorded as the copy of the source pointer |
| Scenarios.ScalarCopy | deepcopy_test.go:616-652 | Copy(42) returns 42 through the value-only shortcut |
| Scenarios.NestedDeepCopySkipped | copyrecursive_analysis_test.go:293-305 | For `type Outer struct { In CustomCopyStruct }`, where only CustomCopyStruct declares the +100 DeepCopy, Copy takes the shortcut of deepcopy.go:163-165 and returns {In: {10}} without calling the method, while copyRecursive calls it for the field (deepcopy.go:534-540) and gives {In: {110}} |
| Scenarios.DefinedStructTakesShortcut | deepcopy.go:160-166 | Copy of `Line{A, B Point}` with `Point{X, Y int}`, both defined types, returns the line itself through the shortcut |

## Left out

- **Concurrency.** `sync.Map` and `sync.Once` are left out, and the caches are
  passed around explicitly. One-time initialisation becomes "the first call
  stores the entry". Races between concurrent first calls are not modelled.
- **The typed-manager registry.** `typedManagers` (deepcopy.go:77-90) only
  caches manager objects per type, and a manager's analysis is derived from the
  memo. `Facade.TypedAnalysis` models what a manager answers, not the objects.
- **`TypeName`.** This diagnostic string in every analysis is left out; no
  decision reads it.
- **Panics.** Mismatched types make Go panic: `cpy.Set`, `SetMapIndex`, and
  `.(T)` on an override result of the wrong type. These panics are not
  modelled. An override result is taken as it is, and `AsT` wraps it for an
  interface-typed T.
- **Slice elements and array items.** These are held inline in their
  container. The model has no addresses for slice backing arrays or for
  interior fields, so pointers into them are not modelled. The source's visited
  table is keyed by pointer address, and only pointer targets are heap cells.
- **Method tables.** They are given per type. A value-receiver DeepCopy is also
  in the pointer type's method set; the table must list it under both types
  when a scenario needs that. The user code in a DeepCopy method is an
  arbitrary function of the heap and the receiver. Reflection gives a method
  of an interface type a nil `Func`, so an entry listed under an interface type
  must have `funcValid` false; hasDeepCopyMethod then never fires on an
  interface-kind referent (deepcopy.go:500-510).
- **Map iteration.** Go iterates maps in a random order. The model copies
  entries in the order they were inserted, each value before its key, as the
  source loop does per key. A copied map that receives two equal copied keys
  keeps both entries in sequence, where Go keeps the last write.
- **Floating point, strings, channels and funcs.** These are opaque tokens. A
  `time.Time` is a single token.
- **Field analysis maps.** A struct's field map is a snapshot taken where the Go
  code mutates the shared result object. For a type still being analysed, Go's
  map aliases the final object, while the snapshot may be older.
- **Timing.** The timing assertions of the benchmarks and enhanced tests are
  left out.
- Engine.CopyVal: its contract states shape, nil-ness and length per kind. The
  contents of a traversal are stated by EngineProofs.CopyIsIsomorphic, which
  assumes no overrides.
- ClassifierProofs.AnalyzeIsClassify: states equality with Classify only for
  types without named references. For types with named references, the
  value-only bit is covered by DefinedTypeProofs.AnalyzeValueOnly.
- ClassifierProofs.AnalyzeClosedType: the six flags are characterised only for
  types without named references. For a self-referential type, an unfinished
  visited entry can hide a flag below it, and no general theorem states which.
  The Node scenario shows one such type.
- DefinedTypeProofs.AnalyzeValueOnly: assumes a ranking of the defined types
  (`DefinedTypeProofs.Ranked`). It stands for Go's rule against a type that holds
  itself inline, which the compiler enforces.
- ClassifierProofs.StructValueOnlyIff: assumes pairwise distinct exported field
  names, which the Go compiler enforces. With a repeated name, a later field's
  entry would overwrite an earlier one in the field map.
- FacadeProofs.CopyIsDeep: assumes no type declares a usable DeepCopy method and
  the memo holds only fresh-pass results. Both hold for memos the model's own
  functions produce.
- FacadeProofs.ShortcutIsSound: assumes the value conforms to its type
  descriptor (`ShortcutProofs.Conforms`), which reflection guarantees in Go, and
  a ranking of the defined types, as DefinedTypeProofs.AnalyzeValueOnly does.
  It assumes the memo holds only fresh-pass results. The iff needs only that T
  itself has no usable DeepCopy method. The agreement with a traversal assumes
  no type declares one: the shortcut skips a DeepCopy on a field's type that a
  traversal would call, as Scenarios.NestedDeepCopySkipped shows. time.Time
  values are excluded; Go's classifier sees their unexported fields.
- **Maps and slices with self-reference.** A map's entries and a slice's
  elements are held inline in the `Val` term, not in heap cells. So a map or a
  slice that contains itself cannot be written, and neither can two maps or
  slices that share storage. On such a value the Go code recurses without
  bound (deepcopy.go:517-525, 553-577), since only pointers enter its visited
  table. The model's CopyVal terminates because its values are finite terms.

## Findings

| source | as written | input that shows it | evidently intended | confidence | as-written member | corrected member |
|---|---|---|---|---|---|---|
| deepcopy.go:64-75, 94-102, 141-166 | For an interface-typed T (`any`), `reflect.TypeOf` of T's zero value is nil, so the typed manager answers value-only and `Copy` returns its argument unchanged | `x := 7; p := Copy[any](&x)`: `p` is `&x` itself, so writing through it changes `x`. `CopyValue(&x)` returns a pointer to a new int | For interface-typed T, classify by the dynamic type as `CopyValue` does: a pointer is deep-copied into a fresh cell | medium, not executed | FacadeProofs.InterfaceCopyIsShallow (about Facade.Copy) | Facade.CopyCorrected with FacadeProofs.CorrectedInterfaceCopyIsDeep and FacadeProofs.CorrectedInterfaceCopyOfPointer |
