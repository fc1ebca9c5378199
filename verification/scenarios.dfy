/** Concrete graphs taken from the repository's tests, copied through the model and
    checked against what those tests expect. Strings are opaque tokens here, so a
    name such as "A" is the token 65. */
module Scenarios {
  import opened Wrappers
  import G = GoTypes
  import C = Classifier
  import opened Values
  import opened Engine
  import opened Facade
  import CP = ClassifierProofs
  import EP = EngineProofs
  import FP = FacadeProofs
  import SP = ShortcutProofs
  import DT = DefinedTypeProofs

  const IntT := G.Basic("int")
  const StrT := G.Basic("string")
  const NoCaches := C.Caches(map[], map[])

  // ---------------------------------------------------------------------------
  // A three-node ring with forward and backward links

  const CircT := G.Named("CircularStruct")
  const CircPtrT := G.Pointer(CircT)
  const CircEnv: G.TypeEnv := map["CircularStruct" := G.Struct([
    G.FieldType("Name", true, StrT), G.FieldType("Next", true, CircPtrT), G.FieldType("Prev", true, CircPtrT)])]

  function Node(name: int, next: Addr, prev: Addr): Val {
    Struct(CircT, [Field("Name", true, Scalar(StrT, name)),
                   Field("Next", true, Ptr(CircPtrT, Some(next))),
                   Field("Prev", true, Ptr(CircPtrT, Some(prev)))])
  }

  /** A → B → C → A, with Prev pointing the other way round. */
  const Ring: Heap := [Node(65, 1, 2), Node(66, 2, 0), Node(67, 0, 1)]

  /** Source cell `a` has a fresh cell of its own, and that cell is a node with the
      same name whose links are the copies recorded for `next` and `prev`. */
  predicate CopiedAsNode(src: Heap, st: CopyState, a: Addr, name: int, next: Addr, prev: Addr) {
    && a in st.visited && next in st.visited && prev in st.visited
    && st.visited[a].Ptr? && st.visited[a].target.Some?
    && |src| <= EP.Target(st.visited[a]) < |src| + |st.dst|
    && var cell := st.dst[EP.Target(st.visited[a]) - |src|];
       && cell.Struct? && cell.ty == CircT && |cell.fields| == 3
       && cell.fields[0].v == Scalar(StrT, name)
       && cell.fields[1].v == st.visited[next]
       && cell.fields[2].v == st.visited[prev]
  }

  lemma NodeCopied(src: Heap, st: CopyState, a: Addr, name: int, next: Addr, prev: Addr)
    requires a in st.visited && EP.CellFilled(src, 0, st, a) && src[a] == Node(name, next, prev)
    ensures CopiedAsNode(src, st, a, name, next, prev)
  {
    var cell := st.dst[EP.Target(st.visited[a]) - |src|];
    assert EP.Match(st.visited, Node(name, next, prev), cell);
    assert EP.Match(st.visited, Ptr(CircPtrT, Some(next)), cell.fields[1].v);
    assert EP.Match(st.visited, Ptr(CircPtrT, Some(prev)), cell.fields[2].v);
  }

  lemma RingIsClosed()
    ensures HeapClosed(Ring)
  {
    forall a | 0 <= a < |Ring| ensures PointsInto(Ring[a], |Ring|) {
      var fs := Ring[a].fields;
      assert forall i | 0 <= i < |fs| :: PointsInto(fs[i].v, |Ring|);
    }
  }

  /** Copy[*CircularStruct] of A: the copy is a ring of three fresh nodes, distinct
      from one another and from the source nodes, with the same names, whose Next
      links lead A' → B' → C' → A' and whose Prev links run backwards. */
  lemma CircularCopy()
    ensures var r := CopyCorrected(CircEnv, map[], Ring, NoCaches, CircPtrT, Ptr(CircPtrT, Some(0)));
      && r.path == Traversal
      && CopiedAsNode(Ring, r.st, 0, 65, 1, 2)
      && CopiedAsNode(Ring, r.st, 1, 66, 2, 0)
      && CopiedAsNode(Ring, r.st, 2, 67, 0, 1)
      && r.v == r.st.visited[0]
      && EP.Target(r.st.visited[0]) != EP.Target(r.st.visited[1])
      && EP.Target(r.st.visited[1]) != EP.Target(r.st.visited[2])
      && EP.Target(r.st.visited[0]) != EP.Target(r.st.visited[2])
  {
    RingIsClosed();
    var v := Ptr(CircPtrT, Some(0));
    FP.CopyIsDeep(CircEnv, map[], Ring, NoCaches, CircPtrT, v);
    var r := Copy(CircEnv, map[], Ring, NoCaches, CircPtrT, v);
    assert 0 in r.st.visited && r.v == r.st.visited[0];
    NodeCopied(Ring, r.st, 0, 65, 1, 2);
    NodeCopied(Ring, r.st, 1, 66, 2, 0);
    NodeCopied(Ring, r.st, 2, 67, 0, 1);
    assert EP.DistinctCells(r.st.visited, 0, 1) && EP.DistinctCells(r.st.visited, 1, 2) && EP.DistinctCells(r.st.visited, 0, 2);
  }

  // ---------------------------------------------------------------------------
  // Two fields sharing one target

  const IntPtrT := G.Pointer(IntT)
  const PairT := G.Struct([G.FieldType("A", true, IntPtrT), G.FieldType("B", true, IntPtrT)])

  const PairVal := Struct(PairT, [Field("A", true, Ptr(IntPtrT, Some(0))), Field("B", true, Ptr(IntPtrT, Some(0)))])

  /** Both fields of the copy of PairVal are the one pointer recorded for cell 0. */
  lemma PairCopied(src: Heap, st: CopyState, w: Val)
    requires EP.Match(st.visited, PairVal, w)
    ensures 0 in st.visited && w.Struct? && |w.fields| == 2
    ensures w.fields[0].v == st.visited[0] && w.fields[1].v == st.visited[0]
  {
    assert EP.Match(st.visited, Ptr(IntPtrT, Some(0)), w.fields[0].v);
    assert EP.Match(st.visited, Ptr(IntPtrT, Some(0)), w.fields[1].v);
  }

  lemma IntCellCopied(src: Heap, st: CopyState)
    requires 0 in st.visited && EP.CellFilled(src, 0, st, 0) && src == [Scalar(IntT, 5)]
    ensures st.visited[0].Ptr? && st.visited[0].target.Some?
    ensures 1 <= st.visited[0].target.value < 1 + |st.dst| && st.dst[st.visited[0].target.value - 1] == Scalar(IntT, 5)
  {
    assert EP.Match(st.visited, Scalar(IntT, 5), st.dst[EP.Target(st.visited[0]) - 1]);
  }

  /** A struct whose two fields point at the same int: the copy's two fields point
      at one and the same fresh cell, which holds the int. */
  lemma SharedTargetStaysShared()
    ensures var r := CopyCorrected(map[], map[], [Scalar(IntT, 5)], NoCaches, PairT, PairVal);
      && r.path == Traversal
      && r.v.Struct? && |r.v.fields| == 2
      && r.v.fields[0].v == r.v.fields[1].v
      && r.v.fields[0].v.Ptr? && r.v.fields[0].v.target.Some?
      && 1 <= r.v.fields[0].v.target.value < 1 + |r.st.dst|
      && r.st.dst[r.v.fields[0].v.target.value - 1] == Scalar(IntT, 5)
  {
    var src := [Scalar(IntT, 5)];
    assert HeapClosed(src);
    assert !CP.ValueOnlyType(PairT) by { assert !CP.ValueOnlyType(PairT.fields[0].ty); }
    CP.AnalyzeClosedType(map[], PairT, CP.PtrFlag);
    FP.CopyIsDeep(map[], map[], src, NoCaches, PairT, PairVal);
    var r := Copy(map[], map[], src, NoCaches, PairT, PairVal);
    PairCopied(src, r.st, r.v);
    IntCellCopied(src, r.st);
  }

  // ---------------------------------------------------------------------------
  // A slice with spare capacity

  const IntSliceT := G.Slice(IntT)

  /** Copy[[]int] of [1 2 3] with capacity 5: a non-nil slice of length 3 and
      capacity 5 with the same elements. */
  lemma SliceKeepsLenAndCap()
    ensures var r := CopyCorrected(map[], map[], [], NoCaches, IntSliceT,
                                   Slice(IntSliceT, false, [Scalar(IntT, 1), Scalar(IntT, 2), Scalar(IntT, 3)], 5));
      r.path == Traversal && r.v == Slice(IntSliceT, false, [Scalar(IntT, 1), Scalar(IntT, 2), Scalar(IntT, 3)], 5)
  {
    var elems := [Scalar(IntT, 1), Scalar(IntT, 2), Scalar(IntT, 3)];
    var v := Slice(IntSliceT, false, elems, 5);
    assert C.Analyze(map[], IntSliceT, map[]) == C.AnalyzeShape(map[], IntSliceT, IntSliceT, map[IntSliceT := G.Blank]);
    FP.CopyIsDeep(map[], map[], [], NoCaches, IntSliceT, v);
    var r := Copy(map[], map[], [], NoCaches, IntSliceT, v);
    assert EP.Match(r.st.visited, v, r.v);
    forall i | 0 <= i < 3 ensures r.v.elems[i] == elems[i] {
      assert EP.Match(r.st.visited, elems[i], r.v.elems[i]);
    }
  }

  // ---------------------------------------------------------------------------
  // Empty containers and a pointer to an int

  const StrIntMapT := G.Map(StrT, IntT)

  /** copyRecursive on an empty non-nil slice or map gives an empty non-nil one,
      allocating nothing. */
  lemma EmptyContainersStayNonNil()
    ensures CopyVal(map[], [], Slice(IntSliceT, false, [], 0), Start) == Out(Slice(IntSliceT, false, [], 0), Start)
    ensures CopyVal(map[], [], Map(StrIntMapT, false, []), Start) == Out(Map(StrIntMapT, false, []), Start)
  {
    assert CopyElems(map[], [], [], Start) == Out([], Start);
    assert CopyEntries(map[], [], [], Start) == Out([], Start);
  }

  /** copyRecursive on a pointer to 42: a pointer to a different cell, which holds 42. */
  lemma PointerCopyIsFresh()
    ensures CopyVal(map[], [Scalar(IntT, 42)], Ptr(IntPtrT, Some(0)), Start).v == Ptr(IntPtrT, Some(1))
    ensures CopyVal(map[], [Scalar(IntT, 42)], Ptr(IntPtrT, Some(0)), Start).st.dst == [Scalar(IntT, 42)]
  {
    var src := [Scalar(IntT, 42)];
    assert HeapClosed(src);
    assert Override(map[], src, Ptr(IntPtrT, Some(0))).None?;
    assert Override(map[], src, src[0]).None?;
  }

  // ---------------------------------------------------------------------------
  // Unexported fields

  const UT := G.Named("Unexported")
  const UPtrT := G.Pointer(UT)
  const StrMapT := G.Map(StrT, StrT)
  const UEnv: G.TypeEnv := map["Unexported" := G.Struct([
    G.FieldType("A", true, StrT), G.FieldType("B", true, IntT),
    G.FieldType("aa", false, StrT), G.FieldType("bb", false, IntT),
    G.FieldType("cc", false, IntSliceT), G.FieldType("dd", false, StrMapT)])]

  const UVal := Struct(UT, [
    Field("A", true, Scalar(StrT, 65)), Field("B", true, Scalar(IntT, 42)),
    Field("aa", false, Scalar(StrT, 97)), Field("bb", false, Scalar(IntT, 11)),
    Field("cc", false, Slice(IntSliceT, false, [Scalar(IntT, 1), Scalar(IntT, 2), Scalar(IntT, 3)], 3)),
    Field("dd", false, Map(StrMapT, false, [Entry(Scalar(StrT, 97), Scalar(StrT, 98))]))])

  lemma UValIsClosed()
    ensures PointsInto(UVal, 1)
  {
    assert forall i | 0 <= i < |UVal.fields| :: PointsInto(UVal.fields[i].v, 1);
  }

  /** What the test expects of the copied struct: A and B as in UVal, and the four
      unexported fields at their zero values: "", 0, a nil slice and a nil map. */
  predicate UnexportedZeroed(cell: Val) {
      && cell.Struct? && |cell.fields| == 6
      && cell.fields[0].v == Scalar(StrT, 65) && cell.fields[1].v == Scalar(IntT, 42)
      && cell.fields[2].v == Scalar(StrT, 0) && cell.fields[3].v == Scalar(IntT, 0)
      && cell.fields[4].v == NilSlice(IntSliceT) && cell.fields[5].v == NilMap(StrMapT)
  }

  /** The copy of a struct keeps its exported scalar fields and zeroes its
      unexported ones. */
  lemma StructFieldsCopied(vis: map<Addr, Val>, ty: G.GoType, fs: seq<Field>, w: Val, i: nat)
    requires EP.Match(vis, Struct(ty, fs), w) && i < |fs|
    ensures w.Struct? && |w.fields| == |fs|
    ensures fs[i].exported && fs[i].v.Scalar? ==> w.fields[i].v == fs[i].v
    ensures !fs[i].exported ==> w.fields[i].v == ZeroOf(fs[i].v)
  {
    assert FieldsCopied(fs, w.fields);
    if fs[i].exported {
      assert EP.Match(vis, fs[i].v, w.fields[i].v);
    }
  }

  lemma UnexportedValueCopied(vis: map<Addr, Val>, cell: Val)
    requires EP.Match(vis, UVal, cell)
    ensures UnexportedZeroed(cell)
  {
    var fs := UVal.fields;
    StructFieldsCopied(vis, UT, fs, cell, 0);
    StructFieldsCopied(vis, UT, fs, cell, 1);
    StructFieldsCopied(vis, UT, fs, cell, 2);
    StructFieldsCopied(vis, UT, fs, cell, 3);
    StructFieldsCopied(vis, UT, fs, cell, 4);
    StructFieldsCopied(vis, UT, fs, cell, 5);
  }

  /** Copy[*Unexported]: a different pointer, to a fresh cell holding A and B
      copied and the unexported fields zeroed. */
  lemma UnexportedFieldsStayZero()
    ensures HeapClosed([UVal])
    ensures var r := CopyCorrected(UEnv, map[], [UVal], NoCaches, UPtrT, Ptr(UPtrT, Some(0)));
      && r.path == Traversal
      && r.v.Ptr? && r.v.target.Some? && 1 <= r.v.target.value < 1 + |r.st.dst|
      && UnexportedZeroed(r.st.dst[r.v.target.value - 1])
  {
    var src := [UVal];
    UValIsClosed();
    FP.CopyOfPointer(UEnv, map[], src, NoCaches, UPtrT, 0);
    var r := Copy(UEnv, map[], src, NoCaches, UPtrT, Ptr(UPtrT, Some(0)));
    var cell := r.st.dst[r.v.target.value - 1];
    UnexportedValueCopied(r.st.visited, cell);
  }

  // ---------------------------------------------------------------------------
  // DeepCopy methods

  const CustomT := G.Named("CustomCopyStruct")
  const CustomPtrStructT := G.Named("CustomCopyPtrStruct")
  const CustomPtrT := G.Pointer(CustomPtrStructT)

  function Custom(ty: G.GoType, n: int): Val {
    Struct(ty, [Field("Value", true, Scalar(IntT, n))])
  }

  /** `func (c CustomCopyStruct) DeepCopy() CustomCopyStruct`: Value + 100. */
  function AddHundred(h: Heap, v: Val): Option<Val> {
    if v.Struct? && |v.fields| == 1 && v.fields[0].v.Scalar?
    then Some(Custom(CustomT, v.fields[0].v.token + 100)) else None
  }

  /** `func (c *CustomCopyPtrStruct) DeepCopy() CustomCopyPtrStruct`: Value + 200. */
  function AddTwoHundred(h: Heap, p: Val): Option<Val> {
    if p.Ptr? && p.target.Some? && p.target.value < |h| && h[p.target.value].Struct?
       && |h[p.target.value].fields| == 1 && h[p.target.value].fields[0].v.Scalar?
    then Some(Custom(CustomPtrStructT, h[p.target.value].fields[0].v.token + 200)) else None
  }

  const CustomMethods: MethodTable := map[
    CustomT := Method(1, 1, true, AddHundred),
    CustomPtrT := Method(1, 1, true, AddTwoHundred)]

  /** copyRecursive on CustomCopyStruct{10} uses the method: the copy is {110}. */
  lemma ValueReceiverOverride()
    ensures CopyVal(CustomMethods, [], Custom(CustomT, 10), Start) == Out(Custom(CustomT, 110), Start)
  {
    assert Override(CustomMethods, [], Custom(CustomT, 10)) == Some(Custom(CustomT, 110));
  }

  /** copyRecursive on &CustomCopyPtrStruct{20}: the method on the pointer returns a
      struct, which is put in a fresh cell; the copy points there and is recorded
      as the copy of the source pointer. */
  lemma PointerReceiverOverride()
    ensures var r := CopyVal(CustomMethods, [Custom(CustomPtrStructT, 20)], Ptr(CustomPtrT, Some(0)), Start);
      && r.v == Ptr(CustomPtrT, Some(1))
      && r.st.dst == [Custom(CustomPtrStructT, 220)]
      && r.st.visited == map[0 := r.v]
  {
    var src := [Custom(CustomPtrStructT, 20)];
    var v := Ptr(CustomPtrT, Some(0));
    assert HeapClosed(src);
    assert Override(CustomMethods, src, v) == Some(Custom(CustomPtrStructT, 220));
    assert TypeOf(Custom(CustomPtrStructT, 220)) != CustomPtrT;
  }

  // ---------------------------------------------------------------------------
  // A scalar

  /** Copy(42) is 42, returned through the value-only shortcut. */
  lemma ScalarCopy()
    ensures var r := CopyCorrected(map[], map[], [], NoCaches, IntT, Scalar(IntT, 42));
      r.path == Shortcut && r.v == Scalar(IntT, 42)
  {
    assert C.Analyze(map[], IntT, map[]).result == G.ValueOnly;
  }

  // ---------------------------------------------------------------------------
  // Defined value-only types nested in one another

  const PointT := G.Named("Point")
  const LineT := G.Named("Line")
  const ShapesEnv: G.TypeEnv := map[
    "Point" := G.Struct([G.FieldType("X", true, IntT), G.FieldType("Y", true, IntT)]),
    "Line" := G.Struct([G.FieldType("A", true, PointT), G.FieldType("B", true, PointT)])]
  const ShapesRank: DT.Ranks := map["Point" := 1, "Line" := 2]

  function PointVal(x: int, y: int): Val {
    Struct(PointT, [Field("X", true, Scalar(IntT, x)), Field("Y", true, Scalar(IntT, y))])
  }

  const LineVal := Struct(LineT, [Field("A", true, PointVal(1, 2)), Field("B", true, PointVal(3, 4))])

  lemma ShapesRanked()
    ensures DT.Ranked(ShapesEnv, ShapesRank)
  {
    var pf := ShapesEnv["Point"].fields;
    var lf := ShapesEnv["Line"].fields;
    assert pf[1..][1..] == [] && lf[1..][1..] == [];
    assert DT.FieldsHeight(ShapesRank, pf[1..]) == 0;
    assert DT.FieldsHeight(ShapesRank, pf) == 0;
    assert DT.FieldsHeight(ShapesRank, lf[1..]) == 1;
    assert DT.FieldsHeight(ShapesRank, lf) == 1;
  }

  lemma LineIsValueOnly()
    ensures DT.Ranked(ShapesEnv, ShapesRank) && DT.ValueOnlyIn(ShapesEnv, ShapesRank, LineT)
  {
    ShapesRanked();
    assert DT.ValueOnlyIn(ShapesEnv, ShapesRank, PointT);
  }

  lemma LineConforms()
    ensures SP.Conforms(ShapesEnv, LineVal, LineT)
  {
    assert SP.Conforms(ShapesEnv, PointVal(1, 2), PointT);
    assert SP.Conforms(ShapesEnv, PointVal(3, 4), PointT);
  }

  lemma LineIsConcrete()
    ensures HeapClosed([]) && PointsInto(LineVal, 0)
    ensures !G.IsInterfaceType(ShapesEnv, LineT) && TypeOf(LineVal) == LineT
  {
    assert G.Underlying(ShapesEnv, LineT) == ShapesEnv["Line"];
    assert PointsInto(PointVal(1, 2), 0) && PointsInto(PointVal(3, 4), 0);
  }

  /** `type Line struct { A, B Point }` with `type Point struct { X, Y int }`: Copy
      returns the line itself, and a traversal would have produced the same value. */
  lemma DefinedStructTakesShortcut()
    ensures var r := Copy(ShapesEnv, map[], [], NoCaches, LineT, LineVal);
      r.path == Shortcut && r.v == LineVal
  {
    LineIsValueOnly();
    LineConforms();
    LineIsConcrete();
    assert NoOverrides(map[]) && CP.Memoised(ShapesEnv, map[]);
    FP.ShortcutIsSound(ShapesEnv, ShapesRank, map[], [], NoCaches, LineT, LineVal);
  }
  // ---------------------------------------------------------------------------
  // A DeepCopy method on a field's type

  const OuterT := G.Named("Outer")
  const OuterEnv: G.TypeEnv := map[
    "CustomCopyStruct" := G.Struct([G.FieldType("Value", true, IntT)]),
    "Outer" := G.Struct([G.FieldType("In", true, CustomT)])]
  const OuterRank: DT.Ranks := map["CustomCopyStruct" := 1, "Outer" := 2]

  function OuterVal(n: int): Val {
    Struct(OuterT, [Field("In", true, Custom(CustomT, n))])
  }

  lemma OuterRanked()
    ensures DT.Ranked(OuterEnv, OuterRank)
  {
    var cf := OuterEnv["CustomCopyStruct"].fields;
    var of := OuterEnv["Outer"].fields;
    assert cf[1..] == [] && of[1..] == [];
    assert DT.FieldsHeight(OuterRank, cf) == 0;
    assert DT.FieldsHeight(OuterRank, of) == 1;
  }

  lemma OuterIsValueOnly()
    ensures DT.Ranked(OuterEnv, OuterRank) && DT.ValueOnlyIn(OuterEnv, OuterRank, OuterT)
  {
    OuterRanked();
    assert DT.ValueOnlyIn(OuterEnv, OuterRank, CustomT);
  }

  lemma OuterConforms()
    ensures SP.Conforms(OuterEnv, OuterVal(10), OuterT)
  {
    assert SP.Conforms(OuterEnv, Custom(CustomT, 10), CustomT);
  }

  lemma OuterIsConcrete()
    ensures HeapClosed([]) && PointsInto(OuterVal(10), 0)
    ensures !G.IsInterfaceType(OuterEnv, OuterT) && TypeOf(OuterVal(10)) == OuterT
  {
    assert G.Underlying(OuterEnv, OuterT) == OuterEnv["Outer"];
    assert PointsInto(Custom(CustomT, 10), 0);
  }

  /** `type Outer struct { In CustomCopyStruct }`, where only CustomCopyStruct
      declares DeepCopy: Copy takes the value-only shortcut and returns {In: {10}}
      without calling the method, while copyRecursive on the same value calls it
      for the field and gives {In: {110}}. */
  lemma NestedDeepCopySkipped()
    ensures var r := Copy(OuterEnv, CustomMethods, [], NoCaches, OuterT, OuterVal(10));
      r.path == Shortcut && r.v == OuterVal(10)
    ensures CopyVal(CustomMethods, [], OuterVal(10), Start).v == OuterVal(110)
  {
    OuterIsValueOnly();
    OuterConforms();
    OuterIsConcrete();
    assert Override(CustomMethods, [], OuterVal(10)).None?;
    assert CP.Memoised(OuterEnv, map[]);
    FP.ShortcutIsSound(OuterEnv, OuterRank, CustomMethods, [], NoCaches, OuterT, OuterVal(10));
    assert Override(CustomMethods, [], Custom(CustomT, 10)) == Some(Custom(CustomT, 110));
  }
}
