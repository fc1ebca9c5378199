/** The graph copy engine of deepcopy.go: the override detector hasDeepCopyMethod,
    copyRecursive, and its twin copyRecursiveWithCache.

    The Go code writes into a destination slot; here each call returns the value
    the slot ends up holding together with the state it leaves behind: the cells
    allocated so far and the visited table, both threaded through the recursion in
    the order the Go code performs its steps. */
module Engine {
  import opened Wrappers
  import T = GoTypes
  import opened Values

  /** A method named DeepCopy in a type's method set, as reflect reports it: the
      number of inputs counts the receiver. `call` is the user's code, left
      uninterpreted; None stands for an invalid result value. */
  datatype Method = Method(numIn: nat, numOut: nat, funcValid: bool, call: (Heap, Val) -> Option<Val>)

  /** The DeepCopy method of each type that declares one. */
  type MethodTable = map<T.GoType, Method>

  /** The signature hasDeepCopyMethod accepts: a valid function taking only the
      receiver and returning one value. */
  predicate IsCopier(m: Method) {
    m.funcValid && m.numIn == 1 && m.numOut == 1
  }

  /** hasDeepCopyMethod: an invalid value has none; otherwise the method its type
      declares, if that method has the accepted signature. */
  function HasDeepCopyMethod(mt: MethodTable, v: Option<Val>): (r: Option<Method>)
    ensures r.Some? <==> v.Some? && TypeOf(v.value) in mt && IsCopier(mt[TypeOf(v.value)])
    ensures r.Some? ==> r.value == mt[TypeOf(v.value)] && IsCopier(r.value)
    ensures NoOverrides(mt) ==> r.None?
  {
    if v.Some? && TypeOf(v.value) in mt && IsCopier(mt[TypeOf(v.value)]) then Some(mt[TypeOf(v.value)]) else None
  }

  /** hasDeepCopyMethod followed by callDeepCopy and the validity test on the
      result: Some exactly when the override takes effect. */
  function Override(mt: MethodTable, src: Heap, v: Val): Option<Val>
  {
    match HasDeepCopyMethod(mt, Some(v))
    case None => None
    case Some(m) => m.call(src, v)
  }

  /** No type declares a usable DeepCopy method. */
  predicate NoOverrides(mt: MethodTable) {
    forall t | t in mt :: !IsCopier(mt[t])
  }

  /** Cells allocated by this copy (cell `i` lives at address |src| + i, above every
      source address) and the visited table from source address to the pointer
      value stored for it. */
  datatype CopyState = CopyState(dst: seq<Val>, visited: map<Addr, Val>)

  const Start := CopyState([], map[])

  /** A copied value (or sequence of them) and the state after copying it. */
  datatype Out<+X> = Out(v: X, st: CopyState)

  /** Source addresses not yet in the visited table. */
  function Unvisited(src: Heap, st: CopyState): set<Addr>
  {
    set a | 0 <= a < |src| && a !in st.visited
  }

  /** How a copy step may change the state: cells already allocated are never
      rewritten, visited entries are never changed or removed, only source
      addresses enter the table, and every allocation comes with a new entry. */
  predicate Grows(src: Heap, st: CopyState, st': CopyState) {
    && st.dst <= st'.dst
    && (forall a | a in st.visited :: a in st'.visited && st'.visited[a] == st.visited[a])
    && (forall a | a in st'.visited && a !in st.visited :: a < |src|)
    && |st'.dst| - |st.dst| <= |st'.visited| - |st.visited|
  }

  /** The cell the Go code allocates for a value: its address and the new state. */
  function Alloc(src: Heap, st: CopyState, cell: Val): (r: (Addr, CopyState))
    ensures r.0 == |src| + |st.dst| && r.1.dst == st.dst + [cell] && r.1.visited == st.visited
  {
    (|src| + |st.dst|, st.(dst := st.dst + [cell]))
  }

  /** copyRecursive on one value. */
  function CopyVal(mt: MethodTable, src: Heap, v: Val, st: CopyState): (r: Out<Val>)
    requires HeapClosed(src) && PointsInto(v, |src|)
    ensures Grows(src, st, r.st)
    // nil stays nil, with nothing allocated or recorded
    ensures v.Ptr? && v.target.None? ==> r == Out(v, st)
    ensures v.Iface? && v.inner.None? ==> r == Out(v, st)
    ensures v.Slice? && v.isNil ==> r == Out(NilSlice(v.ty), st)
    ensures v.Map? && v.isNil ==> r == Out(NilMap(v.ty), st)
    ensures v.Ptr? ==> r == CopyPtr(mt, src, v, st)
    // non-nil containers stay non-nil, with their length (and a slice's capacity)
    ensures v.Slice? && !v.isNil ==> r.v.Slice? && r.v.ty == v.ty && !r.v.isNil && |r.v.elems| == |v.elems| && r.v.cap == v.cap
    ensures v.Map? && !v.isNil ==> r.v.Map? && r.v.ty == v.ty && !r.v.isNil && |r.v.entries| == |v.entries|
    ensures v.Array? ==> r.v.Array? && r.v.ty == v.ty && |r.v.items| == |v.items|
    ensures v.Iface? && v.inner.Some? ==> r.v.Iface? && r.v.inner.Some?
    // time.Time and the pass-through kinds are copied as they are
    ensures v.Time? || v.Scalar? || v.Opaque? ==> r == Out(v, st)
    // a struct: the override result verbatim, or exported fields copied and the others zero
    ensures v.Struct? && Override(mt, src, v).Some? ==> r == Out(Override(mt, src, v).value, st)
    ensures v.Struct? && Override(mt, src, v).None? ==>
      r.v.Struct? && r.v.ty == v.ty && FieldsCopied(v.fields, r.v.fields)
    decreases Unvisited(src, st), ValSize(v), 1
  {
    match v
    case Ptr(_, _) => CopyPtr(mt, src, v, st)
    case Iface(inner) =>
      if inner.None? then Out(v, st)
      else
        var c := CopyVal(mt, src, inner.value, st);
        Out(Iface(Some(c.v)), c.st)
    case Time(_, _) => Out(v, st)
    case Struct(ty, fs) =>
      (match Override(mt, src, v)
      case Some(res) => Out(res, st)
      case None =>
        var c := CopyFields(mt, src, fs, st);
        Out(Struct(ty, c.v), c.st))
    case Slice(ty, isNil, elems, cap) =>
      if isNil then Out(NilSlice(ty), st)
      else
        var c := CopyElems(mt, src, elems, st);
        Out(Slice(ty, false, c.v, cap), c.st)
    case Map(ty, isNil, entries) =>
      if isNil then Out(NilMap(ty), st)
      else
        var c := CopyEntries(mt, src, entries, st);
        Out(Map(ty, false, c.v), c.st)
    case Array(ty, items) =>
      var c := CopyElems(mt, src, items, st);
      Out(Array(ty, c.v), c.st)
    case Opaque(_, _) => Out(v, st)
    case Scalar(_, _) => Out(v, st)
  }

  /** The pointer case of copyRecursive. The visited lookup comes first, then the
      override of the pointer itself, then the override of its referent, and only
      then the ordinary path. */
  function CopyPtr(mt: MethodTable, src: Heap, v: Val, st: CopyState): (r: Out<Val>)
    requires v.Ptr?
    requires HeapClosed(src) && PointsInto(v, |src|)
    ensures Grows(src, st, r.st)
    ensures v.target.None? ==> r == Out(v, st)
    // a pointer already visited yields the recorded copy; otherwise its copy is recorded
    ensures v.target.Some? && v.target.value in st.visited ==> r == Out(st.visited[v.target.value], st)
    ensures v.target.Some? ==> v.target.value in r.st.visited && r.v == r.st.visited[v.target.value]
    // the pointer's own override comes first: a result of the pointer's type is
    // stored as it is, any other result is wrapped in a fresh cell
    ensures v.target.Some? && v.target.value !in st.visited && Override(mt, src, v).Some?
            && TypeOf(Override(mt, src, v).value) == v.ty
            ==> r == Out(Override(mt, src, v).value, st.(visited := st.visited[v.target.value := Override(mt, src, v).value]))
    ensures v.target.Some? && v.target.value !in st.visited && Override(mt, src, v).Some?
            && TypeOf(Override(mt, src, v).value) != v.ty
            ==> r.v == Ptr(v.ty, Some(|src| + |st.dst|))
                && r.st == CopyState(st.dst + [Override(mt, src, v).value], st.visited[v.target.value := r.v])
    // the referent's override is consulted only when the pointer has none
    ensures v.target.Some? && v.target.value !in st.visited && Override(mt, src, v).None?
            && Override(mt, src, src[v.target.value]).Some?
            ==> r.v == Ptr(v.ty, Some(|src| + |st.dst|))
                && r.st == CopyState(st.dst + [Override(mt, src, src[v.target.value]).value], st.visited[v.target.value := r.v])
    // a pointer with no override on it or its referent is copied into a fresh cell
    ensures v.target.Some? && v.target.value !in st.visited
            && Override(mt, src, v).None? && Override(mt, src, src[v.target.value]).None?
            ==> r.v == Ptr(v.ty, Some(|src| + |st.dst|)) && |r.st.dst| > |st.dst|
    decreases Unvisited(src, st), ValSize(v), 0
  {
    var ty := v.ty;
    var target := v.target;
    if target.None? then Out(v, st)
    else
      var a := target.value;
      if a in st.visited then Out(st.visited[a], st)
      else
        (match Override(mt, src, v)
        case Some(res) =>
          if TypeOf(res) != ty then
            // the override returned a value: wrap it in a fresh cell
            var (cell, st1) := Alloc(src, st, res);
            var p := Ptr(ty, Some(cell));
            Out(p, st1.(visited := st1.visited[a := p]))
          else
            Out(res, st.(visited := st.visited[a := res]))
        case None =>
          (match Override(mt, src, src[a])
          case Some(res) =>
            var (cell, st1) := Alloc(src, st, res);
            var p := Ptr(ty, Some(cell));
            Out(p, st1.(visited := st1.visited[a := p]))
          case None =>
            // record the fresh cell before copying the referent into it
            var (cell, st1) := Alloc(src, st, ZeroOf(src[a]));
            var p := Ptr(ty, Some(cell));
            var st2 := st1.(visited := st1.visited[a := p]);
            assert Unvisited(src, st2) < Unvisited(src, st) by {
              assert a in Unvisited(src, st) && a !in Unvisited(src, st2);
            }
            var c := CopyVal(mt, src, src[a], st2);
            Out(p, c.st.(dst := c.st.dst[|st.dst| := c.v]))))
  }

  /** The struct copy keeps every field's name and visibility, and leaves each
      unexported field at its zero value. */
  predicate FieldsCopied(fs: seq<Field>, gs: seq<Field>) {
    && |gs| == |fs|
    && forall i | 0 <= i < |fs| ::
         && gs[i].name == fs[i].name && gs[i].exported == fs[i].exported
         && (!fs[i].exported ==> gs[i].v == ZeroOf(fs[i].v))
  }

  /** The loop over the elements of a slice or an array, in index order. */
  function CopyElems(mt: MethodTable, src: Heap, vs: seq<Val>, st: CopyState): (r: Out<seq<Val>>)
    requires HeapClosed(src) && forall i | 0 <= i < |vs| :: PointsInto(vs[i], |src|)
    ensures Grows(src, st, r.st)
    ensures |r.v| == |vs|
    decreases Unvisited(src, st), ValsSize(vs), 1
  {
    if |vs| == 0 then Out([], st)
    else
      var c := CopyVal(mt, src, vs[0], st);
      var rest := CopyElems(mt, src, vs[1..], c.st);
      Out([c.v] + rest.v, rest.st)
  }

  /** The loop over a struct's fields: exported fields are copied in order, the
      others keep the zero value of the freshly allocated destination. */
  function CopyFields(mt: MethodTable, src: Heap, fs: seq<Field>, st: CopyState): (r: Out<seq<Field>>)
    requires HeapClosed(src) && forall i | 0 <= i < |fs| :: PointsInto(fs[i].v, |src|)
    ensures Grows(src, st, r.st)
    ensures FieldsCopied(fs, r.v)
    decreases Unvisited(src, st), FieldsSize(fs), 1
  {
    if |fs| == 0 then Out([], st)
    else
      var f := fs[0];
      if !f.exported then
        var rest := CopyFields(mt, src, fs[1..], st);
        Out([Field(f.name, false, ZeroOf(f.v))] + rest.v, rest.st)
      else
        var c := CopyVal(mt, src, f.v, st);
        var rest := CopyFields(mt, src, fs[1..], c.st);
        Out([Field(f.name, true, c.v)] + rest.v, rest.st)
  }

  /** The loop over a map's keys, in iteration order. */
  function CopyEntries(mt: MethodTable, src: Heap, es: seq<Entry>, st: CopyState): (r: Out<seq<Entry>>)
    requires HeapClosed(src) && forall i | 0 <= i < |es| :: PointsInto(es[i].key, |src|) && PointsInto(es[i].value, |src|)
    ensures Grows(src, st, r.st)
    ensures |r.v| == |es|
    decreases Unvisited(src, st), EntriesSize(es), 1
  {
    if |es| == 0 then Out([], st)
    else
      var c := CopyEntry(mt, src, es[0], st);
      var rest := CopyEntries(mt, src, es[1..], c.st);
      Out([c.v] + rest.v, rest.st)
  }

  /** One turn of the map loop: the value is copied first, then the key, and the
      copied pair is inserted. */
  function CopyEntry(mt: MethodTable, src: Heap, e: Entry, st: CopyState): (r: Out<Entry>)
    requires HeapClosed(src) && PointsInto(e.key, |src|) && PointsInto(e.value, |src|)
    ensures Grows(src, st, r.st)
    decreases Unvisited(src, st), EntrySize(e), 1
  {
    var cv := CopyVal(mt, src, e.value, st);
    var ck := CopyVal(mt, src, e.key, cv.st);
    Out(Entry(ck.v, cv.v), ck.st)
  }
}
