/** copyRecursiveWithCache, the twin of copyRecursive used by CopyWithKey. It threads
    a type-analysis argument down the recursion (the field analysis of the struct
    being copied, nil everywhere else) but no decision reads it, so it computes
    exactly what copyRecursive computes. */
module CachedEngine {
  import opened Wrappers
  import G = GoTypes
  import opened Values
  import opened Engine

  /** The analysis handed to a struct field: the entry under its name, if the
      struct's analysis has a field map holding one; nil otherwise. */
  function FieldInfo(info: Option<G.Analysis>, name: string): Option<G.Analysis>
  {
    if info.Some? && info.value.fieldAnalysis.Some? && name in info.value.fieldAnalysis.value
    then Some(info.value.fieldAnalysis.value[name])
    else None
  }

  function CopyValWithInfo(mt: MethodTable, src: Heap, v: Val, st: CopyState, info: Option<G.Analysis>): (r: Out<Val>)
    requires HeapClosed(src) && PointsInto(v, |src|)
    ensures Engine.Grows(src, st, r.st)
    decreases Unvisited(src, st), ValSize(v), 1
  {
    match v
    case Ptr(_, _) => CopyPtrWithInfo(mt, src, v, st)
    case Iface(inner) =>
      if inner.None? then Out(v, st)
      else
        var c := CopyValWithInfo(mt, src, inner.value, st, None);
        Out(Iface(Some(c.v)), c.st)
    case Time(_, _) => Out(v, st)
    case Struct(ty, fs) =>
      (match Override(mt, src, v)
      case Some(res) => Out(res, st)
      case None =>
        var c := CopyFieldsWithInfo(mt, src, fs, st, info);
        Out(Struct(ty, c.v), c.st))
    case Slice(ty, isNil, elems, cap) =>
      if isNil then Out(NilSlice(ty), st)
      else
        var c := CopyElemsWithInfo(mt, src, elems, st);
        Out(Slice(ty, false, c.v, cap), c.st)
    case Map(ty, isNil, entries) =>
      if isNil then Out(NilMap(ty), st)
      else
        var c := CopyEntriesWithInfo(mt, src, entries, st);
        Out(Map(ty, false, c.v), c.st)
    case Array(ty, items) =>
      var c := CopyElemsWithInfo(mt, src, items, st);
      Out(Array(ty, c.v), c.st)
    case Opaque(_, _) => Out(v, st)
    case Scalar(_, _) => Out(v, st)
  }

  function CopyPtrWithInfo(mt: MethodTable, src: Heap, v: Val, st: CopyState): (r: Out<Val>)
    requires v.Ptr?
    requires HeapClosed(src) && PointsInto(v, |src|)
    ensures Engine.Grows(src, st, r.st)
    decreases Unvisited(src, st), ValSize(v), 0
  {
    var ty := v.ty;
    var target := v.target;
    if target.None? then Out(v, st)
    else
      var a := target.value;
      if a in st.visited then Out(st.visited[a], st)
      else
        (match Override(mt, src, v)
        case Some(res) =>
          if TypeOf(res) != ty then
            var (cell, st1) := Alloc(src, st, res);
            var p := Ptr(ty, Some(cell));
            Out(p, st1.(visited := st1.visited[a := p]))
          else
            Out(res, st.(visited := st.visited[a := res]))
        case None =>
          (match Override(mt, src, src[a])
          case Some(res) =>
            var (cell, st1) := Alloc(src, st, res);
            var p := Ptr(ty, Some(cell));
            Out(p, st1.(visited := st1.visited[a := p]))
          case None =>
            var (cell, st1) := Alloc(src, st, ZeroOf(src[a]));
            var p := Ptr(ty, Some(cell));
            var st2 := st1.(visited := st1.visited[a := p]);
            assert Unvisited(src, st2) < Unvisited(src, st) by {
              assert a in Unvisited(src, st) && a !in Unvisited(src, st2);
            }
            var c := CopyValWithInfo(mt, src, src[a], st2, None);
            Out(p, c.st.(dst := c.st.dst[|st.dst| := c.v]))))
  }

  function CopyElemsWithInfo(mt: MethodTable, src: Heap, vs: seq<Val>, st: CopyState): (r: Out<seq<Val>>)
    requires HeapClosed(src) && forall i | 0 <= i < |vs| :: PointsInto(vs[i], |src|)
    ensures Engine.Grows(src, st, r.st)
    decreases Unvisited(src, st), ValsSize(vs), 1
  {
    if |vs| == 0 then Out([], st)
    else
      var c := CopyValWithInfo(mt, src, vs[0], st, None);
      var rest := CopyElemsWithInfo(mt, src, vs[1..], c.st);
      Out([c.v] + rest.v, rest.st)
  }

  function CopyFieldsWithInfo(mt: MethodTable, src: Heap, fs: seq<Field>, st: CopyState, info: Option<G.Analysis>): (r: Out<seq<Field>>)
    requires HeapClosed(src) && forall i | 0 <= i < |fs| :: PointsInto(fs[i].v, |src|)
    ensures Engine.Grows(src, st, r.st)
    decreases Unvisited(src, st), Values.FieldsSize(fs), 1
  {
    if |fs| == 0 then Out([], st)
    else
      var f := fs[0];
      if !f.exported then
        var rest := CopyFieldsWithInfo(mt, src, fs[1..], st, info);
        Out([Field(f.name, false, ZeroOf(f.v))] + rest.v, rest.st)
      else
        var c := CopyValWithInfo(mt, src, f.v, st, FieldInfo(info, f.name));
        var rest := CopyFieldsWithInfo(mt, src, fs[1..], c.st, info);
        Out([Field(f.name, true, c.v)] + rest.v, rest.st)
  }

  function CopyEntriesWithInfo(mt: MethodTable, src: Heap, es: seq<Entry>, st: CopyState): (r: Out<seq<Entry>>)
    requires HeapClosed(src) && forall i | 0 <= i < |es| :: PointsInto(es[i].key, |src|) && PointsInto(es[i].value, |src|)
    ensures Engine.Grows(src, st, r.st)
    decreases Unvisited(src, st), EntriesSize(es), 1
  {
    if |es| == 0 then Out([], st)
    else
      var c := CopyEntryWithInfo(mt, src, es[0], st);
      var rest := CopyEntriesWithInfo(mt, src, es[1..], c.st);
      Out([c.v] + rest.v, rest.st)
  }

  function CopyEntryWithInfo(mt: MethodTable, src: Heap, e: Entry, st: CopyState): (r: Out<Entry>)
    requires HeapClosed(src) && PointsInto(e.key, |src|) && PointsInto(e.value, |src|)
    ensures Engine.Grows(src, st, r.st)
    decreases Unvisited(src, st), EntrySize(e), 1
  {
    var cv := CopyValWithInfo(mt, src, e.value, st, None);
    var ck := CopyValWithInfo(mt, src, e.key, cv.st, None);
    Out(Entry(ck.v, cv.v), ck.st)
  }

  /** The type-analysis argument never changes the outcome: for every analysis,
      copyRecursiveWithCache returns the value and state copyRecursive returns. */
  lemma {:induction false} WithInfoIsCopyVal(mt: MethodTable, src: Heap, v: Val, st: CopyState, info: Option<G.Analysis>)
    requires HeapClosed(src) && PointsInto(v, |src|)
    ensures CopyValWithInfo(mt, src, v, st, info) == CopyVal(mt, src, v, st)
    decreases Unvisited(src, st), ValSize(v), 1
  {
    match v
    case Ptr(_, _) => WithInfoIsCopyPtr(mt, src, v, st);
    case Iface(inner) =>
      if inner.Some? {
        WithInfoIsCopyVal(mt, src, inner.value, st, None);
      }
    case Struct(ty, fs) =>
      if Override(mt, src, v).None? {
        WithInfoIsCopyFields(mt, src, fs, st, info);
      }
    case Slice(ty, isNil, elems, cap) =>
      if !isNil {
        WithInfoIsCopyElems(mt, src, elems, st);
      }
    case Map(ty, isNil, entries) =>
      if !isNil {
        WithInfoIsCopyEntries(mt, src, entries, st);
      }
    case Array(ty, items) => WithInfoIsCopyElems(mt, src, items, st);
    case _ =>
  }

  lemma {:induction false} WithInfoIsCopyPtr(mt: MethodTable, src: Heap, v: Val, st: CopyState)
    requires v.Ptr?
    requires HeapClosed(src) && PointsInto(v, |src|)
    ensures CopyPtrWithInfo(mt, src, v, st) == CopyPtr(mt, src, v, st)
    decreases Unvisited(src, st), ValSize(v), 0
  {
    if v.target.Some? && v.target.value !in st.visited
       && Override(mt, src, v).None? && Override(mt, src, src[v.target.value]).None? {
      var a := v.target.value;
      var (cell, st1) := Alloc(src, st, ZeroOf(src[a]));
      var st2 := st1.(visited := st1.visited[a := Ptr(v.ty, Some(cell))]);
      assert Unvisited(src, st2) < Unvisited(src, st) by {
        assert a in Unvisited(src, st) && a !in Unvisited(src, st2);
      }
      WithInfoIsCopyVal(mt, src, src[a], st2, None);
    }
  }

  lemma {:induction false} WithInfoIsCopyElems(mt: MethodTable, src: Heap, vs: seq<Val>, st: CopyState)
    requires HeapClosed(src) && forall i | 0 <= i < |vs| :: PointsInto(vs[i], |src|)
    ensures CopyElemsWithInfo(mt, src, vs, st) == CopyElems(mt, src, vs, st)
    decreases Unvisited(src, st), ValsSize(vs), 1
  {
    if |vs| > 0 {
      WithInfoIsCopyVal(mt, src, vs[0], st, None);
      var c := CopyVal(mt, src, vs[0], st);
      WithInfoIsCopyElems(mt, src, vs[1..], c.st);
    }
  }

  lemma {:induction false} WithInfoIsCopyFields(mt: MethodTable, src: Heap, fs: seq<Field>, st: CopyState, info: Option<G.Analysis>)
    requires HeapClosed(src) && forall i | 0 <= i < |fs| :: PointsInto(fs[i].v, |src|)
    ensures CopyFieldsWithInfo(mt, src, fs, st, info) == CopyFields(mt, src, fs, st)
    decreases Unvisited(src, st), Values.FieldsSize(fs), 1
  {
    if |fs| > 0 {
      if !fs[0].exported {
        WithInfoIsCopyFields(mt, src, fs[1..], st, info);
      } else {
        WithInfoIsCopyVal(mt, src, fs[0].v, st, FieldInfo(info, fs[0].name));
        var c := CopyVal(mt, src, fs[0].v, st);
        WithInfoIsCopyFields(mt, src, fs[1..], c.st, info);
      }
    }
  }

  lemma {:induction false} WithInfoIsCopyEntries(mt: MethodTable, src: Heap, es: seq<Entry>, st: CopyState)
    requires HeapClosed(src) && forall i | 0 <= i < |es| :: PointsInto(es[i].key, |src|) && PointsInto(es[i].value, |src|)
    ensures CopyEntriesWithInfo(mt, src, es, st) == CopyEntries(mt, src, es, st)
    decreases Unvisited(src, st), EntriesSize(es), 1
  {
    if |es| > 0 {
      WithInfoIsCopyEntry(mt, src, es[0], st);
      var c := CopyEntry(mt, src, es[0], st);
      WithInfoIsCopyEntries(mt, src, es[1..], c.st);
    }
  }

  lemma {:induction false} WithInfoIsCopyEntry(mt: MethodTable, src: Heap, e: Entry, st: CopyState)
    requires HeapClosed(src) && PointsInto(e.key, |src|) && PointsInto(e.value, |src|)
    ensures CopyEntryWithInfo(mt, src, e, st) == CopyEntry(mt, src, e, st)
    decreases Unvisited(src, st), EntrySize(e), 1
  {
    WithInfoIsCopyVal(mt, src, e.value, st, None);
    var cv := CopyVal(mt, src, e.value, st);
    WithInfoIsCopyVal(mt, src, e.key, cv.st, None);
  }
}
