/** What copyRecursive guarantees about the graph it builds when no type declares a
    usable DeepCopy method: the copy is the source graph with every reachable source
    cell replaced by its own fresh cell, shared pointers stay shared and cycles stay
    cycles. */
module EngineProofs {
  import opened Wrappers
  import opened Values
  import opened Engine

  /** The address a recorded pointer copy refers to. */
  function Target(p: Val): Addr
    requires p.Ptr? && p.target.Some?
  {
    p.target.value
  }

  /** `w` is the copy of `v` when every source address `a` is replaced by the pointer
      recorded for it in `vis`: nil stays nil, containers keep their length (and a
      slice its capacity), structs keep field names and visibility with unexported
      fields at zero, and everything else is kept as it is. */
  predicate Match(vis: map<Addr, Val>, v: Val, w: Val)
    decreases v
  {
    match v
    case Ptr(_, target) =>
      if target.None? then w == v else target.value in vis && w == vis[target.value]
    case Iface(inner) =>
      if inner.None? then w == v else w.Iface? && w.inner.Some? && Match(vis, inner.value, w.inner.value)
    case Struct(ty, fs) =>
      && w.Struct? && w.ty == ty && FieldsCopied(fs, w.fields)
      && forall i | 0 <= i < |fs| :: fs[i].exported ==> Match(vis, fs[i].v, w.fields[i].v)
    case Slice(ty, isNil, elems, cap) =>
      if isNil then w == NilSlice(ty)
      else
        && w.Slice? && w.ty == ty && !w.isNil && w.cap == cap && |w.elems| == |elems|
        && forall i | 0 <= i < |elems| :: Match(vis, elems[i], w.elems[i])
    case Map(ty, isNil, es) =>
      if isNil then w == NilMap(ty)
      else
        && w.Map? && w.ty == ty && !w.isNil && |w.entries| == |es|
        && forall i | 0 <= i < |es| :: Match(vis, es[i].key, w.entries[i].key) && Match(vis, es[i].value, w.entries[i].value)
    case Array(ty, items) =>
      && w.Array? && w.ty == ty && |w.items| == |items|
      && forall i | 0 <= i < |items| :: Match(vis, items[i], w.items[i])
    case _ => w == v
  }

  /** Every recorded copy is a pointer to an allocated cell, and distinct source
      addresses have distinct copies. */
  predicate Inv(src: Heap, st: CopyState) {
    && (forall a | a in st.visited :: Recorded(src, st, a))
    && (forall a, b | a in st.visited && b in st.visited && a != b :: DistinctCells(st.visited, a, b))
  }

  predicate Recorded(src: Heap, st: CopyState, a: Addr)
    requires a in st.visited
  {
    && a < |src| && st.visited[a].Ptr? && st.visited[a].target.Some?
    && |src| <= Target(st.visited[a]) < |src| + |st.dst|
  }

  predicate DistinctCells(vis: map<Addr, Val>, a: Addr, b: Addr)
    requires a in vis && b in vis
  {
    vis[a].Ptr? && vis[b].Ptr? && vis[a].target.Some? && vis[b].target.Some? && Target(vis[a]) != Target(vis[b])
  }


  /** Every address the step from `st` to `st'` recorded got a cell allocated during
      that step, and the cell holds the copy of the source cell. */
  predicate NewCellsMatch(src: Heap, st: CopyState, st': CopyState) {
    forall a | a in st'.visited && a !in st.visited :: CellFilled(src, |st.dst|, st', a)
  }

  /** The cell recorded for `a` was allocated at or after position `from` of the
      destination and holds the copy of source cell `a`. */
  predicate CellFilled(src: Heap, from: nat, st: CopyState, a: Addr)
    requires a in st.visited
  {
    && a < |src| && st.visited[a].Ptr? && st.visited[a].target.Some?
    && |src| + from <= Target(st.visited[a]) < |src| + |st.dst|
    && Match(st.visited, src[a], st.dst[Target(st.visited[a]) - |src|])
  }


  /** Without usable DeepCopy methods no override ever takes effect. */
  lemma NoOverride(mt: MethodTable, src: Heap, v: Val)
    requires NoOverrides(mt)
    ensures Override(mt, src, v).None?
  {
  }

  /** A copy stays a copy when more addresses are recorded. */
  lemma {:induction false} MatchGrows(vis: map<Addr, Val>, vis': map<Addr, Val>, v: Val, w: Val)
    requires forall a | a in vis :: a in vis' && vis'[a] == vis[a]
    requires Match(vis, v, w)
    ensures Match(vis', v, w)
    decreases v
  {
    match v
    case Iface(inner) =>
      if inner.Some? {
        MatchGrows(vis, vis', inner.value, w.inner.value);
      }
    case Struct(ty, fs) =>
      forall i | 0 <= i < |fs| && fs[i].exported
        ensures Match(vis', fs[i].v, w.fields[i].v)
      {
        MatchGrows(vis, vis', fs[i].v, w.fields[i].v);
      }
    case Slice(ty, isNil, elems, cap) =>
      if !isNil {
        forall i | 0 <= i < |elems| ensures Match(vis', elems[i], w.elems[i]) {
          MatchGrows(vis, vis', elems[i], w.elems[i]);
        }
      }
    case Map(ty, isNil, es) =>
      if !isNil {
        forall i | 0 <= i < |es|
          ensures Match(vis', es[i].key, w.entries[i].key) && Match(vis', es[i].value, w.entries[i].value)
        {
          MatchGrows(vis, vis', es[i].key, w.entries[i].key);
          MatchGrows(vis, vis', es[i].value, w.entries[i].value);
        }
      }
    case Array(ty, items) =>
      forall i | 0 <= i < |items| ensures Match(vis', items[i], w.items[i]) {
        MatchGrows(vis, vis', items[i], w.items[i]);
      }
    case _ =>
  }

  /** An address recorded with a filled cell stays so in any later state. */
  lemma CellStaysMatched(src: Heap, from: nat, st1: CopyState, st2: CopyState, a: Addr)
    requires Grows(src, st1, st2)
    requires a in st1.visited && CellFilled(src, from, st1, a)
    ensures a in st2.visited && CellFilled(src, from, st2, a)
  {
    var i := Target(st1.visited[a]) - |src|;
    assert st2.dst[i] == st1.dst[i];
    MatchGrows(st1.visited, st2.visited, src[a], st1.dst[i]);
  }

  /** Two consecutive steps that each fill their own new cells fill all of them. */
  lemma NewCellsMatchChain(src: Heap, st0: CopyState, st1: CopyState, st2: CopyState)
    requires Grows(src, st0, st1) && Grows(src, st1, st2)
    requires NewCellsMatch(src, st0, st1) && NewCellsMatch(src, st1, st2)
    ensures NewCellsMatch(src, st0, st2)
  {
    forall a | a in st2.visited && a !in st0.visited ensures CellFilled(src, |st0.dst|, st2, a)
    {
      if a in st1.visited {
        CellStaysMatched(src, |st0.dst|, st1, st2, a);
      } else {
        assert CellFilled(src, |st1.dst|, st2, a);
      }
    }
  }

  /** copyRecursive without overrides returns the copy of its value and fills every
      cell it allocates with the copy of its source cell. */
  lemma {:induction false} CopyValIsomorphic(mt: MethodTable, src: Heap, v: Val, st: CopyState)
    requires NoOverrides(mt) && HeapClosed(src) && PointsInto(v, |src|)
    ensures var r := CopyVal(mt, src, v, st); Match(r.st.visited, v, r.v) && NewCellsMatch(src, st, r.st)
    decreases Unvisited(src, st), ValSize(v), 2
  {
    match v
    case Ptr(_, _) => CopyPtrIsomorphic(mt, src, v, st);
    case Iface(inner) =>
      if inner.Some? {
        CopyValIsomorphic(mt, src, inner.value, st);
      }
    case Struct(ty, fs) =>
      NoOverride(mt, src, v);
      CopyFieldsIsomorphic(mt, src, fs, st);
    case Slice(ty, isNil, elems, cap) =>
      if !isNil {
        CopyElemsIsomorphic(mt, src, elems, st);
      }
    case Map(ty, isNil, es) =>
      if !isNil {
        CopyEntriesIsomorphic(mt, src, es, st);
      }
    case Array(ty, items) => CopyElemsIsomorphic(mt, src, items, st);
    case _ =>
  }

  lemma {:induction false} CopyPtrIsomorphic(mt: MethodTable, src: Heap, v: Val, st: CopyState)
    requires v.Ptr?
    requires NoOverrides(mt) && HeapClosed(src) && PointsInto(v, |src|)
    ensures var r := CopyPtr(mt, src, v, st); Match(r.st.visited, v, r.v) && NewCellsMatch(src, st, r.st)
    decreases Unvisited(src, st), ValSize(v), 1
  {
    if v.target.Some? && v.target.value !in st.visited {
      NoOverride(mt, src, v);
      NoOverride(mt, src, src[v.target.value]);
      FreshPtrIsomorphic(mt, src, v, st);
    }
  }

  /** The ordinary path of the pointer case: a fresh cell is recorded, then filled
      with the copy of the referent. */
  lemma {:induction false} FreshPtrIsomorphic(mt: MethodTable, src: Heap, v: Val, st: CopyState)
    requires v.Ptr? && v.target.Some? && v.target.value !in st.visited
    requires NoOverrides(mt) && HeapClosed(src) && PointsInto(v, |src|)
    requires Override(mt, src, v).None? && Override(mt, src, src[v.target.value]).None?
    ensures var r := CopyPtr(mt, src, v, st); Match(r.st.visited, v, r.v) && NewCellsMatch(src, st, r.st)
    decreases Unvisited(src, st), ValSize(v), 0
  {
    var a := v.target.value;
    var p := Ptr(v.ty, Some(|src| + |st.dst|));
    var st2 := CopyState(st.dst + [ZeroOf(src[a])], st.visited[a := p]);
    RecordShrinks(src, st, a, p, ZeroOf(src[a]));
    CopyValIsomorphic(mt, src, src[a], st2);
    var c := CopyVal(mt, src, src[a], st2);
    CopyPtrFreshPath(mt, src, v, st);
    assert a in c.st.visited && c.st.visited[a] == p && |c.st.dst| > |st.dst|;
    FreshCellFilled(src, st, a, p, st2, c);
  }

  /** Recording an unvisited address leaves fewer addresses to visit. */
  lemma RecordShrinks(src: Heap, st: CopyState, a: Addr, p: Val, z: Val)
    requires a < |src| && a !in st.visited
    ensures Unvisited(src, CopyState(st.dst + [z], st.visited[a := p])) < Unvisited(src, st)
  {
    assert a in Unvisited(src, st);
  }

  /** The ordinary path of the pointer case, one step unfolded. */
  lemma CopyPtrFreshPath(mt: MethodTable, src: Heap, v: Val, st: CopyState)
    requires v.Ptr? && v.target.Some? && v.target.value !in st.visited
    requires HeapClosed(src) && PointsInto(v, |src|)
    requires Override(mt, src, v).None? && Override(mt, src, src[v.target.value]).None?
    ensures var a := v.target.value;
      var p := Ptr(v.ty, Some(|src| + |st.dst|));
      var c := CopyVal(mt, src, src[a], CopyState(st.dst + [ZeroOf(src[a])], st.visited[a := p]));
      CopyPtr(mt, src, v, st) == Out(p, c.st.(dst := c.st.dst[|st.dst| := c.v]))
  {
  }

  /** The last step of copying a pointer to an unvisited address: once the
      referent's copy is written into the cell recorded for it, that cell and every
      cell the referent's copy allocated hold copies of their source cells. */
  lemma FreshCellFilled(src: Heap, st: CopyState, a: Addr, p: Val, st2: CopyState, c: Out<Val>)
    requires a < |src| && a !in st.visited
    requires p.Ptr? && p.target == Some(|src| + |st.dst|)
    requires |st2.dst| == |st.dst| + 1 && st2.visited == st.visited[a := p]
    requires a in c.st.visited && c.st.visited[a] == p && |c.st.dst| > |st.dst|
    requires Match(c.st.visited, src[a], c.v) && NewCellsMatch(src, st2, c.st)
    ensures Match(c.st.visited, Values.Ptr(p.ty, Some(a)), p)
    ensures NewCellsMatch(src, st, c.st.(dst := c.st.dst[|st.dst| := c.v]))
  {
    var vis := c.st.visited;
    var r := c.st.(dst := c.st.dst[|st.dst| := c.v]);
    OverwriteOldCell(src, st2, c.st, |st.dst|, c.v);
    forall b | b in r.visited && b !in st.visited ensures CellFilled(src, |st.dst|, r, b)
    {
      if b == a {
        assert r.dst[Target(vis[b]) - |src|] == c.v;
        assert Match(vis, src[a], c.v);
      } else {
        assert b in r.visited && b !in st2.visited;
        assert Match(r.visited, src[b], r.dst[Target(r.visited[b]) - |src|]);
      }
    }
  }

  /** Writing a cell allocated before a step leaves the cells of that step alone. */
  lemma OverwriteOldCell(src: Heap, st: CopyState, st': CopyState, k: nat, w: Val)
    requires NewCellsMatch(src, st, st') && k < |st.dst| && k < |st'.dst|
    ensures NewCellsMatch(src, st, st'.(dst := st'.dst[k := w]))
  {
    var st'' := st'.(dst := st'.dst[k := w]);
    forall b | b in st''.visited && b !in st.visited ensures CellFilled(src, |st.dst|, st'', b)
    {
      assert st''.dst[Target(st''.visited[b]) - |src|] == st'.dst[Target(st'.visited[b]) - |src|];
    }
  }

  lemma {:induction false} CopyElemsIsomorphic(mt: MethodTable, src: Heap, vs: seq<Val>, st: CopyState)
    requires NoOverrides(mt) && HeapClosed(src)
    requires forall i | 0 <= i < |vs| :: PointsInto(vs[i], |src|)
    ensures var r := CopyElems(mt, src, vs, st);
      && (forall i | 0 <= i < |vs| :: Match(r.st.visited, vs[i], r.v[i]))
      && NewCellsMatch(src, st, r.st)
    decreases Unvisited(src, st), ValsSize(vs), 2
  {
    if |vs| > 0 {
      CopyValIsomorphic(mt, src, vs[0], st);
      var c := CopyVal(mt, src, vs[0], st);
      CopyElemsIsomorphic(mt, src, vs[1..], c.st);
      var rest := CopyElems(mt, src, vs[1..], c.st);
      assert CopyElems(mt, src, vs, st) == Out([c.v] + rest.v, rest.st);
      MatchGrows(c.st.visited, rest.st.visited, vs[0], c.v);
      ConsMatches(rest.st.visited, vs, c.v, rest.v);
      NewCellsMatchChain(src, st, c.st, rest.st);
    }
  }

  /** Element-wise matching of a sequence from that of its head and its tail. */
  lemma ConsMatches(vis: map<Addr, Val>, vs: seq<Val>, w: Val, ws: seq<Val>)
    requires |vs| > 0 && |ws| == |vs| - 1 && Match(vis, vs[0], w)
    requires forall i | 0 <= i < |ws| :: Match(vis, vs[1..][i], ws[i])
    ensures forall i | 0 <= i < |vs| :: Match(vis, vs[i], ([w] + ws)[i])
  {
    forall i | 0 <= i < |vs| ensures Match(vis, vs[i], ([w] + ws)[i]) {
      if i > 0 {
        assert vs[i] == vs[1..][i - 1];
      }
    }
  }

  lemma {:induction false} CopyFieldsIsomorphic(mt: MethodTable, src: Heap, fs: seq<Field>, st: CopyState)
    requires NoOverrides(mt) && HeapClosed(src)
    requires forall i | 0 <= i < |fs| :: PointsInto(fs[i].v, |src|)
    ensures var r := CopyFields(mt, src, fs, st);
      && (forall i | 0 <= i < |fs| && fs[i].exported :: Match(r.st.visited, fs[i].v, r.v[i].v))
      && NewCellsMatch(src, st, r.st)
    decreases Unvisited(src, st), Values.FieldsSize(fs), 2
  {
    if |fs| > 0 {
      var f := fs[0];
      if !f.exported {
        CopyFieldsIsomorphic(mt, src, fs[1..], st);
        var rest := CopyFields(mt, src, fs[1..], st);
        assert CopyFields(mt, src, fs, st) == Out([Field(f.name, false, ZeroOf(f.v))] + rest.v, rest.st);
        ConsFieldMatches(rest.st.visited, fs, Field(f.name, false, ZeroOf(f.v)), rest.v);
      } else {
        CopyValIsomorphic(mt, src, f.v, st);
        var c := CopyVal(mt, src, f.v, st);
        CopyFieldsIsomorphic(mt, src, fs[1..], c.st);
        var rest := CopyFields(mt, src, fs[1..], c.st);
        assert CopyFields(mt, src, fs, st) == Out([Field(f.name, true, c.v)] + rest.v, rest.st);
        MatchGrows(c.st.visited, rest.st.visited, f.v, c.v);
        ConsFieldMatches(rest.st.visited, fs, Field(f.name, true, c.v), rest.v);
        NewCellsMatchChain(src, st, c.st, rest.st);
      }
    }
  }

  /** Matching of the exported fields of a sequence from that of its head and tail. */
  lemma ConsFieldMatches(vis: map<Addr, Val>, fs: seq<Field>, g: Field, gs: seq<Field>)
    requires |fs| > 0 && |gs| == |fs| - 1
    requires fs[0].exported ==> Match(vis, fs[0].v, g.v)
    requires forall i | 0 <= i < |gs| && fs[1..][i].exported :: Match(vis, fs[1..][i].v, gs[i].v)
    ensures forall i | 0 <= i < |fs| && fs[i].exported :: Match(vis, fs[i].v, ([g] + gs)[i].v)
  {
    forall i | 0 <= i < |fs| && fs[i].exported ensures Match(vis, fs[i].v, ([g] + gs)[i].v) {
      if i > 0 {
        assert fs[i] == fs[1..][i - 1];
      }
    }
  }

  lemma {:induction false} CopyEntriesIsomorphic(mt: MethodTable, src: Heap, es: seq<Entry>, st: CopyState)
    requires NoOverrides(mt) && HeapClosed(src)
    requires forall i | 0 <= i < |es| :: PointsInto(es[i].key, |src|) && PointsInto(es[i].value, |src|)
    ensures var r := CopyEntries(mt, src, es, st);
      && (forall i | 0 <= i < |es| :: Match(r.st.visited, es[i].key, r.v[i].key) && Match(r.st.visited, es[i].value, r.v[i].value))
      && NewCellsMatch(src, st, r.st)
    decreases Unvisited(src, st), EntriesSize(es), 2
  {
    if |es| > 0 {
      CopyEntryIsomorphic(mt, src, es[0], st);
      var c := CopyEntry(mt, src, es[0], st);
      CopyEntriesIsomorphic(mt, src, es[1..], c.st);
      var rest := CopyEntries(mt, src, es[1..], c.st);
      assert CopyEntries(mt, src, es, st) == Out([c.v] + rest.v, rest.st);
      MatchGrows(c.st.visited, rest.st.visited, es[0].key, c.v.key);
      MatchGrows(c.st.visited, rest.st.visited, es[0].value, c.v.value);
      ConsEntryMatches(rest.st.visited, es, c.v, rest.v);
      NewCellsMatchChain(src, st, c.st, rest.st);
    }
  }

  lemma {:induction false} CopyEntryIsomorphic(mt: MethodTable, src: Heap, e: Entry, st: CopyState)
    requires NoOverrides(mt) && HeapClosed(src) && PointsInto(e.key, |src|) && PointsInto(e.value, |src|)
    ensures var r := CopyEntry(mt, src, e, st);
      Match(r.st.visited, e.key, r.v.key) && Match(r.st.visited, e.value, r.v.value) && NewCellsMatch(src, st, r.st)
    decreases Unvisited(src, st), EntrySize(e), 2
  {
    CopyValIsomorphic(mt, src, e.value, st);
    var cv := CopyVal(mt, src, e.value, st);
    CopyValIsomorphic(mt, src, e.key, cv.st);
    var ck := CopyVal(mt, src, e.key, cv.st);
    assert CopyEntry(mt, src, e, st) == Out(Entry(ck.v, cv.v), ck.st);
    MatchGrows(cv.st.visited, ck.st.visited, e.value, cv.v);
    NewCellsMatchChain(src, st, cv.st, ck.st);
  }

  /** Matching of the pairs of a sequence from that of its head and tail. */
  lemma ConsEntryMatches(vis: map<Addr, Val>, es: seq<Entry>, d: Entry, ds: seq<Entry>)
    requires |es| > 0 && |ds| == |es| - 1
    requires Match(vis, es[0].key, d.key) && Match(vis, es[0].value, d.value)
    requires forall i | 0 <= i < |ds| :: Match(vis, es[1..][i].key, ds[i].key) && Match(vis, es[1..][i].value, ds[i].value)
    ensures forall i | 0 <= i < |es| :: Match(vis, es[i].key, ([d] + ds)[i].key) && Match(vis, es[i].value, ([d] + ds)[i].value)
  {
    forall i | 0 <= i < |es|
      ensures Match(vis, es[i].key, ([d] + ds)[i].key) && Match(vis, es[i].value, ([d] + ds)[i].value)
    {
      if i > 0 {
        assert es[i] == es[1..][i - 1];
      }
    }
  }

  /** Exactly one cell per newly recorded address, none shared. */
  predicate OneCellEach(src: Heap, st: CopyState, st': CopyState) {
    Inv(src, st') && |st'.dst| - |st.dst| == |st'.visited| - |st.visited|
  }

  /** copyRecursive without overrides keeps distinct addresses on distinct cells and
      allocates exactly one cell per address it records. */
  lemma {:induction false} CopyValOneCellEach(mt: MethodTable, src: Heap, v: Val, st: CopyState)
    requires NoOverrides(mt) && HeapClosed(src) && PointsInto(v, |src|) && Inv(src, st)
    ensures OneCellEach(src, st, CopyVal(mt, src, v, st).st)
    decreases Unvisited(src, st), ValSize(v), 2
  {
    match v
    case Ptr(_, _) => CopyPtrOneCellEach(mt, src, v, st);
    case Iface(inner) =>
      if inner.Some? {
        CopyValOneCellEach(mt, src, inner.value, st);
      }
    case Struct(ty, fs) =>
      NoOverride(mt, src, v);
      CopyFieldsOneCellEach(mt, src, fs, st);
    case Slice(ty, isNil, elems, cap) =>
      if !isNil {
        CopyElemsOneCellEach(mt, src, elems, st);
      }
    case Map(ty, isNil, es) =>
      if !isNil {
        CopyEntriesOneCellEach(mt, src, es, st);
      }
    case Array(ty, items) => CopyElemsOneCellEach(mt, src, items, st);
    case _ =>
  }

  lemma {:induction false} CopyPtrOneCellEach(mt: MethodTable, src: Heap, v: Val, st: CopyState)
    requires v.Ptr?
    requires NoOverrides(mt) && HeapClosed(src) && PointsInto(v, |src|) && Inv(src, st)
    ensures OneCellEach(src, st, CopyPtr(mt, src, v, st).st)
    decreases Unvisited(src, st), ValSize(v), 1
  {
    if v.target.Some? && v.target.value !in st.visited {
      NoOverride(mt, src, v);
      NoOverride(mt, src, src[v.target.value]);
      FreshPtrOneCellEach(mt, src, v, st);
    }
  }

  lemma {:induction false} FreshPtrOneCellEach(mt: MethodTable, src: Heap, v: Val, st: CopyState)
    requires v.Ptr? && v.target.Some? && v.target.value !in st.visited
    requires NoOverrides(mt) && HeapClosed(src) && PointsInto(v, |src|) && Inv(src, st)
    requires Override(mt, src, v).None? && Override(mt, src, src[v.target.value]).None?
    ensures OneCellEach(src, st, CopyPtr(mt, src, v, st).st)
    decreases Unvisited(src, st), ValSize(v), 0
  {
    var a := v.target.value;
    var p := Ptr(v.ty, Some(|src| + |st.dst|));
    var st2 := CopyState(st.dst + [ZeroOf(src[a])], st.visited[a := p]);
    RecordShrinks(src, st, a, p, ZeroOf(src[a]));
    RecordFreshCell(src, st, a, p, ZeroOf(src[a]));
    CopyValOneCellEach(mt, src, src[a], st2);
    var c := CopyVal(mt, src, src[a], st2);
    CopyPtrFreshPath(mt, src, v, st);
  }

  /** Two consecutive steps that each allocate one cell per recorded address. */
  lemma OneCellEachChain(src: Heap, st0: CopyState, st1: CopyState, st2: CopyState)
    requires OneCellEach(src, st0, st1) && OneCellEach(src, st1, st2)
    ensures OneCellEach(src, st0, st2)
  {
  }

  /** Recording a fresh cell for an unvisited address keeps cells distinct. */
  lemma RecordFreshCell(src: Heap, st: CopyState, a: Addr, p: Val, z: Val)
    requires Inv(src, st) && a < |src| && a !in st.visited
    requires p.Ptr? && p.target == Some(|src| + |st.dst|)
    ensures Inv(src, CopyState(st.dst + [z], st.visited[a := p]))
    ensures |st.visited[a := p]| == |st.visited| + 1
  {
  }

  lemma {:induction false} CopyElemsOneCellEach(mt: MethodTable, src: Heap, vs: seq<Val>, st: CopyState)
    requires NoOverrides(mt) && HeapClosed(src) && Inv(src, st)
    requires forall i | 0 <= i < |vs| :: PointsInto(vs[i], |src|)
    ensures OneCellEach(src, st, CopyElems(mt, src, vs, st).st)
    decreases Unvisited(src, st), ValsSize(vs), 2
  {
    if |vs| > 0 {
      CopyValOneCellEach(mt, src, vs[0], st);
      var c := CopyVal(mt, src, vs[0], st);
      CopyElemsOneCellEach(mt, src, vs[1..], c.st);
      var rest := CopyElems(mt, src, vs[1..], c.st);
      assert CopyElems(mt, src, vs, st).st == rest.st;
      OneCellEachChain(src, st, c.st, rest.st);
    }
  }

  lemma {:induction false} CopyFieldsOneCellEach(mt: MethodTable, src: Heap, fs: seq<Field>, st: CopyState)
    requires NoOverrides(mt) && HeapClosed(src) && Inv(src, st)
    requires forall i | 0 <= i < |fs| :: PointsInto(fs[i].v, |src|)
    ensures OneCellEach(src, st, CopyFields(mt, src, fs, st).st)
    decreases Unvisited(src, st), Values.FieldsSize(fs), 2
  {
    if |fs| > 0 {
      if !fs[0].exported {
        CopyFieldsOneCellEach(mt, src, fs[1..], st);
        assert CopyFields(mt, src, fs, st).st == CopyFields(mt, src, fs[1..], st).st;
      } else {
        CopyValOneCellEach(mt, src, fs[0].v, st);
        var c := CopyVal(mt, src, fs[0].v, st);
        CopyFieldsOneCellEach(mt, src, fs[1..], c.st);
        var rest := CopyFields(mt, src, fs[1..], c.st);
        assert CopyFields(mt, src, fs, st).st == rest.st;
        OneCellEachChain(src, st, c.st, rest.st);
      }
    }
  }

  lemma {:induction false} CopyEntriesOneCellEach(mt: MethodTable, src: Heap, es: seq<Entry>, st: CopyState)
    requires NoOverrides(mt) && HeapClosed(src) && Inv(src, st)
    requires forall i | 0 <= i < |es| :: PointsInto(es[i].key, |src|) && PointsInto(es[i].value, |src|)
    ensures OneCellEach(src, st, CopyEntries(mt, src, es, st).st)
    decreases Unvisited(src, st), EntriesSize(es), 2
  {
    if |es| > 0 {
      CopyEntryOneCellEach(mt, src, es[0], st);
      var c := CopyEntry(mt, src, es[0], st);
      CopyEntriesOneCellEach(mt, src, es[1..], c.st);
      var rest := CopyEntries(mt, src, es[1..], c.st);
      assert CopyEntries(mt, src, es, st).st == rest.st;
      OneCellEachChain(src, st, c.st, rest.st);
    }
  }

  lemma {:induction false} CopyEntryOneCellEach(mt: MethodTable, src: Heap, e: Entry, st: CopyState)
    requires NoOverrides(mt) && HeapClosed(src) && Inv(src, st)
    requires PointsInto(e.key, |src|) && PointsInto(e.value, |src|)
    ensures OneCellEach(src, st, CopyEntry(mt, src, e, st).st)
    decreases Unvisited(src, st), EntrySize(e), 2
  {
    CopyValOneCellEach(mt, src, e.value, st);
    var cv := CopyVal(mt, src, e.value, st);
    CopyValOneCellEach(mt, src, e.key, cv.st);
    var ck := CopyVal(mt, src, e.key, cv.st);
    assert CopyEntry(mt, src, e, st).st == ck.st;
    OneCellEachChain(src, st, cv.st, ck.st);
  }


  /** The pointer copies of a visited table are pairwise distinct. */
  predicate Injective(vis: map<Addr, Val>)
  {
    forall a, b | a in vis && b in vis && a != b :: DistinctCells(vis, a, b)
  }


  /** copyRecursive from a fresh visited table, without overrides: the result is the
      copy of the value, every source address reached has exactly one fresh cell of
      its own (above every source address, distinct from the others), and that cell
      holds the copy of the source cell. */
  lemma CopyIsIsomorphic(mt: MethodTable, src: Heap, v: Val)
    requires NoOverrides(mt) && HeapClosed(src) && PointsInto(v, |src|)
    ensures var r := CopyVal(mt, src, v, Start);
      && Match(r.st.visited, v, r.v)
      && |r.st.dst| == |r.st.visited|
      && Injective(r.st.visited)
      && forall a | a in r.st.visited :: CellFilled(src, 0, r.st, a)
  {
    CopyValIsomorphic(mt, src, v, Start);
    CopyValOneCellEach(mt, src, v, Start);
    var r := CopyVal(mt, src, v, Start);
    forall a, b | a in r.st.visited && b in r.st.visited && a != b
      ensures DistinctCells(r.st.visited, a, b)
    {
    }
  }

  /** A set of naturals below `n` has at most `n` elements. */
  lemma {:induction false} BoundedSetSize(s: set<nat>, n: nat)
    requires forall a | a in s :: a < n
    ensures |s| <= n
  {
    if n > 0 {
      BoundedSetSize(s - {n - 1}, n - 1);
    }
  }

  /** copyRecursive allocates at most one cell per source address it records, and
      records only source addresses, whatever DeepCopy methods the types declare. */
  lemma AllocationBound(mt: MethodTable, src: Heap, v: Val)
    requires HeapClosed(src) && PointsInto(v, |src|)
    ensures var r := CopyVal(mt, src, v, Start); |r.st.dst| <= |r.st.visited| <= |src|
  {
    var r := CopyVal(mt, src, v, Start);
    forall a | a in r.st.visited.Keys ensures a < |src| {
      assert a !in Start.visited;
    }
    BoundedSetSize(r.st.visited.Keys, |src|);
  }
}
