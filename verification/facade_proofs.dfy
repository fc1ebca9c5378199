/** Properties of the entry points: the order in which each one consults the
    override and the analysis, what a traversal through them delivers, when the
    value-only shortcut is safe, the call-site cache's reuse hazard, and the
    behaviour of Copy on an interface-typed T. */
module FacadeProofs {
  import opened Wrappers
  import G = GoTypes
  import C = Classifier
  import opened Values
  import opened Engine
  import CE = CachedEngine
  import opened Facade
  import CP = ClassifierProofs
  import EP = EngineProofs
  import SP = ShortcutProofs
  import DT = DefinedTypeProofs

  /** The entry points disagree on precedence: for a value whose type is value-only
      but which declares a usable DeepCopy method, Copy returns the method's result,
      while CopyValue returns the source without calling it. */
  lemma OverridePrecedence(env: G.TypeEnv, mt: MethodTable, src: Heap, c: C.Caches, t: G.GoType, v: Val)
    requires HeapClosed(src) && PointsInto(v, |src|)
    requires CP.Memoised(env, c.types)
    requires ValueOf(v).Some? && Override(mt, src, ValueOf(v).value).Some?
    requires C.Analyze(env, TypeOf(ValueOf(v).value), map[]).result.isOnlyValues
    ensures Copy(env, mt, src, c, t, v).path == OverrideResult
    ensures Copy(env, mt, src, c, t, v).v == AsT(env, t, Override(mt, src, ValueOf(v).value).value)
    ensures CopyValue(env, mt, src, c.types, v).path == Shortcut
    ensures CopyValue(env, mt, src, c.types, v).v == ValueOf(v)
  {
    CP.MemoIsTransparent(env, c.types, TypeOf(ValueOf(v).value));
  }

  /** Copy of a concrete, not value-only T without overrides traverses, and its
      result is the source graph with every reachable source cell replaced by a
      fresh cell of its own: shared pointers stay shared, cycles stay cycles, and
      each fresh cell holds the copy of its source cell. */
  lemma CopyIsDeep(env: G.TypeEnv, mt: MethodTable, src: Heap, c: C.Caches, t: G.GoType, v: Val)
    requires NoOverrides(mt) && HeapClosed(src) && PointsInto(v, |src|)
    requires !G.IsInterfaceType(env, t) && !v.Iface? && TypeOf(v) == t
    requires CP.Memoised(env, c.types) && !C.Analyze(env, t, map[]).result.isOnlyValues
    ensures var r := Copy(env, mt, src, c, t, v);
      && r.path == Traversal
      && EP.Match(r.st.visited, v, r.v)
      && |r.st.dst| == |r.st.visited| && EP.Injective(r.st.visited)
      && forall a | a in r.st.visited :: EP.CellFilled(src, 0, r.st, a)
  {
    EP.NoOverride(mt, src, v);
    CP.MemoIsTransparent(env, c.types, t);
    var types' := C.GetOrAnalyze(env, c.types, t).1;
    CP.MemoIsTransparent(env, types', t);
    EP.CopyIsIsomorphic(mt, src, v);
  }

  /** Copy[*T] of a non-nil pointer without overrides: the copy points at a fresh
      cell, above every source address, holding the copy of the pointee. */
  lemma CopyOfPointer(env: G.TypeEnv, mt: MethodTable, src: Heap, c: C.Caches, t: G.GoType, a: Addr)
    requires NoOverrides(mt) && HeapClosed(src) && a < |src|
    requires G.Underlying(env, t).Pointer? && CP.Memoised(env, c.types)
    ensures var r := Copy(env, mt, src, c, t, Ptr(t, Some(a)));
      && r.path == Traversal && a in r.st.visited && r.v == r.st.visited[a]
      && r.v.Ptr? && r.v.target.Some? && |src| <= r.v.target.value < |src| + |r.st.dst|
      && EP.Match(r.st.visited, src[a], r.st.dst[r.v.target.value - |src|])
  {
    var v := Ptr(t, Some(a));
    CopyIsDeep(env, mt, src, c, t, v);
    var r := Copy(env, mt, src, c, t, v);
    assert EP.CellFilled(src, 0, r.st, a);
  }

  /** The value-only shortcut is complete, defined types included: when T itself
      declares no usable DeepCopy method, Copy returns the source unchanged exactly
      when T is value-only, whatever methods the types inside T declare. The
      shortcut is sound only when no type declares one: then a full traversal would
      have returned that same value, allocating nothing. The ranking stands for
      Go's rule that a type cannot contain itself inline. */
  lemma ShortcutIsSound(env: G.TypeEnv, rank: DT.Ranks, mt: MethodTable, src: Heap, c: C.Caches, t: G.GoType, v: Val)
    requires Override(mt, src, v).None? && HeapClosed(src) && PointsInto(v, |src|)
    requires DT.Ranked(env, rank) && !G.IsInterfaceType(env, t) && !v.Iface? && TypeOf(v) == t && SP.Conforms(env, v, t)
    requires CP.Memoised(env, c.types)
    ensures Copy(env, mt, src, c, t, v).path == Shortcut <==> DT.ValueOnlyIn(env, rank, t)
    ensures DT.ValueOnlyIn(env, rank, t) ==> Copy(env, mt, src, c, t, v).v == v
    ensures DT.ValueOnlyIn(env, rank, t) && NoOverrides(mt) ==> CopyVal(mt, src, v, Start) == Out(v, Start)
  {
    CP.MemoIsTransparent(env, c.types, t);
    DT.AnalyzeValueOnly(env, rank, t);
    if DT.ValueOnlyIn(env, rank, t) {
      SP.ValueOnlyTypeIsPlain(env, rank, v, t);
      if NoOverrides(mt) {
        SP.PlainCopiesToItself(mt, src, v, Start);
      }
    }
  }

  /** The analysis a typed manager holds for T: an interface-typed T is taken as
      value-only without touching the memo; any other T gets what a fresh pass
      computes, so that it is value-only exactly when T is. The memo stays
      faithful either way. */
  lemma TypedAnalysisDecides(env: G.TypeEnv, rank: DT.Ranks, types: map<G.GoType, G.Analysis>, t: G.GoType)
    requires DT.Ranked(env, rank) && CP.Memoised(env, types)
    ensures var (a, types') := TypedAnalysis(env, types, t);
      && CP.Memoised(env, types')
      && (a.isOnlyValues <==> G.IsInterfaceType(env, t) || DT.ValueOnlyIn(env, rank, t))
      && (G.IsInterfaceType(env, t) ==> types' == types)
      && (!G.IsInterfaceType(env, t) ==> a == C.Analyze(env, t, map[]).result)
  {
    if !G.IsInterfaceType(env, t) {
      CP.MemoIsTransparent(env, types, t);
      DT.AnalyzeValueOnly(env, rank, t);
    }
  }

  /** CopyWithKey's traversal, which runs copyRecursiveWithCache with the call-site
      entry's analysis, delivers exactly what copyRecursive delivers. */
  lemma WithKeyTraversalIsCopyRecursive(env: G.TypeEnv, mt: MethodTable, src: Heap, c: C.Caches, t: G.GoType, key: string, v: Val)
    requires HeapClosed(src) && PointsInto(v, |src|)
    ensures var r := CopyWithKey(env, mt, src, c, t, key, v);
      r.path == Traversal ==>
        && r.v == AsT(env, t, CopyVal(mt, src, ValueOf(v).value, Start).v)
        && r.st == CopyVal(mt, src, ValueOf(v).value, Start).st
  {
    var (info, _) := C.GetOrCreateCopyInfo(env, c, key, C.RType(env, t));
    if ValueOf(v).Some? {
      CE.WithInfoIsCopyVal(mt, src, ValueOf(v).value, Start, info.analysis);
    }
  }

  /** The reuse hazard of the call-site cache: once a key has been used with a
      value-only T, a later call with that key returns its source unchanged even
      when its own type holds pointers. */
  lemma KeyReuseIsShallow(env: G.TypeEnv, mt: MethodTable, src: Heap, c: C.Caches, key: string,
                          t1: G.GoType, v1: Val, t2: G.GoType, v2: Val)
    requires HeapClosed(src) && PointsInto(v1, |src|) && PointsInto(v2, |src|)
    requires key !in c.business && CP.Memoised(env, c.types)
    requires !G.IsInterfaceType(env, t1) && C.Analyze(env, t1, map[]).result.isOnlyValues
    ensures var r1 := CopyWithKey(env, mt, src, c, t1, key, v1);
      && r1 == CopyResult(v1, Shortcut, Start, r1.caches)
      && CopyWithKey(env, mt, src, r1.caches, t2, key, v2) == CopyResult(v2, Shortcut, Start, r1.caches)
  {
    CP.MemoIsTransparent(env, c.types, t1);
  }

  /** AnalyzeValue on two values of the same dynamic type: the second call is
      answered from the memo with the first call's result, and the memo is left as
      the first call left it. */
  lemma AnalyzeValueIsStable(env: G.TypeEnv, types: map<G.GoType, G.Analysis>, v1: Val, v2: Val)
    requires ValueOf(v1).Some? && ValueOf(v2).Some? && TypeOf(ValueOf(v1).value) == TypeOf(ValueOf(v2).value)
    ensures var (a1, types1) := AnalyzeValue(env, types, v1);
      AnalyzeValue(env, types1, v2) == (a1, types1)
  {
    var (a1, types1) := AnalyzeValue(env, types, v1);
    assert types1[TypeOf(ValueOf(v1).value)] == a1;
  }

  // ---------------------------------------------------------------------------
  // Copy on an interface-typed T

  const IntT := G.Basic("int")
  const IntPtrT := G.Pointer(G.Basic("int"))

  /** Copy[any] of a pointer, as written: the typed manager of `any` has a nil rtype
      and so calls every `any` value-only, and the result is the source pointer
      itself, still referring to source cell 0. CopyValue on the same value
      allocates a fresh cell. */
  lemma InterfaceCopyIsShallow()
    ensures var r := Copy(map[], map[], [Scalar(IntT, 7)], C.Caches(map[], map[]), G.Interface, Iface(Some(Ptr(IntPtrT, Some(0)))));
      r.path == Shortcut && r.v == Iface(Some(Ptr(IntPtrT, Some(0))))
    ensures CopyValue(map[], map[], [Scalar(IntT, 7)], map[], Iface(Some(Ptr(IntPtrT, Some(0))))).v == Some(Ptr(IntPtrT, Some(1)))
  {
    assert C.Analyze(map[], IntPtrT, map[]) == C.AnalyzeShape(map[], IntPtrT, IntPtrT, map[IntPtrT := G.Blank]);
    assert !C.GetOrAnalyze(map[], map[], IntPtrT).0.isOnlyValues;
  }

  /** Copy[T] corrected, for an interface-typed T without overrides: a value whose
      dynamic type is not value-only is traversed, and the interface holds the copy
      of its dynamic value, built from fresh cells of its own. */
  lemma CorrectedInterfaceCopyIsDeep(env: G.TypeEnv, mt: MethodTable, src: Heap, c: C.Caches, t: G.GoType, x: Val)
    requires NoOverrides(mt) && HeapClosed(src) && PointsInto(x, |src|)
    requires G.IsInterfaceType(env, t) && !x.Iface? && CP.Memoised(env, c.types)
    requires !C.Analyze(env, TypeOf(x), map[]).result.isOnlyValues
    ensures var r := CopyCorrected(env, mt, src, c, t, Iface(Some(x)));
      && r.path == Traversal && r.v.Iface? && r.v.inner.Some?
      && EP.Match(r.st.visited, x, r.v.inner.value)
      && EP.Injective(r.st.visited)
      && forall a | a in r.st.visited :: EP.CellFilled(src, 0, r.st, a)
  {
    EP.NoOverride(mt, src, x);
    CP.MemoIsTransparent(env, c.types, TypeOf(x));
    EP.CopyIsIsomorphic(mt, src, x);
  }

  /** The corrected Copy[any] of a non-nil pointer of pointer type returns a pointer
      to a fresh cell above every source address. */
  lemma CorrectedInterfaceCopyOfPointer(env: G.TypeEnv, mt: MethodTable, src: Heap, c: C.Caches, t: G.GoType, ty: G.GoType, a: Addr)
    requires NoOverrides(mt) && HeapClosed(src) && a < |src|
    requires G.IsInterfaceType(env, t) && G.Underlying(env, ty).Pointer? && CP.Memoised(env, c.types)
    ensures CopyCorrected(env, mt, src, c, t, Iface(Some(Ptr(ty, Some(a))))).v == Iface(Some(Ptr(ty, Some(|src|))))
  {
    var x := Ptr(ty, Some(a));
    EP.NoOverride(mt, src, x);
    EP.NoOverride(mt, src, src[a]);
    CP.MemoIsTransparent(env, c.types, ty);
  }
}
