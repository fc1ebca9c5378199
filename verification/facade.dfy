/** The public entry points of deepcopy.go: Copy, CopyWithKey, the manager's
    CopyValue and AnalyzeValue, and AnalyzeType. Each chooses among four outcomes
    (the zero value, the DeepCopy override, the source returned unchanged because
    its type is value-only, and a full traversal) and each checks them in its own
    order.

    The process-wide state is the default manager's type memo and the call-site
    cache; a call receives it and returns it updated. A value of static type T is
    passed as it is held: an interface-typed T holds an `Iface` value. */
module Facade {
  import opened Wrappers
  import G = GoTypes
  import C = Classifier
  import opened Values
  import opened Engine
  import CE = CachedEngine

  /** `reflect.ValueOf`: an interface is seen through to its dynamic value; None is
      the invalid Value of a nil interface. */
  function ValueOf(v: Val): (r: Option<Val>)
    ensures r.None? <==> v == Iface(None)
    ensures !v.Iface? ==> r == Some(v)
  {
    if v.Iface? then v.inner else Some(v)
  }

  /** `x.(T)` on a value known to have type T: an interface-typed T holds x. */
  function AsT(env: G.TypeEnv, t: G.GoType, x: Val): Val
  {
    if G.IsInterfaceType(env, t) then Iface(Some(x)) else x
  }

  /** Which of the four outcomes a call took. */
  datatype Path = ZeroReturn | OverrideResult | Shortcut | Traversal

  /** The result of CopyValue: None is the nil interface{}. `st` is the traversal's
      final state (its allocated cells and visited table), Start on other paths. */
  datatype ValueResult = ValueResult(v: Option<Val>, path: Path, st: CopyState, types: map<G.GoType, G.Analysis>)

  /** The result of Copy and CopyWithKey. */
  datatype CopyResult = CopyResult(v: Val, path: Path, st: CopyState, caches: C.Caches)

  /** DeepCopyManager.CopyValue: nil for an invalid value; then the analysis of the
      dynamic type, and the source itself when that is value-only; only then the
      override; otherwise a traversal from an empty visited table. */
  function CopyValue(env: G.TypeEnv, mt: MethodTable, src: Heap, types: map<G.GoType, G.Analysis>, v: Val): (r: ValueResult)
    requires HeapClosed(src) && PointsInto(v, |src|)
    ensures ValueOf(v).None? <==> r.v.None?
    ensures ValueOf(v).None? ==> r.path == ZeroReturn && r.types == types
    ensures ValueOf(v).Some? ==> r.types == C.GetOrAnalyze(env, types, TypeOf(ValueOf(v).value)).1
    // the value-only check comes before the override
    ensures r.path == Shortcut <==>
      ValueOf(v).Some? && C.GetOrAnalyze(env, types, TypeOf(ValueOf(v).value)).0.isOnlyValues
    ensures r.path == Shortcut ==> r.v == ValueOf(v) && r.st == Start
    ensures r.path == OverrideResult <==>
      ValueOf(v).Some? && !C.GetOrAnalyze(env, types, TypeOf(ValueOf(v).value)).0.isOnlyValues
      && Override(mt, src, ValueOf(v).value).Some?
    ensures r.path == OverrideResult ==> r.v == Override(mt, src, ValueOf(v).value)
    ensures r.path == Traversal ==>
      r.st == CopyVal(mt, src, ValueOf(v).value, Start).st && r.v == Some(CopyVal(mt, src, ValueOf(v).value, Start).v)
  {
    match ValueOf(v)
    case None => ValueResult(None, ZeroReturn, Start, types)
    case Some(x) =>
      assert PointsInto(x, |src|);
      var (a, types') := C.GetOrAnalyze(env, types, TypeOf(x));
      if a.isOnlyValues then ValueResult(Some(x), Shortcut, Start, types')
      else
        match Override(mt, src, x)
        case Some(res) => ValueResult(Some(res), OverrideResult, Start, types')
        case None =>
          var c := CopyVal(mt, src, x, Start);
          ValueResult(Some(c.v), Traversal, c.st, types')
  }

  /** The analysis a typed manager holds for T: a nil rtype (an interface-typed T)
      is value-only, anything else comes from the default manager's memo. */
  function TypedAnalysis(env: G.TypeEnv, types: map<G.GoType, G.Analysis>, t: G.GoType): (r: (G.Analysis, map<G.GoType, G.Analysis>))
    ensures G.IsInterfaceType(env, t) ==> r == (G.ValueOnly, types)
    ensures !G.IsInterfaceType(env, t) ==> r == C.GetOrAnalyze(env, types, t)
  {
    match C.RType(env, t)
    case None => (G.ValueOnly, types)
    case Some(rt) => C.GetOrAnalyze(env, types, rt)
  }

  /** Copy[T], as written: the zero value for an invalid input; then the override,
      before any classification; then T's analysis, returning the source itself when
      value-only; otherwise CopyValue. */
  function Copy(env: G.TypeEnv, mt: MethodTable, src: Heap, c: C.Caches, t: G.GoType, v: Val): (r: CopyResult)
    requires HeapClosed(src) && PointsInto(v, |src|)
    ensures ValueOf(v).None? ==> r == CopyResult(v, ZeroReturn, Start, c)
    // the override fires first and leaves both caches as they were
    ensures ValueOf(v).Some? && Override(mt, src, ValueOf(v).value).Some? ==>
      r == CopyResult(AsT(env, t, Override(mt, src, ValueOf(v).value).value), OverrideResult, Start, c)
    ensures ValueOf(v).Some? && Override(mt, src, ValueOf(v).value).None? ==>
      r.caches.business == c.business && r.path != OverrideResult
    // an interface-typed T is never copied: the typed manager of a nil rtype is value-only
    ensures ValueOf(v).Some? && Override(mt, src, ValueOf(v).value).None? && G.IsInterfaceType(env, t) ==>
      r == CopyResult(v, Shortcut, Start, c)
    // a concrete T: the shortcut is taken exactly when T's memoised analysis is
    // value-only, and otherwise the value is traversed
    ensures ValueOf(v).Some? && Override(mt, src, ValueOf(v).value).None? && !G.IsInterfaceType(env, t)
            && TypeOf(ValueOf(v).value) == t ==>
      && (r.path == Shortcut <==> C.GetOrAnalyze(env, c.types, t).0.isOnlyValues)
      && (r.path != Shortcut ==> r.path == Traversal)
      && r.caches.types == C.GetOrAnalyze(env, c.types, t).1
    // the source itself comes back when it is held as T holds it
    ensures r.path == Shortcut ==> r.st == Start && ((v.Iface? <==> G.IsInterfaceType(env, t)) ==> r.v == v)
    ensures r.path == Traversal ==> r.v == AsT(env, t, CopyVal(mt, src, ValueOf(v).value, Start).v)
  {
    match ValueOf(v)
    case None => CopyResult(v, ZeroReturn, Start, c)
    case Some(x) =>
      match Override(mt, src, x)
      case Some(res) => CopyResult(AsT(env, t, res), OverrideResult, Start, c)
      case None =>
        var (a, types') := TypedAnalysis(env, c.types, t);
        if a.isOnlyValues then CopyResult(v, Shortcut, Start, c.(types := types'))
        else
          var cv := CopyValue(env, mt, src, types', v);
          CopyResult(AsT(env, t, cv.v.value), cv.path, cv.st, c.(types := cv.types))
  }

  /** Copy[T] corrected: an interface-typed T has no static analysis to consult, so
      the shortcut is decided by the dynamic type's analysis, as CopyValue does. */
  function CopyCorrected(env: G.TypeEnv, mt: MethodTable, src: Heap, c: C.Caches, t: G.GoType, v: Val): (r: CopyResult)
    requires HeapClosed(src) && PointsInto(v, |src|)
    ensures !G.IsInterfaceType(env, t) ==> r == Copy(env, mt, src, c, t, v)
    ensures G.IsInterfaceType(env, t) && ValueOf(v).Some? && Override(mt, src, ValueOf(v).value).None? ==>
      var cv := CopyValue(env, mt, src, c.types, v);
      r == CopyResult(Iface(cv.v), cv.path, cv.st, c.(types := cv.types))
  {
    if !G.IsInterfaceType(env, t) then Copy(env, mt, src, c, t, v)
    else
      match ValueOf(v)
      case None => CopyResult(v, ZeroReturn, Start, c)
      case Some(x) =>
        match Override(mt, src, x)
        case Some(res) => CopyResult(AsT(env, t, res), OverrideResult, Start, c)
        case None =>
          var cv := CopyValue(env, mt, src, c.types, v);
          CopyResult(AsT(env, t, cv.v.value), cv.path, cv.st, c.(types := cv.types))
  }

  /** CopyWithKey[T]: the call-site entry first, returning the source itself when
      it is value-only (before even looking at the value); then the zero value for
      an invalid input; then the override; otherwise copyRecursiveWithCache with
      the entry's analysis. */
  function CopyWithKey(env: G.TypeEnv, mt: MethodTable, src: Heap, c: C.Caches, t: G.GoType, key: string, v: Val): (r: CopyResult)
    requires HeapClosed(src) && PointsInto(v, |src|)
    ensures r.caches == C.GetOrCreateCopyInfo(env, c, key, C.RType(env, t)).1
    // a key already bound to a value-only entry returns the source, whatever T is now
    ensures key in c.business && c.business[key].isOnlyValues ==> r == CopyResult(v, Shortcut, Start, c)
    ensures r.path == Shortcut <==> C.GetOrCreateCopyInfo(env, c, key, C.RType(env, t)).0.isOnlyValues
    ensures r.path == Shortcut ==> r.v == v
    ensures r.path == ZeroReturn ==> ValueOf(v).None? && r.v == Iface(None)
    ensures r.path == OverrideResult ==>
      ValueOf(v).Some? && Override(mt, src, ValueOf(v).value).Some?
      && r.v == AsT(env, t, Override(mt, src, ValueOf(v).value).value)
    ensures r.path == Traversal ==> ValueOf(v).Some? && Override(mt, src, ValueOf(v).value).None?
  {
    var (info, c') := C.GetOrCreateCopyInfo(env, c, key, C.RType(env, t));
    if info.isOnlyValues then CopyResult(v, Shortcut, Start, c')
    else
      match ValueOf(v)
      case None => CopyResult(Iface(None), ZeroReturn, Start, c')
      case Some(x) =>
        match Override(mt, src, x)
        case Some(res) => CopyResult(AsT(env, t, res), OverrideResult, Start, c')
        case None =>
          var out := CE.CopyValWithInfo(mt, src, x, Start, info.analysis);
          CopyResult(AsT(env, t, out.v), Traversal, out.st, c')
  }

  /** DeepCopyManager.AnalyzeValue (and AnalyzeType, which calls it on the default
      manager): a nil interface gets the synthetic value-only result and leaves the
      memo alone; anything else is analysed by its dynamic type through the memo. */
  function AnalyzeValue(env: G.TypeEnv, types: map<G.GoType, G.Analysis>, v: Val): (r: (G.Analysis, map<G.GoType, G.Analysis>))
    ensures ValueOf(v).None? ==> r == (G.ValueOnly, types)
    ensures ValueOf(v).Some? ==> var t := TypeOf(ValueOf(v).value);
      t in r.1 && r.1[t] == r.0 && (t in types ==> r == (types[t], types))
  {
    match ValueOf(v)
    case None => (G.ValueOnly, types)
    case Some(x) => C.GetOrAnalyze(env, types, TypeOf(x))
  }
}
