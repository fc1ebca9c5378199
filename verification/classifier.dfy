/** The type classifier of deepcopy.go (analyzeTypeRecursive), the per-manager memo
    in front of it (getOrAnalyzeType) and the call-site cache keyed by caller-chosen
    strings (getOrCreateBusinessCopyInfo / initializeCopyInfo).

    Go shares one mutable result object between the per-pass `visited` map and the
    caller. Here `visited` holds an immutable snapshot that is rewritten at exactly
    the points where the Go code mutates the shared object, so any lookup of an
    entry sees the same flags as the Go code reads at that moment. */
module Classifier {
  import opened Wrappers
  import opened GoTypes

  /** The per-pass `visited` map, keyed by type identity. */
  type Visited = map<GoType, Analysis>

  /** What one step of the analysis returns: its result and the visited map after it. */
  datatype Step = Step(result: Analysis, visited: Visited)

  /** Defined types whose named reference has not yet entered `visited`: the first
      component of the termination measure. */
  function Unentered(env: TypeEnv, vis: Visited): set<TypeId>
  {
    set id | id in env && Named(id) !in vis
  }

  /** visited only grows, and entries are only added for types that were looked at. */
  predicate Grows(vis: Visited, vis': Visited) {
    vis.Keys <= vis'.Keys
  }

  /** Folds one exported field's result into the struct's result, as the body of the
      field loop does: record it under the field name, AND the value-only bit and OR
      the six flags. */
  function AddField(acc: Analysis, name: string, fr: Analysis): (r: Analysis)
    ensures r.fieldAnalysis.Some? && r.fieldAnalysis.value == acc.fieldAnalysis.GetOr(map[])[name := fr]
  {
    Analysis(
      acc.isOnlyValues && fr.isOnlyValues,
      acc.containsPtr || fr.containsPtr,
      acc.containsSlice || fr.containsSlice,
      acc.containsMap || fr.containsMap,
      acc.containsChan || fr.containsChan,
      acc.containsFunc || fr.containsFunc,
      acc.containsIface || fr.containsIface,
      Some(acc.fieldAnalysis.GetOr(map[])[name := fr]))
  }

  /** The struct case's result before its fields: value-only unless some field is
      unexported, no flags, and an empty field map. */
  function StructStart(fs: seq<FieldType>): Analysis {
    Analysis(!HasUnexported(fs), false, false, false, false, false, false, Some(map[]))
  }

  /** An array takes its element's result, without a field map. */
  function ArrayResult(c: Analysis): Analysis {
    c.(fieldAnalysis := None)
  }

  /** A pointer sets its own flag and takes the referent's five other flags. */
  function PointerResult(c: Analysis): Analysis {
    Blank.(containsPtr := true, containsSlice := c.containsSlice, containsMap := c.containsMap,
           containsChan := c.containsChan, containsFunc := c.containsFunc, containsIface := c.containsIface)
  }

  /** A slice sets its own flag and takes the element's five other flags. */
  function SliceResult(c: Analysis): Analysis {
    Blank.(containsSlice := true, containsPtr := c.containsPtr, containsMap := c.containsMap,
           containsChan := c.containsChan, containsFunc := c.containsFunc, containsIface := c.containsIface)
  }

  /** A map sets its own flag and ORs the key's and the element's five other flags. */
  function MapResult(k: Analysis, e: Analysis): Analysis {
    Blank.(containsMap := true,
           containsPtr := k.containsPtr || e.containsPtr,
           containsSlice := k.containsSlice || e.containsSlice,
           containsChan := k.containsChan || e.containsChan,
           containsFunc := k.containsFunc || e.containsFunc,
           containsIface := k.containsIface || e.containsIface)
  }

  /** analyzeTypeRecursive: a type already in `visited` yields the stored entry and
      nothing changes; otherwise a blank entry is registered for it before anything
      below it is analysed, and at the end the entry holds the returned result. */
  function Analyze(env: TypeEnv, t: GoType, vis: Visited): (s: Step)
    ensures Grows(vis, s.visited)
    ensures t in s.visited && s.visited[t] == s.result
    ensures t in vis ==> s == Step(vis[t], vis)
    ensures t !in vis && Underlying(env, t).Basic? ==> s.result == ValueOnly
    ensures t !in vis && (Underlying(env, t).Pointer? || Underlying(env, t).Slice? || Underlying(env, t).Map?
                          || Underlying(env, t).Chan? || Underlying(env, t).Func? || Underlying(env, t).Interface?
                          || Underlying(env, t).UnsafePointer? || Underlying(env, t).Invalid?)
            ==> !s.result.isOnlyValues
    decreases Unentered(env, vis), Size(t), 1
  {
    if t in vis then Step(vis[t], vis)
    else
      var vis1 := vis[t := Blank];
      assert Unentered(env, vis1) <= Unentered(env, vis);
      assert t.Named? && t.id in env ==> t.id !in Unentered(env, vis1) && t.id in Unentered(env, vis);
      AnalyzeShape(env, t, Underlying(env, t), vis1)
  }

  /** The body of the kind switch for the entry `key`, whose shape is `shape`. */
  function AnalyzeShape(env: TypeEnv, key: GoType, shape: GoType, vis: Visited): (s: Step)
    requires !shape.Named?
    ensures Grows(vis, s.visited)
    ensures key in s.visited && s.visited[key] == s.result
    ensures shape.Basic? ==> s.result == ValueOnly
    ensures shape.Pointer? ==> !s.result.isOnlyValues && s.result.containsPtr && s.result.fieldAnalysis.None?
    ensures shape.Slice? ==> !s.result.isOnlyValues && s.result.containsSlice && s.result.fieldAnalysis.None?
    ensures shape.Map? ==> !s.result.isOnlyValues && s.result.containsMap && s.result.fieldAnalysis.None?
    ensures shape.Chan? ==> s.result == Blank.(containsChan := true)
    ensures shape.Func? ==> s.result == Blank.(containsFunc := true)
    ensures shape.Interface? ==> s.result == Blank.(containsIface := true)
    ensures shape.UnsafePointer? || shape.Invalid? ==> s.result == Blank
    ensures shape.Array? ==> s.result.fieldAnalysis.None?
    ensures shape.Struct? ==>
      && s.result.fieldAnalysis.Some?
      && s.result.fieldAnalysis.value.Keys == ExportedNames(shape.fields)
      && (HasUnexported(shape.fields) ==> !s.result.isOnlyValues)
      && (s.result.isOnlyValues ==> forall n | n in s.result.fieldAnalysis.value :: s.result.fieldAnalysis.value[n].isOnlyValues)
    decreases Unentered(env, vis), Size(shape), 0
  {
    match shape
    case Basic(_) => Step(ValueOnly, vis[key := ValueOnly])
    case Array(_, e) =>
      var c := Analyze(env, e, vis);
      var r := ArrayResult(c.result);
      Step(r, c.visited[key := r])
    case Struct(fs) =>
      var init := StructStart(fs);
      assert ExportedNames(fs[..0]) == {};
      assert fs[0..] == fs;
      AnalyzeFields(env, key, fs, 0, init, vis[key := init])
    case Pointer(e) =>
      var init := Blank.(containsPtr := true);
      var c := Analyze(env, e, vis[key := init]);
      var r := PointerResult(c.result);
      Step(r, c.visited[key := r])
    case Slice(e) =>
      var init := Blank.(containsSlice := true);
      var c := Analyze(env, e, vis[key := init]);
      var r := SliceResult(c.result);
      Step(r, c.visited[key := r])
    case Map(k, e) =>
      var init := Blank.(containsMap := true);
      var ck := Analyze(env, k, vis[key := init]);
      var ce := Analyze(env, e, ck.visited);
      var r := MapResult(ck.result, ce.result);
      Step(r, ce.visited[key := r])
    case Chan(_) =>
      var r := Blank.(containsChan := true);
      Step(r, vis[key := r])
    case Func =>
      var r := Blank.(containsFunc := true);
      Step(r, vis[key := r])
    case Interface =>
      var r := Blank.(containsIface := true);
      Step(r, vis[key := r])
    case UnsafePointer => Step(Blank, vis[key := Blank])
    case Invalid => Step(Blank, vis[key := Blank])
  }

  /** The field loop of the struct case, from field `i` on. `acc` is the struct's
      result so far, which `visited` holds under `key` between fields. */
  function AnalyzeFields(env: TypeEnv, key: GoType, fs: seq<FieldType>, i: nat, acc: Analysis, vis: Visited): (s: Step)
    requires i <= |fs|
    requires key in vis && vis[key] == acc
    requires acc.fieldAnalysis.Some? && acc.fieldAnalysis.value.Keys == ExportedNames(fs[..i])
    requires acc.isOnlyValues ==> !HasUnexported(fs) && forall n | n in acc.fieldAnalysis.value :: acc.fieldAnalysis.value[n].isOnlyValues
    ensures Grows(vis, s.visited)
    ensures key in s.visited && s.visited[key] == s.result
    ensures s.result.fieldAnalysis.Some? && s.result.fieldAnalysis.value.Keys == ExportedNames(fs)
    ensures s.result.isOnlyValues ==> !HasUnexported(fs) && forall n | n in s.result.fieldAnalysis.value :: s.result.fieldAnalysis.value[n].isOnlyValues
    decreases Unentered(env, vis), FieldsSize(fs[i..]), 0
  {
    if i == |fs| then
      assert fs[..i] == fs;
      Step(acc, vis)
    else
      assert fs[i..][1..] == fs[i + 1..];
      assert ExportedNames(fs[..i + 1]) == ExportedNames(fs[..i]) + (if fs[i].exported then {fs[i].name} else {}) by {
        assert fs[..i + 1] == fs[..i] + [fs[i]];
      }
      if !fs[i].exported then
        AnalyzeFields(env, key, fs, i + 1, acc, vis)
      else
        var c := Analyze(env, fs[i].ty, vis);
        var acc' := AddField(acc, fs[i].name, c.result);
        AnalyzeFields(env, key, fs, i + 1, acc', c.visited[key := acc'])
  }

  /** DeepCopyManager.getOrAnalyzeType: a memo from type to result, in front of a
      fresh analysis pass with an empty visited map. */
  function GetOrAnalyze(env: TypeEnv, cache: map<GoType, Analysis>, t: GoType): (r: (Analysis, map<GoType, Analysis>))
    ensures t in cache ==> r == (cache[t], cache)
    ensures t !in cache ==> r.1 == cache[t := r.0]
    ensures t in r.1 && r.1[t] == r.0
  {
    if t in cache then (cache[t], cache)
    else
      var a := Analyze(env, t, map[]).result;
      (a, cache[t := a])
  }

  /** `reflect.TypeOf` of the zero value of static type `t`: nil exactly for
      interface types. */
  function RType(env: TypeEnv, t: GoType): (r: Option<GoType>)
    ensures r.None? <==> IsInterfaceType(env, t)
    ensures r.Some? ==> r.value == t
  {
    if IsInterfaceType(env, t) then None else Some(t)
  }

  /** BusinessCopyInfo: the value-only bit, the analysis (absent for a nil type) and
      the type the entry was created for. */
  datatype CopyInfo = CopyInfo(isOnlyValues: bool, analysis: Option<Analysis>, rtype: Option<GoType>)

  /** The two process-wide caches the façade reads and writes: the default
      manager's type memo and the call-site cache. */
  datatype Caches = Caches(types: map<GoType, Analysis>, business: map<string, CopyInfo>)

  /** initializeCopyInfo: a nil type is value-only without analysis; otherwise the
      entry takes the value-only bit of the memoised analysis of its type. */
  function InitializeCopyInfo(env: TypeEnv, types: map<GoType, Analysis>, rtype: Option<GoType>): (r: (CopyInfo, map<GoType, Analysis>))
    ensures r.0.rtype == rtype
    ensures rtype.None? ==> r.0 == CopyInfo(true, None, None) && r.1 == types
    ensures rtype.Some? ==> r.0.analysis.Some? && r.0.isOnlyValues == r.0.analysis.value.isOnlyValues
                            && rtype.value in r.1 && r.1[rtype.value] == r.0.analysis.value
  {
    match rtype
    case None => (CopyInfo(true, None, None), types)
    case Some(t) =>
      var (a, types') := GetOrAnalyze(env, types, t);
      (CopyInfo(a.isOnlyValues, Some(a), rtype), types')
  }

  /** getOrCreateBusinessCopyInfo: the first call for a key creates and stores its
      entry; every later call for that key returns that entry unchanged. */
  function GetOrCreateCopyInfo(env: TypeEnv, c: Caches, key: string, rtype: Option<GoType>): (r: (CopyInfo, Caches))
    ensures key in c.business ==> r == (c.business[key], c)
    ensures key !in c.business ==> r.1.business == c.business[key := r.0] && r.0.rtype == rtype
    ensures key !in c.business && rtype.None? ==> r.0.isOnlyValues && r.0.analysis.None? && r.1.types == c.types
    ensures key !in c.business && rtype.Some? ==>
      r.0.analysis.Some? && r.0.isOnlyValues == r.0.analysis.value.isOnlyValues
      && rtype.value in r.1.types && r.1.types[rtype.value] == r.0.analysis.value
  {
    if key in c.business then (c.business[key], c)
    else
      var (info, types') := InitializeCopyInfo(env, c.types, rtype);
      (info, Caches(types', c.business[key := info]))
  }
}
