/** What the classifier computes, stated independently of its visited map.

    For a type written without named references (so not self-referential) the
    analysis is the plain structural recursion `Classify`: the visited map only
    short-circuits work and never changes an answer. `Classify` is then
    characterised declaratively: value-only exactly for scalars, arrays of
    value-only elements and structs whose fields are all exported and value-only,
    and each flag set exactly when its kind is reachable through the kinds the
    classifier descends into. */
module ClassifierProofs {
  import opened Wrappers
  import opened GoTypes
  import opened Classifier

  /** No named reference where the classifier looks: the type is its own
      underlying shape all the way down. A channel's element is never analysed. */
  predicate Closed(t: GoType)
    decreases t
  {
    match t
    case Named(_) => false
    case Array(_, e) => Closed(e)
    case Struct(fs) => forall i | 0 <= i < |fs| :: Closed(fs[i].ty)
    case Pointer(e) => Closed(e)
    case Slice(e) => Closed(e)
    case Map(k, e) => Closed(k) && Closed(e)
    case _ => true
  }

  /** The analysis without a visited map. */
  function Classify(t: GoType): Analysis
    decreases Size(t), 1
  {
    match t
    case Basic(_) => ValueOnly
    case Array(_, e) => ArrayResult(Classify(e))
    case Struct(fs) =>
      assert fs[0..] == fs;
      ClassifyFields(fs, 0, StructStart(fs))
    case Pointer(e) => PointerResult(Classify(e))
    case Slice(e) => SliceResult(Classify(e))
    case Map(k, e) => MapResult(Classify(k), Classify(e))
    case Chan(_) => Blank.(containsChan := true)
    case Func => Blank.(containsFunc := true)
    case Interface => Blank.(containsIface := true)
    case _ => Blank
  }

  /** The struct field loop without a visited map, from field `i` on. */
  function ClassifyFields(fs: seq<FieldType>, i: nat, acc: Analysis): Analysis
    requires i <= |fs|
    decreases FieldsSize(fs[i..]), 0
  {
    if i == |fs| then acc
    else
      assert fs[i..][1..] == fs[i + 1..];
      if !fs[i].exported then ClassifyFields(fs, i + 1, acc)
      else ClassifyFields(fs, i + 1, AddField(acc, fs[i].name, Classify(fs[i].ty)))
  }

  // ---------------------------------------------------------------------------
  // The visited map is transparent on closed types

  /** Every entry of `vis` for a type smaller than `n` holds that type's final
      result. Entries of types still being analysed are all larger. */
  predicate SettledBelow(vis: Visited, n: nat) {
    forall k | k in vis && Size(k) < n :: vis[k] == Classify(k)
  }

  /** Entry `k` of the later map is either the earlier map's entry, untouched, or
      a new entry holding its final result. */
  predicate Kept(vis: Visited, vis': Visited, k: GoType)
    requires k in vis'
  {
    if k in vis then vis'[k] == vis[k] else vis'[k] == Classify(k)
  }

  /** A completed analysis step only adds final entries. */
  predicate ExtendsAll(vis: Visited, vis': Visited) {
    vis.Keys <= vis'.Keys && forall k | k in vis' :: Kept(vis, vis', k)
  }

  /** The same, except for the entry of the type whose analysis is in progress. */
  predicate ExtendsBut(vis: Visited, vis': Visited, key: GoType) {
    vis.Keys <= vis'.Keys && forall k | k in vis' && k != key :: Kept(vis, vis', k)
  }

  lemma ExtendsAllChain(a: Visited, b: Visited, c: Visited)
    requires ExtendsAll(a, b) && ExtendsAll(b, c)
    ensures ExtendsAll(a, c)
  {
    forall k | k in c ensures Kept(a, c, k) {
      assert Kept(b, c, k);
      if k in b { assert Kept(a, b, k); }
    }
  }

  lemma SettledAfter(a: Visited, b: Visited, n: nat)
    requires SettledBelow(a, n) && ExtendsAll(a, b)
    ensures SettledBelow(b, n)
  {
    forall k | k in b && Size(k) < n ensures b[k] == Classify(k) {
      assert Kept(a, b, k);
    }
  }

  /** A child's completed step, then the parent's entry rewritten. */
  lemma ChildThenKey(vis: Visited, x: Analysis, vis': Visited, key: GoType, r: Analysis)
    requires ExtendsAll(vis[key := x], vis')
    ensures ExtendsBut(vis, vis'[key := r], key)
  {
    var m := vis'[key := r];
    forall k | k in m && k != key ensures Kept(vis, m, k) {
      assert Kept(vis[key := x], vis', k);
    }
  }

  /** A child's completed step, then the rest of the field loop. */
  lemma FieldThenRest(vis: Visited, vis1: Visited, key: GoType, acc: Analysis, vis2: Visited)
    requires ExtendsAll(vis, vis1) && ExtendsBut(vis1[key := acc], vis2, key)
    ensures ExtendsBut(vis, vis2, key)
  {
    forall k | k in vis2 && k != key ensures Kept(vis, vis2, k) {
      assert Kept(vis1[key := acc], vis2, k);
      if k in vis1 { assert Kept(vis, vis1, k); }
    }
  }

  lemma {:induction false} FieldTypeSmaller(fs: seq<FieldType>, j: nat)
    requires j < |fs|
    ensures Size(fs[j].ty) < FieldsSize(fs)
    decreases j
  {
    if j > 0 {
      FieldTypeSmaller(fs[1..], j - 1);
      assert fs[1..][j - 1] == fs[j];
    }
  }

  /** On a closed type, analyzeTypeRecursive returns the memo-free result, and
      whatever it adds to the visited map is final. */
  lemma {:induction false} AnalyzeIsClassify(env: TypeEnv, t: GoType, vis: Visited)
    requires Closed(t) && SettledBelow(vis, Size(t) + 1)
    ensures var s := Analyze(env, t, vis); s.result == Classify(t) && ExtendsAll(vis, s.visited)
    decreases Unentered(env, vis), Size(t), 2
  {
    if t !in vis {
      var vis1 := vis[t := Blank];
      assert Unentered(env, vis1) <= Unentered(env, vis);
      assert Underlying(env, t) == t;
      ShapeIsClassify(env, t, vis1);
      var s := AnalyzeShape(env, t, t, vis1);
      assert Analyze(env, t, vis) == s;
      forall k | k in s.visited ensures Kept(vis, s.visited, k) {
        if k != t { assert Kept(vis1, s.visited, k); }
      }
    }
  }

  lemma {:induction false} ShapeIsClassify(env: TypeEnv, key: GoType, vis: Visited)
    requires Closed(key) && key in vis && SettledBelow(vis, Size(key))
    ensures !key.Named?
    ensures var s := AnalyzeShape(env, key, key, vis); s.result == Classify(key) && ExtendsBut(vis, s.visited, key)
    decreases Unentered(env, vis), Size(key), 1
  {
    match key
    case Array(_, e) =>
      AnalyzeIsClassify(env, e, vis);
      var c := Analyze(env, e, vis);
      assert vis[key := vis[key]] == vis;
      ChildThenKey(vis, vis[key], c.visited, key, ArrayResult(c.result));
    case Struct(fs) => StructIsClassify(env, key, vis);
    case Pointer(e) =>
      var init := Blank.(containsPtr := true);
      AnalyzeIsClassify(env, e, vis[key := init]);
      var c := Analyze(env, e, vis[key := init]);
      ChildThenKey(vis, init, c.visited, key, PointerResult(c.result));
    case Slice(e) =>
      var init := Blank.(containsSlice := true);
      AnalyzeIsClassify(env, e, vis[key := init]);
      var c := Analyze(env, e, vis[key := init]);
      ChildThenKey(vis, init, c.visited, key, SliceResult(c.result));
    case Map(_, _) => MapIsClassify(env, key, vis);
    case _ =>
  }

  lemma {:induction false} StructIsClassify(env: TypeEnv, key: GoType, vis: Visited)
    requires key.Struct? && Closed(key) && key in vis && SettledBelow(vis, Size(key))
    ensures var s := AnalyzeShape(env, key, key, vis); s.result == Classify(key) && ExtendsBut(vis, s.visited, key)
    decreases Unentered(env, vis), Size(key), 0
  {
    var fs := key.fields;
    var init := StructStart(fs);
    forall j | 0 <= j < |fs| ensures Size(fs[j].ty) < Size(key) {
      FieldTypeSmaller(fs, j);
    }
    assert ExportedNames(fs[..0]) == {};
    assert fs[0..] == fs;
    FieldsIsClassify(env, key, fs, 0, init, vis[key := init]);
    var s := AnalyzeFields(env, key, fs, 0, init, vis[key := init]);
    forall k | k in s.visited && k != key ensures Kept(vis, s.visited, k) {
      assert Kept(vis[key := init], s.visited, k);
    }
  }

  lemma {:induction false} MapIsClassify(env: TypeEnv, key: GoType, vis: Visited)
    requires key.Map? && Closed(key) && key in vis && SettledBelow(vis, Size(key))
    ensures var s := AnalyzeShape(env, key, key, vis); s.result == Classify(key) && ExtendsBut(vis, s.visited, key)
    decreases Unentered(env, vis), Size(key), 0
  {
    var k, e := key.key, key.elem;
    var init := Blank.(containsMap := true);
    AnalyzeIsClassify(env, k, vis[key := init]);
    var ck := Analyze(env, k, vis[key := init]);
    SettledAfter(vis[key := init], ck.visited, Size(e) + 1);
    AnalyzeIsClassify(env, e, ck.visited);
    var ce := Analyze(env, e, ck.visited);
    ExtendsAllChain(vis[key := init], ck.visited, ce.visited);
    ChildThenKey(vis, init, ce.visited, key, MapResult(ck.result, ce.result));
  }

  lemma {:induction false} FieldsIsClassify(env: TypeEnv, key: GoType, fs: seq<FieldType>, i: nat, acc: Analysis, vis: Visited)
    requires i <= |fs|
    requires key in vis && vis[key] == acc
    requires acc.fieldAnalysis.Some? && acc.fieldAnalysis.value.Keys == ExportedNames(fs[..i])
    requires acc.isOnlyValues ==> !HasUnexported(fs) && forall n | n in acc.fieldAnalysis.value :: acc.fieldAnalysis.value[n].isOnlyValues
    requires forall j | 0 <= j < |fs| :: Closed(fs[j].ty) && Size(fs[j].ty) < Size(key)
    requires SettledBelow(vis, Size(key))
    ensures var s := AnalyzeFields(env, key, fs, i, acc, vis);
      s.result == ClassifyFields(fs, i, acc) && ExtendsBut(vis, s.visited, key)
    decreases Unentered(env, vis), FieldsSize(fs[i..]), 1
  {
    if i < |fs| {
      assert ExportedNames(fs[..i + 1]) == ExportedNames(fs[..i]) + (if fs[i].exported then {fs[i].name} else {}) by {
        assert fs[..i + 1] == fs[..i] + [fs[i]];
      }
      if !fs[i].exported {
        assert fs[i..][1..] == fs[i + 1..];
        FieldsIsClassify(env, key, fs, i + 1, acc, vis);
      } else {
        ExportedFieldIsClassify(env, key, fs, i, acc, vis);
      }
    }
  }

  /** One exported field: its analysis is final, then the loop goes on. */
  lemma {:induction false} ExportedFieldIsClassify(env: TypeEnv, key: GoType, fs: seq<FieldType>, i: nat, acc: Analysis, vis: Visited)
    requires i < |fs| && fs[i].exported
    requires key in vis && vis[key] == acc
    requires acc.fieldAnalysis.Some? && acc.fieldAnalysis.value.Keys == ExportedNames(fs[..i])
    requires ExportedNames(fs[..i + 1]) == ExportedNames(fs[..i]) + {fs[i].name}
    requires acc.isOnlyValues ==> !HasUnexported(fs) && forall n | n in acc.fieldAnalysis.value :: acc.fieldAnalysis.value[n].isOnlyValues
    requires forall j | 0 <= j < |fs| :: Closed(fs[j].ty) && Size(fs[j].ty) < Size(key)
    requires SettledBelow(vis, Size(key))
    ensures var s := AnalyzeFields(env, key, fs, i, acc, vis);
      s.result == ClassifyFields(fs, i, acc) && ExtendsBut(vis, s.visited, key)
    decreases Unentered(env, vis), FieldsSize(fs[i..]), 0
  {
    assert fs[i..][1..] == fs[i + 1..];
    AnalyzeIsClassify(env, fs[i].ty, vis);
    var c := Analyze(env, fs[i].ty, vis);
    var acc' := AddField(acc, fs[i].name, c.result);
    SettledAfter(vis, c.visited, Size(key));
    FieldsIsClassify(env, key, fs, i + 1, acc', c.visited[key := acc']);
    var s := AnalyzeFields(env, key, fs, i + 1, acc', c.visited[key := acc']);
    assert AnalyzeFields(env, key, fs, i, acc, vis) == s;
    FieldThenRest(vis, c.visited, key, acc', s.visited);
  }

  // ---------------------------------------------------------------------------
  // Declarative characterisation of the reference

  /** Types whose values hold no reference: scalars, arrays of such, and structs
      whose fields are all exported and of such types. */
  predicate ValueOnlyType(t: GoType)
    decreases t
  {
    match t
    case Basic(_) => true
    case Array(_, e) => ValueOnlyType(e)
    case Struct(fs) => forall i | 0 <= i < |fs| :: fs[i].exported && ValueOnlyType(fs[i].ty)
    case _ => false
  }

  /** The six informational flags. */
  datatype Flag = PtrFlag | SliceFlag | MapFlag | ChanFlag | FuncFlag | IfaceFlag

  function FlagOf(a: Analysis, f: Flag): bool {
    match f
    case PtrFlag => a.containsPtr
    case SliceFlag => a.containsSlice
    case MapFlag => a.containsMap
    case ChanFlag => a.containsChan
    case FuncFlag => a.containsFunc
    case IfaceFlag => a.containsIface
  }

  /** The flag a kind sets for itself, if any. */
  function OwnFlag(t: GoType): Option<Flag> {
    match t
    case Pointer(_) => Some(PtrFlag)
    case Slice(_) => Some(SliceFlag)
    case Map(_, _) => Some(MapFlag)
    case Chan(_) => Some(ChanFlag)
    case Func => Some(FuncFlag)
    case Interface => Some(IfaceFlag)
    case _ => None
  }

  /** Kind `f` is reachable from `t` through array elements, exported struct
      fields, pointer referents, slice elements, map keys and map elements. */
  predicate Reaches(t: GoType, f: Flag)
    decreases t
  {
    OwnFlag(t) == Some(f) ||
    match t
    case Array(_, e) => Reaches(e, f)
    case Struct(fs) => exists i | 0 <= i < |fs| :: fs[i].exported && Reaches(fs[i].ty, f)
    case Pointer(e) => Reaches(e, f)
    case Slice(e) => Reaches(e, f)
    case Map(k, e) => Reaches(k, f) || Reaches(e, f)
    case _ => false
  }

  /** The field loop keeps the value-only bit exactly when every exported field
      from `i` on is value-only. */
  lemma {:induction false} ClassifyFieldsValueOnly(fs: seq<FieldType>, i: nat, acc: Analysis)
    requires i <= |fs|
    ensures ClassifyFields(fs, i, acc).isOnlyValues <==>
      acc.isOnlyValues && forall j | i <= j < |fs| && fs[j].exported :: Classify(fs[j].ty).isOnlyValues
    decreases |fs| - i
  {
    if i < |fs| {
      var acc' := if fs[i].exported then AddField(acc, fs[i].name, Classify(fs[i].ty)) else acc;
      assert ClassifyFields(fs, i, acc) == ClassifyFields(fs, i + 1, acc');
      ClassifyFieldsValueOnly(fs, i + 1, acc');
    }
  }

  /** The field loop sets a flag exactly when it was set already or some exported
      field from `i` on sets it. */
  lemma {:induction false} ClassifyFieldsFlag(fs: seq<FieldType>, i: nat, acc: Analysis, f: Flag)
    requires i <= |fs|
    ensures FlagOf(ClassifyFields(fs, i, acc), f) <==>
      FlagOf(acc, f) || exists j | i <= j < |fs| :: fs[j].exported && FlagOf(Classify(fs[j].ty), f)
    decreases |fs| - i
  {
    if i < |fs| {
      var acc' := if fs[i].exported then AddField(acc, fs[i].name, Classify(fs[i].ty)) else acc;
      assert ClassifyFields(fs, i, acc) == ClassifyFields(fs, i + 1, acc');
      ClassifyFieldsFlag(fs, i + 1, acc', f);
      if exists j | i <= j < |fs| :: fs[j].exported && FlagOf(Classify(fs[j].ty), f) {
        var j :| i <= j < |fs| && fs[j].exported && FlagOf(Classify(fs[j].ty), f);
        if j > i { assert i + 1 <= j; }
      }
    }
  }

  /** The reference is value-only exactly on value-only types. */
  lemma {:induction false} ClassifyValueOnly(t: GoType)
    ensures Classify(t).isOnlyValues <==> ValueOnlyType(t)
    decreases t
  {
    match t
    case Array(_, e) => ClassifyValueOnly(e);
    case Struct(fs) =>
      assert fs[0..] == fs;
      ClassifyFieldsValueOnly(fs, 0, StructStart(fs));
      forall j | 0 <= j < |fs| ensures Classify(fs[j].ty).isOnlyValues <==> ValueOnlyType(fs[j].ty) {
        ClassifyValueOnly(fs[j].ty);
      }
    case Pointer(e) =>
    case Slice(e) =>
    case Map(k, e) =>
    case _ =>
  }

  /** The reference sets a flag exactly when its kind is reachable. */
  lemma {:induction false} ClassifyFlags(t: GoType, f: Flag)
    ensures FlagOf(Classify(t), f) <==> Reaches(t, f)
    decreases t
  {
    match t
    case Array(_, e) => ClassifyFlags(e, f);
    case Struct(fs) =>
      assert fs[0..] == fs;
      ClassifyFieldsFlag(fs, 0, StructStart(fs), f);
      forall j | 0 <= j < |fs| ensures FlagOf(Classify(fs[j].ty), f) <==> Reaches(fs[j].ty, f) {
        ClassifyFlags(fs[j].ty, f);
      }
    case Pointer(e) => ClassifyFlags(e, f);
    case Slice(e) => ClassifyFlags(e, f);
    case Map(k, e) => ClassifyFlags(k, f); ClassifyFlags(e, f);
    case _ =>
  }

  /** One fresh analysis pass of a closed type, as getOrAnalyzeType runs it: value-
      only exactly on value-only types, and each flag exactly when its kind is
      reachable. */
  lemma AnalyzeClosedType(env: TypeEnv, t: GoType, f: Flag)
    requires Closed(t)
    ensures Analyze(env, t, map[]).result.isOnlyValues <==> ValueOnlyType(t)
    ensures FlagOf(Analyze(env, t, map[]).result, f) <==> Reaches(t, f)
  {
    AnalyzeIsClassify(env, t, map[]);
    ClassifyValueOnly(t);
    ClassifyFlags(t, f);
  }

  // ---------------------------------------------------------------------------
  // One turn of the struct case

  /** Entering the struct case: the field loop starts from the struct's initial
      result, registered under its key. */
  lemma StructEntry(env: TypeEnv, key: GoType, fs: seq<FieldType>, vis: Visited)
    ensures var init := StructStart(fs);
      && ExportedNames(fs[..0]) == {} && fs[0..] == fs
      && Unentered(env, vis[key := init]) <= Unentered(env, vis)
      && AnalyzeShape(env, key, Struct(fs), vis) == AnalyzeFields(env, key, fs, 0, init, vis[key := init])
  {
    assert ExportedNames(fs[..0]) == {};
    assert fs[0..] == fs;
  }

  /** An unexported field is skipped. */
  lemma SkipStep(env: TypeEnv, key: GoType, fs: seq<FieldType>, i: nat, acc: Analysis, vis: Visited)
    requires i < |fs| && !fs[i].exported
    requires key in vis && vis[key] == acc
    requires acc.fieldAnalysis.Some? && acc.fieldAnalysis.value.Keys == ExportedNames(fs[..i])
    requires acc.isOnlyValues ==> !HasUnexported(fs)
    ensures fs[i..][1..] == fs[i + 1..]
    ensures ExportedNames(fs[..i + 1]) == ExportedNames(fs[..i])
    ensures AnalyzeFields(env, key, fs, i, acc, vis) == AnalyzeFields(env, key, fs, i + 1, acc, vis)
  {
    assert fs[i..][1..] == fs[i + 1..];
    assert fs[..i + 1] == fs[..i] + [fs[i]];
  }

  /** An exported field is analysed, folded into the struct's result, and the
      loop goes on from the updated entry. */
  lemma FieldStep(env: TypeEnv, key: GoType, fs: seq<FieldType>, i: nat, acc: Analysis, vis: Visited)
    requires i < |fs| && fs[i].exported
    requires key in vis && vis[key] == acc
    requires acc.fieldAnalysis.Some? && acc.fieldAnalysis.value.Keys == ExportedNames(fs[..i])
    requires acc.isOnlyValues ==> !HasUnexported(fs) && forall n | n in acc.fieldAnalysis.value :: acc.fieldAnalysis.value[n].isOnlyValues
    ensures fs[i..][1..] == fs[i + 1..]
    ensures var c := Analyze(env, fs[i].ty, vis);
      var acc' := AddField(acc, fs[i].name, c.result);
      var vis2 := c.visited[key := acc'];
      && Unentered(env, vis2) <= Unentered(env, vis)
      && acc'.fieldAnalysis.value.Keys == ExportedNames(fs[..i + 1])
      && (acc'.isOnlyValues ==> !HasUnexported(fs) && forall n | n in acc'.fieldAnalysis.value :: acc'.fieldAnalysis.value[n].isOnlyValues)
      && AnalyzeFields(env, key, fs, i, acc, vis) == AnalyzeFields(env, key, fs, i + 1, acc', vis2)
  {
    assert fs[i..][1..] == fs[i + 1..];
    assert ExportedNames(fs[..i + 1]) == ExportedNames(fs[..i]) + {fs[i].name} by {
      assert fs[..i + 1] == fs[..i] + [fs[i]];
    }
  }

  // ---------------------------------------------------------------------------
  // The struct and array cases, for any type

  /** Go rejects a struct with two fields of the same name, so the exported names
      of a struct type are pairwise distinct. */
  predicate DistinctNames(fs: seq<FieldType>) {
    forall i, j | 0 <= i < j < |fs| && fs[i].exported && fs[j].exported :: fs[i].name != fs[j].name
  }

  /** The struct's value-only bit is the conjunction of "no unexported field" and
      the bits recorded in its field map. */
  predicate BitIsConjunction(fs: seq<FieldType>, a: Analysis)
    requires a.fieldAnalysis.Some?
  {
    a.isOnlyValues <==> !HasUnexported(fs) && forall n | n in a.fieldAnalysis.value :: a.fieldAnalysis.value[n].isOnlyValues
  }

  /** The field loop keeps the value-only bit equal to that conjunction: a field
      name is never seen twice, so no entry of the field map is overwritten. */
  lemma {:induction false} FieldsBitIsConjunction(env: TypeEnv, key: GoType, fs: seq<FieldType>, i: nat, acc: Analysis, vis: Visited)
    requires i <= |fs|
    requires key in vis && vis[key] == acc
    requires acc.fieldAnalysis.Some? && acc.fieldAnalysis.value.Keys == ExportedNames(fs[..i])
    requires acc.isOnlyValues ==> !HasUnexported(fs) && forall n | n in acc.fieldAnalysis.value :: acc.fieldAnalysis.value[n].isOnlyValues
    requires DistinctNames(fs) && BitIsConjunction(fs, acc)
    ensures BitIsConjunction(fs, AnalyzeFields(env, key, fs, i, acc, vis).result)
    decreases Unentered(env, vis), FieldsSize(fs[i..]), 1
  {
    if i < |fs| {
      if !fs[i].exported {
        SkipStep(env, key, fs, i, acc, vis);
        FieldsBitIsConjunction(env, key, fs, i + 1, acc, vis);
      } else {
        ExportedBitIsConjunction(env, key, fs, i, acc, vis);
      }
    }
  }

  /** One exported field: its name is new to the field map, so the map's bits and
      the struct's bit both gain exactly the field's bit. */
  lemma {:induction false} ExportedBitIsConjunction(env: TypeEnv, key: GoType, fs: seq<FieldType>, i: nat, acc: Analysis, vis: Visited)
    requires i < |fs| && fs[i].exported
    requires key in vis && vis[key] == acc
    requires acc.fieldAnalysis.Some? && acc.fieldAnalysis.value.Keys == ExportedNames(fs[..i])
    requires acc.isOnlyValues ==> !HasUnexported(fs) && forall n | n in acc.fieldAnalysis.value :: acc.fieldAnalysis.value[n].isOnlyValues
    requires DistinctNames(fs) && BitIsConjunction(fs, acc)
    ensures BitIsConjunction(fs, AnalyzeFields(env, key, fs, i, acc, vis).result)
    decreases Unentered(env, vis), FieldsSize(fs[i..]), 0
  {
    FieldStep(env, key, fs, i, acc, vis);
    var c := Analyze(env, fs[i].ty, vis);
    var acc' := AddField(acc, fs[i].name, c.result);
    NewNameKeepsConjunction(fs, i, acc, c.result);
    FieldsBitIsConjunction(env, key, fs, i + 1, acc', c.visited[key := acc']);
  }

  /** Folding in a field whose name the map does not hold yet keeps the struct's
      bit equal to the conjunction. */
  lemma NewNameKeepsConjunction(fs: seq<FieldType>, i: nat, acc: Analysis, fr: Analysis)
    requires i < |fs| && fs[i].exported && DistinctNames(fs)
    requires acc.fieldAnalysis.Some? && acc.fieldAnalysis.value.Keys == ExportedNames(fs[..i])
    requires BitIsConjunction(fs, acc)
    ensures BitIsConjunction(fs, AddField(acc, fs[i].name, fr))
  {
    var m := acc.fieldAnalysis.value;
    var m' := AddField(acc, fs[i].name, fr).fieldAnalysis.value;
    assert fs[i].name !in m;
    assert m' == m[fs[i].name := fr];
    assert (forall n | n in m' :: m'[n].isOnlyValues) <==>
           (forall n | n in m :: m[n].isOnlyValues) && fr.isOnlyValues by {
      if forall n | n in m' :: m'[n].isOnlyValues {
        assert m'[fs[i].name] == fr;
        forall n | n in m ensures m[n].isOnlyValues {
          assert m'[n] == m[n];
        }
      }
    }
  }

  /** analyzeTypeRecursive on a struct: the struct is value-only exactly when it has
      no unexported field and every exported field's recorded analysis is
      value-only. */
  lemma StructValueOnlyIff(env: TypeEnv, t: GoType, vis: Visited)
    requires t !in vis && Underlying(env, t).Struct? && DistinctNames(Underlying(env, t).fields)
    ensures var s := Analyze(env, t, vis);
      && s.result.fieldAnalysis.Some?
      && s.result.fieldAnalysis.value.Keys == ExportedNames(Underlying(env, t).fields)
      && BitIsConjunction(Underlying(env, t).fields, s.result)
  {
    var fs := Underlying(env, t).fields;
    var init := StructStart(fs);
    var vis1 := vis[t := Blank];
    assert ExportedNames(fs[..0]) == {};
    assert fs[0..] == fs;
    assert BitIsConjunction(fs, init);
    FieldsBitIsConjunction(env, t, fs, 0, init, vis1[t := init]);
    assert Analyze(env, t, vis) == AnalyzeShape(env, t, Underlying(env, t), vis1);
  }

  /** analyzeTypeRecursive on an array: the value-only bit and all six flags are
      those of the element, analysed with the array's blank entry in place, and no
      field map is kept. */
  lemma ArrayTakesElement(env: TypeEnv, t: GoType, vis: Visited, f: Flag)
    requires t !in vis && Underlying(env, t).Array?
    ensures var s := Analyze(env, t, vis);
      var e := Analyze(env, Underlying(env, t).elem, vis[t := Blank]).result;
      && (s.result.isOnlyValues <==> e.isOnlyValues)
      && (FlagOf(s.result, f) <==> FlagOf(e, f))
      && s.result.fieldAnalysis.None?
  {
  }

  // ---------------------------------------------------------------------------
  // The memo and the call-site cache

  /** Every memo entry is what a fresh pass computes for its type. */
  predicate Memoised(env: TypeEnv, cache: map<GoType, Analysis>) {
    forall k | k in cache :: cache[k] == Analyze(env, k, map[]).result
  }

  /** The memo returns what a fresh pass would compute, keeps that true of every
      entry, and a repeated lookup is answered from the memo without change. */
  lemma MemoIsTransparent(env: TypeEnv, cache: map<GoType, Analysis>, t: GoType)
    requires Memoised(env, cache)
    ensures var (a, cache') := GetOrAnalyze(env, cache, t);
      && a == Analyze(env, t, map[]).result
      && Memoised(env, cache')
      && GetOrAnalyze(env, cache', t) == (a, cache')
  {
  }

  /** A run of getOrCreateBusinessCopyInfo calls, each with a key and the type
      argument's rtype: the entries returned, in order, and the final caches. */
  function RunCalls(env: TypeEnv, c: Caches, calls: seq<(string, Option<GoType>)>): (r: (seq<CopyInfo>, Caches))
    ensures |r.0| == |calls|
    decreases |calls|
  {
    if |calls| == 0 then ([], c)
    else
      var (info, c1) := GetOrCreateCopyInfo(env, c, calls[0].0, calls[0].1);
      var (rest, c2) := RunCalls(env, c1, calls[1..]);
      ([info] + rest, c2)
  }

  /** Once a key has an entry, every later call with that key returns it, and the
      entry stays in the cache. */
  lemma {:induction false} EntryPersists(env: TypeEnv, c: Caches, calls: seq<(string, Option<GoType>)>, key: string)
    requires key in c.business
    ensures key in RunCalls(env, c, calls).1.business
    ensures RunCalls(env, c, calls).1.business[key] == c.business[key]
    ensures forall j | 0 <= j < |calls| && calls[j].0 == key :: RunCalls(env, c, calls).0[j] == c.business[key]
    decreases |calls|
  {
    if |calls| > 0 {
      var (info, c1) := GetOrCreateCopyInfo(env, c, calls[0].0, calls[0].1);
      EntryPersists(env, c1, calls[1..], key);
      var (rest, c2) := RunCalls(env, c1, calls[1..]);
      assert RunCalls(env, c, calls) == ([info] + rest, c2);
      forall j | 0 <= j < |calls| && calls[j].0 == key ensures RunCalls(env, c, calls).0[j] == c.business[key] {
        if j > 0 { assert calls[1..][j - 1] == calls[j]; }
      }
    }
  }

  /** First key wins: for a key new to the cache, the first call with it fixes the
      entry from that call's type argument, and every later call with the same key
      returns that very entry, whatever type it passes. */
  lemma {:induction false} FirstCallWins(env: TypeEnv, c: Caches, calls: seq<(string, Option<GoType>)>, i: nat, j: nat)
    requires i < j < |calls| && calls[i].0 == calls[j].0
    requires calls[i].0 !in c.business
    requires forall m | 0 <= m < i :: calls[m].0 != calls[i].0
    ensures RunCalls(env, c, calls).0[j] == RunCalls(env, c, calls).0[i]
    ensures RunCalls(env, c, calls).0[i].rtype == calls[i].1
    ensures calls[i].1.None? ==> RunCalls(env, c, calls).0[i].isOnlyValues
    decreases i
  {
    var (info, c1) := GetOrCreateCopyInfo(env, c, calls[0].0, calls[0].1);
    var (rest, c2) := RunCalls(env, c1, calls[1..]);
    assert RunCalls(env, c, calls) == ([info] + rest, c2);
    if i == 0 {
      EntryPersists(env, c1, calls[1..], calls[0].0);
      assert calls[1..][j - 1] == calls[j];
    } else {
      assert calls[0].0 != calls[i].0;
      forall m | 0 <= m < i - 1 ensures calls[1..][m].0 != calls[1..][i - 1].0 {
        assert calls[1..][m] == calls[m + 1];
      }
      FirstCallWins(env, c1, calls[1..], i - 1, j - 1);
    }
  }

  // ---------------------------------------------------------------------------
  // A self-referential type

  /** `type Node struct { Next *Node; Value int }`. */
  const NodeFields := [FieldType("Next", true, Pointer(Named("Node"))), FieldType("Value", true, Basic("int"))]
  const NodeEnv: TypeEnv := map["Node" := Struct(NodeFields)]

  /** Analysing Node terminates; when the pass reaches `*Node` it finds Node
      already registered and stops there. Node is not value-only, holds a pointer,
      and its field map records both fields, `Next` as a pointer. */
  lemma NodeAnalysis()
    ensures var a := Analyze(NodeEnv, Named("Node"), map[]).result;
      && !a.isOnlyValues && a.containsPtr
      && a.fieldAnalysis.Some? && a.fieldAnalysis.value.Keys == {"Next", "Value"}
      && a.fieldAnalysis.value["Next"].containsPtr && !a.fieldAnalysis.value["Next"].isOnlyValues
      && a.fieldAnalysis.value["Value"] == ValueOnly
  {
    var node := Named("Node");
    NodeNames();
    var start := StructStart(NodeFields);
    var v0 := map[node := start];
    assert Underlying(NodeEnv, node) == Struct(NodeFields);
    assert NodeFields[0..] == NodeFields;
    assert map[node := Blank][node := start] == v0;
    assert Analyze(NodeEnv, node, map[]) == AnalyzeFields(NodeEnv, node, NodeFields, 0, start, v0);
    var cp := Analyze(NodeEnv, Pointer(node), v0);
    NodePointerStep(v0);
    var acc1 := AddField(start, "Next", cp.result);
    var v1 := cp.visited[node := acc1];
    assert AnalyzeFields(NodeEnv, node, NodeFields, 0, start, v0)
        == AnalyzeFields(NodeEnv, node, NodeFields, 1, acc1, v1);
    NodeValueStep(acc1, v1);
  }

  /** Both fields of Node are exported. */
  lemma NodeNames()
    ensures !HasUnexported(NodeFields)
    ensures ExportedNames(NodeFields[..1]) == {"Next"}
    ensures ExportedNames(NodeFields[..2]) == ExportedNames(NodeFields) == {"Next", "Value"}
  {
    assert NodeFields[..2] == NodeFields;
    assert NodeFields[..1] == [NodeFields[0]];
    assert NodeFields[1].name in ExportedNames(NodeFields);
  }

  /** The `Next` field of Node: `*Node` is new to the pass, so it is analysed as
      a pointer, and below it Node itself is found already registered; the pass
      adds `*Node` and nothing else. */
  lemma NodePointerStep(v0: Visited)
    requires Named("Node") in v0 && Pointer(Named("Node")) !in v0
    ensures var c := Analyze(NodeEnv, Pointer(Named("Node")), v0);
      && c.result.containsPtr && !c.result.isOnlyValues
      && c.visited.Keys == v0.Keys + {Pointer(Named("Node"))}
  {
    var t := Pointer(Named("Node"));
    assert Analyze(NodeEnv, t, v0) == AnalyzeShape(NodeEnv, t, t, v0[t := Blank]);
  }

  /** The `Value` field of Node: an int, new to the pass, recorded as value-only. */
  lemma NodeValueStep(acc1: Analysis, v1: Visited)
    requires Basic("int") !in v1 && Named("Node") in v1 && v1[Named("Node")] == acc1
    requires acc1.fieldAnalysis.Some? && acc1.fieldAnalysis.value.Keys == ExportedNames(NodeFields[..1])
    requires acc1.isOnlyValues ==> forall n | n in acc1.fieldAnalysis.value :: acc1.fieldAnalysis.value[n].isOnlyValues
    ensures AnalyzeFields(NodeEnv, Named("Node"), NodeFields, 1, acc1, v1).result == AddField(acc1, "Value", ValueOnly)
  {
    NodeNames();
    var acc2 := AddField(acc1, "Value", ValueOnly);
    assert Analyze(NodeEnv, Basic("int"), v1) == Step(ValueOnly, v1[Basic("int") := ValueOnly]);
    assert AnalyzeFields(NodeEnv, Named("Node"), NodeFields, 1, acc1, v1)
        == AnalyzeFields(NodeEnv, Named("Node"), NodeFields, 2, acc2, v1[Basic("int") := ValueOnly][Named("Node") := acc2]);
  }
}
