/** The value-only bit of analyzeTypeRecursive for every well-formed type, defined
    types included.

    Go rejects a defined type that holds itself inline (through array elements or
    struct fields); self-reference must go through a pointer, slice, map, channel,
    function or interface. That rule is stated here as a ranking of the defined
    types, and under it the bit the classifier computes from an empty visited map
    is exactly the declarative `ValueOnlyIn`: scalars, arrays of value-only
    elements, and structs whose fields are all exported and value-only, looking
    through defined types to their underlying types.

    The visited map does answer with unfinished entries: below a pointer, a type
    still being analysed can be seen with the optimistic value-only bit its struct
    case starts from. The proofs show that such answers only arise below a kind that
    is never value-only, so they never reach the bit of the type asked about. */
module DefinedTypeProofs {
  import opened GoTypes
  import opened Classifier
  import CP = ClassifierProofs

  /** A rank for each defined type. */
  type Ranks = map<TypeId, nat>

  /** How deeply the values of `t` nest inline: one level per array and per struct
      (through exported fields, the only ones the classifier follows), the rank of a
      defined type for a reference to it, and nothing for what a pointer, slice,
      map, channel, function or interface holds. */
  function Height(rank: Ranks, t: GoType): nat
    decreases t
  {
    match t
    case Named(id) => if id in rank then rank[id] else 0
    case Array(_, e) => 1 + Height(rank, e)
    case Struct(fs) => 1 + FieldsHeight(rank, fs)
    case _ => 0
  }

  /** The greatest height among the exported fields. */
  function FieldsHeight(rank: Ranks, fs: seq<FieldType>): (h: nat)
    ensures forall i | 0 <= i < |fs| && fs[i].exported :: Height(rank, fs[i].ty) <= h
    decreases fs
  {
    if |fs| == 0 then 0
    else
      var rest := FieldsHeight(rank, fs[1..]);
      assert forall i | 1 <= i < |fs| :: fs[i] == fs[1..][i - 1];
      var first := if fs[0].exported then Height(rank, fs[0].ty) else 0;
      if first < rest then rest else first
  }

  /** Go's rule against invalid recursive types: every defined type ranks at least
      as high as its underlying type nests. Such a ranking exists exactly when no
      defined type holds itself inline. */
  predicate Ranked(env: TypeEnv, rank: Ranks) {
    forall id | id in env :: id in rank && Height(rank, Underlying(env, Named(id))) <= rank[id]
  }

  /** A value of type `t` holds no reference and no unexported field: its underlying
      type is basic, an array of value-only elements, or a struct whose fields are
      all exported and value-only. */
  predicate ValueOnlyIn(env: TypeEnv, rank: Ranks, t: GoType)
    requires Ranked(env, rank)
    decreases Height(rank, t), if t.Named? then 1 else 0
  {
    match t
    case Named(_) => ValueOnlyIn(env, rank, Underlying(env, t))
    case Basic(_) => true
    case Array(_, e) => ValueOnlyIn(env, rank, e)
    case Struct(fs) => forall i | 0 <= i < |fs| :: fs[i].exported && ValueOnlyIn(env, rank, fs[i].ty)
    case _ => false
  }

  /** Inline components sit strictly lower than the type holding them. */
  lemma ElemBelow(env: TypeEnv, rank: Ranks, t: GoType)
    requires Ranked(env, rank) && Underlying(env, t).Array?
    ensures Height(rank, Underlying(env, t).elem) < Height(rank, t)
  {
  }

  lemma FieldBelow(env: TypeEnv, rank: Ranks, t: GoType, i: nat)
    requires Ranked(env, rank) && Underlying(env, t).Struct?
    requires i < |Underlying(env, t).fields| && Underlying(env, t).fields[i].exported
    ensures Height(rank, Underlying(env, t).fields[i].ty) < Height(rank, t)
  {
  }

  // ---------------------------------------------------------------------------
  // The pass only adds entries

  /** Entries present before a pass keep their values, except the one whose
      analysis is in progress. */
  predicate Keeps(vis: Visited, vis': Visited, key: GoType) {
    forall k | k in vis && k != key :: k in vis' && vis'[k] == vis[k]
  }

  lemma {:induction false} AnalyzeKeeps(env: TypeEnv, t: GoType, vis: Visited)
    ensures forall k | k in vis :: Analyze(env, t, vis).visited[k] == vis[k]
    decreases Unentered(env, vis), Size(t), 3
  {
    if t !in vis {
      var vis1 := vis[t := Blank];
      assert Unentered(env, vis1) <= Unentered(env, vis);
      assert t.Named? && t.id in env ==> t.id !in Unentered(env, vis1) && t.id in Unentered(env, vis);
      ShapeKeeps(env, t, Underlying(env, t), vis1);
    }
  }

  lemma {:induction false} ShapeKeeps(env: TypeEnv, key: GoType, shape: GoType, vis: Visited)
    requires !shape.Named?
    ensures Keeps(vis, AnalyzeShape(env, key, shape, vis).visited, key)
    decreases Unentered(env, vis), Size(shape), 2
  {
    if shape.Array? {
      AnalyzeKeeps(env, shape.elem, vis);
    } else if shape.Struct? {
      StructKeeps(env, key, shape, vis);
    } else if shape.Pointer? || shape.Slice? {
      RefKeeps(env, key, shape, vis);
    } else if shape.Map? {
      MapKeeps(env, key, shape, vis);
    }
  }

  lemma {:induction false} StructKeeps(env: TypeEnv, key: GoType, shape: GoType, vis: Visited)
    requires shape.Struct?
    ensures Keeps(vis, AnalyzeShape(env, key, shape, vis).visited, key)
    decreases Unentered(env, vis), Size(shape), 1
  {
    var fs := shape.fields;
    CP.StructEntry(env, key, fs, vis);
    FieldsKeeps(env, key, fs, 0, StructStart(fs), vis[key := StructStart(fs)]);
  }

  lemma {:induction false} RefKeeps(env: TypeEnv, key: GoType, shape: GoType, vis: Visited)
    requires shape.Pointer? || shape.Slice?
    ensures Keeps(vis, AnalyzeShape(env, key, shape, vis).visited, key)
    decreases Unentered(env, vis), Size(shape), 1
  {
    var init := if shape.Pointer? then Blank.(containsPtr := true) else Blank.(containsSlice := true);
    assert Unentered(env, vis[key := init]) <= Unentered(env, vis);
    AnalyzeKeeps(env, shape.elem, vis[key := init]);
  }

  lemma {:induction false} MapKeeps(env: TypeEnv, key: GoType, shape: GoType, vis: Visited)
    requires shape.Map?
    ensures Keeps(vis, AnalyzeShape(env, key, shape, vis).visited, key)
    decreases Unentered(env, vis), Size(shape), 1
  {
    var vis1 := vis[key := Blank.(containsMap := true)];
    assert Unentered(env, vis1) <= Unentered(env, vis);
    AnalyzeKeeps(env, shape.key, vis1);
    var ck := Analyze(env, shape.key, vis1);
    assert Unentered(env, ck.visited) <= Unentered(env, vis);
    AnalyzeKeeps(env, shape.elem, ck.visited);
  }

  lemma {:induction false} FieldsKeeps(env: TypeEnv, key: GoType, fs: seq<FieldType>, i: nat, acc: Analysis, vis: Visited)
    requires i <= |fs|
    requires key in vis && vis[key] == acc
    requires acc.fieldAnalysis.Some? && acc.fieldAnalysis.value.Keys == ExportedNames(fs[..i])
    requires acc.isOnlyValues ==> !HasUnexported(fs) && forall n | n in acc.fieldAnalysis.value :: acc.fieldAnalysis.value[n].isOnlyValues
    ensures Keeps(vis, AnalyzeFields(env, key, fs, i, acc, vis).visited, key)
    decreases Unentered(env, vis), FieldsSize(fs[i..]), 1
  {
    if i < |fs| {
      if !fs[i].exported {
        CP.SkipStep(env, key, fs, i, acc, vis);
        FieldsKeeps(env, key, fs, i + 1, acc, vis);
      } else {
        CP.FieldStep(env, key, fs, i, acc, vis);
        AnalyzeKeeps(env, fs[i].ty, vis);
        var c := Analyze(env, fs[i].ty, vis);
        var acc' := AddField(acc, fs[i].name, c.result);
        FieldsKeeps(env, key, fs, i + 1, acc', c.visited[key := acc']);
      }
    }
  }

  // ---------------------------------------------------------------------------
  // Value-only types are found value-only

  /** Entries for value-only types lower than `h` say value-only. */
  predicate TrueBelow(env: TypeEnv, rank: Ranks, vis: Visited, h: nat)
    requires Ranked(env, rank)
  {
    forall k | k in vis && Height(rank, k) < h && ValueOnlyIn(env, rank, k) :: vis[k].isOnlyValues
  }

  /** Every entry the pass added says value-only. */
  predicate AddedTrue(vis: Visited, vis': Visited) {
    forall k | k in vis' && k !in vis :: vis'[k].isOnlyValues
  }

  /** A value-only type is found value-only, and so is every type its pass adds, as
      long as the entries it can meet below it are right about value-only types. */
  lemma {:induction false} AnalyzeComplete(env: TypeEnv, rank: Ranks, t: GoType, vis: Visited)
    requires Ranked(env, rank) && ValueOnlyIn(env, rank, t)
    requires TrueBelow(env, rank, vis, Height(rank, t) + 1)
    ensures var s := Analyze(env, t, vis); s.result.isOnlyValues && AddedTrue(vis, s.visited)
    decreases Unentered(env, vis), Size(t), 3
  {
    if t !in vis {
      var vis1 := vis[t := Blank];
      assert Unentered(env, vis1) <= Unentered(env, vis);
      assert t.Named? && t.id in env ==> t.id !in Unentered(env, vis1) && t.id in Unentered(env, vis);
      ShapeComplete(env, rank, t, vis1);
    }
  }

  lemma {:induction false} ShapeComplete(env: TypeEnv, rank: Ranks, key: GoType, vis: Visited)
    requires Ranked(env, rank) && ValueOnlyIn(env, rank, Underlying(env, key))
    requires key in vis && TrueBelow(env, rank, vis, Height(rank, key))
    ensures var s := AnalyzeShape(env, key, Underlying(env, key), vis); s.result.isOnlyValues && AddedTrue(vis, s.visited)
    decreases Unentered(env, vis), Size(Underlying(env, key)), 2
  {
    if Underlying(env, key).Array? {
      ArrayComplete(env, rank, key, vis);
    } else if Underlying(env, key).Struct? {
      StructComplete(env, rank, key, vis);
    }
  }

  lemma {:induction false} ArrayComplete(env: TypeEnv, rank: Ranks, key: GoType, vis: Visited)
    requires Ranked(env, rank) && Underlying(env, key).Array? && ValueOnlyIn(env, rank, Underlying(env, key))
    requires key in vis && TrueBelow(env, rank, vis, Height(rank, key))
    ensures var s := AnalyzeShape(env, key, Underlying(env, key), vis); s.result.isOnlyValues && AddedTrue(vis, s.visited)
    decreases Unentered(env, vis), Size(Underlying(env, key)), 1
  {
    ElemBelow(env, rank, key);
    AnalyzeComplete(env, rank, Underlying(env, key).elem, vis);
  }

  lemma {:induction false} StructComplete(env: TypeEnv, rank: Ranks, key: GoType, vis: Visited)
    requires Ranked(env, rank) && Underlying(env, key).Struct? && ValueOnlyIn(env, rank, Underlying(env, key))
    requires key in vis && TrueBelow(env, rank, vis, Height(rank, key))
    ensures var s := AnalyzeShape(env, key, Underlying(env, key), vis); s.result.isOnlyValues && AddedTrue(vis, s.visited)
    decreases Unentered(env, vis), Size(Underlying(env, key)), 1
  {
    var fs := Underlying(env, key).fields;
    CP.StructEntry(env, key, fs, vis);
    forall j | 0 <= j < |fs| ensures Height(rank, fs[j].ty) < Height(rank, key) {
      FieldBelow(env, rank, key, j);
    }
    FieldsComplete(env, rank, key, fs, 0, StructStart(fs), vis[key := StructStart(fs)]);
  }

  lemma {:induction false} FieldsComplete(env: TypeEnv, rank: Ranks, key: GoType, fs: seq<FieldType>, i: nat, acc: Analysis, vis: Visited)
    requires i <= |fs|
    requires key in vis && vis[key] == acc
    requires acc.fieldAnalysis.Some? && acc.fieldAnalysis.value.Keys == ExportedNames(fs[..i])
    requires acc.isOnlyValues ==> !HasUnexported(fs) && forall n | n in acc.fieldAnalysis.value :: acc.fieldAnalysis.value[n].isOnlyValues
    requires Ranked(env, rank) && acc.isOnlyValues
    requires forall j | 0 <= j < |fs| :: fs[j].exported && ValueOnlyIn(env, rank, fs[j].ty) && Height(rank, fs[j].ty) < Height(rank, key)
    requires TrueBelow(env, rank, vis, Height(rank, key))
    ensures var s := AnalyzeFields(env, key, fs, i, acc, vis); s.result.isOnlyValues && AddedTrue(vis, s.visited)
    decreases Unentered(env, vis), FieldsSize(fs[i..]), 1
  {
    if i < |fs| {
      CP.FieldStep(env, key, fs, i, acc, vis);
      AnalyzeComplete(env, rank, fs[i].ty, vis);
      AnalyzeKeeps(env, fs[i].ty, vis);
      var c := Analyze(env, fs[i].ty, vis);
      var acc' := AddField(acc, fs[i].name, c.result);
      var vis2 := c.visited[key := acc'];
      FieldsComplete(env, rank, key, fs, i + 1, acc', vis2);
      FieldsKeeps(env, key, fs, i + 1, acc', vis2);
    }
  }

  // ---------------------------------------------------------------------------
  // Only value-only types are found value-only

  /** Entries lower than `h` that say value-only are for value-only types. */
  predicate SoundBelow(env: TypeEnv, rank: Ranks, vis: Visited, h: nat)
    requires Ranked(env, rank)
  {
    forall k | k in vis && Height(rank, k) < h && vis[k].isOnlyValues :: ValueOnlyIn(env, rank, k)
  }

  /** Every entry the pass added that says value-only is for a value-only type. */
  predicate AddedSound(env: TypeEnv, rank: Ranks, vis: Visited, vis': Visited)
    requires Ranked(env, rank)
  {
    forall k | k in vis' && k !in vis && vis'[k].isOnlyValues :: ValueOnlyIn(env, rank, k)
  }

  /** A type found value-only is value-only, and so is every type its pass added
      with that answer, as long as the entries it can meet below it are sound. */
  lemma {:induction false} AnalyzeSound(env: TypeEnv, rank: Ranks, t: GoType, vis: Visited)
    requires Ranked(env, rank) && SoundBelow(env, rank, vis, Height(rank, t) + 1)
    ensures var s := Analyze(env, t, vis);
      s.result.isOnlyValues ==> ValueOnlyIn(env, rank, t) && AddedSound(env, rank, vis, s.visited)
    decreases Unentered(env, vis), Size(t), 3
  {
    if t !in vis {
      var vis1 := vis[t := Blank];
      assert Unentered(env, vis1) <= Unentered(env, vis);
      assert t.Named? && t.id in env ==> t.id !in Unentered(env, vis1) && t.id in Unentered(env, vis);
      ShapeSound(env, rank, t, vis1);
    }
  }

  lemma {:induction false} ShapeSound(env: TypeEnv, rank: Ranks, key: GoType, vis: Visited)
    requires Ranked(env, rank) && key in vis && SoundBelow(env, rank, vis, Height(rank, key))
    ensures var s := AnalyzeShape(env, key, Underlying(env, key), vis);
      s.result.isOnlyValues ==> ValueOnlyIn(env, rank, Underlying(env, key)) && AddedSound(env, rank, vis, s.visited)
    decreases Unentered(env, vis), Size(Underlying(env, key)), 2
  {
    if Underlying(env, key).Array? {
      ArraySound(env, rank, key, vis);
    } else if Underlying(env, key).Struct? {
      StructSound(env, rank, key, vis);
    }
  }

  lemma {:induction false} ArraySound(env: TypeEnv, rank: Ranks, key: GoType, vis: Visited)
    requires Ranked(env, rank) && Underlying(env, key).Array?
    requires key in vis && SoundBelow(env, rank, vis, Height(rank, key))
    ensures var s := AnalyzeShape(env, key, Underlying(env, key), vis);
      s.result.isOnlyValues ==> ValueOnlyIn(env, rank, Underlying(env, key)) && AddedSound(env, rank, vis, s.visited)
    decreases Unentered(env, vis), Size(Underlying(env, key)), 1
  {
    ElemBelow(env, rank, key);
    AnalyzeSound(env, rank, Underlying(env, key).elem, vis);
  }

  lemma {:induction false} StructSound(env: TypeEnv, rank: Ranks, key: GoType, vis: Visited)
    requires Ranked(env, rank) && Underlying(env, key).Struct?
    requires key in vis && SoundBelow(env, rank, vis, Height(rank, key))
    ensures var s := AnalyzeShape(env, key, Underlying(env, key), vis);
      s.result.isOnlyValues ==> ValueOnlyIn(env, rank, Underlying(env, key)) && AddedSound(env, rank, vis, s.visited)
    decreases Unentered(env, vis), Size(Underlying(env, key)), 1
  {
    var fs := Underlying(env, key).fields;
    CP.StructEntry(env, key, fs, vis);
    forall j | 0 <= j < |fs| && fs[j].exported ensures Height(rank, fs[j].ty) < Height(rank, key) {
      FieldBelow(env, rank, key, j);
    }
    FieldsSound(env, rank, key, fs, 0, StructStart(fs), vis[key := StructStart(fs)]);
  }

  lemma {:induction false} FieldsSound(env: TypeEnv, rank: Ranks, key: GoType, fs: seq<FieldType>, i: nat, acc: Analysis, vis: Visited)
    requires i <= |fs|
    requires key in vis && vis[key] == acc
    requires acc.fieldAnalysis.Some? && acc.fieldAnalysis.value.Keys == ExportedNames(fs[..i])
    requires acc.isOnlyValues ==> !HasUnexported(fs) && forall n | n in acc.fieldAnalysis.value :: acc.fieldAnalysis.value[n].isOnlyValues
    requires Ranked(env, rank)
    requires forall j | 0 <= j < |fs| && fs[j].exported :: Height(rank, fs[j].ty) < Height(rank, key)
    requires SoundBelow(env, rank, vis, Height(rank, key))
    ensures var s := AnalyzeFields(env, key, fs, i, acc, vis);
      s.result.isOnlyValues ==>
        && acc.isOnlyValues
        && (forall j | i <= j < |fs| && fs[j].exported :: ValueOnlyIn(env, rank, fs[j].ty))
        && AddedSound(env, rank, vis, s.visited)
    decreases Unentered(env, vis), FieldsSize(fs[i..]), 1
  {
    if i < |fs| {
      if !fs[i].exported {
        CP.SkipStep(env, key, fs, i, acc, vis);
        FieldsSound(env, rank, key, fs, i + 1, acc, vis);
      } else {
        ExportedFieldSound(env, rank, key, fs, i, acc, vis);
      }
    }
  }

  /** One exported field: a field found value-only is value-only, and the loop goes
      on from entries that are still sound. */
  lemma {:induction false} ExportedFieldSound(env: TypeEnv, rank: Ranks, key: GoType, fs: seq<FieldType>, i: nat, acc: Analysis, vis: Visited)
    requires i < |fs| && fs[i].exported
    requires key in vis && vis[key] == acc
    requires acc.fieldAnalysis.Some? && acc.fieldAnalysis.value.Keys == ExportedNames(fs[..i])
    requires acc.isOnlyValues ==> !HasUnexported(fs) && forall n | n in acc.fieldAnalysis.value :: acc.fieldAnalysis.value[n].isOnlyValues
    requires Ranked(env, rank)
    requires forall j | 0 <= j < |fs| && fs[j].exported :: Height(rank, fs[j].ty) < Height(rank, key)
    requires SoundBelow(env, rank, vis, Height(rank, key))
    ensures var s := AnalyzeFields(env, key, fs, i, acc, vis);
      s.result.isOnlyValues ==>
        && acc.isOnlyValues
        && (forall j | i <= j < |fs| && fs[j].exported :: ValueOnlyIn(env, rank, fs[j].ty))
        && AddedSound(env, rank, vis, s.visited)
    decreases Unentered(env, vis), FieldsSize(fs[i..]), 0
  {
    CP.FieldStep(env, key, fs, i, acc, vis);
    AnalyzeSound(env, rank, fs[i].ty, vis);
    var c := Analyze(env, fs[i].ty, vis);
    var acc' := AddField(acc, fs[i].name, c.result);
    var vis2 := c.visited[key := acc'];
    if c.result.isOnlyValues {
      AnalyzeKeeps(env, fs[i].ty, vis);
      SoundBelowAfter(env, rank, vis, c.visited, key, acc', Height(rank, key));
      FieldsSound(env, rank, key, fs, i + 1, acc', vis2);
      FieldsKeeps(env, key, fs, i + 1, acc', vis2);
      var s := AnalyzeFields(env, key, fs, i + 1, acc', vis2);
      if s.result.isOnlyValues {
        AddedSoundChain(env, rank, vis, c.visited, key, acc', s.visited);
      }
    } else {
      FieldsStayFalse(env, key, fs, i + 1, acc', vis2);
    }
  }

  /** After a sound pass over a field, the entries below `h` are still sound: old
      entries are unchanged, new ones are sound, and the struct's own entry is not
      below `h`. */
  lemma SoundBelowAfter(env: TypeEnv, rank: Ranks, vis: Visited, mid: Visited, key: GoType, acc: Analysis, h: nat)
    requires Ranked(env, rank) && SoundBelow(env, rank, vis, h) && AddedSound(env, rank, vis, mid)
    requires forall k | k in vis :: k in mid && mid[k] == vis[k]
    requires h <= Height(rank, key)
    ensures SoundBelow(env, rank, mid[key := acc], h)
  {
  }

  /** What a field's pass added and what the rest of the loop added are both sound. */
  lemma AddedSoundChain(env: TypeEnv, rank: Ranks, vis: Visited, mid: Visited, key: GoType, acc: Analysis, fin: Visited)
    requires Ranked(env, rank) && key in vis
    requires AddedSound(env, rank, vis, mid) && AddedSound(env, rank, mid[key := acc], fin)
    requires Keeps(mid[key := acc], fin, key)
    ensures AddedSound(env, rank, vis, fin)
  {
  }

  /** Once a field has turned the struct's bit off, it stays off. */
  lemma {:induction false} FieldsStayFalse(env: TypeEnv, key: GoType, fs: seq<FieldType>, i: nat, acc: Analysis, vis: Visited)
    requires i <= |fs|
    requires key in vis && vis[key] == acc
    requires acc.fieldAnalysis.Some? && acc.fieldAnalysis.value.Keys == ExportedNames(fs[..i])
    requires !acc.isOnlyValues
    ensures !AnalyzeFields(env, key, fs, i, acc, vis).result.isOnlyValues
    decreases |fs| - i
  {
    if i < |fs| {
      assert ExportedNames(fs[..i + 1]) == ExportedNames(fs[..i]) + (if fs[i].exported then {fs[i].name} else {}) by {
        assert fs[..i + 1] == fs[..i] + [fs[i]];
      }
      if !fs[i].exported {
        FieldsStayFalse(env, key, fs, i + 1, acc, vis);
      } else {
        var c := Analyze(env, fs[i].ty, vis);
        var acc' := AddField(acc, fs[i].name, c.result);
        FieldsStayFalse(env, key, fs, i + 1, acc', c.visited[key := acc']);
      }
    }
  }

  // ---------------------------------------------------------------------------
  // The theorem

  /** One fresh analysis pass, as getOrAnalyzeType runs it, calls a well-formed type
      value-only exactly when it is value-only: defined and self-referential types
      included. */
  lemma AnalyzeValueOnly(env: TypeEnv, rank: Ranks, t: GoType)
    requires Ranked(env, rank)
    ensures Analyze(env, t, map[]).result.isOnlyValues <==> ValueOnlyIn(env, rank, t)
  {
    if ValueOnlyIn(env, rank, t) {
      AnalyzeComplete(env, rank, t, map[]);
    }
    AnalyzeSound(env, rank, t, map[]);
  }
}
