/** Why the value-only shortcut is safe: a value of a type the classifier calls
    value-only holds only scalars, arrays and exported struct fields, and
    copyRecursive rebuilds such a value as itself without allocating or recording
    anything. Returning the source unchanged is therefore what the traversal would
    have produced. */
module ShortcutProofs {
  import opened Wrappers
  import G = GoTypes
  import opened Values
  import opened Engine
  import DT = DefinedTypeProofs

  /** A value with no reference inside it: scalars, arrays of such values, and
      structs whose fields are all exported and hold such values. */
  predicate Plain(v: Val)
    decreases v
  {
    match v
    case Scalar(_, _) => true
    case Array(_, items) => forall i | 0 <= i < |items| :: Plain(items[i])
    case Struct(_, fs) => forall i | 0 <= i < |fs| :: fs[i].exported && Plain(fs[i].v)
    case _ => false
  }

  /** The value has the shape of the type descriptor, seen through the defined
      types of `env`: the kind the reflect package would report for it, and for
      arrays and structs the length, field visibility and field shapes. A
      time.Time is a struct with unexported fields. */
  predicate Conforms(env: G.TypeEnv, v: Val, t: G.GoType)
    decreases v
  {
    var u := G.Underlying(env, t);
    match v
    case Scalar(_, _) => u.Basic?
    case Ptr(_, _) => u.Pointer?
    case Struct(_, fs) =>
      && u.Struct? && |fs| == |u.fields|
      && forall i | 0 <= i < |fs| :: fs[i].exported == u.fields[i].exported && Conforms(env, fs[i].v, u.fields[i].ty)
    case Slice(_, _, _, _) => u.Slice?
    case Map(_, _, _) => u.Map?
    case Iface(_) => u.Interface?
    case Array(_, items) =>
      && u.Array? && |items| == u.len
      && forall i | 0 <= i < |items| :: Conforms(env, items[i], u.elem)
    case Opaque(_, _) => u.Chan? || u.Func? || u.UnsafePointer?
    case Time(_, _) => u.Struct? && G.HasUnexported(u.fields)
  }

  /** A value of a value-only type, defined types included, holds no reference. */
  lemma {:induction false} ValueOnlyTypeIsPlain(env: G.TypeEnv, rank: DT.Ranks, v: Val, t: G.GoType)
    requires DT.Ranked(env, rank) && DT.ValueOnlyIn(env, rank, t) && Conforms(env, v, t)
    ensures Plain(v)
    decreases v
  {
    var u := G.Underlying(env, t);
    assert DT.ValueOnlyIn(env, rank, u);
    match v
    case Array(_, items) =>
      forall i | 0 <= i < |items| ensures Plain(items[i]) {
        ValueOnlyTypeIsPlain(env, rank, items[i], u.elem);
      }
    case Struct(_, fs) =>
      forall i | 0 <= i < |fs| ensures fs[i].exported && Plain(fs[i].v) {
        ValueOnlyTypeIsPlain(env, rank, fs[i].v, u.fields[i].ty);
      }
    case _ =>
  }

  /** Without overrides, a plain value copies to itself and leaves the state alone. */
  lemma {:induction false} PlainCopiesToItself(mt: MethodTable, src: Heap, v: Val, st: CopyState)
    requires NoOverrides(mt) && HeapClosed(src) && PointsInto(v, |src|) && Plain(v)
    ensures CopyVal(mt, src, v, st) == Out(v, st)
    decreases ValSize(v), 1
  {
    match v
    case Scalar(_, _) =>
    case Array(ty, items) =>
      PlainElemsCopyToThemselves(mt, src, items, st);
      assert CopyVal(mt, src, v, st) == Out(Array(ty, CopyElems(mt, src, items, st).v), st);
    case Struct(ty, fs) =>
      assert Override(mt, src, v).None?;
      PlainFieldsCopyToThemselves(mt, src, fs, st);
      assert CopyVal(mt, src, v, st) == Out(Struct(ty, CopyFields(mt, src, fs, st).v), st);
  }

  lemma {:induction false} PlainElemsCopyToThemselves(mt: MethodTable, src: Heap, vs: seq<Val>, st: CopyState)
    requires NoOverrides(mt) && HeapClosed(src)
    requires forall i | 0 <= i < |vs| :: PointsInto(vs[i], |src|) && Plain(vs[i])
    ensures CopyElems(mt, src, vs, st) == Out(vs, st)
    decreases ValsSize(vs), 0
  {
    if |vs| > 0 {
      PlainCopiesToItself(mt, src, vs[0], st);
      PlainElemsCopyToThemselves(mt, src, vs[1..], st);
      assert CopyElems(mt, src, vs, st) == Out([vs[0]] + vs[1..], st);
      assert [vs[0]] + vs[1..] == vs;
    }
  }

  lemma {:induction false} PlainFieldsCopyToThemselves(mt: MethodTable, src: Heap, fs: seq<Field>, st: CopyState)
    requires NoOverrides(mt) && HeapClosed(src)
    requires forall i | 0 <= i < |fs| :: PointsInto(fs[i].v, |src|) && fs[i].exported && Plain(fs[i].v)
    ensures CopyFields(mt, src, fs, st) == Out(fs, st)
    decreases FieldsSize(fs), 0
  {
    if |fs| > 0 {
      PlainCopiesToItself(mt, src, fs[0].v, st);
      PlainFieldsCopyToThemselves(mt, src, fs[1..], st);
      assert CopyFields(mt, src, fs, st) == Out([Field(fs[0].name, true, fs[0].v)] + fs[1..], st);
      assert [Field(fs[0].name, true, fs[0].v)] + fs[1..] == fs;
    }
  }
}
