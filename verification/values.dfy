/** Go values as copyRecursive sees them through reflect, and the source heap they
    point into. Every value except an interface carries its dynamic type, which is
    what `v.Type()` returns and what method lookup uses. */
module Values {
  import opened Wrappers
  import T = GoTypes

  /** Address of a heap cell: what `reflect.Value.Pointer()` returns. */
  type Addr = nat

  datatype Val =
    | Scalar(ty: T.GoType, token: int)                        // bool, numbers, string: opaque tokens
    | Ptr(ty: T.GoType, target: Option<Addr>)                 // None is the nil pointer
    | Struct(ty: T.GoType, fields: seq<Field>)
    | Slice(ty: T.GoType, isNil: bool, elems: seq<Val>, cap: nat)
    | Map(ty: T.GoType, isNil: bool, entries: seq<Entry>)
    | Iface(inner: Option<Val>)                               // None is the nil interface
    | Array(ty: T.GoType, items: seq<Val>)
    | Opaque(ty: T.GoType, handle: int)                       // channel, function, unsafe pointer
    | Time(ty: T.GoType, instant: int)                        // a time.Time

  datatype Field = Field(name: string, exported: bool, v: Val)

  /** A Go map is represented by the sequence of its insertions in iteration order;
      a lookup takes the last insertion of a key, as SetMapIndex overwrites. */
  datatype Entry = Entry(key: Val, value: Val)

  /** The nil slice and the nil map of a type, as `reflect.Zero` makes them. The
      nil flag is kept apart from the contents: a non-nil empty slice or map is
      `isNil == false` with no elements. */
  function NilSlice(ty: T.GoType): Val { Slice(ty, true, [], 0) }

  function NilMap(ty: T.GoType): Val { Map(ty, true, []) }

  /** The source heap: cell `a` holds the value a pointer with target `a` refers to. */
  type Heap = seq<Val>

  /** `v.Type()`: an interface value is seen with its interface type. */
  function TypeOf(v: Val): T.GoType {
    if v.Iface? then T.Interface else v.ty
  }

  /** The zero value of v's type: nil for pointers, slices, maps and interfaces,
      the zero token for scalars, handles and times, and zero elements and fields
      for arrays and structs. */
  function ZeroOf(v: Val): Val
    decreases v
  {
    match v
    case Scalar(ty, _) => Scalar(ty, 0)
    case Ptr(ty, _) => Ptr(ty, None)
    case Struct(ty, fs) => Struct(ty, seq(|fs|, i requires 0 <= i < |fs| => Field(fs[i].name, fs[i].exported, ZeroOf(fs[i].v))))
    case Slice(ty, _, _, _) => NilSlice(ty)
    case Map(ty, _, _) => NilMap(ty)
    case Iface(_) => Iface(None)
    case Array(ty, es) => Array(ty, seq(|es|, i requires 0 <= i < |es| => ZeroOf(es[i])))
    case Opaque(ty, _) => Opaque(ty, 0)
    case Time(ty, _) => Time(ty, 0)
  }

  /** Every pointer stored inline in `v` (not following pointers) targets an
      address below `n`. */
  predicate PointsInto(v: Val, n: nat)
    decreases v
  {
    match v
    case Ptr(_, target) => target.Some? ==> target.value < n
    case Struct(_, fs) => forall i | 0 <= i < |fs| :: PointsInto(fs[i].v, n)
    case Slice(_, _, elems, _) => forall i | 0 <= i < |elems| :: PointsInto(elems[i], n)
    case Map(_, _, entries) => forall i | 0 <= i < |entries| :: PointsInto(entries[i].key, n) && PointsInto(entries[i].value, n)
    case Iface(inner) => inner.Some? ==> PointsInto(inner.value, n)
    case Array(_, es) => forall i | 0 <= i < |es| :: PointsInto(es[i], n)
    case _ => true
  }

  /** Go's memory safety: every non-nil pointer in the heap targets a live cell. */
  predicate HeapClosed(src: Heap) {
    forall a | 0 <= a < |src| :: PointsInto(src[a], |src|)
  }

  /** Structural size of a value, not following pointers. */
  function ValSize(v: Val): (n: nat)
    ensures n >= 1
    decreases v
  {
    match v
    case Struct(_, fs) => 1 + FieldsSize(fs)
    case Slice(_, _, elems, _) => 1 + ValsSize(elems)
    case Map(_, _, entries) => 1 + EntriesSize(entries)
    case Iface(inner) => if inner.Some? then 1 + ValSize(inner.value) else 1
    case Array(_, es) => 1 + ValsSize(es)
    case _ => 1
  }

  function ValsSize(vs: seq<Val>): nat
    decreases vs
  {
    if |vs| == 0 then 0 else 1 + ValSize(vs[0]) + ValsSize(vs[1..])
  }

  function FieldsSize(fs: seq<Field>): nat
    decreases fs
  {
    if |fs| == 0 then 0 else 1 + ValSize(fs[0].v) + FieldsSize(fs[1..])
  }

  function EntriesSize(es: seq<Entry>): nat
    decreases es
  {
    if |es| == 0 then 0 else 1 + EntrySize(es[0]) + EntriesSize(es[1..])
  }

  function EntrySize(e: Entry): nat
    decreases e
  {
    ValSize(e.key) + ValSize(e.value)
  }
}
