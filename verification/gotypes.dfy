/** Go type descriptors as the reflect package exposes them to deepcopy.go, and the
    TypeAnalysisResult record that the classifier computes for them. */
module GoTypes {
  import opened Wrappers

  /** Identifier of a defined (named) type. */
  type TypeId = string

  /** The shape of a type descriptor. `Named(id)` refers to a defined type whose
      underlying shape the environment holds; it is how self-referential types
      such as `type Node struct { Next *Node }` are written. */
  datatype GoType =
    | Basic(name: string)          // bool, the integer, float and complex kinds, string
    | Array(len: nat, elem: GoType)
    | Struct(fields: seq<FieldType>)
    | Pointer(elem: GoType)
    | Slice(elem: GoType)
    | Map(key: GoType, elem: GoType)
    | Chan(elem: GoType)
    | Func
    | Interface
    | UnsafePointer
    | Invalid                      // a reference the environment does not define
    | Named(id: TypeId)

  /** A struct field: `exported` is Go's "PkgPath is empty". */
  datatype FieldType = FieldType(name: string, exported: bool, ty: GoType)

  /** Underlying shapes of the defined types. */
  type TypeEnv = map<TypeId, GoType>

  /** The shape the `switch t.Kind()` of the classifier sees: a defined type has the
      kind of its underlying shape. An undefined reference, or one defined as a bare
      reference to another name (which Go does not allow), has the Invalid kind. */
  function Underlying(env: TypeEnv, t: GoType): (u: GoType)
    ensures !u.Named?
    ensures !t.Named? ==> u == t
  {
    match t
    case Named(id) => if id in env && !env[id].Named? then env[id] else Invalid
    case _ => t
  }

  /** True iff values of static type `t` are interfaces: `reflect.TypeOf` of the
      zero value of such a type is nil. */
  predicate IsInterfaceType(env: TypeEnv, t: GoType) {
    Underlying(env, t).Interface?
  }

  /** Structural size of a type descriptor, not following named references. */
  function Size(t: GoType): nat
    decreases t
  {
    match t
    case Array(_, e) => 1 + Size(e)
    case Struct(fs) => 1 + FieldsSize(fs)
    case Pointer(e) => 1 + Size(e)
    case Slice(e) => 1 + Size(e)
    case Map(k, e) => 1 + Size(k) + Size(e)
    case Chan(e) => 1 + Size(e)
    case _ => 1
  }

  function FieldsSize(fs: seq<FieldType>): nat
    decreases fs
  {
    if |fs| == 0 then 0 else 1 + Size(fs[0].ty) + FieldsSize(fs[1..])
  }

  /** The exported field names of a struct. */
  function ExportedNames(fs: seq<FieldType>): set<string>
  {
    set i | 0 <= i < |fs| && fs[i].exported :: fs[i].name
  }

  predicate HasUnexported(fs: seq<FieldType>) {
    exists i :: 0 <= i < |fs| && !fs[i].exported
  }

  /** TypeAnalysisResult without the diagnostic TypeName. `fieldAnalysis` is None
      (Go's nil map) for every kind except struct. */
  datatype Analysis = Analysis(
    isOnlyValues: bool,
    containsPtr: bool,
    containsSlice: bool,
    containsMap: bool,
    containsChan: bool,
    containsFunc: bool,
    containsIface: bool,
    fieldAnalysis: Option<map<string, Analysis>>)

  /** A freshly allocated result object: every field false, no field analysis. */
  const Blank := Analysis(false, false, false, false, false, false, false, None)

  /** Result for a value-only leaf (scalar kinds), and the synthetic result for a
      nil type. */
  const ValueOnly := Blank.(isOnlyValues := true)
}
