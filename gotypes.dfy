/** The part of Go's `reflect` package the container relies on, as values: the kinds
    of type it distinguishes (with the parts of each kind it reads), structure fields
    with their `inject` tag, and the dynamic values it stores. Nothing here computes;
    the behaviour of reflection that the container cannot see (assignability, method
    sets, field writes) is supplied by the `Environment` module. */
module GoTypes {
  import opened Common

  /** A Go type, by kind. `Prim` stands for the basic kinds (bool, int, float64,
      string, ...), whose reflected name is their own. Func types are not modelled. */
  datatype GoType =
    | Invalid
    | Prim(name: string)
    | Struct(name: string, fields: seq<Field>)
    | Ptr(elem: GoType)
    | Iface(name: string)
    | Array(len: nat, elem: GoType)
    | Slice(elem: GoType)
    | Map(key: GoType, elem: GoType)
    | Chan(elem: GoType)
    | UnsafePointer(name: string)

  /** A structure field: its name, its declared type and, when the field carries an
      `inject:"..."` tag, the tag's text (reflect.StructTag.Lookup("inject")). */
  datatype Field = Field(name: string, ftype: GoType, inject: Option<string>)

  /** reflect.Type.Name(): the name of a named type; the unnamed composite kinds
      (pointer, array, slice, map, channel) have the empty name. */
  function Name(t: GoType): string {
    match t
    case Prim(n) => n
    case Struct(n, _) => n
    case Iface(n) => n
    case UnsafePointer(n) => n
    case _ => ""
  }

  /** The kinds for which reflect.Type.Elem() is defined; for every other kind Go panics. */
  predicate HasElem(t: GoType) {
    t.Ptr? || t.Array? || t.Slice? || t.Map? || t.Chan?
  }

  /** A dynamic value held in an `interface{}`: nil, or a value of some type. `id`
      tells apart distinct values of one type; for a pointer it is the identity of the
      object pointed to. */
  datatype Value = Nil | Val(vtype: GoType, id: nat)

  /** reflect.TypeOf: nil for the nil interface. */
  function TypeOf(v: Value): (t: Option<GoType>)
    ensures t.None? <==> v.Nil?
  {
    if v.Nil? then None else Some(v.vtype)
  }

  /** The field tables of the structures that pointer values point to: for a pointer
      value, the current value of each field written so far. */
  type Store = map<Value, map<string, Value>>

  /** The fields of the structure a pointer points to, before any write: empty. */
  function FieldTable(store: Store, target: Value): map<string, Value> {
    if target in store then store[target] else map[]
  }
}
