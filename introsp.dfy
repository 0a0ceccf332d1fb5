/** Package `introsp`, the part the container uses: the readable name of a type,
    which appears in every container error and in element descriptions. */
module Introsp {
  import opened Common
  import opened GoTypes

  /** TypeName for a non-nil type: composite kinds are spelled out the way Go
      writes them, named kinds use their reflected name. */
  function Render(t: GoType): string {
    match t
    case Invalid => "<invalid>"
    case Array(n, e) => "[" + NatToString(n) + "]" + Render(e)
    case Slice(e) => "[]" + Render(e)
    case Map(k, e) => "map[" + Render(k) + "]" + Render(e)
    case Chan(e) => "chan " + Render(e)
    case Ptr(e) => "*" + Render(e)
    case UnsafePointer(n) => "unsafe." + n
    case _ => Name(t)
  }

  /** TypeName: the nil type is written "<nil>". */
  function TypeName(t: Option<GoType>): (r: string)
    ensures t.Some? ==> r == Render(t.value)
    ensures t.None? ==> r == "<nil>"
  {
    match t
    case None => "<nil>"
    case Some(u) => Render(u)
  }

  /** A named type is written as its bare name. */
  lemma NamedTypesUseTheirName(t: GoType)
    requires t.Prim? || t.Struct? || t.Iface?
    ensures TypeName(Some(t)) == Name(t)
  {
  }

  /** How each kind is written, in terms of the names of its components. */
  lemma TypeNameByKind(t: GoType)
    ensures t.Invalid? ==> TypeName(Some(t)) == "<invalid>"
    ensures t.Array? ==> TypeName(Some(t)) == "[" + NatToString(t.len) + "]" + TypeName(Some(t.elem))
    ensures t.Slice? ==> TypeName(Some(t)) == "[]" + TypeName(Some(t.elem))
    ensures t.Map? ==> TypeName(Some(t)) == "map[" + TypeName(Some(t.key)) + "]" + TypeName(Some(t.elem))
    ensures t.Chan? ==> TypeName(Some(t)) == "chan " + TypeName(Some(t.elem))
    ensures t.Ptr? ==> TypeName(Some(t)) == "*" + TypeName(Some(t.elem))
    ensures t.UnsafePointer? ==> TypeName(Some(t)) == "unsafe." + t.name
  {
  }

  /** `u` is `t` or one of the types `t` is built from (element or key types, at
      any depth). */
  predicate Within(u: GoType, t: GoType)
    decreases t
  {
    u == t || (HasElem(t) && Within(u, t.elem)) || (t.Map? && Within(u, t.key))
  }

  /** The name of a type with an element type ends with the element's name. */
  lemma ElemNameAppears(t: GoType)
    requires HasElem(t)
    ensures Contains(TypeName(Some(t)), TypeName(Some(t.elem)))
  {
    var e := TypeName(Some(t.elem));
    match t
    case Array(n, _) => ContainsSuffix("[" + NatToString(n) + "]", e);
    case Slice(_) => ContainsSuffix("[]", e);
    case Map(k, _) => ContainsSuffix("map[" + TypeName(Some(k)) + "]", e);
    case Chan(_) => ContainsSuffix("chan ", e);
    case Ptr(_) => ContainsSuffix("*", e);
  }

  /** The name of a map type shows its key type's name. */
  lemma KeyNameAppears(t: GoType)
    requires t.Map?
    ensures Contains(TypeName(Some(t)), TypeName(Some(t.key)))
  {
    var k := TypeName(Some(t.key));
    var e := TypeName(Some(t.elem));
    assert TypeName(Some(t)) == "map[" + k + "]" + e;
    ConcatAssoc("map[" + k, "]", e);
    ContainsMiddle("map[", k, "]" + e);
  }

  /** The name of a composite type shows the names of all the types it is built
      from, so an error naming a type names its element types too. */
  lemma {:induction false} ComponentNamesAppear(t: GoType, u: GoType)
    requires Within(u, t)
    ensures Contains(TypeName(Some(t)), TypeName(Some(u)))
    decreases t
  {
    var r := TypeName(Some(t));
    if u == t {
      ContainsPrefix(r, r);
    } else if HasElem(t) && Within(u, t.elem) {
      ComponentNamesAppear(t.elem, u);
      ElemNameAppears(t);
      ContainsTrans(r, TypeName(Some(t.elem)), TypeName(Some(u)));
    } else {
      ComponentNamesAppear(t.key, u);
      KeyNameAppears(t);
      ContainsTrans(r, TypeName(Some(t.key)), TypeName(Some(u)));
    }
  }

  /** The expectations of introsp/type_test.go. */
  lemma TypeNameExamples()
    ensures TypeName(Some(Prim("int"))) == "int"
    ensures TypeName(Some(Prim("bool"))) == "bool"
    ensures TypeName(Some(Array(3, Prim("int")))) == "[3]int"
    ensures TypeName(Some(Slice(Prim("int")))) == "[]int"
    ensures TypeName(Some(Map(Prim("string"), Prim("int")))) == "map[string]int"
    ensures TypeName(Some(Chan(Prim("string")))) == "chan string"
    ensures TypeName(Some(Struct("testStructure", []))) == "testStructure"
  {
    assert NatToString(3) == "3";
  }
}
