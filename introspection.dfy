/** depinject/introspection.go: reaching the structure, or the non-pointer type,
    behind any number of pointer levels. */
module Introspection {
  import opened Common
  import opened GoTypes
  import opened Introsp

  /** Number of pointer levels in front of a type. */
  function PointerDepth(t: GoType): nat {
    if t.Ptr? then 1 + PointerDepth(t.elem) else 0
  }

  /** `n` pointer levels in front of `base`. */
  function Pointers(n: nat, base: GoType): GoType {
    if n == 0 then base else Ptr(Pointers(n - 1, base))
  }

  function Stars(n: nat): string {
    if n == 0 then "" else "*" + Stars(n - 1)
  }

  /** findNoPointerType: strips every pointer level; nil stays nil. The result is
      the base that, under as many pointers as the input has, gives the input back. */
  function FindNoPointerType(t: Option<GoType>): (r: Option<GoType>)
    ensures r.None? <==> t.None?
    ensures r.Some? ==> !r.value.Ptr?
    ensures r.Some? ==> Pointers(PointerDepth(t.value), r.value) == t.value
    decreases if t.Some? then PointerDepth(t.value) else 0
  {
    match t
    case None => None
    case Some(u) => if u.Ptr? then FindNoPointerType(Some(u.elem)) else t
  }

  /** findStructType: the structure behind the pointers, or nil when there is none. */
  function FindStructType(t: Option<GoType>): (r: Option<GoType>)
    ensures r.Some? ==> r.value.Struct?
    ensures r.Some? <==> FindNoPointerType(t).Some? && FindNoPointerType(t).value.Struct?
    ensures r.Some? ==> r == FindNoPointerType(t)
    decreases if t.Some? then PointerDepth(t.value) else 0
  {
    match t
    case None => None
    case Some(u) =>
      if u.Struct? then t
      else if u.Ptr? then FindStructType(Some(u.elem))
      else None
  }

  /** A type that is not a pointer is its own non-pointer type. */
  lemma NoPointerTypeOfNonPointer(t: GoType)
    requires !t.Ptr?
    ensures FindNoPointerType(Some(t)) == Some(t)
  {
  }

  /** Stripping pointers twice is stripping them once. */
  lemma NoPointerTypeIdempotent(t: Option<GoType>)
    ensures FindNoPointerType(FindNoPointerType(t)) == FindNoPointerType(t)
  {
  }

  /** The base reached through the pointers is unique: any non-pointer base that,
      under some number of pointers, gives `t` is the one findNoPointerType returns. */
  lemma {:induction false} NoPointerTypeUnique(n: nat, base: GoType)
    requires !base.Ptr?
    ensures FindNoPointerType(Some(Pointers(n, base))) == Some(base)
    ensures PointerDepth(Pointers(n, base)) == n
  {
    if n > 0 {
      NoPointerTypeUnique(n - 1, base);
    }
  }

  /** The name of a pointer type is one star per level before the name of its base. */
  lemma {:induction false} TypeNameThroughPointers(t: GoType)
    ensures TypeName(Some(t)) == Stars(PointerDepth(t)) + TypeName(FindNoPointerType(Some(t)))
  {
    if t.Ptr? {
      TypeNameThroughPointers(t.elem);
    }
  }

  /** The expectations of depinject/introspection_test.go. */
  lemma IntrospectionExamples()
    ensures var s := Struct("testStructure", [Field("attribute", Prim("int"), None)]);
            && FindStructType(None) == None
            && FindStructType(Some(s)) == Some(s)
            && FindStructType(Some(Ptr(s))) == Some(s)
            && FindStructType(Some(Prim("int"))) == None
            && FindStructType(Some(Ptr(Prim("int")))) == None
            && FindNoPointerType(None) == None
            && FindNoPointerType(Some(Ptr(s))) == Some(s)
            && FindNoPointerType(Some(Prim("int"))) == Some(Prim("int"))
            && FindNoPointerType(Some(Ptr(Prim("int")))) == Some(Prim("int"))
  {
  }
}
