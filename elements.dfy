/** depinject/element.go: the three-state status of a container element and the
    record the container keeps for each element. */
module Elements {
  import opened Common
  import opened GoTypes

  /** elementStatus is a Go `int`; only the three constants below are ever stored. */
  type Status = int

  const Uninitialized: Status := 0
  const InInitialization: Status := 1
  const Initialized: Status := 2

  /** The name of a status, and a marker for anything else. */
  function StatusString(status: Status): (r: string)
    ensures r == "!!!Unknown status!!!" <==> !(0 <= status <= 2)
  {
    if status == Uninitialized then "Uninitialized"
    else if status == InInitialization then "InInitialization"
    else if status == Initialized then "Initialized"
    else "!!!Unknown status!!!"
  }

  /** The three statuses are 0, 1, 2 in that order and have three distinct names. */
  lemma StatusesDistinct()
    ensures Uninitialized < InInitialization < Initialized
    ensures Uninitialized == 0 && Initialized == 2
    ensures StatusString(Uninitialized) != StatusString(InInitialization)
    ensures StatusString(Uninitialized) != StatusString(Initialized)
    ensures StatusString(InInitialization) != StatusString(Initialized)
  {
  }

  /** elementInformation: what the container knows of one registered value. */
  datatype ElementInformation =
    ElementInformation(eltType: GoType, name: string, status: Status, value: Value)

  /** ToString: note that it uses the reflected Name() of the type, which is empty
      for pointer types. */
  function ElementString(e: ElementInformation): string {
    "[type=" + Name(e.eltType) + ", " + NamePart(e) + ", " + StatusPart(e)
  }

  function NamePart(e: ElementInformation): string {
    "name='" + e.name + "'"
  }

  function StatusPart(e: ElementInformation): string {
    "status=" + StatusString(e.status) + "]"
  }

  /** The description of an element starts with its type's name, and always quotes
      its name and names its status. */
  lemma {:induction false} ElementStringShows(e: ElementInformation)
    ensures ("[type=" + Name(e.eltType) + ", ") <= ElementString(e)
    ensures Contains(ElementString(e), "name='" + e.name + "'")
    ensures Contains(ElementString(e), "status=" + StatusString(e.status) + "]")
    ensures |ElementString(e)| > 0
  {
    var front := "[type=" + Name(e.eltType) + ", ";
    var back := ", " + StatusPart(e);
    ContainsMiddle(front, NamePart(e), back);
    assert front + NamePart(e) + back == ElementString(e);
    var head := front + NamePart(e) + ", ";
    ContainsSuffix(head, StatusPart(e));
    assert head + StatusPart(e) == ElementString(e);
  }
}
