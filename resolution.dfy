/** Finding registered elements by name, by type, or by both (getElementsByName,
    getElementsByNameAndType, getElementByType, getElementByName in
    depinject/context.go), and the zero / one / many policy the lookups share. An
    element is designated by its position in the registry, which only ever grows. */
module Resolution {
  import opened Common
  import opened GoTypes
  import opened Errors
  import opened Introsp
  import opened Elements
  import opened Environment

  const ContextFile: string := "depinject/context.go"

  /** The position recorded by an error built in a method of Context. */
  function Site(member: string, line: int): Position {
    Position(ContextFile, "github.com/deverdeb/bvmgo-util/depinject.(*Context)." + member, line)
  }

  /** An element of type `c` is a candidate for a request of type `t`: same type,
      assignable, or (for a kind that has an element type) whose element type is
      assignable. A nil requested type never matches (Go panics there). */
  predicate Matches(env: Environment, c: GoType, t: Option<GoType>) {
    t.Some? && (c == t.value || env.assignable(c, t.value) || (HasElem(c) && env.assignable(c.elem, t.value)))
  }

  /** An element is always a candidate for its own type, and never for a nil type;
      an element whose kind has an element type is also a candidate for what
      that element type is assignable to. */
  lemma MatchesOwnType(env: Environment, c: GoType, t: GoType)
    ensures Matches(env, c, Some(c))
    ensures !Matches(env, c, None)
    ensures HasElem(c) && env.assignable(c.elem, t) ==> Matches(env, c, Some(t))
  {
  }

  predicate Increasing(s: seq<nat>) {
    forall a, b :: 0 <= a < b < |s| ==> s[a] < s[b]
  }

  predicate InRange(els: seq<ElementInformation>, cands: seq<nat>) {
    forall k :: 0 <= k < |cands| ==> cands[k] < |els|
  }

  /** Positions, among the first `n` elements, of those with the given name. */
  function ByName(els: seq<ElementInformation>, name: string, n: nat): (r: seq<nat>)
    requires n <= |els|
    ensures forall j :: j in r <==> 0 <= j < n && els[j].name == name
    ensures forall k :: 0 <= k < |r| ==> r[k] < n
    ensures Increasing(r) && InRange(els, r)
  {
    if n == 0 then []
    else ByName(els, name, n - 1) + (if els[n - 1].name == name then [n - 1] else [])
  }

  /** Positions, among the first `n` elements, of the candidates for type `t`. */
  function ByType(env: Environment, els: seq<ElementInformation>, t: Option<GoType>, n: nat): (r: seq<nat>)
    requires n <= |els|
    ensures forall j :: j in r <==> 0 <= j < n && Matches(env, els[j].eltType, t)
    ensures forall k :: 0 <= k < |r| ==> r[k] < n
    ensures Increasing(r) && InRange(els, r)
  {
    if n == 0 then []
    else ByType(env, els, t, n - 1) + (if Matches(env, els[n - 1].eltType, t) then [n - 1] else [])
  }

  /** The first `n` of `cands` that are candidates for type `t`, in order. */
  function KeepMatching(env: Environment, els: seq<ElementInformation>, cands: seq<nat>,
                        t: Option<GoType>, n: nat): (r: seq<nat>)
    requires n <= |cands| && InRange(els, cands)
    ensures forall j :: j in r <==> j in cands[..n] && Matches(env, els[j].eltType, t)
    ensures Increasing(cands) ==> Increasing(r)
    ensures Increasing(cands) && n < |cands| ==> forall k :: 0 <= k < |r| ==> r[k] < cands[n]
    ensures InRange(els, r)
    ensures |r| <= n
  {
    if n == 0 then []
    else
      var r := KeepMatching(env, els, cands, t, n - 1);
      assert cands[..n] == cands[..n - 1] + [cands[n - 1]];
      if Matches(env, els[cands[n - 1]].eltType, t) then
        assert forall j :: j in r ==> j in cands[..n - 1];
        r + [cands[n - 1]]
      else r
  }

  /** getElementsByNameAndType: the elements of that name that are candidates for
      that type. */
  function ByNameAndType(env: Environment, els: seq<ElementInformation>, name: string,
                         t: Option<GoType>): (r: seq<nat>)
    ensures forall j :: j in r <==> 0 <= j < |els| && els[j].name == name && Matches(env, els[j].eltType, t)
    ensures Increasing(r) && InRange(els, r)
  {
    var byName := ByName(els, name, |els|);
    assert byName[..|byName|] == byName;
    KeepMatching(env, els, byName, t, |byName|)
  }

  /** The descriptions of the given elements, in order. */
  function Infos(els: seq<ElementInformation>, cands: seq<nat>): (r: seq<string>)
    requires InRange(els, cands)
    ensures |r| == |cands|
    ensures forall k :: 0 <= k < |cands| ==> r[k] == ElementString(els[cands[k]])
  {
    seq(|cands|, k requires 0 <= k < |cands| => ElementString(els[cands[k]]))
  }

  /** The descriptions joined with ", ", as the "too many elements" errors list them. */
  function InfoList(els: seq<ElementInformation>, cands: seq<nat>): string
    requires InRange(els, cands)
  {
    Join(Infos(els, cands), ", ")
  }

  /** The result of a single-element lookup. */
  datatype Lookup = Missing | Found(index: nat) | Failed(err: Error)

  /** The zero / one / many policy: no element, that element, or an error listing all
      candidates after the given text. */
  function Pick(els: seq<ElementInformation>, cands: seq<nat>, tooMany: string, at: Position): (r: Lookup)
    requires InRange(els, cands)
    ensures r.Missing? <==> |cands| == 0
    ensures r.Found? <==> |cands| == 1
    ensures r.Found? ==> r.index == cands[0] && r.index < |els|
    ensures r.Failed? ==> Unwrap(r.err) == None && r.err.Custom?
  {
    if |cands| == 1 then Found(cands[0])
    else if |cands| == 0 then Missing
    else Failed(New(tooMany + InfoList(els, cands), at))
  }

  /** getElementByType: a nil type finds nothing. */
  function ElementByType(env: Environment, els: seq<ElementInformation>, t: Option<GoType>): Lookup {
    if t.None? then Missing
    else
      Pick(els, ByType(env, els, t, |els|), "too many elements for type '" + TypeName(t) + "': ",
           Site("getElementByType", 245))
  }

  /** getElementByName. */
  function ElementByName(els: seq<ElementInformation>, name: string): Lookup {
    Pick(els, ByName(els, name, |els|), "too many elements for name '" + name + "': ",
         Site("getElementByName", 282))
  }

  // ---------------------------------------------------------------------------
  // Properties

  /** A lookup by type names exactly the candidate, when there is one, and otherwise
      no element or an error; the found element is a candidate and the only one. */
  lemma {:induction false} ElementByTypePolicy(env: Environment, els: seq<ElementInformation>, t: Option<GoType>)
    ensures var l := ElementByType(env, els, t);
            var cands := ByType(env, els, t, |els|);
            && (l.Missing? <==> t.None? || |cands| == 0)
            && (l.Found? ==> l.index < |els| && Matches(env, els[l.index].eltType, t)
                             && forall j :: 0 <= j < |els| && j != l.index ==> !Matches(env, els[j].eltType, t))
            && (l.Failed? ==> exists a, b :: 0 <= a < b < |els| && Matches(env, els[a].eltType, t) && Matches(env, els[b].eltType, t))
  {
    var cands := ByType(env, els, t, |els|);
    var l := ElementByType(env, els, t);
    if l.Found? {
      assert cands == [l.index];
    }
    if l.Failed? {
      assert cands[0] in cands && cands[1] in cands;
    }
  }

  /** A lookup by name follows the same policy. */
  lemma {:induction false} ElementByNamePolicy(els: seq<ElementInformation>, name: string)
    ensures var l := ElementByName(els, name);
            && (l.Missing? <==> forall j :: 0 <= j < |els| ==> els[j].name != name)
            && (l.Found? ==> l.index < |els| && els[l.index].name == name
                             && forall j :: 0 <= j < |els| && j != l.index ==> els[j].name != name)
            && (l.Failed? ==> exists a, b :: 0 <= a < b < |els| && els[a].name == name && els[b].name == name)
  {
    var cands := ByName(els, name, |els|);
    var l := ElementByName(els, name);
    if l.Missing? {
      assert forall j :: 0 <= j < |els| ==> els[j].name != name by {
        forall j | 0 <= j < |els| ensures els[j].name != name {
          assert j !in cands;
        }
      }
    }
    if l.Found? {
      assert cands == [l.index];
    }
    if l.Failed? {
      assert cands[0] in cands && cands[1] in cands;
    }
  }

  /** The "too many elements" error describes every candidate. */
  lemma TooManyListsAll(els: seq<ElementInformation>, cands: seq<nat>, tooMany: string, at: Position, k: nat)
    requires InRange(els, cands) && k < |cands| && Pick(els, cands, tooMany, at).Failed?
    ensures Contains(ErrorText(Pick(els, cands, tooMany, at).err), ElementString(els[cands[k]]))
  {
    var items := Infos(els, cands);
    JoinContainsItems(items, ", ", k);
    var e := Pick(els, cands, tooMany, at).err;
    ContainsWiden(InfoList(els, cands), ElementString(els[cands[k]]), tooMany, PositionText(e));
    assert ErrorText(e) == tooMany + InfoList(els, cands) + PositionText(e);
  }
}
