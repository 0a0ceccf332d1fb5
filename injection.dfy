/** What the container promises its users: once Start succeeds, every field tagged
    `inject` of every element holds the value of the one element that the field's
    lookup designates, whatever the order of registration.

    The field tables are keyed by the value of the object (its type and identity);
    the proof assumes, as Go requires of a structure, that the fields of each
    element's structure have distinct names. */
module Injection {
  import opened Common
  import opened GoTypes
  import opened Introspection
  import opened Elements
  import opened Environment
  import opened Resolution
  import opened Lifecycle
  import opened LifecycleFacts

  // ---------------------------------------------------------------------------
  // What a field should hold

  /** The fields of the structure behind a type; none for a type that is not a
      structure or a pointer to one. Any number of pointer levels are looked
      through. */
  function StructFields(t: GoType): (fs: seq<Field>)
    ensures var u := FindNoPointerType(Some(t)).value;
            (u.Struct? ==> fs == u.fields) && (!u.Struct? ==> fs == [])
    ensures t.Ptr? ==> fs == StructFields(t.elem)
  {
    var st := FindStructType(Some(t));
    if st.Some? then st.value.fields else []
  }

  predicate DistinctNames(fs: seq<Field>) {
    forall a, b :: 0 <= a < b < |fs| ==> fs[a].name != fs[b].name
  }

  /** An element's value is a non-nil value of the element's type. */
  predicate Typed(e: ElementInformation) {
    e.value.Val? && e.value.vtype == e.eltType
  }

  predicate AllTyped(els: seq<ElementInformation>) {
    forall j :: 0 <= j < |els| ==> Typed(els[j])
  }

  ghost predicate DistinctFieldNames(els: seq<ElementInformation>) {
    forall j :: 0 <= j < |els| ==> DistinctNames(StructFields(els[j].eltType))
  }

  /** The element a tagged field's lookup designates, when there is exactly one. */
  function Provider(env: Environment, els: seq<ElementInformation>, f: Field): (r: Option<nat>)
    requires f.inject.Some?
    ensures r.Some? ==> r.value < |els|
  {
    var l := FieldLookup(env, els, f);
    if l.Found? then Some(l.index) else None
  }

  /** The first tagged field of that name. */
  function TaggedNamed(fs: seq<Field>, n: string): (r: Option<Field>)
    ensures r.Some? ==> r.value.inject.Some? && r.value.name == n
  {
    if |fs| == 0 then None
    else if fs[0].inject.Some? && fs[0].name == n then Some(fs[0])
    else TaggedNamed(fs[1..], n)
  }

  /** What the container would write into field `n` of the object `v`, if anything. */
  function Want(env: Environment, els: seq<ElementInformation>, v: Value, n: string): Option<Value> {
    if v.Nil? then None
    else
      var f := TaggedNamed(StructFields(v.vtype), n);
      if f.None? then None
      else
        var p := Provider(env, els, f.value);
        if p.None? then None else Some(els[p.value].value)
  }

  /** Field `f` of element `i` holds the value of its provider. */
  ghost predicate FieldHolds(env: Environment, els: seq<ElementInformation>, store: Store, i: nat, f: Field)
    requires i < |els| && f.inject.Some?
  {
    var p := Provider(env, els, f);
    p.Some? && f.name in FieldTable(store, els[i].value) && FieldTable(store, els[i].value)[f.name] == els[p.value].value
  }

  /** Every tagged field of element `i` holds the value of its provider. */
  ghost predicate Holds(env: Environment, els: seq<ElementInformation>, store: Store, i: nat)
    requires i < |els|
  {
    var fs := StructFields(els[i].eltType);
    forall k :: 0 <= k < |fs| && fs[k].inject.Some? ==> FieldHolds(env, els, store, i, fs[k])
  }

  /** Every Initialized element, in state `s`, has its fields injected as the
      registry `els` (of the same shape as `s.elements`) designates. */
  ghost predicate Good(env: Environment, els: seq<ElementInformation>, s: CtxState)
    requires |s.elements| == |els|
  {
    forall j :: 0 <= j < |els| && s.elements[j].status == Initialized ==> Holds(env, els, s.store, j)
  }

  /** From store `a` to store `b`, no field disappears and every field that changes
      gets what the container wants there. */
  ghost predicate Grows(env: Environment, els: seq<ElementInformation>, a: Store, b: Store) {
    && (forall v, n :: n in FieldTable(a, v) ==> n in FieldTable(b, v))
    && (forall v, n :: n in FieldTable(b, v) ==>
          (n in FieldTable(a, v) && FieldTable(b, v)[n] == FieldTable(a, v)[n]) || Want(env, els, v, n) == Some(FieldTable(b, v)[n]))
  }

  // ---------------------------------------------------------------------------
  // Helper facts

  lemma {:induction false} TaggedNamedFinds(fs: seq<Field>, k: nat)
    requires DistinctNames(fs) && k < |fs| && fs[k].inject.Some?
    ensures TaggedNamed(fs, fs[k].name) == Some(fs[k])
    decreases k
  {
    if k > 0 {
      assert fs[0].name != fs[k].name;
      assert DistinctNames(fs[1..]) by {
        forall a, b | 0 <= a < b < |fs[1..]| ensures fs[1..][a].name != fs[1..][b].name {
          assert fs[1..][a] == fs[a + 1] && fs[1..][b] == fs[b + 1];
        }
      }
      TaggedNamedFinds(fs[1..], k - 1);
      assert fs[1..][k - 1] == fs[k];
    }
  }

  lemma {:induction false} ByNameShape(a: seq<ElementInformation>, b: seq<ElementInformation>, name: string, n: nat)
    requires SameShape(a, b) && n <= |a|
    ensures ByName(a, name, n) == ByName(b, name, n)
    decreases n
  {
    if n > 0 {
      ByNameShape(a, b, name, n - 1);
    }
  }

  lemma {:induction false} ByTypeShape(env: Environment, a: seq<ElementInformation>, b: seq<ElementInformation>,
                                       t: Option<GoType>, n: nat)
    requires SameShape(a, b) && n <= |a|
    ensures ByType(env, a, t, n) == ByType(env, b, t, n)
    decreases n
  {
    if n > 0 {
      ByTypeShape(env, a, b, t, n - 1);
    }
  }

  /** Lookups see only names and types, never statuses. */
  lemma ProviderShape(env: Environment, a: seq<ElementInformation>, b: seq<ElementInformation>, f: Field)
    requires SameShape(a, b) && f.inject.Some?
    ensures Provider(env, a, f) == Provider(env, b, f)
  {
    ByNameShape(a, b, TrimSpace(f.inject.value), |a|);
    ByTypeShape(env, a, b, FindNoPointerType(Some(f.ftype)), |a|);
  }

  lemma ShapeAlong(a: seq<ElementInformation>, b: seq<ElementInformation>, c: seq<ElementInformation>)
    requires SameShape(a, b) && Progress(b, c)
    ensures SameShape(a, c)
  {
    assert forall j :: 0 <= j < |b| ==> Step(b[j], c[j]);
  }

  lemma GrowsRefl(env: Environment, els: seq<ElementInformation>, a: Store)
    ensures Grows(env, els, a, a)
  {
  }

  lemma GrowsTrans(env: Environment, els: seq<ElementInformation>, a: Store, b: Store, c: Store)
    requires Grows(env, els, a, b) && Grows(env, els, b, c)
    ensures Grows(env, els, a, c)
  {
    forall v, n | n in FieldTable(c, v)
      ensures (n in FieldTable(a, v) && FieldTable(c, v)[n] == FieldTable(a, v)[n]) || Want(env, els, v, n) == Some(FieldTable(c, v)[n])
    {
      if n in FieldTable(b, v) && FieldTable(c, v)[n] == FieldTable(b, v)[n] {
        assert (n in FieldTable(a, v) && FieldTable(b, v)[n] == FieldTable(a, v)[n]) || Want(env, els, v, n) == Some(FieldTable(b, v)[n]);
      }
    }
  }

  /** The field write of injectDependencies is one the container wants, and makes
      the field hold its provider's value. */
  lemma WriteGrows(env: Environment, els: seq<ElementInformation>, store: Store, i: nat, fs: seq<Field>, k: nat, d: nat)
    requires i < |els| && Typed(els[i]) && fs == StructFields(els[i].eltType) && DistinctNames(fs)
    requires k < |fs| && fs[k].inject.Some? && Provider(env, els, fs[k]) == Some(d)
    requires SetAttribute(env, store, els[i].value, fs[k].name, els[d].value).err.None?
    ensures var w := SetAttribute(env, store, els[i].value, fs[k].name, els[d].value);
            Grows(env, els, store, w.store) && FieldHolds(env, els, w.store, i, fs[k])
  {
    var target := els[i].value;
    var w := SetAttribute(env, store, target, fs[k].name, els[d].value);
    TaggedNamedFinds(fs, k);
    assert Want(env, els, target, fs[k].name) == Some(els[d].value);
    forall v, n | n in FieldTable(w.store, v)
      ensures (n in FieldTable(store, v) && FieldTable(w.store, v)[n] == FieldTable(store, v)[n])
              || Want(env, els, v, n) == Some(FieldTable(w.store, v)[n])
    {
      if v == target && n == fs[k].name {
        assert FieldTable(w.store, v)[n] == els[d].value;
      }
    }
  }

  lemma FieldHoldsPreserved(env: Environment, els: seq<ElementInformation>, a: Store, b: Store, j: nat, k: nat)
    requires j < |els| && Typed(els[j]) && DistinctNames(StructFields(els[j].eltType))
    requires k < |StructFields(els[j].eltType)| && StructFields(els[j].eltType)[k].inject.Some?
    requires FieldHolds(env, els, a, j, StructFields(els[j].eltType)[k]) && Grows(env, els, a, b)
    ensures FieldHolds(env, els, b, j, StructFields(els[j].eltType)[k])
  {
    var fs := StructFields(els[j].eltType);
    var v := els[j].value;
    var n := fs[k].name;
    TaggedNamedFinds(fs, k);
    assert n in FieldTable(a, v) && n in FieldTable(b, v);
    assert Want(env, els, v, n) == Some(FieldTable(a, v)[n]);
    assert FieldTable(b, v)[n] == FieldTable(a, v)[n];
  }

  lemma HoldsPreserved(env: Environment, els: seq<ElementInformation>, a: Store, b: Store, j: nat)
    requires j < |els| && Typed(els[j]) && DistinctNames(StructFields(els[j].eltType))
    requires Holds(env, els, a, j) && Grows(env, els, a, b)
    ensures Holds(env, els, b, j)
  {
    var fs := StructFields(els[j].eltType);
    forall k | 0 <= k < |fs| && fs[k].inject.Some? ensures FieldHolds(env, els, b, j, fs[k]) {
      FieldHoldsPreserved(env, els, a, b, j, k);
    }
  }

  lemma GoodAfterGrowth(env: Environment, els: seq<ElementInformation>, t: CtxState, store: Store)
    requires |t.elements| == |els| && AllTyped(els) && DistinctFieldNames(els)
    requires Good(env, els, t) && Grows(env, els, t.store, store)
    ensures Good(env, els, t.(store := store))
  {
    forall j | 0 <= j < |els| && t.elements[j].status == Initialized ensures Holds(env, els, store, j) {
      HoldsPreserved(env, els, t.store, store, j);
    }
  }

  // ---------------------------------------------------------------------------
  // Soundness of initialization, by the same recursion as the functions

  /** The requirements every step below shares: `els` is the registry as it was
      when Start began, and `s` is a state of the same shape. */
  ghost predicate Ready(env: Environment, els: seq<ElementInformation>, s: CtxState) {
    WF(s) && SameShape(els, s.elements) && AllTyped(els) && DistinctFieldNames(els) && Good(env, els, s)
  }

  lemma {:induction false} InitSound(env: Environment, els: seq<ElementInformation>, s: CtxState, i: nat)
    requires Ready(env, els, s) && i < |s.elements|
    ensures var o := Init(env, s, i);
            o.err.None? ==> Ready(env, els, o.state) && Grows(env, els, s.store, o.state.store)
    decreases CountUninit(s.elements), 2, 0
  {
    var o := Init(env, s, i);
    GrowsRefl(env, els, s.store);
    if s.elements[i].status == Uninitialized {
      InjectDependenciesSound(env, els, s, i);
      var d := InjectDependencies(env, s, i);
      if d.err.None? {
        var a := CallAfterInject(env, d.state, i);
        ShapeAlong(els, s.elements, o.state.elements);
        assert a.state.elements == d.state.elements && a.state.store == d.state.store;
      }
    }
  }

  lemma {:induction false} InjectDependenciesSound(env: Environment, els: seq<ElementInformation>, s: CtxState, i: nat)
    requires Ready(env, els, s) && i < |s.elements| && s.elements[i].status == Uninitialized
    ensures var o := InjectDependencies(env, s, i);
            o.err.None? ==> Good(env, els, o.state) && Grows(env, els, s.store, o.state.store)
    decreases CountUninit(s.elements), 1, 0
  {
    CountUpdate(s.elements, i, s.elements[i].(status := InInitialization));
    var s1 := SetStatus(s, i, InInitialization);
    var fs := StructFields(els[i].eltType);
    GrowsRefl(env, els, s.store);
    GoodSetStatus(env, els, s, s.initialized, i, InInitialization);
    assert Ready(env, els, s1);
    if FindStructType(Some(s.elements[i].eltType)).None? {
      NotAStructure(env, s, i);
      GoodSetStatus(env, els, s1, s1.initialized, i, Initialized);
    } else {
      InjectFieldsSound(env, els, s1, i, fs, 0);
      var f := InjectFields(env, s1, i, fs, 0);
      if f.err.None? {
        FieldsInjected(env, s, i, fs, f.state);
        GoodSetStatus(env, els, f.state, f.state.initialized + [i], i, Initialized);
      }
    }
  }

  /** Changing the status of element `i` (and the log) keeps Good, provided `i`
      holds its fields when it becomes Initialized. */
  lemma GoodSetStatus(env: Environment, els: seq<ElementInformation>, t: CtxState, log: seq<nat>, i: nat, st: Status)
    requires |t.elements| == |els| && i < |els| && Good(env, els, t)
    requires st == Initialized ==> Holds(env, els, t.store, i)
    ensures Good(env, els, SetStatus(t.(initialized := log), i, st))
  {
  }

  lemma {:induction false} InjectFieldsSound(env: Environment, els: seq<ElementInformation>, s: CtxState, i: nat,
                                             fs: seq<Field>, k: nat)
    requires Ready(env, els, s) && i < |s.elements| && s.elements[i].status == InInitialization
    requires fs == StructFields(els[i].eltType) && k <= |fs|
    ensures FieldsSoundFrom(env, els, s, i, fs, k)
    decreases CountUninit(s.elements), 5, |fs| - k
  {
    if k == |fs| {
      GrowsRefl(env, els, s.store);
    } else if fs[k].inject.None? {
      InjectFieldsSound(env, els, s, i, fs, k + 1);
      SkippedStep(env, els, s, i, fs, k);
    } else {
      InjectFieldSound(env, els, s, i, fs, k);
      var o := InjectField(env, s, i, fs[k]);
      if o.err.None? {
        ProgressCount(s.elements, o.state.elements);
        InjectFieldsSound(env, els, o.state, i, fs, k + 1);
      }
      TaggedStep(env, els, s, i, fs, k);
    }
  }

  /** What InjectFieldsSound states from field `k` on. */
  ghost predicate FieldsSoundFrom(env: Environment, els: seq<ElementInformation>, s: CtxState, i: nat,
                                  fs: seq<Field>, k: nat)
    requires WF(s) && i < |s.elements| && s.elements[i].status == InInitialization && k <= |fs|
  {
    var o := InjectFields(env, s, i, fs, k);
    o.err.None? ==>
      && Ready(env, els, o.state) && Grows(env, els, s.store, o.state.store)
      && forall m :: k <= m < |fs| && fs[m].inject.Some? ==> FieldHolds(env, els, o.state.store, i, fs[m])
  }

  /** The step of InjectFieldsSound for a field without a tag. */
  lemma SkippedStep(env: Environment, els: seq<ElementInformation>, s: CtxState, i: nat, fs: seq<Field>, k: nat)
    requires Ready(env, els, s) && i < |s.elements| && s.elements[i].status == InInitialization
    requires fs == StructFields(els[i].eltType) && k < |fs| && fs[k].inject.None?
    requires FieldsSoundFrom(env, els, s, i, fs, k + 1)
    ensures FieldsSoundFrom(env, els, s, i, fs, k)
  {
    FieldSkipped(env, s, i, fs, k);
  }

  /** The step of InjectFieldsSound for a tagged field. */
  lemma TaggedStep(env: Environment, els: seq<ElementInformation>, s: CtxState, i: nat, fs: seq<Field>, k: nat)
    requires Ready(env, els, s) && i < |s.elements| && s.elements[i].status == InInitialization
    requires fs == StructFields(els[i].eltType) && k < |fs| && fs[k].inject.Some?
    requires var o := InjectField(env, s, i, fs[k]);
             o.err.None? ==>
               && Ready(env, els, o.state) && Grows(env, els, s.store, o.state.store)
               && FieldHolds(env, els, o.state.store, i, fs[k])
               && o.state.elements[i].status == InInitialization && FieldsSoundFrom(env, els, o.state, i, fs, k + 1)
    ensures FieldsSoundFrom(env, els, s, i, fs, k)
  {
    var o := InjectField(env, s, i, fs[k]);
    if o.err.Some? {
      FieldFailed(env, s, i, fs, k, o);
    } else {
      FieldInjected(env, s, i, fs, k, o.state);
      InjectedThenRest(env, els, s, i, fs, k, o.state, InjectFields(env, o.state, i, fs, k + 1));
    }
  }

  /** The step of InjectFieldsSound for a tagged field written: what the field and
      the rest of the loop give, together. */
  lemma InjectedThenRest(env: Environment, els: seq<ElementInformation>, s: CtxState, i: nat,
                         fs: seq<Field>, k: nat, t: CtxState, r: Outcome)
    requires i < |els| && Typed(els[i]) && DistinctNames(fs) && fs == StructFields(els[i].eltType)
    requires k < |fs| && fs[k].inject.Some?
    requires Grows(env, els, s.store, t.store) && FieldHolds(env, els, t.store, i, fs[k])
    requires r.err.None? ==>
               && Ready(env, els, r.state) && Grows(env, els, t.store, r.state.store)
               && forall m :: k + 1 <= m < |fs| && fs[m].inject.Some? ==> FieldHolds(env, els, r.state.store, i, fs[m])
    ensures r.err.None? ==>
              && Ready(env, els, r.state) && Grows(env, els, s.store, r.state.store)
              && forall m :: k <= m < |fs| && fs[m].inject.Some? ==> FieldHolds(env, els, r.state.store, i, fs[m])
  {
    if r.err.None? {
      GrowsTrans(env, els, s.store, t.store, r.state.store);
      FieldHoldsPreserved(env, els, t.store, r.state.store, i, k);
    }
  }

  lemma {:induction false} InjectFieldSound(env: Environment, els: seq<ElementInformation>, s: CtxState, i: nat,
                                            fs: seq<Field>, k: nat)
    requires Ready(env, els, s) && i < |s.elements| && s.elements[i].status == InInitialization
    requires fs == StructFields(els[i].eltType) && k < |fs| && fs[k].inject.Some?
    ensures var o := InjectField(env, s, i, fs[k]);
            o.err.None? ==>
              Ready(env, els, o.state) && Grows(env, els, s.store, o.state.store) && FieldHolds(env, els, o.state.store, i, fs[k])
    decreases CountUninit(s.elements), 4, 0
  {
    var l := FieldLookup(env, s.elements, fs[k]);
    if l.Found? {
      ProviderShape(env, els, s.elements, fs[k]);
      InjectResolvedSound(env, els, s, i, fs, k, l.index);
    }
  }

  lemma {:induction false} InjectResolvedSound(env: Environment, els: seq<ElementInformation>, s: CtxState, i: nat,
                                               fs: seq<Field>, k: nat, d: nat)
    requires Ready(env, els, s) && i < |s.elements| && s.elements[i].status == InInitialization
    requires fs == StructFields(els[i].eltType) && k < |fs| && fs[k].inject.Some?
    requires d < |s.elements| && Provider(env, els, fs[k]) == Some(d)
    ensures var o := InjectResolved(env, s, i, fs[k], d);
            o.err.None? ==>
              Ready(env, els, o.state) && Grows(env, els, s.store, o.state.store) && FieldHolds(env, els, o.state.store, i, fs[k])
    decreases CountUninit(s.elements), 3, 0
  {
    var o1 := if s.elements[d].status != Initialized then Init(env, s, d) else Outcome(s, None);
    if s.elements[d].status != Initialized {
      InitSound(env, els, s, d);
    } else {
      GrowsRefl(env, els, s.store);
    }
    if o1.err.None? {
      var w := SetAttribute(env, o1.state.store, s.elements[i].value, fs[k].name, s.elements[d].value);
      if w.err.None? {
        assert s.elements[i].value == els[i].value && s.elements[d].value == els[d].value;
        WriteGrows(env, els, o1.state.store, i, fs, k, d);
        GoodAfterGrowth(env, els, o1.state, w.store);
        GrowsTrans(env, els, s.store, o1.state.store, w.store);
      }
    }
  }

  // ---------------------------------------------------------------------------
  // Start

  lemma {:induction false} StartFromSound(env: Environment, els: seq<ElementInformation>, s: CtxState, k: nat)
    requires Ready(env, els, s) && k <= |s.elements|
    ensures var o := StartFrom(env, s, k);
            o.err.None? ==> |o.state.elements| == |els| && Good(env, els, o.state)
    decreases |s.elements| - k
  {
    if k < |s.elements| {
      InitSound(env, els, s, k);
      var o := Init(env, s, k);
      if o.err.None? {
        StartFromSound(env, els, o.state, k + 1);
      }
    }
  }

  /** After a successful Start, every tagged field of every element holds the value
      of the one element its lookup designates in the registry, provided the
      elements already Initialized before Start had theirs. */
  lemma StartInjects(env: Environment, s: CtxState)
    requires WF(s) && DistinctFieldNames(s.elements) && Good(env, s.elements, s)
    ensures var o := Start(env, s);
            o.err.None? ==>
              forall j, k :: 0 <= j < |s.elements| && 0 <= k < |StructFields(s.elements[j].eltType)|
                             && StructFields(s.elements[j].eltType)[k].inject.Some? ==>
                FieldHolds(env, s.elements, o.state.store, j, StructFields(s.elements[j].eltType)[k])
  {
    assert SameShape(s.elements, s.elements);
    assert AllTyped(s.elements) by {
      assert forall j :: 0 <= j < |s.elements| ==> ElementOK(s.elements[j]);
    }
    StartFromSound(env, s.elements, s, 0);
    StartOutcome(env, s);
  }

  /** In particular for a context in which nothing is Initialized yet, as after
      CreateContext and any number of Add calls. */
  lemma FreshStartInjects(env: Environment, s: CtxState)
    requires WF(s) && DistinctFieldNames(s.elements)
    requires forall j :: 0 <= j < |s.elements| ==> s.elements[j].status != Initialized
    ensures var o := Start(env, s);
            o.err.None? ==>
              forall j, k :: 0 <= j < |s.elements| && 0 <= k < |StructFields(s.elements[j].eltType)|
                             && StructFields(s.elements[j].eltType)[k].inject.Some? ==>
                FieldHolds(env, s.elements, o.state.store, j, StructFields(s.elements[j].eltType)[k])
  {
    StartInjects(env, s);
  }
}
