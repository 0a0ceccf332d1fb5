/** The behaviour of depinject/context.go as functions of the container's state: a
    step of the container maps a state (and its arguments) to the next state and the
    error it returns. The imperative `Context` class is proved to follow these
    functions exactly; the properties of the container are proved about them.

    An element is designated by its position in `elements`; `initialized` holds
    positions in the order of completed injections. `store` holds the fields of the
    user objects the container writes to, `hooks` the calls it makes into them. */
module Lifecycle {
  import opened Common
  import opened GoTypes
  import opened Errors
  import opened Introsp
  import opened Introspection
  import opened Elements
  import opened Environment
  import opened Resolution

  datatype CtxState = CtxState(
    started: bool,
    elements: seq<ElementInformation>,
    initialized: seq<nat>,
    store: Store,
    hooks: seq<Hook>)

  /** What a step of the container returns: the new state and the error, if any. */
  datatype Outcome = Outcome(state: CtxState, err: Option<Error>)

  /** What a getter returns: the new state, the value (nil on error) and the error. */
  datatype Fetch = Fetch(state: CtxState, value: Value, err: Option<Error>)

  /** CreateContext, over the given user objects. */
  function Created(store: Store): CtxState {
    CtxState(false, [], [], store, [])
  }

  // ---------------------------------------------------------------------------
  // Invariants and how a step may change the state

  /** Every registered element holds a non-nil value of its own type and one of the
      three statuses. */
  predicate ElementOK(e: ElementInformation) {
    e.value.Val? && e.value.vtype == e.eltType && 0 <= e.status <= 2
  }

  predicate WF(s: CtxState) {
    InRange(s.elements, s.initialized) && forall j :: 0 <= j < |s.elements| ==> ElementOK(s.elements[j])
  }

  /** Same elements (type, name, value), statuses possibly different. */
  predicate SameShape(a: seq<ElementInformation>, b: seq<ElementInformation>) {
    |a| == |b| &&
    forall j :: 0 <= j < |a| ==> a[j].eltType == b[j].eltType && a[j].name == b[j].name && a[j].value == b[j].value
  }

  /** An element keeps its record, and its status stays or goes from Uninitialized
      to Initialized. */
  predicate Step(x: ElementInformation, y: ElementInformation) {
    x.eltType == y.eltType && x.name == y.name && x.value == y.value &&
    (x.status == y.status || (x.status == Uninitialized && y.status == Initialized))
  }

  predicate Progress(a: seq<ElementInformation>, b: seq<ElementInformation>) {
    |a| == |b| && forall j :: 0 <= j < |a| ==> Step(a[j], b[j])
  }

  /** The completion log only grows, and only with elements that were Uninitialized. */
  predicate LogGrowth(s: CtxState, t: CtxState) {
    s.initialized <= t.initialized &&
    forall k :: |s.initialized| <= k < |t.initialized| ==>
      t.initialized[k] < |s.elements| && s.elements[t.initialized[k]].status == Uninitialized
  }

  /** What every initialization step keeps. */
  predicate Kept(s: CtxState, t: CtxState) {
    WF(t) && Progress(s.elements, t.elements) && t.started == s.started &&
    LogGrowth(s, t) && s.hooks <= t.hooks
  }

  /** As Kept, except that nothing is said of the status of element `i`. */
  predicate KeptExcept(s: CtxState, t: CtxState, i: nat) {
    WF(t) && SameShape(s.elements, t.elements) && t.started == s.started &&
    LogGrowth(s, t) && s.hooks <= t.hooks &&
    forall j :: 0 <= j < |s.elements| && j != i ==> Step(s.elements[j], t.elements[j])
  }

  function SetStatus(s: CtxState, i: nat, status: Status): CtxState
    requires i < |s.elements|
  {
    s.(elements := s.elements[i := s.elements[i].(status := status)])
  }

  /** Number of Uninitialized elements: what initialization uses up. */
  function CountUninit(els: seq<ElementInformation>): nat {
    if |els| == 0 then 0
    else CountUninit(els[..|els| - 1]) + (if els[|els| - 1].status == Uninitialized then 1 else 0)
  }

  lemma {:induction false} CountUpdate(els: seq<ElementInformation>, i: nat, x: ElementInformation)
    requires i < |els|
    ensures CountUninit(els[i := x]) + (if els[i].status == Uninitialized then 1 else 0)
         == CountUninit(els) + (if x.status == Uninitialized then 1 else 0)
    decreases |els|
  {
    var n := |els|;
    var u := els[i := x];
    assert u[..n - 1] == if i < n - 1 then els[..n - 1][i := x] else els[..n - 1];
    if i < n - 1 {
      CountUpdate(els[..n - 1], i, x);
    }
  }

  lemma {:induction false} ProgressCount(a: seq<ElementInformation>, b: seq<ElementInformation>)
    requires Progress(a, b)
    ensures CountUninit(b) <= CountUninit(a)
    decreases |a|
  {
    if |a| > 0 {
      var n := |a|;
      assert Progress(a[..n - 1], b[..n - 1]);
      ProgressCount(a[..n - 1], b[..n - 1]);
      assert Step(a[n - 1], b[n - 1]);
    }
  }

  lemma KeptTrans(a: CtxState, b: CtxState, c: CtxState)
    requires Kept(a, b) && Kept(b, c)
    ensures Kept(a, c)
  {
    assert LogGrowth(a, c) by {
      forall k | |a.initialized| <= k < |c.initialized|
        ensures c.initialized[k] < |a.elements| && a.elements[c.initialized[k]].status == Uninitialized
      {
        if k >= |b.initialized| {
          assert Step(a.elements[c.initialized[k]], b.elements[c.initialized[k]]);
        } else {
          assert c.initialized[k] == b.initialized[k];
        }
      }
    }
    assert Progress(a.elements, c.elements) by {
      forall j | 0 <= j < |a.elements| ensures Step(a.elements[j], c.elements[j]) {
        assert Step(a.elements[j], b.elements[j]) && Step(b.elements[j], c.elements[j]);
      }
    }
  }

  lemma KeptRefl(s: CtxState)
    requires WF(s)
    ensures Kept(s, s)
  {
    assert Progress(s.elements, s.elements) by {
      forall j | 0 <= j < |s.elements| ensures Step(s.elements[j], s.elements[j]) {
      }
    }
  }

  /** Once the status of `i` has moved as a Step allows, KeptExcept is Kept. */
  lemma KeptFromExcept(s: CtxState, t: CtxState, i: nat)
    requires i < |s.elements| && KeptExcept(s, t, i) && Step(s.elements[i], t.elements[i])
    ensures Kept(s, t)
  {
  }

  /** A step that only records hook calls keeps everything else. */
  lemma KeptByHooks(s: CtxState, t: CtxState)
    requires WF(s) && t == s.(hooks := t.hooks) && s.hooks <= t.hooks
    ensures Kept(s, t)
  {
    assert Progress(s.elements, t.elements) by {
      forall j | 0 <= j < |s.elements| ensures Step(s.elements[j], t.elements[j]) {
      }
    }
  }

  // ---------------------------------------------------------------------------
  // Hooks and release

  /** callAfterInject: only a non-nil, Initialized value of an Initializable type
      gets its AfterInject called; the call is recorded and its error returned. */
  function CallAfterInject(env: Environment, s: CtxState, i: nat): (o: Outcome)
    requires i < |s.elements|
    ensures o.state == s || (s.elements[i].status == Initialized && o.state == s.(hooks := s.hooks + [AfterInjectCall(i)]))
    ensures o.err.Some? ==> o.state.hooks == s.hooks + [AfterInjectCall(i)]
  {
    var e := s.elements[i];
    if e.value.Nil? || e.status != Initialized then Outcome(s, None)
    else if env.initializable(e.value.vtype) then
      Outcome(s.(hooks := s.hooks + [AfterInjectCall(i)]), env.afterInject(e.value, |s.hooks|))
    else Outcome(s, None)
  }

  /** Whether callReleaseMethod calls Release on this element. */
  predicate Releasing(env: Environment, e: ElementInformation) {
    e.value.Val? && e.status == Initialized && env.releasable(e.value.vtype)
  }

  function CallReleaseMethod(env: Environment, s: CtxState, i: nat): CtxState
    requires i < |s.elements|
  {
    if Releasing(env, s.elements[i]) then s.(hooks := s.hooks + [ReleaseCall(i)]) else s
  }

  /** The loop of removeDependencies over the fields from `k` on: every tagged field
      is set to nil, a refused write being ignored. */
  function ClearFields(env: Environment, store: Store, target: Value, fs: seq<Field>, k: nat): (r: Store)
    requires k <= |fs|
    ensures forall o :: o != target ==> FieldTable(r, o) == FieldTable(store, o)
    decreases |fs| - k
  {
    if k == |fs| then store
    else
      var next := if fs[k].inject.Some? then SetAttribute(env, store, target, fs[k].name, Nil).store else store;
      ClearFields(env, next, target, fs, k + 1)
  }

  function RemoveDependencies(env: Environment, s: CtxState, i: nat): CtxState
    requires i < |s.elements|
  {
    var e := s.elements[i];
    var st := FindStructType(Some(e.eltType));
    var s1 := if st.Some? then s.(store := ClearFields(env, s.store, e.value, st.value.fields, 0)) else s;
    SetStatus(s1, i, Uninitialized)
  }

  /** releaseElement: Release if the element is Initialized and Releasable, then its
      injected fields are cleared and it is Uninitialized again. It stays in the
      completion log. */
  function Release(env: Environment, s: CtxState, i: nat): (r: CtxState)
    requires WF(s) && i < |s.elements|
    ensures WF(r) && SameShape(s.elements, r.elements)
    ensures r.started == s.started && r.initialized == s.initialized
    ensures r.elements[i].status == Uninitialized
    ensures forall j :: 0 <= j < |s.elements| && j != i ==> r.elements[j].status == s.elements[j].status
    ensures r.hooks == s.hooks + (if Releasing(env, s.elements[i]) then [ReleaseCall(i)] else [])
  {
    RemoveDependencies(env, CallReleaseMethod(env, s, i), i)
  }

  /** Releasing an element that was Uninitialized when its initialization began
      leaves a state the initialization may end in. */
  lemma ReleasedAfterFailure(env: Environment, s: CtxState, t: CtxState, i: nat)
    requires WF(s) && i < |s.elements| && s.elements[i].status == Uninitialized && KeptExcept(s, t, i)
    ensures Kept(s, Release(env, t, i))
  {
    var r := Release(env, t, i);
    assert Progress(s.elements, r.elements) by {
      forall j | 0 <= j < |s.elements| ensures Step(s.elements[j], r.elements[j]) {
        if j != i {
          assert Step(s.elements[j], t.elements[j]);
        }
      }
    }
  }

  // ---------------------------------------------------------------------------
  // Initialization: initializeElement, injectDependencies and its loop on fields

  /** How a tagged field finds its dependency: by type (of the field, without its
      pointers) when the trimmed tag is empty, by name otherwise. */
  function FieldLookup(env: Environment, els: seq<ElementInformation>, f: Field): Lookup
    requires f.inject.Some?
  {
    var depName := TrimSpace(f.inject.value);
    if depName == "" then ElementByType(env, els, FindNoPointerType(Some(f.ftype)))
    else ElementByName(els, depName)
  }

  /** The "(by type: T)" or "(by name: N)" part of the dependency errors. */
  function LookupWay(f: Field): string
    requires f.inject.Some?
  {
    var depName := TrimSpace(f.inject.value);
    if depName == "" then "(by type: " + TypeName(FindNoPointerType(Some(f.ftype))) + ")"
    else "(by name: " + depName + ")"
  }

  /** initializeElement: an element in initialization means a dependency loop; an
      Uninitialized one is injected then given its AfterInject call, and is released
      when either fails; an Initialized one is left alone. */
  function Init(env: Environment, s: CtxState, i: nat): (o: Outcome)
    requires WF(s) && i < |s.elements|
    ensures Kept(s, o.state)
    ensures o.err.None? ==> o.state.elements[i].status == Initialized
    ensures o.err.Some? && s.elements[i].status == Uninitialized ==> o.state.elements[i].status == Uninitialized
    decreases CountUninit(s.elements), 2, 0
  {
    var e := s.elements[i];
    if e.status == InInitialization then
      KeptRefl(s);
      Outcome(s, Some(New("failed to initialized '" + ElementString(e) + "' element, potential dependency loop",
                          Site("initializeElement", 97))))
    else if e.status == Uninitialized then
      var d := InjectDependencies(env, s, i);
      if d.err.Some? then
        var r := Release(env, d.state, i);
        ReleasedAfterFailure(env, s, d.state, i);
        Outcome(r, Some(NewWithCause(d.err, "failed to inject dependencies of '" + ElementString(r.elements[i]) + "' element",
                                     Site("initializeElement", 104))))
      else AfterInjection(env, s, d.state, i)
    else
      KeptRefl(s);
      Outcome(s, None)
  }

  /** The end of initializeElement once the dependencies of `i` are injected: the
      AfterInject call, and the release of the element when it fails. */
  function AfterInjection(env: Environment, s: CtxState, t: CtxState, i: nat): (o: Outcome)
    requires WF(s) && i < |s.elements| && s.elements[i].status == Uninitialized
    requires KeptExcept(s, t, i) && t.elements[i].status == Initialized
    ensures Kept(s, o.state)
    ensures o.state.elements[i].status == if o.err.None? then Initialized else Uninitialized
  {
    KeptFromExcept(s, t, i);
    var a := CallAfterInject(env, t, i);
    KeptByHooks(t, a.state);
    KeptTrans(s, t, a.state);
    if a.err.Some? then
      var r := Release(env, a.state, i);
      ReleasedAfterFailure(env, s, a.state, i);
      Outcome(r, Some(NewWithCause(a.err, "failed to initialized '" + ElementString(r.elements[i])
                                   + "' element after dependencies injection", Site("initializeElement", 110))))
    else Outcome(a.state, None)
  }

  /** injectDependencies: the element is in initialization while its tagged fields
      are resolved; a structure element is then appended to the completion log. */
  function InjectDependencies(env: Environment, s: CtxState, i: nat): (o: Outcome)
    requires WF(s) && i < |s.elements| && s.elements[i].status == Uninitialized
    ensures KeptExcept(s, o.state, i)
    ensures o.state.elements[i].status == if o.err.None? then Initialized else InInitialization
    decreases CountUninit(s.elements), 1, 0
  {
    CountUpdate(s.elements, i, s.elements[i].(status := InInitialization));
    var s1 := SetStatus(s, i, InInitialization);
    var st := FindStructType(Some(s.elements[i].eltType));
    if st.None? then
      InjectionEnds(s, s1, i, false);
      Outcome(SetStatus(s1, i, Initialized), None)
    else
      var f := InjectFields(env, s1, i, st.value.fields, 0);
      if f.err.Some? then
        InjectionStops(s, f.state, i);
        f
      else
        InjectionEnds(s, f.state, i, true);
        Outcome(SetStatus(f.state.(initialized := f.state.initialized + [i]), i, Initialized), None)
  }

  /** How injectDependencies ends for an element that is not a structure, and for
      one whose fields were all injected. */
  lemma NotAStructure(env: Environment, s: CtxState, i: nat)
    requires WF(s) && i < |s.elements| && s.elements[i].status == Uninitialized
    requires FindStructType(Some(s.elements[i].eltType)).None?
    ensures InjectDependencies(env, s, i) == Outcome(SetStatus(SetStatus(s, i, InInitialization), i, Initialized), None)
  {
  }

  lemma FieldsInjected(env: Environment, s: CtxState, i: nat, fs: seq<Field>, t: CtxState)
    requires WF(s) && i < |s.elements| && s.elements[i].status == Uninitialized
    requires FindStructType(Some(s.elements[i].eltType)).Some?
    requires fs == FindStructType(Some(s.elements[i].eltType)).value.fields
    requires Outcome(t, None) == InjectFields(env, SetStatus(s, i, InInitialization), i, fs, 0)
    ensures InjectDependencies(env, s, i) == Outcome(SetStatus(t.(initialized := t.initialized + [i]), i, Initialized), None)
  {
  }

  /** How injectDependencies leaves the state when its loop completes: the element
      is Initialized, and logged when it is a structure. */
  lemma InjectionEnds(s: CtxState, t: CtxState, i: nat, logged: bool)
    requires WF(s) && i < |s.elements| && s.elements[i].status == Uninitialized
    requires t == SetStatus(s, i, InInitialization) || Kept(SetStatus(s, i, InInitialization), t)
    ensures KeptExcept(s, SetStatus(t.(initialized := t.initialized + (if logged then [i] else [])), i, Initialized), i)
  {
    var s1 := SetStatus(s, i, InInitialization);
    var r := SetStatus(t.(initialized := t.initialized + (if logged then [i] else [])), i, Initialized);
    assert Progress(s1.elements, t.elements) by {
      if t == s1 {
        forall j | 0 <= j < |s1.elements| ensures Step(s1.elements[j], t.elements[j]) {
        }
      }
    }
    forall j | 0 <= j < |s.elements| && j != i ensures Step(s.elements[j], r.elements[j]) {
      assert Step(s1.elements[j], t.elements[j]);
    }
    assert LogGrowth(s, r) by {
      forall k | |s.initialized| <= k < |r.initialized|
        ensures r.initialized[k] < |s.elements| && s.elements[r.initialized[k]].status == Uninitialized
      {
        if k < |t.initialized| {
          assert r.initialized[k] == t.initialized[k];
          assert s1.elements[t.initialized[k]].status == Uninitialized;
        }
      }
    }
  }

  /** How injectDependencies leaves the state when a field fails. */
  lemma InjectionStops(s: CtxState, t: CtxState, i: nat)
    requires WF(s) && i < |s.elements| && s.elements[i].status == Uninitialized
    requires Kept(SetStatus(s, i, InInitialization), t)
    ensures KeptExcept(s, t, i) && t.elements[i].status == InInitialization
  {
    var s1 := SetStatus(s, i, InInitialization);
    forall j | 0 <= j < |s.elements| && j != i ensures Step(s.elements[j], t.elements[j]) {
      assert Step(s1.elements[j], t.elements[j]);
    }
    assert Step(s1.elements[i], t.elements[i]);
    assert LogGrowth(s, t) by {
      forall k | |s.initialized| <= k < |t.initialized|
        ensures t.initialized[k] < |s.elements| && s.elements[t.initialized[k]].status == Uninitialized
      {
        assert s1.elements[t.initialized[k]].status == Uninitialized;
      }
    }
  }

  /** The loop of injectDependencies over the fields from `k` on. */
  function InjectFields(env: Environment, s: CtxState, i: nat, fs: seq<Field>, k: nat): (o: Outcome)
    requires WF(s) && i < |s.elements| && s.elements[i].status == InInitialization && k <= |fs|
    ensures Kept(s, o.state)
    decreases CountUninit(s.elements), 5, |fs| - k
  {
    if k == |fs| then Outcome(s, None)
    else if fs[k].inject.None? then InjectFields(env, s, i, fs, k + 1)
    else
      var o := InjectField(env, s, i, fs[k]);
      if o.err.Some? then o
      else
        ProgressCount(s.elements, o.state.elements);
        var rest := InjectFields(env, o.state, i, fs, k + 1);
        KeptTrans(s, o.state, rest.state);
        rest
  }

  /** One iteration of the loop of injectDependencies, on a field without tag. */
  lemma FieldSkipped(env: Environment, s: CtxState, i: nat, fs: seq<Field>, k: nat)
    requires WF(s) && i < |s.elements| && s.elements[i].status == InInitialization && k < |fs|
    requires fs[k].inject.None?
    ensures InjectFields(env, s, i, fs, k) == InjectFields(env, s, i, fs, k + 1)
  {
  }

  /** One iteration of the loop of injectDependencies, on a tagged field that fails. */
  lemma FieldFailed(env: Environment, s: CtxState, i: nat, fs: seq<Field>, k: nat, o: Outcome)
    requires WF(s) && i < |s.elements| && s.elements[i].status == InInitialization && k < |fs|
    requires fs[k].inject.Some? && o == InjectField(env, s, i, fs[k]) && o.err.Some?
    ensures InjectFields(env, s, i, fs, k) == o
  {
  }

  /** One iteration of the loop of injectDependencies, on a tagged field written. */
  lemma FieldInjected(env: Environment, s: CtxState, i: nat, fs: seq<Field>, k: nat, t: CtxState)
    requires WF(s) && i < |s.elements| && s.elements[i].status == InInitialization && k < |fs|
    requires fs[k].inject.Some? && Outcome(t, None) == InjectField(env, s, i, fs[k])
    ensures WF(t) && i < |t.elements| && t.elements[i].status == InInitialization
    ensures InjectFields(env, s, i, fs, k) == InjectFields(env, t, i, fs, k + 1)
  {
  }

  /** One tagged field: find the dependency, then initialize and write it. */
  function InjectField(env: Environment, s: CtxState, i: nat, f: Field): (o: Outcome)
    requires WF(s) && i < |s.elements| && s.elements[i].status == InInitialization && f.inject.Some?
    ensures Kept(s, o.state)
    decreases CountUninit(s.elements), 4, 0
  {
    var byType := TrimSpace(f.inject.value) == "";
    var desc := ElementString(s.elements[i]);
    var l := FieldLookup(env, s.elements, f);
    KeptRefl(s);
    if l.Failed? then
      Outcome(s, Some(NewWithCause(Some(l.err), "failed to find '" + f.name + "' dependency " + LookupWay(f)
                                   + " of '" + desc + "' element", Site("injectDependencies", if byType then 138 else 147))))
    else if l.Missing? then
      Outcome(s, Some(New("missing '" + f.name + "' dependency " + LookupWay(f) + " of '" + desc + "' element",
                          Site("injectDependencies", if byType then 141 else 150))))
    else InjectResolved(env, s, i, f, l.index)
  }

  /** A tagged field whose dependency is element `d`: initialize `d` unless it is
      Initialized, then write its value into the field. */
  function InjectResolved(env: Environment, s: CtxState, i: nat, f: Field, d: nat): (o: Outcome)
    requires WF(s) && i < |s.elements| && s.elements[i].status == InInitialization && d < |s.elements|
    ensures Kept(s, o.state)
    decreases CountUninit(s.elements), 3, 0
  {
    KeptRefl(s);
    var o := if s.elements[d].status != Initialized then Init(env, s, d) else Outcome(s, None);
    if o.err.Some? then
      Outcome(o.state, Some(NewWithCause(o.err, "failed to initialized '" + f.name + "' dependency of '"
                                         + ElementString(o.state.elements[i]) + "' element", Site("injectDependencies", 157))))
    else
      var w := SetAttribute(env, o.state.store, s.elements[i].value, f.name, s.elements[d].value);
      if w.err.Some? then
        Outcome(o.state, Some(NewWithCause(w.err, "failed to initialized '" + f.name + "' dependency of '"
                                           + ElementString(o.state.elements[i]) + "' element, field cannot be set",
                                           Site("injectDependencies", 163))))
      else Outcome(o.state.(store := w.store), None)
  }

  // ---------------------------------------------------------------------------
  // Start and Stop

  /** The loop of Start from element `k` on: the first failure stops the context. */
  function StartFrom(env: Environment, s: CtxState, k: nat): (o: Outcome)
    requires WF(s) && k <= |s.elements|
    ensures WF(o.state) && SameShape(s.elements, o.state.elements)
    decreases |s.elements| - k
  {
    if k == |s.elements| then Outcome(s.(started := true), None)
    else
      var o := Init(env, s, k);
      if o.err.Some? then
        Outcome(Stop(env, o.state), Some(NewWithCause(o.err, "failed to start context, error during '"
                                                      + s.elements[k].name + "' element initialization", Site("Start", 77))))
      else StartFrom(env, o.state, k + 1)
  }

  /** One iteration of the loop of Start. */
  lemma StartFromStep(env: Environment, s: CtxState, k: nat)
    requires WF(s) && k < |s.elements|
    ensures var o := Init(env, s, k);
            StartFrom(env, s, k)
            == if o.err.Some? then
                 Outcome(Stop(env, o.state), Some(NewWithCause(o.err, "failed to start context, error during '"
                                                  + s.elements[k].name + "' element initialization", Site("Start", 77))))
               else StartFrom(env, o.state, k + 1)
  {
  }

  function Start(env: Environment, s: CtxState): (o: Outcome)
    requires WF(s)
    ensures WF(o.state) && SameShape(s.elements, o.state.elements)
  {
    StartFrom(env, s, 0)
  }

  /** The loop of Stop over the completion log from entry `k` on. */
  function ReleaseAll(env: Environment, s: CtxState, log: seq<nat>, k: nat): (r: CtxState)
    requires WF(s) && InRange(s.elements, log) && k <= |log|
    ensures WF(r) && SameShape(s.elements, r.elements) && r.started == s.started && r.initialized == s.initialized
    decreases |log| - k
  {
    if k == |log| then s else ReleaseAll(env, Release(env, s, log[k]), log, k + 1)
  }

  /** Stop: release the logged elements in log order, then empty the log. */
  function Stop(env: Environment, s: CtxState): (r: CtxState)
    requires WF(s)
    ensures WF(r) && SameShape(s.elements, r.elements) && !r.started && r.initialized == []
  {
    ReleaseAll(env, s, s.initialized, 0).(initialized := [], started := false)
  }

  // ---------------------------------------------------------------------------
  // Registration

  /** AddWithName: a nil value, or an element of the same name whose type matches,
      is refused; otherwise the element is appended, and initialized at once when
      the context is started. */
  function AddWithName(env: Environment, s: CtxState, v: Value, name: string): (o: Outcome)
    requires WF(s)
    ensures WF(o.state) && |o.state.elements| >= |s.elements|
  {
    if v.Nil? then Outcome(s, Some(New("context does not support nil element", Site("AddWithName", 48))))
    else
      var same := ByNameAndType(env, s.elements, name, Some(v.vtype));
      if |same| > 0 then
        Outcome(s, Some(New("cannot add '" + name + "' element, another element exists with same name and type: "
                            + ElementString(s.elements[same[0]]), Site("AddWithName", 54))))
      else
        var s1 := s.(elements := s.elements + [ElementInformation(v.vtype, name, Uninitialized, v)]);
        if s.started then Init(env, s1, |s.elements|) else Outcome(s1, None)
  }

  /** Add: the element is named after its type. */
  function Add(env: Environment, s: CtxState, v: Value): (o: Outcome)
    requires WF(s)
    ensures WF(o.state)
  {
    if v.Nil? then Outcome(s, Some(New("context does not support nil element", Site("Add", 39))))
    else AddWithName(env, s, v, TypeName(Some(v.vtype)))
  }

  // ---------------------------------------------------------------------------
  // Getters

  /** extractElementValue: an Uninitialized element is initialized first when the
      context is started. */
  function Extract(env: Environment, s: CtxState, i: nat): (f: Fetch)
    requires WF(s) && i < |s.elements|
    ensures WF(f.state) && SameShape(s.elements, f.state.elements)
  {
    var e := s.elements[i];
    if e.status == Uninitialized && s.started then
      var o := Init(env, s, i);
      if o.err.Some? then
        Fetch(o.state, Nil, Some(NewWithCause(o.err, "cannot return '" + e.name + "' element, failed to initialized",
                                              Site("extractElementValue", 354))))
      else Fetch(o.state, e.value, None)
    else Fetch(s, e.value, None)
  }

  function GetByType(env: Environment, s: CtxState, t: Option<GoType>): (f: Fetch)
    requires WF(s)
    ensures WF(f.state) && SameShape(s.elements, f.state.elements)
  {
    if t.None? then Fetch(s, Nil, Some(New("cannot find element with nil type", Site("GetByType", 253))))
    else
      var l := ElementByType(env, s.elements, t);
      if l.Failed? then Fetch(s, Nil, Some(l.err))
      else if l.Missing? then
        Fetch(s, Nil, Some(NewWithCause(None, "cannot find element with '" + TypeName(t) + "' type", Site("GetByType", 259))))
      else Extract(env, s, l.index)
  }

  function GetByName(env: Environment, s: CtxState, name: string): (f: Fetch)
    requires WF(s)
    ensures WF(f.state) && SameShape(s.elements, f.state.elements)
  {
    var l := ElementByName(s.elements, name);
    if l.Failed? then Fetch(s, Nil, Some(l.err))
    else if l.Missing? then
      Fetch(s, Nil, Some(NewWithCause(None, "cannot find element with '" + name + "' name", Site("GetByName", 321))))
    else Extract(env, s, l.index)
  }

  function GetByNameAndType(env: Environment, s: CtxState, name: string, t: Option<GoType>): (f: Fetch)
    requires WF(s)
    ensures WF(f.state) && SameShape(s.elements, f.state.elements)
  {
    var cands := ByNameAndType(env, s.elements, name, t);
    if |cands| == 1 then Extract(env, s, cands[0])
    else if |cands| == 0 then
      Fetch(s, Nil, Some(New("cannot find element with '" + name + "' name and '" + TypeName(t) + "' type",
                             Site("GetByNameAndType", 335))))
    else
      Fetch(s, Nil, Some(New("too many elements for name '" + name + "' and type '" + TypeName(t) + "': "
                             + InfoList(s.elements, cands), Site("GetByNameAndType", 345))))
  }
}
