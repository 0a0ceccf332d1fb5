/** Properties of the container, proved about the functions of module `Lifecycle`
    (and so, through the contracts of class `Context`, about its methods). */
module LifecycleFacts {
  import opened Common
  import opened GoTypes
  import opened Errors
  import opened Introsp
  import opened Introspection
  import opened Elements
  import opened Environment
  import opened Resolution
  import opened Lifecycle

  // ---------------------------------------------------------------------------
  // Registration

  /** An element already registered under `name` whose type matches `t`. */
  ghost predicate Clash(env: Environment, els: seq<ElementInformation>, name: string, t: GoType) {
    exists j :: 0 <= j < |els| && els[j].name == name && Matches(env, els[j].eltType, Some(t))
  }

  /** AddWithName is refused, and changes nothing, for a nil value and for a name
      already held by an element whose type matches the new one. */
  lemma AddWithNameRefuses(env: Environment, s: CtxState, v: Value, name: string)
    requires WF(s) && (v.Nil? || Clash(env, s.elements, name, v.vtype))
    ensures AddWithName(env, s, v, name).state == s && AddWithName(env, s, v, name).err.Some?
  {
    if v.Val? {
      var j :| 0 <= j < |s.elements| && s.elements[j].name == name && Matches(env, s.elements[j].eltType, Some(v.vtype));
      assert j in ByNameAndType(env, s.elements, name, Some(v.vtype));
    }
  }

  /** Otherwise one Uninitialized element is appended at the end: before Start
      nothing else changes; after Start the new element is initialized at once and
      ends Initialized, or Uninitialized with the error. */
  lemma AddWithNameAppends(env: Environment, s: CtxState, v: Value, name: string)
    requires WF(s) && v.Val? && !Clash(env, s.elements, name, v.vtype)
    ensures var o := AddWithName(env, s, v, name);
            var added := s.elements + [ElementInformation(v.vtype, name, Uninitialized, v)];
            && (!s.started ==> o == Outcome(s.(elements := added), None))
            && (s.started ==> SameShape(added, o.state.elements)
                              && o.state.elements[|s.elements|].status == if o.err.None? then Initialized else Uninitialized)
  {
    if s.started {
      var added := s.elements + [ElementInformation(v.vtype, name, Uninitialized, v)];
      var o := Init(env, s.(elements := added), |s.elements|);
      assert forall j :: 0 <= j < |added| ==> Step(added[j], o.state.elements[j]);
    }
  }

  /** Add is AddWithName under the type's printed name, and refuses a nil value. */
  lemma AddOutcome(env: Environment, s: CtxState, v: Value)
    requires WF(s)
    ensures v.Nil? ==> Add(env, s, v).state == s && Add(env, s, v).err.Some?
    ensures v.Val? ==> Add(env, s, v) == AddWithName(env, s, v, TypeName(Some(v.vtype)))
  {
  }

  /** No two registered elements share a name while the later one's type matches the
      earlier one's: what the check of AddWithName maintains. */
  ghost predicate Unambiguous(env: Environment, els: seq<ElementInformation>) {
    forall a, b :: 0 <= a < b < |els| && els[a].name == els[b].name ==> !Matches(env, els[a].eltType, Some(els[b].eltType))
  }

  lemma AddKeepsUnambiguous(env: Environment, s: CtxState, v: Value, name: string)
    requires WF(s) && Unambiguous(env, s.elements)
    ensures Unambiguous(env, AddWithName(env, s, v, name).state.elements)
  {
    if v.Nil? || Clash(env, s.elements, name, v.vtype) {
      AddWithNameRefuses(env, s, v, name);
    } else {
      AddWithNameAppends(env, s, v, name);
      var x := ElementInformation(v.vtype, name, Uninitialized, v);
      var els := AddWithName(env, s, v, name).state.elements;
      assert SameShape(s.elements + [x], els);
      AppendKeepsUnambiguous(env, s.elements, x, els);
    }
  }

  /** Appending an element with no clash keeps the registry unambiguous, whatever
      the statuses become. */
  lemma AppendKeepsUnambiguous(env: Environment, els0: seq<ElementInformation>, x: ElementInformation,
                               els: seq<ElementInformation>)
    requires Unambiguous(env, els0) && SameShape(els0 + [x], els)
    requires !Clash(env, els0, x.name, x.eltType)
    ensures Unambiguous(env, els)
  {
    var n := |els0|;
    forall a, b | 0 <= a < b < |els| && els[a].name == els[b].name
      ensures !Matches(env, els[a].eltType, Some(els[b].eltType))
    {
      assert (els0 + [x])[a] == els0[a];
      if b < n {
        assert (els0 + [x])[b] == els0[b];
      } else {
        assert (els0 + [x])[b] == x;
      }
    }
  }

  // ---------------------------------------------------------------------------
  // Initialization

  /** An element met again while it is being initialized is a dependency loop; an
      Initialized element is left as it is. */
  lemma InitCases(env: Environment, s: CtxState, i: nat)
    requires WF(s) && i < |s.elements|
    ensures s.elements[i].status == InInitialization ==>
              var o := Init(env, s, i);
              && o.state == s && o.err.Some? && Unwrap(o.err.value) == None
              && Message(o.err.value) == "failed to initialized '" + ElementString(s.elements[i]) + "' element, potential dependency loop"
    ensures s.elements[i].status == Initialized ==> Init(env, s, i) == Outcome(s, None)
  {
  }

  /** A failed injection releases the element back to Uninitialized, and the error
      returned has the injection error as its cause. */
  lemma InitReleasesAfterFailedInjection(env: Environment, s: CtxState, i: nat)
    requires WF(s) && i < |s.elements| && s.elements[i].status == Uninitialized
    requires InjectDependencies(env, s, i).err.Some?
    ensures var o := Init(env, s, i);
            && o.err.Some? && Unwrap(o.err.value) == InjectDependencies(env, s, i).err
            && o.state.elements[i].status == Uninitialized
  {
  }

  /** A successful injection of a structure appends the element to the completion
      log exactly once, after its dependencies; an element that is not a structure
      becomes Initialized and is never logged, and nothing else changes. */
  lemma InjectDependenciesLog(env: Environment, s: CtxState, i: nat)
    requires WF(s) && i < |s.elements| && s.elements[i].status == Uninitialized
    ensures var st := FindStructType(Some(s.elements[i].eltType));
            st.None? ==> InjectDependencies(env, s, i) == Outcome(SetStatus(s, i, Initialized), None)
    ensures var st := FindStructType(Some(s.elements[i].eltType));
            var o := InjectDependencies(env, s, i);
            var log := o.state.initialized;
            st.Some? && o.err.None? ==>
              && |log| > |s.initialized| && s.initialized <= log
              && log[|log| - 1] == i && i !in log[|s.initialized|..|log| - 1]
  {
    var s1 := SetStatus(s, i, InInitialization);
    var st := FindStructType(Some(s.elements[i].eltType));
    if st.None? {
      assert SetStatus(s1, i, Initialized).elements == SetStatus(s, i, Initialized).elements;
    } else {
      var f := InjectFields(env, s1, i, st.value.fields, 0);
      if f.err.None? {
        var log := f.state.initialized + [i];
        assert LogGrowth(s1, f.state);
        forall k | |s.initialized| <= k < |log| - 1 ensures log[k] != i {
          assert s1.elements[f.state.initialized[k]].status == Uninitialized;
        }
        assert log[|s.initialized|..|log| - 1] == f.state.initialized[|s.initialized|..];
      }
    }
  }

  /** A tagged field whose dependency cannot be found fails with the "missing"
      error and changes nothing. */
  lemma MissingDependency(env: Environment, s: CtxState, i: nat, f: Field)
    requires WF(s) && i < |s.elements| && s.elements[i].status == InInitialization && f.inject.Some?
    requires FieldLookup(env, s.elements, f).Missing?
    ensures var o := InjectField(env, s, i, f);
            && o.state == s && o.err.Some? && Unwrap(o.err.value) == None
            && ("missing '" + f.name + "' dependency ") <= Message(o.err.value)
  {
    var p := "missing '" + f.name + "' dependency ";
    var desc := ElementString(s.elements[i]);
    PrefixAppend(p, p, LookupWay(f));
    PrefixAppend(p, p + LookupWay(f), " of '");
    PrefixAppend(p, p + LookupWay(f) + " of '", desc);
    PrefixAppend(p, p + LookupWay(f) + " of '" + desc, "' element");
  }

  /** Once a tagged field's dependency `d` is found, a successful step leaves `d`
      Initialized and its value in the field of the element's object. */
  lemma InjectResolvedWrites(env: Environment, s: CtxState, i: nat, f: Field, d: nat)
    requires WF(s) && i < |s.elements| && s.elements[i].status == InInitialization && d < |s.elements|
    ensures var o := InjectResolved(env, s, i, f, d);
            o.err.None? ==>
              && o.state.elements[d].status == Initialized
              && f.name in FieldTable(o.state.store, s.elements[i].value)
              && FieldTable(o.state.store, s.elements[i].value)[f.name] == s.elements[d].value
  {
  }

  /** AfterInject is called only on an Initialized element, and at most once. */
  lemma AfterInjectOnlyWhenInitialized(env: Environment, s: CtxState, i: nat)
    requires i < |s.elements|
    ensures var o := CallAfterInject(env, s, i);
            && (o.state.hooks != s.hooks ==> s.elements[i].status == Initialized && s.elements[i].value.Val?)
            && |o.state.hooks| <= |s.hooks| + 1
            && (s.elements[i].status != Initialized ==> o == Outcome(s, None))
  {
  }

  // ---------------------------------------------------------------------------
  // Start

  lemma {:induction false} StartFromOutcome(env: Environment, s: CtxState, k: nat)
    requires WF(s) && k <= |s.elements|
    requires forall j :: 0 <= j < k ==> s.elements[j].status == Initialized
    ensures var o := StartFrom(env, s, k);
            && (o.err.None? ==> o.state.started && forall j :: 0 <= j < |o.state.elements| ==> o.state.elements[j].status == Initialized)
            && (o.err.Some? ==> !o.state.started && o.state.initialized == [])
    decreases |s.elements| - k
  {
    if k < |s.elements| {
      var o := Init(env, s, k);
      if o.err.None? {
        forall j | 0 <= j < k + 1 ensures o.state.elements[j].status == Initialized {
          if j < k {
            assert Step(s.elements[j], o.state.elements[j]);
          }
        }
        StartFromOutcome(env, o.state, k + 1);
      }
    }
  }

  /** A successful Start leaves every element Initialized and the context started;
      a failed one has stopped the context: not started, completion log empty. */
  lemma StartOutcome(env: Environment, s: CtxState)
    requires WF(s)
    ensures var o := Start(env, s);
            && (o.err.None? ==> o.state.started && forall j :: 0 <= j < |o.state.elements| ==> o.state.elements[j].status == Initialized)
            && (o.err.Some? ==> !o.state.started && o.state.initialized == [])
  {
    StartFromOutcome(env, s, 0);
  }

  // ---------------------------------------------------------------------------
  // Stop

  /** The Release calls of a walk of the log, the elements in `seen` having been
      released already: one at the first entry of each element that was
      Initialized and Releasable before the walk. A later entry for the same element
      finds it Uninitialized and calls nothing. */
  function ReleaseCallsAfter(env: Environment, els: seq<ElementInformation>, log: seq<nat>, seen: set<nat>): (r: seq<Hook>)
    requires InRange(els, log)
    ensures |r| <= |log|
    ensures forall h :: h in r ==> h.ReleaseCall? && h.element in log && h.element !in seen && Releasing(env, els[h.element])
  {
    if |log| == 0 then []
    else
      (if Releasing(env, els[log[0]]) && log[0] !in seen then [ReleaseCall(log[0])] else [])
      + ReleaseCallsAfter(env, els, log[1..], seen + {log[0]})
  }

  /** The Release calls of Stop's walk over the log, from the elements before Stop. */
  function ReleaseCalls(env: Environment, els: seq<ElementInformation>, log: seq<nat>): (r: seq<Hook>)
    requires InRange(els, log)
    ensures |r| <= |log|
    ensures forall h :: h in r ==> h.ReleaseCall? && h.element in log && Releasing(env, els[h.element])
  {
    ReleaseCallsAfter(env, els, log, {})
  }

  /** An element gets a Release call exactly when it is logged, not seen yet, and
      Initialized and Releasable. */
  lemma {:induction false} ReleaseCallsAfterExactly(env: Environment, els: seq<ElementInformation>, log: seq<nat>,
                                                    seen: set<nat>, j: nat)
    requires InRange(els, log) && j < |els|
    ensures ReleaseCall(j) in ReleaseCallsAfter(env, els, log, seen) <==> j in log && j !in seen && Releasing(env, els[j])
    decreases |log|
  {
    if |log| > 0 {
      ReleaseCallsAfterExactly(env, els, log[1..], seen + {log[0]}, j);
      assert log == [log[0]] + log[1..];
    }
  }

  /** No hook appears twice in `r`. */
  predicate NoRepeats(r: seq<Hook>)
  {
    forall a, b :: 0 <= a < b < |r| ==> r[a] != r[b]
  }

  /** Putting a hook that is not there yet in front keeps a sequence free of repeats. */
  lemma NoRepeatsCons(h: Hook, rest: seq<Hook>)
    requires NoRepeats(rest) && h !in rest
    ensures NoRepeats([h] + rest)
  {
    var r := [h] + rest;
    forall a, b | 0 <= a < b < |r| ensures r[a] != r[b] {
      assert r[b] == rest[b - 1];
      if a > 0 {
        assert r[a] == rest[a - 1];
      }
    }
  }

  /** The calls from a suffix of the log never repeat an element. */
  lemma {:induction false} ReleaseCallsAfterOnce(env: Environment, els: seq<ElementInformation>, log: seq<nat>,
                                                 seen: set<nat>)
    requires InRange(els, log)
    ensures NoRepeats(ReleaseCallsAfter(env, els, log, seen))
    decreases |log|
  {
    if |log| > 0 {
      var rest := ReleaseCallsAfter(env, els, log[1..], seen + {log[0]});
      ReleaseCallsAfterOnce(env, els, log[1..], seen + {log[0]});
      if Releasing(env, els[log[0]]) && log[0] !in seen {
        assert ReleaseCall(log[0]) !in rest;
        NoRepeatsCons(ReleaseCall(log[0]), rest);
        assert ReleaseCallsAfter(env, els, log, seen) == [ReleaseCall(log[0])] + rest;
      } else {
        assert ReleaseCallsAfter(env, els, log, seen) == [] + rest;
        assert [] + rest == rest;
      }
    }
  }

  /** Stop calls Release once on each logged element that was Initialized and
      Releasable, and on no other, even when an element is logged twice. */
  lemma ReleaseCallsExactlyOnce(env: Environment, els: seq<ElementInformation>, log: seq<nat>, j: nat)
    requires InRange(els, log) && j < |els|
    ensures ReleaseCall(j) in ReleaseCalls(env, els, log) <==> j in log && Releasing(env, els[j])
    ensures NoRepeats(ReleaseCalls(env, els, log))
  {
    ReleaseCallsAfterExactly(env, els, log, {}, j);
    ReleaseCallsAfterOnce(env, els, log, {});
  }

  /** The loop of Stop from entry `k`: the logged elements end Uninitialized and
      the others keep their status. */
  lemma {:induction false} ReleaseAllStatus(env: Environment, s: CtxState, log: seq<nat>, k: nat)
    requires WF(s) && InRange(s.elements, log) && k <= |log|
    ensures var r := ReleaseAll(env, s, log, k);
            forall j :: 0 <= j < |s.elements| ==>
              r.elements[j].status == if j in log[k..] then Uninitialized else s.elements[j].status
    decreases |log| - k
  {
    if k < |log| {
      ReleaseAllStatus(env, Release(env, s, log[k]), log, k + 1);
      assert log[k..] == [log[k]] + log[k + 1..];
    }
  }

  /** Part way through Stop's walk: the elements in `seen` have been released and
      every other element is as it was before the walk. */
  predicate Walked(els: seq<ElementInformation>, now: seq<ElementInformation>, seen: set<nat>) {
    && |now| == |els|
    && forall j :: 0 <= j < |els| ==>
         (j in seen ==> now[j].status == Uninitialized) && (j !in seen ==> now[j] == els[j])
  }

  /** The loop of Stop calls Release in log order, once per element, on the
      elements Initialized and Releasable before the walk began. */
  lemma {:induction false} ReleaseAllHooks(env: Environment, els: seq<ElementInformation>, s: CtxState, log: seq<nat>,
                                           k: nat, seen: set<nat>)
    requires WF(s) && InRange(s.elements, log) && k <= |log| && Walked(els, s.elements, seen)
    ensures ReleaseAll(env, s, log, k).hooks == s.hooks + ReleaseCallsAfter(env, els, log[k..], seen)
    decreases |log| - k
  {
    if k < |log| {
      var t := Release(env, s, log[k]);
      WalkedStep(env, els, s, log[k], seen);
      ReleaseAllHooks(env, els, t, log, k + 1, seen + {log[k]});
      ReleaseHooksStep(env, els, s, log, k, seen);
    } else {
      assert log[k..] == [];
    }
  }

  /** Releasing the next entry extends the walk by that element. */
  lemma WalkedStep(env: Environment, els: seq<ElementInformation>, s: CtxState, i: nat, seen: set<nat>)
    requires WF(s) && i < |s.elements| && Walked(els, s.elements, seen)
    ensures Walked(els, Release(env, s, i).elements, seen + {i})
    ensures Releasing(env, s.elements[i]) <==> Releasing(env, els[i]) && i !in seen
  {
    ReleaseFrame(env, s, i);
  }

  /** The step of ReleaseAllHooks: the call for entry `k`, then those of the rest. */
  lemma ReleaseHooksStep(env: Environment, els: seq<ElementInformation>, s: CtxState, log: seq<nat>, k: nat,
                         seen: set<nat>)
    requires WF(s) && InRange(s.elements, log) && k < |log| && Walked(els, s.elements, seen)
    requires Releasing(env, s.elements[log[k]]) <==> Releasing(env, els[log[k]]) && log[k] !in seen
    requires var t := Release(env, s, log[k]);
             ReleaseAll(env, t, log, k + 1).hooks == t.hooks + ReleaseCallsAfter(env, els, log[k + 1..], seen + {log[k]})
    ensures ReleaseAll(env, s, log, k).hooks == s.hooks + ReleaseCallsAfter(env, els, log[k..], seen)
  {
    var t := Release(env, s, log[k]);
    var head := if Releasing(env, els[log[k]]) && log[k] !in seen then [ReleaseCall(log[k])] else [];
    assert ReleaseAll(env, s, log, k) == ReleaseAll(env, t, log, k + 1);
    assert log[k..][1..] == log[k + 1..];
    assert ReleaseCallsAfter(env, els, log[k..], seen) == head + ReleaseCallsAfter(env, els, log[k + 1..], seen + {log[k]});
    ConcatAssoc(s.hooks, head, ReleaseCallsAfter(env, els, log[k + 1..], seen + {log[k]}));
  }

  /** Releasing an element leaves every other element as it was. */
  lemma ReleaseFrame(env: Environment, s: CtxState, i: nat)
    requires WF(s) && i < |s.elements|
    ensures forall j :: 0 <= j < |s.elements| && j != i ==> Release(env, s, i).elements[j] == s.elements[j]
  {
    var r := Release(env, s, i);
    forall j | 0 <= j < |s.elements| && j != i ensures r.elements[j] == s.elements[j] {
      assert r.elements[j].status == s.elements[j].status;
    }
  }

  /** Stop: the context is no longer started, the log is empty, every logged element
      is Uninitialized again and every other keeps its status; Release is called
      in log order, once per element, on those Initialized and Releasable. */
  lemma StopOutcome(env: Environment, s: CtxState)
    requires WF(s)
    ensures var r := Stop(env, s);
            && !r.started && r.initialized == []
            && forall j :: 0 <= j < |s.elements| ==>
                 r.elements[j].status == if j in s.initialized then Uninitialized else s.elements[j].status
    ensures Stop(env, s).hooks == s.hooks + ReleaseCalls(env, s.elements, s.initialized)
  {
    ReleaseAllStatus(env, s, s.initialized, 0);
    ReleaseAllHooks(env, s.elements, s, s.initialized, 0, {});
    assert s.initialized[0..] == s.initialized;
  }

  lemma {:induction false} ClearFieldsKeepsNil(env: Environment, store: Store, target: Value, fs: seq<Field>, k: nat, name: string)
    requires k <= |fs| && name in FieldTable(store, target) && FieldTable(store, target)[name] == Nil
    ensures var r := ClearFields(env, store, target, fs, k);
            name in FieldTable(r, target) && FieldTable(r, target)[name] == Nil
    decreases |fs| - k
  {
    if k < |fs| {
      var next := if fs[k].inject.Some? then SetAttribute(env, store, target, fs[k].name, Nil).store else store;
      ClearFieldsKeepsNil(env, next, target, fs, k + 1, name);
    }
  }

  /** Every tagged field whose nil write is accepted ends nil. */
  lemma {:induction false} ClearFieldsClears(env: Environment, store: Store, target: Value, fs: seq<Field>, k: nat, m: nat)
    requires k <= m < |fs| && fs[m].inject.Some? && env.setRefusal(target, fs[m].name, Nil).None?
    ensures var r := ClearFields(env, store, target, fs, k);
            fs[m].name in FieldTable(r, target) && FieldTable(r, target)[fs[m].name] == Nil
    decreases |fs| - k
  {
    var next := if fs[k].inject.Some? then SetAttribute(env, store, target, fs[k].name, Nil).store else store;
    if k == m {
      ClearFieldsKeepsNil(env, next, target, fs, k + 1, fs[m].name);
    } else {
      ClearFieldsClears(env, next, target, fs, k + 1, m);
    }
  }

  /** Releasing a structure element sets each of its tagged fields to nil, except
      those whose write the object refuses. */
  lemma ReleaseClearsFields(env: Environment, s: CtxState, i: nat, m: nat)
    requires WF(s) && i < |s.elements|
    requires var st := FindStructType(Some(s.elements[i].eltType));
             st.Some? && m < |st.value.fields| && st.value.fields[m].inject.Some?
             && env.setRefusal(s.elements[i].value, st.value.fields[m].name, Nil).None?
    ensures var fs := FindStructType(Some(s.elements[i].eltType)).value.fields;
            var table := FieldTable(Release(env, s, i).store, s.elements[i].value);
            fs[m].name in table && table[fs[m].name] == Nil
  {
    var c := CallReleaseMethod(env, s, i);
    var fs := FindStructType(Some(s.elements[i].eltType)).value.fields;
    ClearFieldsClears(env, c.store, s.elements[i].value, fs, 0, m);
  }

  /** A field already nil stays nil through a release. */
  lemma ReleaseKeepsNil(env: Environment, s: CtxState, i: nat, target: Value, name: string)
    requires WF(s) && i < |s.elements|
    requires name in FieldTable(s.store, target) && FieldTable(s.store, target)[name] == Nil
    ensures var table := FieldTable(Release(env, s, i).store, target);
            name in table && table[name] == Nil
  {
    var c := CallReleaseMethod(env, s, i);
    var st := FindStructType(Some(s.elements[i].eltType));
    if st.Some? && target == s.elements[i].value {
      ClearFieldsKeepsNil(env, c.store, target, st.value.fields, 0, name);
    }
  }

  /** A field already nil stays nil through the rest of Stop's walk. */
  lemma {:induction false} ReleaseAllKeepsNil(env: Environment, s: CtxState, log: seq<nat>, k: nat, target: Value, name: string)
    requires WF(s) && InRange(s.elements, log) && k <= |log|
    requires name in FieldTable(s.store, target) && FieldTable(s.store, target)[name] == Nil
    ensures var table := FieldTable(ReleaseAll(env, s, log, k).store, target);
            name in table && table[name] == Nil
    decreases |log| - k
  {
    if k < |log| {
      ReleaseKeepsNil(env, s, log[k], target, name);
      ReleaseAllKeepsNil(env, Release(env, s, log[k]), log, k + 1, target, name);
    }
  }

  /** The element is a structure whose field `m` is tagged and accepts nil. */
  ghost predicate ClearableField(env: Environment, e: ElementInformation, m: nat) {
    var st := FindStructType(Some(e.eltType));
    st.Some? && m < |st.value.fields| && st.value.fields[m].inject.Some?
    && env.setRefusal(e.value, st.value.fields[m].name, Nil).None?
  }

  /** Field `m` of the element is nil in the store. */
  ghost predicate FieldIsNil(store: Store, e: ElementInformation, m: nat)
    requires FindStructType(Some(e.eltType)).Some? && m < |FindStructType(Some(e.eltType)).value.fields|
  {
    var name := FindStructType(Some(e.eltType)).value.fields[m].name;
    name in FieldTable(store, e.value) && FieldTable(store, e.value)[name] == Nil
  }

  /** Stop's walk from entry `k` clears every accepted tagged field of each element
      that has an entry from `k` on. */
  lemma {:induction false} ReleaseAllClears(env: Environment, s: CtxState, log: seq<nat>, k: nat, j: nat, m: nat)
    requires WF(s) && InRange(s.elements, log) && k <= |log| && j < |s.elements| && j in log[k..]
    requires ClearableField(env, s.elements[j], m)
    ensures FieldIsNil(ReleaseAll(env, s, log, k).store, s.elements[j], m)
    decreases |log| - k
  {
    var t := Release(env, s, log[k]);
    if log[k] == j {
      ReleaseClearsFields(env, s, j, m);
      var name := FindStructType(Some(s.elements[j].eltType)).value.fields[m].name;
      ReleaseAllKeepsNil(env, t, log, k + 1, s.elements[j].value, name);
    } else {
      assert log[k..] == [log[k]] + log[k + 1..];
      assert t.elements[j].eltType == s.elements[j].eltType && t.elements[j].value == s.elements[j].value;
      ReleaseAllClears(env, t, log, k + 1, j, m);
    }
  }

  /** After Stop, every logged structure element has each tagged field nil, except
      those whose nil write the object refuses. */
  lemma StopClearsFields(env: Environment, s: CtxState, j: nat, m: nat)
    requires WF(s) && j < |s.elements| && j in s.initialized && ClearableField(env, s.elements[j], m)
    ensures FieldIsNil(Stop(env, s).store, s.elements[j], m)
  {
    assert s.initialized[0..] == s.initialized;
    ReleaseAllClears(env, s, s.initialized, 0, j, m);
  }

  // ---------------------------------------------------------------------------
  // Getters

  /** extractElementValue initializes an Uninitialized element only once the
      context is started; otherwise it returns the value and changes nothing. */
  lemma ExtractLazy(env: Environment, s: CtxState, i: nat)
    requires WF(s) && i < |s.elements|
    ensures !s.started || s.elements[i].status != Uninitialized ==>
              Extract(env, s, i) == Fetch(s, s.elements[i].value, None)
    ensures s.started && s.elements[i].status == Uninitialized ==>
              var f := Extract(env, s, i);
              && (f.err.None? ==> f.value == s.elements[i].value && f.state.elements[i].status == Initialized)
              && (f.err.Some? ==> f.value.Nil? && f.state.elements[i].status == Uninitialized)
  {
  }

  /** GetByName returns the value of the only element of that name, and fails,
      changing nothing, when there is none or more than one. */
  lemma GetByNameResult(env: Environment, s: CtxState, name: string)
    requires WF(s)
    ensures var f := GetByName(env, s, name);
            && (f.err.None? ==> exists j :: 0 <= j < |s.elements| && s.elements[j].name == name && f.value == s.elements[j].value)
            && ((forall j :: 0 <= j < |s.elements| ==> s.elements[j].name != name) ==> f.err.Some? && f.state == s)
            && ((exists a, b :: 0 <= a < b < |s.elements| && s.elements[a].name == name && s.elements[b].name == name)
                  ==> f.err.Some? && f.state == s && f.value.Nil?)
    ensures forall j :: OnlyNamed(s.elements, name, j) ==> GetByName(env, s, name) == Extract(env, s, j)
  {
    GetByNameOutcomes(env, s, name);
    forall j | OnlyNamed(s.elements, name, j) ensures GetByName(env, s, name) == Extract(env, s, j) {
      GetByNameUnique(env, s, name, j);
    }
  }

  /** The error paths and the found value of GetByName. */
  lemma GetByNameOutcomes(env: Environment, s: CtxState, name: string)
    requires WF(s)
    ensures var f := GetByName(env, s, name);
            && (f.err.None? ==> exists j :: 0 <= j < |s.elements| && s.elements[j].name == name && f.value == s.elements[j].value)
            && ((forall j :: 0 <= j < |s.elements| ==> s.elements[j].name != name) ==> f.err.Some? && f.state == s)
            && ((exists a, b :: 0 <= a < b < |s.elements| && s.elements[a].name == name && s.elements[b].name == name)
                  ==> f.err.Some? && f.state == s && f.value.Nil?)
  {
    ElementByNamePolicy(s.elements, name);
    var l := ElementByName(s.elements, name);
    if l.Found? {
      ExtractLazy(env, s, l.index);
    }
  }

  /** GetByType returns the value of the only candidate for the type, and fails,
      changing nothing, for a nil type, no candidate or several. */
  lemma GetByTypeResult(env: Environment, s: CtxState, t: Option<GoType>)
    requires WF(s)
    ensures var f := GetByType(env, s, t);
            && (f.err.None? ==> exists j :: 0 <= j < |s.elements| && Matches(env, s.elements[j].eltType, t) && f.value == s.elements[j].value)
            && (t.None? || (forall j :: 0 <= j < |s.elements| ==> !Matches(env, s.elements[j].eltType, t)) ==> f.err.Some? && f.state == s)
            && ((exists a, b :: 0 <= a < b < |s.elements| && Matches(env, s.elements[a].eltType, t) && Matches(env, s.elements[b].eltType, t))
                  ==> f.err.Some? && f.state == s && f.value.Nil?)
    ensures forall j :: OnlyCandidate(env, s.elements, t, j) ==> GetByType(env, s, t) == Extract(env, s, j)
  {
    GetByTypeOutcomes(env, s, t);
    forall j | OnlyCandidate(env, s.elements, t, j) ensures GetByType(env, s, t) == Extract(env, s, j) {
      GetByTypeUnique(env, s, t, j);
    }
  }

  /** The error paths and the found value of GetByType. */
  lemma GetByTypeOutcomes(env: Environment, s: CtxState, t: Option<GoType>)
    requires WF(s)
    ensures var f := GetByType(env, s, t);
            && (f.err.None? ==> exists j :: 0 <= j < |s.elements| && Matches(env, s.elements[j].eltType, t) && f.value == s.elements[j].value)
            && (t.None? || (forall j :: 0 <= j < |s.elements| ==> !Matches(env, s.elements[j].eltType, t)) ==> f.err.Some? && f.state == s)
            && ((exists a, b :: 0 <= a < b < |s.elements| && Matches(env, s.elements[a].eltType, t) && Matches(env, s.elements[b].eltType, t))
                  ==> f.err.Some? && f.state == s && f.value.Nil?)
  {
    ElementByTypePolicy(env, s.elements, t);
    var l := ElementByType(env, s.elements, t);
    if l.Found? {
      ExtractLazy(env, s, l.index);
    }
  }

  /** Element `j` is the only one with that name. */
  predicate OnlyNamed(els: seq<ElementInformation>, name: string, j: int) {
    && 0 <= j < |els| && els[j].name == name
    && forall k :: 0 <= k < |els| && els[k].name == name ==> k == j
  }

  /** Element `j` is the only candidate for the type. */
  ghost predicate OnlyCandidate(env: Environment, els: seq<ElementInformation>, t: Option<GoType>, j: int) {
    && 0 <= j < |els| && Matches(env, els[j].eltType, t)
    && forall k :: 0 <= k < |els| && Matches(env, els[k].eltType, t) ==> k == j
  }

  /** When element `j` is the only one with that name, GetByName extracts it. */
  lemma GetByNameUnique(env: Environment, s: CtxState, name: string, j: nat)
    requires WF(s) && OnlyNamed(s.elements, name, j)
    ensures GetByName(env, s, name) == Extract(env, s, j)
  {
    ElementByNamePolicy(s.elements, name);
  }

  /** When element `j` is the only candidate for the type, GetByType extracts it. */
  lemma GetByTypeUnique(env: Environment, s: CtxState, t: Option<GoType>, j: nat)
    requires WF(s) && OnlyCandidate(env, s.elements, t, j)
    ensures GetByType(env, s, t) == Extract(env, s, j)
  {
    ElementByTypePolicy(env, s.elements, t);
  }

  /** Element `j` has that name and a type that matches. */
  ghost predicate Provides(env: Environment, els: seq<ElementInformation>, name: string, t: Option<GoType>, j: int) {
    0 <= j < |els| && els[j].name == name && Matches(env, els[j].eltType, t)
  }

  /** Element `j` is the only one with that name and a matching type. */
  ghost predicate OnlyProvider(env: Environment, els: seq<ElementInformation>, name: string, t: Option<GoType>, j: int) {
    Provides(env, els, name, t, j) && forall k :: Provides(env, els, name, t, k) ==> k == j
  }

  /** GetByNameAndType returns the value of the only element with that name whose
      type matches, and fails, changing nothing, otherwise. */
  lemma GetByNameAndTypeResult(env: Environment, s: CtxState, name: string, t: Option<GoType>)
    requires WF(s)
    ensures var f := GetByNameAndType(env, s, name, t);
            && (f.err.None? ==> exists j :: Provides(env, s.elements, name, t, j) && f.value == s.elements[j].value)
            && ((forall j :: !Provides(env, s.elements, name, t, j)) ==> f.err.Some? && f.state == s)
    ensures forall j :: OnlyProvider(env, s.elements, name, t, j) ==>
              GetByNameAndType(env, s, name, t) == Extract(env, s, j)
  {
    GetByNameAndTypeOutcomes(env, s, name, t);
    forall j | OnlyProvider(env, s.elements, name, t, j)
      ensures GetByNameAndType(env, s, name, t) == Extract(env, s, j)
    {
      GetByNameAndTypeUnique(env, s, name, t, j);
    }
  }

  /** The error paths and the found value of GetByNameAndType. */
  lemma GetByNameAndTypeOutcomes(env: Environment, s: CtxState, name: string, t: Option<GoType>)
    requires WF(s)
    ensures var f := GetByNameAndType(env, s, name, t);
            && (f.err.None? ==> exists j :: Provides(env, s.elements, name, t, j) && f.value == s.elements[j].value)
            && ((forall j :: !Provides(env, s.elements, name, t, j)) ==> f.err.Some? && f.state == s)
  {
    var cands := ByNameAndType(env, s.elements, name, t);
    if |cands| > 0 {
      assert Provides(env, s.elements, name, t, cands[0]);
    }
    if |cands| == 1 {
      ExtractLazy(env, s, cands[0]);
    }
  }

  /** When element `j` is the only one with that name and a matching type,
      GetByNameAndType extracts it. */
  lemma GetByNameAndTypeUnique(env: Environment, s: CtxState, name: string, t: Option<GoType>, j: nat)
    requires WF(s) && OnlyProvider(env, s.elements, name, t, j)
    ensures GetByNameAndType(env, s, name, t) == Extract(env, s, j)
  {
    var c := ByNameAndType(env, s.elements, name, t);
    assert j in c;
    if |c| > 1 {
      assert c[0] < c[1];
      assert Provides(env, s.elements, name, t, c[0]) && Provides(env, s.elements, name, t, c[1]);
    }
    assert c == [j];
  }

  /** Two elements with that name and a matching type make GetByNameAndType fail
      with a nil value, changing nothing. */
  lemma GetByNameAndTypeTooMany(env: Environment, s: CtxState, name: string, t: Option<GoType>, a: int, b: int)
    requires WF(s) && a < b && Provides(env, s.elements, name, t, a) && Provides(env, s.elements, name, t, b)
    ensures var f := GetByNameAndType(env, s, name, t);
            f.err.Some? && f.state == s && f.value.Nil?
  {
    var cands := ByNameAndType(env, s.elements, name, t);
    assert a in cands && b in cands;
  }
}
