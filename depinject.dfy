/** depinject/context.go: the container as Go writes it, a structure whose fields
    its methods update in place. Each method is proved to do exactly what the
    corresponding function of module `Lifecycle` says; the properties of those
    functions are proved in `LifecycleFacts` and `Injection`. */
module Depinject {
  import opened Common
  import opened GoTypes
  import opened Errors
  import opened Introsp
  import opened Introspection
  import opened Elements
  import opened Environment
  import opened Resolution
  import opened Lifecycle

  class Context {
    /** The reflection facts and user code the container runs against. */
    const env: Environment
    /** Is context started? */
    var started: bool
    /** All context elements, in registration order. */
    var elements: seq<ElementInformation>
    /** Positions of the elements whose injection completed, in completion order. */
    var initializedElements: seq<nat>
    /** The fields of the user objects the container writes to. */
    var store: Store
    /** The calls made to AfterInject and Release, in order. */
    var hooks: seq<Hook>

    function State(): CtxState
      reads this
    {
      CtxState(started, elements, initializedElements, store, hooks)
    }

    ghost predicate Valid()
      reads this
    {
      WF(State())
    }

    /** CreateContext. */
    constructor (env: Environment, store: Store)
      ensures this.env == env && State() == Created(store) && Valid()
    {
      this.env := env;
      started := false;
      elements := [];
      initializedElements := [];
      this.store := store;
      hooks := [];
    }

    // -------------------------------------------------------------------------
    // Registration

    method Add(element: Value) returns (err: Option<Error>)
      requires Valid()
      modifies this
      ensures Valid() && Outcome(State(), err) == Lifecycle.Add(env, old(State()), element)
    {
      if element.Nil? {
        return Some(New("context does not support nil element", Site("Add", 39)));
      }
      err := AddWithName(element, TypeName(TypeOf(element)));
    }

    method AddWithName(element: Value, name: string) returns (err: Option<Error>)
      requires Valid()
      modifies this
      ensures Valid() && Outcome(State(), err) == Lifecycle.AddWithName(env, old(State()), element, name)
    {
      if element.Nil? {
        return Some(New("context does not support nil element", Site("AddWithName", 48)));
      }
      var typeOfElement := element.vtype;
      var alreadyExistElements := GetElementsByNameAndType(name, Some(typeOfElement));
      if |alreadyExistElements| > 0 {
        return Some(New("cannot add '" + name + "' element, another element exists with same name and type: "
                        + ElementString(elements[alreadyExistElements[0]]), Site("AddWithName", 54)));
      }
      var information := ElementInformation(typeOfElement, name, Uninitialized, element);
      elements := elements + [information];
      if started {
        err := InitializeElement(|elements| - 1);
        return;
      }
      return None;
    }

    // -------------------------------------------------------------------------
    // Start and Stop

    method Start() returns (err: Option<Error>)
      requires Valid()
      modifies this
      ensures Valid() && Outcome(State(), err) == Lifecycle.Start(env, old(State()))
    {
      ghost var goal := Lifecycle.Start(env, State());
      var k := 0;
      while k < |elements|
        invariant Valid() && k <= |elements|
        invariant goal == StartFrom(env, State(), k)
      {
        ghost var before := State();
        StartFromStep(env, before, k);
        var element := elements[k];
        err := InitializeElement(k);
        if err.Some? {
          Stop();
          return Some(NewWithCause(err, "failed to start context, error during '" + element.name
                                        + "' element initialization", Site("Start", 77)));
        }
        k := k + 1;
      }
      started := true;
      return None;
    }

    method Stop()
      requires Valid()
      modifies this
      ensures Valid() && State() == Lifecycle.Stop(env, old(State()))
    {
      var log := initializedElements;
      var k := 0;
      while k < |log|
        invariant Valid() && k <= |log| && initializedElements == log && |elements| == |old(elements)|
        invariant ReleaseAll(env, old(State()), log, 0) == ReleaseAll(env, State(), log, k)
      {
        ReleaseElement(log[k]);
        k := k + 1;
      }
      initializedElements := [];
      started := false;
    }

    // -------------------------------------------------------------------------
    // Initialization

    method InitializeElement(i: nat) returns (err: Option<Error>)
      requires Valid() && i < |elements|
      modifies this
      ensures Valid() && Outcome(State(), err) == Init(env, old(State()), i)
      decreases CountUninit(elements), 2, 0
    {
      var information := elements[i];
      if information.status == InInitialization {
        return Some(New("failed to initialized '" + ElementString(information) + "' element, potential dependency loop",
                        Site("initializeElement", 97)));
      }
      if information.status == Uninitialized {
        err := InjectDependencies(i);
        if err.Some? {
          ReleaseElement(i);
          return Some(NewWithCause(err, "failed to inject dependencies of '" + ElementString(elements[i]) + "' element",
                                   Site("initializeElement", 104)));
        }
        KeptFromExcept(old(State()), State(), i);
        err := CallAfterInject(i);
        if err.Some? {
          ReleaseElement(i);
          return Some(NewWithCause(err, "failed to initialized '" + ElementString(elements[i])
                                        + "' element after dependencies injection", Site("initializeElement", 110)));
        }
      }
      return None;
    }

    method InjectDependencies(i: nat) returns (err: Option<Error>)
      requires Valid() && i < |elements| && elements[i].status == Uninitialized
      modifies this
      ensures Valid() && Outcome(State(), err) == Lifecycle.InjectDependencies(env, old(State()), i)
      decreases CountUninit(elements), 1, 0
    {
      CountUpdate(elements, i, elements[i].(status := InInitialization));
      elements := elements[i := elements[i].(status := InInitialization)];
      var eltStructType := FindStructType(Some(elements[i].eltType));
      if eltStructType.None? {
        // not a structure: nothing to inject, and not logged
        NotAStructure(env, old(State()), i);
        elements := elements[i := elements[i].(status := Initialized)];
        return None;
      }
      var fields := eltStructType.value.fields;
      err := InjectFields(i, fields);
      if err.Some? {
        return err;
      }
      FieldsInjected(env, old(State()), i, fields, State());
      initializedElements := initializedElements + [i];
      elements := elements[i := elements[i].(status := Initialized)];
      return None;
    }

    /** The loop of injectDependencies over the fields of the element's structure. */
    method InjectFields(i: nat, fields: seq<Field>) returns (err: Option<Error>)
      requires Valid() && i < |elements| && elements[i].status == InInitialization
      modifies this
      ensures Valid() && Outcome(State(), err) == Lifecycle.InjectFields(env, old(State()), i, fields, 0)
      decreases CountUninit(elements), 5, 0
    {
      ghost var s1 := State();
      ghost var goal := Lifecycle.InjectFields(env, s1, i, fields, 0);
      var fieldIndex := 0;
      while fieldIndex < |fields|
        invariant fieldIndex <= |fields| && Kept(s1, State()) && elements[i].status == InInitialization
        invariant CountUninit(elements) <= CountUninit(old(elements))
        invariant goal == Lifecycle.InjectFields(env, State(), i, fields, fieldIndex)
      {
        var field := fields[fieldIndex];
        if field.inject.None? {
          FieldSkipped(env, State(), i, fields, fieldIndex);
        } else {
          ghost var before := State();
          err := InjectField(i, field);
          if err.Some? {
            FieldFailed(env, before, i, fields, fieldIndex, Outcome(State(), err));
            return err;
          }
          FieldInjected(env, before, i, fields, fieldIndex, State());
          ProgressCount(before.elements, elements);
          KeptTrans(s1, before, State());
        }
        fieldIndex := fieldIndex + 1;
      }
      return None;
    }

    /** One tagged field of the loop of injectDependencies: find the dependency, by
        type when the trimmed tag is empty and by name otherwise, initialize it when it
        is not yet initialized, then write it into the field. */
    method InjectField(i: nat, field: Field) returns (err: Option<Error>)
      requires Valid() && i < |elements| && elements[i].status == InInitialization && field.inject.Some?
      modifies this
      ensures Valid() && Outcome(State(), err) == Lifecycle.InjectField(env, old(State()), i, field)
      decreases CountUninit(elements), 4, 0
    {
      var fieldType := FindNoPointerType(Some(field.ftype));
      var dependencyName := TrimSpace(field.inject.value);
      var description := ElementString(elements[i]);
      var dependency: Lookup;
      var way: string;
      if dependencyName == "" {
        dependency := GetElementByType(fieldType);
        way := "(by type: " + TypeName(fieldType) + ")";
      } else {
        dependency := GetElementByName(dependencyName);
        way := "(by name: " + dependencyName + ")";
      }
      assert dependency == FieldLookup(env, elements, field) && way == LookupWay(field);
      if dependency.Failed? {
        return Some(NewWithCause(Some(dependency.err), "failed to find '" + field.name + "' dependency " + way
                                 + " of '" + description + "' element",
                                 Site("injectDependencies", if dependencyName == "" then 138 else 147)));
      } else if dependency.Missing? {
        return Some(New("missing '" + field.name + "' dependency " + way + " of '" + description + "' element",
                        Site("injectDependencies", if dependencyName == "" then 141 else 150)));
      }
      err := InjectResolved(i, field, dependency.index);
    }

    /** The rest of one tagged field once its dependency `d` is found: initialize
        `d` when it is not yet initialized, then write it into the field. */
    method InjectResolved(i: nat, field: Field, d: nat) returns (err: Option<Error>)
      requires Valid() && i < |elements| && elements[i].status == InInitialization && d < |elements|
      modifies this
      ensures Valid() && Outcome(State(), err) == Lifecycle.InjectResolved(env, old(State()), i, field, d)
      decreases CountUninit(elements), 3, 0
    {
      var dependencyValue := elements[d].value;
      var target := elements[i].value;
      if elements[d].status != Initialized {
        err := InitializeElement(d);
        if err.Some? {
          return Some(NewWithCause(err, "failed to initialized '" + field.name + "' dependency of '"
                                        + ElementString(elements[i]) + "' element", Site("injectDependencies", 157)));
        }
      }
      var written := SetAttribute(env, store, target, field.name, dependencyValue);
      if written.err.Some? {
        return Some(NewWithCause(written.err, "failed to initialized '" + field.name + "' dependency of '"
                                          + ElementString(elements[i]) + "' element, field cannot be set",
                                 Site("injectDependencies", 163)));
      }
      store := written.store;
      return None;
    }

    method CallAfterInject(i: nat) returns (err: Option<Error>)
      requires i < |elements|
      modifies this
      ensures Outcome(State(), err) == Lifecycle.CallAfterInject(env, old(State()), i)
    {
      var information := elements[i];
      if information.value.Nil? || information.status != Initialized {
        return None;
      }
      if env.initializable(information.value.vtype) {
        err := env.afterInject(information.value, |hooks|);
        hooks := hooks + [AfterInjectCall(i)];
        return;
      }
      return None;
    }

    // -------------------------------------------------------------------------
    // Release

    method ReleaseElement(i: nat)
      requires Valid() && i < |elements|
      modifies this
      ensures Valid() && State() == Release(env, old(State()), i)
    {
      CallReleaseMethod(i);
      RemoveDependencies(i);
    }

    method CallReleaseMethod(i: nat)
      requires i < |elements|
      modifies this
      ensures State() == Lifecycle.CallReleaseMethod(env, old(State()), i)
    {
      var information := elements[i];
      if information.value.Nil? || information.status != Initialized {
        return;
      }
      if env.releasable(information.value.vtype) {
        hooks := hooks + [ReleaseCall(i)];
      }
    }

    method RemoveDependencies(i: nat)
      requires i < |elements|
      modifies this
      ensures State() == Lifecycle.RemoveDependencies(env, old(State()), i)
    {
      var information := elements[i];
      var eltStructType := FindStructType(Some(information.eltType));
      if eltStructType.Some? {
        var fields := eltStructType.value.fields;
        var fieldIndex := 0;
        while fieldIndex < |fields|
          invariant fieldIndex <= |fields| && elements == old(elements)
          invariant started == old(started) && initializedElements == old(initializedElements) && hooks == old(hooks)
          invariant ClearFields(env, old(store), information.value, fields, 0)
                 == ClearFields(env, store, information.value, fields, fieldIndex)
        {
          var field := fields[fieldIndex];
          if field.inject.Some? {
            // a refused write is ignored
            store := SetAttribute(env, store, information.value, field.name, Nil).store;
          }
          fieldIndex := fieldIndex + 1;
        }
      }
      elements := elements[i := elements[i].(status := Uninitialized)];
    }

    // -------------------------------------------------------------------------
    // Lookups

    /** getElementsByName. */
    method GetElementsByName(name: string) returns (finds: seq<nat>)
      ensures finds == ByName(elements, name, |elements|)
    {
      finds := [];
      var k := 0;
      while k < |elements|
        invariant k <= |elements| && finds == ByName(elements, name, k)
      {
        if elements[k].name == name {
          finds := finds + [k];
        }
        k := k + 1;
      }
    }

    /** The matching test of getElementByType and getElementsByNameAndType. */
    method IsCandidate(element: ElementInformation, eltType: Option<GoType>) returns (b: bool)
      ensures b == Matches(env, element.eltType, eltType)
      ensures eltType.None? ==> !b
      ensures eltType == Some(element.eltType) ==> b
    {
      if eltType.None? {
        return false;
      }
      b := element.eltType == eltType.value
        || env.assignable(element.eltType, eltType.value)
        || (HasElem(element.eltType) && env.assignable(element.eltType.elem, eltType.value));
    }

    /** getElementsByNameAndType. */
    method GetElementsByNameAndType(name: string, eltType: Option<GoType>) returns (finds: seq<nat>)
      ensures finds == ByNameAndType(env, elements, name, eltType)
    {
      finds := [];
      var findsByName := GetElementsByName(name);
      var k := 0;
      while k < |findsByName|
        invariant k <= |findsByName| && finds == KeepMatching(env, elements, findsByName, eltType, k)
      {
        var matching := IsCandidate(elements[findsByName[k]], eltType);
        if matching {
          finds := finds + [findsByName[k]];
        }
        k := k + 1;
      }
      assert findsByName[..|findsByName|] == findsByName;
    }

    /** The comma-separated descriptions the "too many elements" errors list. */
    method ElementsInfo(finds: seq<nat>) returns (eltsInfo: string)
      requires InRange(elements, finds)
      ensures eltsInfo == InfoList(elements, finds)
    {
      var items := Infos(elements, finds);
      eltsInfo := "";
      var k := 0;
      while k < |finds|
        invariant k <= |finds| && eltsInfo == Join(items[..k], ", ")
      {
        forall m | 0 <= m < k ensures |items[..k][m]| > 0 {
          ElementStringShows(elements[finds[m]]);
        }
        JoinNonEmpty(items[..k], ", ");
        JoinExtend(items, ", ", k);
        if |eltsInfo| != 0 {
          eltsInfo := eltsInfo + ", ";
        }
        eltsInfo := eltsInfo + ElementString(elements[finds[k]]);
        k := k + 1;
      }
      assert items[..|finds|] == items;
    }

    /** getElementByType. */
    method GetElementByType(eltType: Option<GoType>) returns (l: Lookup)
      ensures l == ElementByType(env, elements, eltType)
    {
      if eltType.None? {
        return Missing;
      }
      var finds: seq<nat> := [];
      var k := 0;
      while k < |elements|
        invariant k <= |elements| && finds == ByType(env, elements, eltType, k)
      {
        var matching := IsCandidate(elements[k], eltType);
        if matching {
          finds := finds + [k];
        }
        k := k + 1;
      }
      if |finds| == 1 {
        return Found(finds[0]);
      } else if |finds| == 0 {
        return Missing;
      }
      var eltsInfo := ElementsInfo(finds);
      return Failed(New("too many elements for type '" + TypeName(eltType) + "': " + eltsInfo, Site("getElementByType", 245)));
    }

    /** getElementByName. */
    method GetElementByName(name: string) returns (l: Lookup)
      ensures l == ElementByName(elements, name)
    {
      var finds := GetElementsByName(name);
      if |finds| == 1 {
        return Found(finds[0]);
      } else if |finds| == 0 {
        return Missing;
      }
      var eltsInfo := ElementsInfo(finds);
      return Failed(New("too many elements for name '" + name + "': " + eltsInfo, Site("getElementByName", 282)));
    }

    // -------------------------------------------------------------------------
    // Getters

    method GetByType(eltType: Option<GoType>) returns (value: Value, err: Option<Error>)
      requires Valid()
      modifies this
      ensures Valid() && Fetch(State(), value, err) == Lifecycle.GetByType(env, old(State()), eltType)
    {
      if eltType.None? {
        return Nil, Some(New("cannot find element with nil type", Site("GetByType", 253)));
      }
      var element := GetElementByType(eltType);
      if element.Failed? {
        return Nil, Some(element.err);
      } else if element.Missing? {
        return Nil, Some(NewWithCause(None, "cannot find element with '" + TypeName(eltType) + "' type", Site("GetByType", 259)));
      }
      value, err := ExtractElementValue(element.index);
    }

    method GetByName(name: string) returns (value: Value, err: Option<Error>)
      requires Valid()
      modifies this
      ensures Valid() && Fetch(State(), value, err) == Lifecycle.GetByName(env, old(State()), name)
    {
      var element := GetElementByName(name);
      if element.Failed? {
        return Nil, Some(element.err);
      } else if element.Missing? {
        return Nil, Some(NewWithCause(None, "cannot find element with '" + name + "' name", Site("GetByName", 321)));
      }
      value, err := ExtractElementValue(element.index);
    }

    method GetByNameAndType(name: string, eltType: Option<GoType>) returns (value: Value, err: Option<Error>)
      requires Valid()
      modifies this
      ensures Valid() && Fetch(State(), value, err) == Lifecycle.GetByNameAndType(env, old(State()), name, eltType)
    {
      var found := GetElementsByNameAndType(name, eltType);
      if |found| == 1 {
        value, err := ExtractElementValue(found[0]);
      } else if |found| <= 0 {
        return Nil, Some(New("cannot find element with '" + name + "' name and '" + TypeName(eltType) + "' type",
                             Site("GetByNameAndType", 335)));
      } else {
        var eltsInfo := ElementsInfo(found);
        return Nil, Some(New("too many elements for name '" + name + "' and type '" + TypeName(eltType) + "': "
                             + eltsInfo, Site("GetByNameAndType", 345)));
      }
    }

    method ExtractElementValue(i: nat) returns (value: Value, err: Option<Error>)
      requires Valid() && i < |elements|
      modifies this
      ensures Valid() && Fetch(State(), value, err) == Extract(env, old(State()), i)
    {
      var element := elements[i];
      if element.status == Uninitialized && started {
        err := InitializeElement(i);
        if err.Some? {
          return Nil, Some(NewWithCause(err, "cannot return '" + element.name + "' element, failed to initialized",
                                        Site("extractElementValue", 354)));
        }
      }
      return element.value, None;
    }
  }
}
