/** What the container asks of Go's reflection and of the user's objects, and cannot
    see inside: type assignability, whether a value's type has an `AfterInject` or a
    `Release` method, what `AfterInject` returns, and whether `introsp.SetAttribute`
    accepts a field write. Each is a parameter of the model. */
module Environment {
  import opened Common
  import opened GoTypes
  import opened Errors

  datatype Environment = Environment(
    /** reflect.Type.AssignableTo */
    assignable: (GoType, GoType) -> bool,
    /** the dynamic type implements Initializable */
    initializable: GoType -> bool,
    /** the dynamic type implements Releasable */
    releasable: GoType -> bool,
    /** the error AfterInject returns for a value, given how many hook calls were
        made before: user code may depend on history */
    afterInject: (Value, nat) -> Option<Error>,
    /** the error introsp.SetAttribute reports for (object, field, value), if any */
    setRefusal: (Value, string, Value) -> Option<Error>)

  /** A call the container makes into user code, as recorded in the hook trace. */
  datatype Hook = AfterInjectCall(element: nat) | ReleaseCall(element: nat)

  datatype SetResult = SetResult(store: Store, err: Option<Error>)

  /** introsp.SetAttribute: a refused write reports its error and changes nothing; an
      accepted one stores the value in the named field of the object. */
  function SetAttribute(env: Environment, store: Store, target: Value, field: string,
                        v: Value): (r: SetResult)
    ensures r.err.Some? ==> r.store == store
    ensures r.err.None? ==> r.store.Keys == store.Keys + {target}
    ensures r.err.None? ==> FieldTable(r.store, target) == FieldTable(store, target)[field := v]
    ensures forall o :: o != target ==> FieldTable(r.store, o) == FieldTable(store, o)
  {
    var refusal := env.setRefusal(target, field, v);
    if refusal.Some? then SetResult(store, refusal)
    else SetResult(store[target := FieldTable(store, target)[field := v]], None)
  }
}
