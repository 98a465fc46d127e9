/** Calling an `Instantiator`, including the library's `DefaultInstantiator`,
    which only forwards to the default it is handed. */
module Instantiators {
  import opened Wrappers
  import opened Runtime
  import opened Environment

  /** `inst.createInstance(call..., default)`. `Null` asks the caller to try
      the next strategy. `default == None` is a null default instantiator. */
  function CreateInstance(env: Env, inst: Instantiator, call: Call, default: Option<Instantiator>): (r: Result<JValue, Error>)
    ensures inst.BaseDefault? ==> r == env.superNewInstance(call.ancestor, call.node, call.tryDefault)
    ensures inst.Delegating? && default.None? ==> r == Failure(NullPointer)
    ensures inst.User? && default.None? ==> r == env.userCreate(inst.cls, call, None)
    ensures inst.Delegating? && default.Some? ==> r == CreateInstance(env, default.value, call, None)
    ensures inst.User? && default.Some? ==>
      r == env.userCreate(inst.cls, call, Some(CreateInstance(env, default.value, call, None)))
    decreases if default.Some? then 1 else 0
  {
    match inst
    case BaseDefault =>
      // the default the engine's own newInstance creates: the base engine's newInstance for the same call
      env.superNewInstance(call.ancestor, call.node, call.tryDefault)
    case Delegating =>
      if default.None? then Failure(NullPointer)
      else CreateInstance(env, default.value, call, None)
    case User(cls) =>
      var fallback := if default.Some? then Some(CreateInstance(env, default.value, call, None)) else None;
      env.userCreate(cls, call, fallback)
  }

  /** `DefaultInstantiator` answers exactly what its default answers, value,
      `null` or exception alike: it forwards the call's arguments unchanged
      and hands a null default further down. */
  lemma DefaultInstantiatorForwards(env: Env, call: Call, default: Instantiator)
    ensures CreateInstance(env, Delegating, call, Some(default)) == CreateInstance(env, default, call, None)
    ensures default.BaseDefault? ==>
      CreateInstance(env, Delegating, call, Some(default)) == env.superNewInstance(call.ancestor, call.node, call.tryDefault)
    ensures default.User? ==>
      CreateInstance(env, Delegating, call, Some(default)) == env.userCreate(default.cls, call, None)
  {
  }

  /** An exception from the default instantiator passes through `DefaultInstantiator` unchanged. */
  lemma DefaultInstantiatorPropagates(env: Env, call: Call, e: Error)
    requires env.superNewInstance(call.ancestor, call.node, call.tryDefault) == Failure(e)
    ensures CreateInstance(env, Delegating, call, Some(BaseDefault)) == Failure(e)
  {
  }
}
