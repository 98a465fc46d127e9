/** `newInstance`: substitution-type selection followed by the instantiation
    chain (type-specific instantiator, then the global one, then the base engine). */
module Instantiation {
  import opened Wrappers
  import opened Runtime
  import opened InstantiateByRecord
  import opened Environment
  import opened Registries
  import opened Instantiators
  import opened Substitution

  /** The `Instantiator` object `newInstance()` of class `cls` yields. */
  function InstantiatorFor(cls: ClassName): Instantiator {
    if cls == DefaultInstantiatorClass then Delegating else User(cls)
  }

  /** Step 1 of the chain: the instantiator registered or annotated for the
      node's type, unless it is the `Instantiator.class` sentinel. `Null`
      means "not answered". An `IllegalAccessException` while creating the
      instantiator becomes an `InstantiationException`. */
  function TypeSpecific(env: Env, reg: Registry, call: Call): (r: Result<JValue, Error>)
    ensures GetInstantiateBy(env, reg, call.nodeType).None? ==> r == Success(Null)
    ensures GetInstantiateBy(env, reg, call.nodeType).Some? && !GetInstantiateBy(env, reg, call.nodeType).value.NamesInstantiator()
            ==> r == Success(Null)
    ensures GetInstantiateBy(env, reg, call.nodeType).Some? ==>
      var cls := GetInstantiateBy(env, reg, call.nodeType).value.value;
      && (cls != InstantiatorClass && env.classFailure(cls) == Some(IllegalAccess) ==>
            r == Failure(Instantiation(CannotAccessConstructor(cls))))
      && (cls != InstantiatorClass && env.classFailure(cls).Some? && env.classFailure(cls) != Some(IllegalAccess) ==>
            r == Failure(env.classFailure(cls).value))
      && (cls != InstantiatorClass && env.classFailure(cls).None? ==>
            r == AccessAsInstantiation(cls, CreateInstance(env, InstantiatorFor(cls), call, Some(BaseDefault))))
  {
    match GetInstantiateBy(env, reg, call.nodeType)
    case None => Success(Null)
    case Some(ib) =>
      if !ib.NamesInstantiator() then Success(Null)
      else
        match env.classFailure(ib.value)
        case Some(IllegalAccess) => Failure(Instantiation(CannotAccessConstructor(ib.value)))
        case Some(e) => Failure(e)
        case None => AccessAsInstantiation(ib.value, CreateInstance(env, InstantiatorFor(ib.value), call, Some(BaseDefault)))
  }

  /** The `catch (IllegalAccessException e)` around the type-specific
      instantiator: that one exception is rethrown as an `InstantiationException`. */
  function AccessAsInstantiation(cls: ClassName, r: Result<JValue, Error>): (r': Result<JValue, Error>)
    ensures r == Failure(IllegalAccess) ==> r' == Failure(Instantiation(CannotAccessConstructor(cls)))
    ensures r != Failure(IllegalAccess) ==> r' == r
  {
    if r == Failure(IllegalAccess) then Failure(Instantiation(CannotAccessConstructor(cls))) else r
  }

  /** Steps 2 and 3: the global instantiator is asked only when step 1 gave
      `null`, and the base engine only when both gave `null`. */
  function InstantiationChain(env: Env, reg: Registry, ancestor: ClassName, node: Node, tryDefault: bool): (r: Result<JValue, Error>)
    ensures var call := Call(node.nodeType, node, tryDefault, ancestor);
      var first := TypeSpecific(env, reg, call);
      && (first.Failure? ==> r == first)
      && (first.Success? && first.value != Null ==> r == first)
      && (first == Success(Null) && reg.globalInstantiator.None? ==>
            r == env.superNewInstance(ancestor, node, tryDefault))
      && (first == Success(Null) && reg.globalInstantiator.Some? ==>
            var second := CreateInstance(env, reg.globalInstantiator.value, call, Some(BaseDefault));
            && (second.Failure? ==> r == second)
            && (second.Success? && second.value != Null ==> r == second)
            && (second == Success(Null) ==> r == env.superNewInstance(ancestor, node, tryDefault)))
  {
    var call := Call(node.nodeType, node, tryDefault, ancestor);
    var instance :- TypeSpecific(env, reg, call);
    var instance :- if instance.Null? && reg.globalInstantiator.Some?
                    then CreateInstance(env, reg.globalInstantiator.value, call, Some(BaseDefault))
                    else Success(instance);
    if instance.Null? then env.superNewInstance(ancestor, node, tryDefault) else Success(instance)
  }

  /** The node after `newInstance` (with its possibly substituted type) and the new instance. */
  datatype Instantiated = Instantiated(node: Node, instance: JValue)

  /** `newInstance(ancestor, node, tryDefault)`. */
  function NewInstance(env: Env, reg: Registry, ancestor: ClassName, node: Node, tryDefault: bool): (r: Result<Instantiated, Error>)
    ensures SelectType(env, reg, node).Failure? ==> r == Failure(SelectType(env, reg, node).error)
    ensures r.Success? ==> r.value.node.(nodeType := node.nodeType) == node
    ensures r.Success? ==> r.value.node.nodeType == SelectType(env, reg, node).value
    ensures r.Success? && !node.Mapping? ==> r.value.node == node
    ensures SelectType(env, reg, node).Success? ==>
      r == (var n := node.(nodeType := SelectType(env, reg, node).value);
            match InstantiationChain(env, reg, ancestor, n, tryDefault)
            case Failure(e) => Failure(e)
            case Success(v) => Success(Instantiated(n, v)))
  {
    var t :- SelectType(env, reg, node);
    var n := node.(nodeType := t);
    var instance :- InstantiationChain(env, reg, ancestor, n, tryDefault);
    Success(Instantiated(n, instance))
  }

  /** When the type-specific instantiator answers, the global instantiator is
      never consulted: any global instantiator gives the same outcome. */
  lemma GlobalNotConsultedWhenTypeSpecificAnswers(env: Env, reg: Registry, ancestor: ClassName, node: Node, tryDefault: bool, global: Option<Instantiator>)
    requires TypeSpecific(env, reg, Call(node.nodeType, node, tryDefault, ancestor)) != Success(Null)
    ensures InstantiationChain(env, SetGlobalInstantiator(reg, global), ancestor, node, tryDefault)
         == InstantiationChain(env, reg, ancestor, node, tryDefault)
  {
  }

  /** A `@InstantiateBy` written without a value behaves as if the type had no
      instantiator at all. */
  lemma DefaultAnnotationValueIsNoInstantiator(env: Env, reg: Registry, ancestor: ClassName, node: Node, tryDefault: bool)
    requires node.nodeType !in reg.instantiateByMap
    requires env.reflect(node.nodeType).instantiateByAnnotation == Some(Declared(None))
    ensures TypeSpecific(env, reg, Call(node.nodeType, node, tryDefault, ancestor)) == Success(Null)
    ensures reg.globalInstantiator.None? ==>
      InstantiationChain(env, reg, ancestor, node, tryDefault) == env.superNewInstance(ancestor, node, tryDefault)
  {
  }

  /** `DefaultInstantiator` as the type-specific instantiator cancels a global
      instantiator: when the base engine builds an object, that object is the
      result, whatever the global instantiator would have done. */
  lemma DefaultInstantiatorCancelsGlobal(env: Env, reg: Registry, ancestor: ClassName, node: Node, tryDefault: bool, v: JValue)
    requires GetInstantiateBy(env, reg, node.nodeType) == Some(InstantiateBy(DefaultInstantiatorClass))
    requires env.classFailure(DefaultInstantiatorClass).None?
    requires env.superNewInstance(ancestor, node, tryDefault) == Success(v) && v != Null
    ensures TypeSpecific(env, reg, Call(node.nodeType, node, tryDefault, ancestor)) == Success(v)
    ensures InstantiationChain(env, reg, ancestor, node, tryDefault) == Success(v)
  {
  }
}
