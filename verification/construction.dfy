/** Building one value from a node: the type-level `ConstructBy` dispatch
    (`constructObject`), singleton-list wrapping for collection-typed nodes
    (`constructNodeAsList`) and the mapping/scalar constructors that choose
    between them. */
module Construction {
  import opened Wrappers
  import opened Runtime
  import opened Environment
  import opened Registries

  /** The rethrow rule of `constructObject`: a failure to create or access the
      custom constructor becomes a `YAMLException`; anything else escapes unchanged. */
  function WrapCreation(cls: ClassName, e: Error): (e': Error)
    ensures IsCreationFailure(e) ==> e' == Yaml(CustomConstructorNotCreatable(cls, e))
    ensures !IsCreationFailure(e) ==> e' == e
  {
    if IsCreationFailure(e) then Yaml(CustomConstructorNotCreatable(cls, e)) else e
  }

  /** `constructObject(node, defaultConstructor)`: the custom constructor found
      by `getConstructBy` for the node's type, given the default construction as
      its fallback; the default construction alone when there is none. */
  function ConstructObject(env: Env, reg: Registry, node: Node, default: Node -> Result<JValue, Error>): (r: Result<JValue, Error>)
    ensures GetConstructBy(env, reg, node.nodeType).None? ==> r == default(node)
    ensures GetConstructBy(env, reg, node.nodeType).Some? ==>
      var cls := GetConstructBy(env, reg, node.nodeType).value.value;
      && (env.classFailure(cls).Some? ==> r == Failure(WrapCreation(cls, env.classFailure(cls).value)))
      && (env.classFailure(cls).None? && env.customConstruct(cls, node, default(node)).Success? ==>
            r == env.customConstruct(cls, node, default(node)))
      && (env.classFailure(cls).None? && env.customConstruct(cls, node, default(node)).Failure? ==>
            r == Failure(WrapCreation(cls, env.customConstruct(cls, node, default(node)).error)))
  {
    match GetConstructBy(env, reg, node.nodeType)
    case None => default(node)
    case Some(cb) =>
      match env.classFailure(cb.value)
      case Some(e) => Failure(WrapCreation(cb.value, e))
      case None =>
        match env.customConstruct(cb.value, node, default(node))
        case Success(v) => Success(v)
        case Failure(e) => Failure(WrapCreation(cb.value, e))
  }

  /** The node retyped to the first actual type argument of its property, if any. */
  function ElementNode(node: Node, property: Property): (n: Node)
    ensures n.(nodeType := node.nodeType) == node
    ensures |property.typeArguments| > 0 ==> n.nodeType == property.typeArguments[0]
    ensures |property.typeArguments| == 0 ==> n == node
  {
    if |property.typeArguments| > 0 then node.(nodeType := property.typeArguments[0]) else node
  }

  /** The outcome of `constructNodeAsList` and the node's type when it returns or throws. */
  datatype AsList = AsList(result: Result<JValue, Error>, typeAfter: ClassName)

  /** `constructNodeAsList`: one object built against the element type, wrapped
      in a one-element list, or `null` when that object is `null`. The original
      type is put back on the normal path only: there is no `finally`, so an
      exception leaves the element type on the node. A node missing from the
      node-to-property map makes the property lookup fail with a `NullPointerException`. */
  function ConstructNodeAsList(env: Env, reg: Registry, nodeToProperty: NodeToProperty, node: Node,
                               default: Node -> Result<JValue, Error>): (r: AsList)
    ensures node.id !in nodeToProperty ==> r == AsList(Failure(NullPointer), node.nodeType)
    ensures r.result.Success? ==> r.typeAfter == node.nodeType
    ensures node.id in nodeToProperty ==>
      var single := ConstructObject(env, reg, ElementNode(node, nodeToProperty[node.id]), default);
      && (single.Failure? ==> r == AsList(Failure(single.error), ElementNode(node, nodeToProperty[node.id]).nodeType))
      && (single == Success(Null) ==> r.result == Success(Null))
      && (single.Success? && single.value != Null ==> r.result == Success(List([single.value])))
  {
    if node.id !in nodeToProperty then AsList(Failure(NullPointer), node.nodeType)
    else
      var retyped := ElementNode(node, nodeToProperty[node.id]);
      match ConstructObject(env, reg, retyped, default)
      case Failure(e) => AsList(Failure(e), retyped.nodeType)
      case Success(single) =>
        AsList(if single.Null? then Success(Null) else Success(List([single])), node.nodeType)
  }

  /** `AnnotationAwareMappingConstructor.construct` and `AnnotationAwareScalarConstructor.construct`,
      which differ only in the base construction (`super::construct`) they pass on. */
  function Construct(env: Env, reg: Registry, nodeToProperty: NodeToProperty, node: Node,
                     base: Node -> Result<JValue, Error>): (r: Result<JValue, Error>)
    requires !node.Sequence?
    ensures env.reflect(node.nodeType).isCollection ==> r == ConstructNodeAsList(env, reg, nodeToProperty, node, base).result
    ensures !env.reflect(node.nodeType).isCollection ==> r == ConstructObject(env, reg, node, base)
  {
    if env.reflect(node.nodeType).isCollection then ConstructNodeAsList(env, reg, nodeToProperty, node, base).result
    else ConstructObject(env, reg, node, base)
  }

  /** Wrapping is transparent: a collection-typed node gives the one-element
      list of exactly the object built directly against the element type (the
      node itself when its property has no type argument), and that element is
      never `null`. */
  lemma WrappingMatchesDirectConstruction(env: Env, reg: Registry, nodeToProperty: NodeToProperty, node: Node,
                                          base: Node -> Result<JValue, Error>)
    requires !node.Sequence? && env.reflect(node.nodeType).isCollection
    requires node.id in nodeToProperty
    requires Construct(env, reg, nodeToProperty, node, base).Success?
    ensures var direct := ConstructObject(env, reg, ElementNode(node, nodeToProperty[node.id]), base);
      && direct.Success?
      && (direct.value.Null? <==> Construct(env, reg, nodeToProperty, node, base) == Success(Null))
      && (!direct.value.Null? <==> Construct(env, reg, nodeToProperty, node, base) == Success(List([direct.value])))
  {
  }

  /** A custom constructor registered for an ancestor of the node's type
      builds the node, given the default construction, when nothing earlier in
      the type's walk answers and the constructor class can be created. */
  lemma AncestorRegistrationBuildsNode(env: Env, reg: Registry, node: Node, default: Node -> Result<JValue, Error>,
                                       forType: ClassName, customConstructor: ClassName, pos: nat)
    requires pos < |Hierarchy(env, node.nodeType)| && Hierarchy(env, node.nodeType)[pos] == forType
    requires forall j :: 0 <= j < pos ==>
      ConstructByAt(env, RegisterCustomConstructor(reg, forType, customConstructor), Hierarchy(env, node.nodeType)[j]).None?
    requires env.classFailure(customConstructor).None?
    ensures var r := ConstructObject(env, RegisterCustomConstructor(reg, forType, customConstructor), node, default);
      var built := env.customConstruct(customConstructor, node, default(node));
      && (built.Success? ==> r == built)
      && (built.Failure? ==> r == Failure(WrapCreation(customConstructor, built.error)))
  {
    RegisteredConstructorReachesSubtypes(env, reg, node.nodeType, forType, customConstructor, pos);
  }

  // ------------------------------------------------------------------
  // The node's resolved-type slot as mutable state.

  /** A document node whose resolved type can be overwritten in place; the
      rest of the node is fixed. */
  class MutableNode {
    var nodeType: ClassName
    const content: Node

    constructor (n: Node)
      ensures nodeType == n.nodeType && content == n
    {
      nodeType := n.nodeType;
      content := n;
    }

    /** The node as the construction code sees it right now. */
    function Current(): Node
      reads this
    {
      content.(nodeType := nodeType)
    }
  }

  /** `constructNodeAsList` on a node object: sets the element type, builds the
      object, then puts the original type back, which happens exactly when the
      construction returns normally. */
  method ConstructNodeAsListInPlace(env: Env, reg: Registry, nodeToProperty: NodeToProperty, node: MutableNode,
                                    default: Node -> Result<JValue, Error>) returns (r: Result<JValue, Error>)
    modifies node
    ensures r == ConstructNodeAsList(env, reg, nodeToProperty, old(node.Current()), default).result
    ensures node.nodeType == ConstructNodeAsList(env, reg, nodeToProperty, old(node.Current()), default).typeAfter
    ensures r.Success? ==> node.nodeType == old(node.nodeType)
  {
    var origType := node.nodeType;
    if node.content.id !in nodeToProperty {
      return Failure(NullPointer);
    }
    var propertyOfNode := nodeToProperty[node.content.id];
    if |propertyOfNode.typeArguments| > 0 {
      node.nodeType := propertyOfNode.typeArguments[0];
    }
    var single := ConstructObject(env, reg, node.Current(), default);
    if single.Failure? {
      return Failure(single.error);
    }
    node.nodeType := origType;
    if single.value.Null? {
      r := Success(Null);
    } else {
      r := Success(List([single.value]));
    }
  }
}
