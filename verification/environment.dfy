/** Everything the override engine consults but does not implement:
    annotations and bean properties found by reflection, the base SnakeYAML
    engine, and the behaviour of user-supplied strategy classes. An `Env`
    fixes all of them for one construction. */
module Environment {
  import opened Wrappers
  import opened Runtime
  import opened InstantiateByRecord

  /** `@Type`: substitution candidates and the selector class for a declared type. */
  datatype TypeAnnotation = TypeAnnotation(substitutionTypes: seq<ClassName>, substitutionTypeSelector: ClassName)

  /** `@ConstructBy`: the custom constructor class for a type or a property. */
  datatype ConstructBy = ConstructBy(value: ClassName)

  /** `@Property` on a bean property: an alias key and the ignore-exceptions flag. */
  datatype PropertyAnnotation = PropertyAnnotation(key: string, ignoreExceptions: bool)

  /** A bean property as SnakeYAML resolves it. `typeArguments` are the actual
      generic type arguments of its declared type (empty when there are none). */
  datatype Property = Property(
    name: string,
    typeArguments: seq<ClassName>,
    annotation: Option<PropertyAnnotation>,
    constructBy: Option<ConstructBy>)
  {
    /** The property carries a `@Property` annotation that asks for construction failures to be ignored. */
    predicate IgnoresExceptions() {
      annotation.Some? && annotation.value.ignoreExceptions
    }
  }

  /** What reflection reports about one class. */
  datatype ClassInfo = ClassInfo(
    typeAnnotation: Option<TypeAnnotation>,            // getAnnotation(Type.class)
    instantiateByAnnotation: Option<InstantiateBy>,    // getAnnotation(InstantiateBy.class)
    constructByAnnotation: Option<ConstructBy>,        // getDeclaredAnnotation(ConstructBy.class)
    superclasses: seq<ClassName>,                      // ClassUtils.getAllSuperclasses
    interfaces: seq<ClassName>,                        // ClassUtils.getAllInterfaces
    beanPropertyNames: Option<set<string>>,            // Introspector; None: IntrospectionException
    properties: Option<seq<Property>>,                 // property utils; None: YAMLException
    isCollection: bool)                                // Collection.class.isAssignableFrom

  /** An instantiated `SubstitutionTypeSelector`. */
  datatype Selector = Selector(
    disableDefaultAlgorithm: bool,
    getSelectedType: (Node, seq<ClassName>) -> ClassName)

  /** An instantiated `Converter`. */
  datatype Converter = Converter(
    convertToModel: string -> Result<JValue, Error>,
    convertToYaml: JValue -> Result<JValue, Error>)

  /** An `Instantiator` object: the base engine's default (the lambda wrapping
      `super.newInstance`), the library's `DefaultInstantiator`, or a user class. */
  datatype Instantiator = BaseDefault | Delegating | User(cls: ClassName)

  /** The arguments of `Instantiator.createInstance` other than the nested default. */
  datatype Call = Call(nodeType: ClassName, node: Node, tryDefault: bool, ancestor: ClassName)

  /** The identity map from a value node to the bean property it is assigned to. */
  type NodeToProperty = map<NodeId, Property>

  /** A constructed key: a `String`, or some other object (the cast then fails). */
  datatype KeyValue = KeyString(s: string) | KeyNotString

  datatype Env = Env(
    reflect: ClassName -> ClassInfo,
    /** The exception `Class.newInstance` throws for a strategy class, if any. */
    classFailure: ClassName -> Option<Error>,
    selectorOf: ClassName -> Selector,
    converterOf: ClassName -> Converter,
    /** The engine's own `constructObject(keyNode)`. */
    constructKey: Node -> Result<KeyValue, Error>,
    /** `getConstructor(node).construct(node)`, which may consult the node-to-property map. */
    construct: (NodeToProperty, Node) -> Result<JValue, Error>,
    /** `typeDefinitions` / `getProperty`: the property a key names in a bean type. */
    resolveProperty: (ClassName, string) -> Result<Property, Error>,
    /** `Property.set(object, value)`; `Some` is the exception it throws. */
    setProperty: (Property, JValue, JValue) -> Option<Error>,
    /** `Constructor.newInstance(ancestor, node, tryDefault)` of the base engine. */
    superNewInstance: (ClassName, Node, bool) -> Result<JValue, Error>,
    /** `ConstructMapping.constructJavaBean2ndStep` of the base engine. */
    superSecondStep: (Node, JValue) -> Result<JValue, Error>,
    /** A user instantiator's `createInstance`; it is handed the outcome of the
        nested default instantiator, or `None` when that default is null. */
    userCreate: (ClassName, Call, Option<Result<JValue, Error>>) -> Result<JValue, Error>,
    /** A `CustomConstructor.construct`; it is handed the outcome of the default construction. */
    customConstruct: (ClassName, Node, Result<JValue, Error>) -> Result<JValue, Error>,
    /** `toString()` of a non-null, non-string value, or the unchecked exception it throws. */
    objectToString: JValue -> Result<string, Error>)

  /** `getKeyNode`: keys must be scalar nodes. */
  function GetKeyNode(t: Tuple): (r: Result<Node, Error>)
    ensures r.Success? <==> t.keyNode.Scalar?
    ensures r.Success? ==> r.value == t.keyNode
    ensures r.Failure? ==> r.error == Yaml(KeysMustBeScalars)
  {
    if t.keyNode.Scalar? then Success(t.keyNode) else Failure(Yaml(KeysMustBeScalars))
  }

  /** `(String) constructObject(keyNode)`: a non-string key fails the cast. */
  function ConstructKeyString(env: Env, keyNode: Node): (r: Result<string, Error>)
    ensures env.constructKey(keyNode).Failure? ==> r == Failure(env.constructKey(keyNode).error)
    ensures env.constructKey(keyNode) == Success(KeyNotString) ==> r == Failure(ClassCast)
    ensures r.Success? <==> env.constructKey(keyNode).Success? && env.constructKey(keyNode).value.KeyString?
    ensures r.Success? ==> env.constructKey(keyNode).value == KeyString(r.value)
  {
    var k :- env.constructKey(keyNode);
    match k
    case KeyString(s) => Success(s)
    case KeyNotString => Failure(ClassCast)
  }
}
