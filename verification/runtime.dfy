/** The Java and SnakeYAML vocabulary the override engine works on: classes by
    name, parsed document nodes, runtime values and the exceptions that can
    escape a construction call. */
module Runtime {

  /** A Java class, identified by its fully qualified name. */
  type ClassName = string

  /** The identity of a node object (the engine keys an `IdentityHashMap` by it). */
  type NodeId = nat

  const StringClass: ClassName := "java.lang.String"
  const ObjectClass: ClassName := "java.lang.Object"

  /** `Instantiator.class`: the default value of `@InstantiateBy`, read as "no instantiator". */
  const InstantiatorClass: ClassName := "de.beosign.snakeyamlanno.instantiator.Instantiator"
  const InstantiateByAnnotationClass: ClassName := "de.beosign.snakeyamlanno.instantiator.InstantiateBy"
  const DefaultInstantiatorClass: ClassName := "de.beosign.snakeyamlanno.type.DefaultInstantiator"

  /** `NoSubstitutionTypeSelector.class`: the value of `@Type` meaning "no custom selector". */
  const NoSubstitutionTypeSelectorClass: ClassName := "de.beosign.snakeyamlanno.type.NoSubstitutionTypeSelector"

  /** A parsed document node. `nodeType` is the node's mutable resolved-type slot. */
  datatype Node =
    | Scalar(id: NodeId, nodeType: ClassName, text: string)
    | Mapping(id: NodeId, nodeType: ClassName, tuples: seq<Tuple>)
    | Sequence(id: NodeId, nodeType: ClassName, items: seq<Node>)

  /** One key/value entry of a mapping node. */
  datatype Tuple = Tuple(keyNode: Node, valueNode: Node)

  /** A Java value produced by construction; `Null` is Java's `null`. */
  datatype JValue = Null | Str(s: string) | Obj(ref: nat) | List(elems: seq<JValue>)

  /** An exception escaping a call. */
  datatype Error =
    | Yaml(kind: YamlKind)                  // org.yaml.snakeyaml.error.YAMLException
    | Instantiation(reason: InstantiationKind)  // java.lang.InstantiationException
    | IllegalAccess                         // java.lang.IllegalAccessException
    | Introspection                         // java.beans.IntrospectionException
    | ClassCast
    | NullPointer
    | Raised(code: nat)                     // any other exception thrown by code outside the model

  /** Why a `YAMLException` was thrown; messages themselves are not modelled. */
  datatype YamlKind =
    | RaisedYaml(code: nat)                 // thrown by user code or the base engine
    | KeysMustBeScalars
    | SelectorNotInstantiable(selector: ClassName, cause: Error)
    | CustomConstructorNotCreatable(customConstructor: ClassName, cause: Error)
    | PropertyConstructorNotCreatable(customConstructor: ClassName, property: string, cause: Error)
    | CannotSetValue(property: string, cause: Error)

  datatype InstantiationKind =
    | RaisedInstantiation(code: nat)        // thrown by an instantiator or `Class.newInstance`
    | CannotAccessConstructor(instantiator: ClassName)

  /** The two failures `Class.newInstance` can report for an inaccessible or abstract class. */
  predicate IsCreationFailure(e: Error) {
    e.Instantiation? || e.IllegalAccess?
  }
}
