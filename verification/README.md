# snakeyaml-anno override engine, modelled in Dafny

This project models the override-resolution and dispatch engine of
snakeyaml-anno's `AnnotationAwareConstructor`. The engine decides, for every node
SnakeYAML constructs:

- which concrete type to build when a declared type has `@Type` substitution candidates;
- which instantiator creates the instance: the type-specific one, then the global one, then SnakeYAML's default;
- which per-property rule applies in the bean's second construction step: a property `@ConstructBy`, `ignoreExceptions`, or plain default assignment;
- how a single node is wrapped into a one-element list for a collection-typed property.

It also models the small records and strategies the engine relies on:
`InstantiateBy.Factory`, `DefaultInstantiator` and `ConvertedProperty`.

Everything outside this engine is a parameter. An `Env` value holds it:
reflection, SnakeYAML's own construction and second step, property
resolution, and the behaviour of user selectors, instantiators, custom
constructors and converters. Classes are identified by their fully
qualified names. Node identity (the `IdentityHashMap` key) is a node id.
Exceptions are `Error` values inside a `Result`, and Java `null` is
`JValue.Null` or `Option.None`.

Modules, in dependency order:

- `Wrappers`: the `Option` and `Result` types.
- `Seqs`: first-failure collection and order-preserving selection.
- `Runtime`: nodes, values, exceptions and class-name constants.
- `InstantiateByRecord`: the `InstantiateBy` record and its factory.
- `Environment`: annotations, properties, reflection data, strategy objects and `Env`.
- `Registries`: the programmatic registries and all lookups.
- `Instantiators`: calling an instantiator, including `DefaultInstantiator`.
- `Substitution`: the compatibility probe and type selection.
- `Instantiation`: `newInstance` and the instantiation chain.
- `Construction`: `constructObject`, `constructNodeAsList` and the mapping and scalar `construct`.
- `SecondStep`: `constructJavaBean2ndStep`.
- `ConvertedProperties`: `ConvertedProperty`.

Behaviour of the code worth noting:

- `constructNodeAsList` puts the node's original type back only when construction returns normally.
  - There is no `finally`, so after an exception the node keeps the element type.
  - `ConstructNodeAsList` and `ConstructNodeAsListInPlace` state this.
- The substitution probe also disqualifies a candidate on an `IntrospectionException`.
- A key that does not construct to a `String` makes the probe throw `ClassCastException`; the candidate is not just disqualified.
- In the second step, a non-YAML exception from a property's custom constructor or setter is not passed through.
  - It is wrapped into a `YAMLException` ("cannot set value").
  - An `InstantiationException` or `IllegalAccessException` is wrapped as "cannot be created", wherever in the `try` it arises.
- `unregisterTypes` clears only the `Type` registrations. Constructor and instantiator registrations stay.

## Model

| member | source | states |
|---|---|---|
| `InstantiateByRecord.Of` | src/main/java/de/beosign/snakeyamlanno/instantiator/InstantiateBy.java:46-67 | `Factory.of` fails with `NullPointerException` exactly when the class is null. Otherwise the record's `value()` is the given class and `annotationType()` is `InstantiateBy`. |
| `InstantiateByRecord.Declared` | src/main/java/de/beosign/snakeyamlanno/instantiator/InstantiateBy.java:39 | An annotation without an explicit value holds the `Instantiator.class` sentinel, which does not name an instantiator. |
| `Environment.GetKeyNode` | src/main/java/de/beosign/snakeyamlanno/constructor/AnnotationAwareConstructor.java:482-488 | Succeeds exactly for scalar key nodes and returns that node. Any other key fails with the "keys must be scalars" `YAMLException`. |
| `Environment.ConstructKeyString` | src/main/java/de/beosign/snakeyamlanno/constructor/AnnotationAwareConstructor.java:219 | The key is the constructed `String`. A construction failure propagates, and a non-string key fails the cast with `ClassCastException`. |
| `Registries.GetTypeForClass` | src/main/java/de/beosign/snakeyamlanno/constructor/AnnotationAwareConstructor.java:170-174 | A programmatic `Type` for exactly this class wins. The class's own annotation is used only when the map has no entry. |
| `Registries.GetInstantiateBy` | src/main/java/de/beosign/snakeyamlanno/constructor/AnnotationAwareConstructor.java:478-480 | Same precedence for `InstantiateBy`: map entry first, else the class's own annotation. |
| `Registries.ExactLookupsIgnoreHierarchy` | src/main/java/de/beosign/snakeyamlanno/constructor/AnnotationAwareConstructor.java:170-174 | The `Type` and `InstantiateBy` lookups never walk the hierarchy. Two reflections that agree on the class give equal answers whatever its ancestors carry. |
| `Registries.FirstConstructBy` | src/main/java/de/beosign/snakeyamlanno/constructor/AnnotationAwareConstructor.java:453-464 | Returns null exactly when no visited class has a hit. Otherwise it returns the hit at the first such class, and every earlier class has none. |
| `Registries.GetConstructBy` | src/main/java/de/beosign/snakeyamlanno/constructor/AnnotationAwareConstructor.java:444-465 | A registration for the type itself wins. Without one, the type's own declared annotation wins. Otherwise the answer is the first hit along the type, its superclasses and its interfaces, every earlier class missing. Null exactly when nothing along the hierarchy has a hit. |
| `Registries.OwnAnnotationBeatsAncestorRegistration` | src/main/java/de/beosign/snakeyamlanno/constructor/AnnotationAwareConstructor.java:448-461 | An annotation on the type beats a programmatic registration for any of its ancestors. |
| `Registries.InterfacesAfterSuperclasses` | src/main/java/de/beosign/snakeyamlanno/constructor/AnnotationAwareConstructor.java:448-461 | When neither the type nor any superclass has a hit, the first interface that has one decides. |
| `Registries.RegisterType` | src/main/java/de/beosign/snakeyamlanno/constructor/AnnotationAwareConstructor.java:396-398 | The `Type` map gains or overwrites the entry for `forType`. Other entries and the other registries are untouched. |
| `Registries.RegisterSubstitutionTypes` | src/main/java/de/beosign/snakeyamlanno/constructor/AnnotationAwareConstructor.java:386-388 | Afterwards the lookup for `forType` yields the given candidates with no custom selector, under every reflection. Every other class's lookup and the other registries are unchanged. |
| `Registries.RegisterInstantiator` | src/main/java/de/beosign/snakeyamlanno/constructor/AnnotationAwareConstructor.java:376-378 | A null instantiator class fails with `NullPointerException` and registers nothing. Otherwise it records exactly that class for `forType` and changes nothing else. |
| `Registries.RegisterCustomConstructor` | src/main/java/de/beosign/snakeyamlanno/constructor/AnnotationAwareConstructor.java:366-368 | Afterwards `getConstructBy(forType)` yields the registered constructor, under every reflection. Only the entry for `forType` is added or replaced, and the other registries are unchanged. |
| `Registries.UnregisterTypes` | src/main/java/de/beosign/snakeyamlanno/constructor/AnnotationAwareConstructor.java:405-407 | Afterwards every `Type` lookup falls back to the annotation. Constructor and instantiator registrations survive. |
| `Registries.SetGlobalInstantiator` | src/main/java/de/beosign/snakeyamlanno/constructor/AnnotationAwareConstructor.java:81-83 | Replaces only the global instantiator. |
| `Registries.RegisterTypeThenLookup` | src/main/java/de/beosign/snakeyamlanno/constructor/AnnotationAwareConstructor.java:396-398 | After a registration, the lookup of that class returns it whatever the annotation says. Other classes' lookups are unchanged. |
| `Registries.RegisterInstantiatorThenLookup` | src/main/java/de/beosign/snakeyamlanno/constructor/AnnotationAwareConstructor.java:376-378 | After a registration, `getInstantiateBy` of that class returns the record. Other classes are unchanged. |
| `Registries.RegisteredConstructorReachesSubtypes` | src/main/java/de/beosign/snakeyamlanno/constructor/AnnotationAwareConstructor.java:444-465 | A constructor registered for an ancestor is what `getConstructBy` returns for a subtype whose walk meets no earlier registration or annotation. |
| `Instantiators.CreateInstance` | src/main/java/de/beosign/snakeyamlanno/constructor/AnnotationAwareConstructor.java:142 | The default-instantiator lambda is exactly `super.newInstance(ancestor, node, tryDefault)`. A `DefaultInstantiator` answers what its default answers with a null default, and throws `NullPointerException` when it has none. A user instantiator is called with its default's outcome, or with none. |
| `Instantiators.DefaultInstantiatorForwards` | src/main/java/de/beosign/snakeyamlanno/type/DefaultInstantiator.java:14-15 | `DefaultInstantiator` returns exactly its default's outcome. The call's arguments are forwarded unchanged, and the default is handed a null default. |
| `Instantiators.DefaultInstantiatorPropagates` | src/main/java/de/beosign/snakeyamlanno/type/DefaultInstantiator.java:14-15 | An exception from the default instantiator escapes unchanged. |
| `Substitution.KeyMatches` | src/main/java/de/beosign/snakeyamlanno/constructor/AnnotationAwareConstructor.java:216-240 | A key passes exactly when it is scalar, constructs to a `String`, and names a bean property or a `@Property` alias of the candidate. Only exceptions other than `YAMLException` and `IntrospectionException` escape. |
| `Substitution.CandidateValid` | src/main/java/de/beosign/snakeyamlanno/constructor/AnnotationAwareConstructor.java:213-245 | A candidate is valid exactly when every key passes. The first key that does not pass decides: a key that fails to match makes the candidate invalid, and an exception outside the probe's catch clause (a `ClassCastException` from a non-string key, say) escapes unchanged. |
| `Substitution.ValidSubstitutionTypes` | src/main/java/de/beosign/snakeyamlanno/constructor/AnnotationAwareConstructor.java:206-250 | Succeeds exactly when no candidate's probe throws. The result is then the valid candidates, each once, at increasing declaration positions. On failure the exception is that of the first candidate whose probe throws, all earlier candidates having been probed without exception. |
| `Substitution.ValidSelection` | src/main/java/de/beosign/snakeyamlanno/constructor/AnnotationAwareConstructor.java:206-250 | The selected candidates are exactly the valid ones. The selection is empty exactly when none is valid, and otherwise starts with the first valid one. |
| `Substitution.FirstThrowingCandidate` | src/main/java/de/beosign/snakeyamlanno/constructor/AnnotationAwareConstructor.java:213-240 | The exception that aborts the probe loop is that of the first candidate whose probe throws. |
| `Substitution.SelectType` | src/main/java/de/beosign/snakeyamlanno/constructor/AnnotationAwareConstructor.java:91-133 | The type is unchanged for non-mapping nodes, for no `Type`, and for no candidates. A selector that cannot be created gives a `YAMLException`. Otherwise the selector's answer is used as is, given the valid list or an empty list when it disables the default algorithm. Without a selector the type is the first valid candidate, or unchanged when none is valid. Whenever the probe runs and throws, that exception escapes. |
| `Substitution.FirstValidCandidateWins` | src/main/java/de/beosign/snakeyamlanno/constructor/AnnotationAwareConstructor.java:120-130 | Without a selector the node gets the earliest valid candidate and every earlier candidate is invalid. When no candidate is valid the type is unchanged. |
| `Instantiation.TypeSpecific` | src/main/java/de/beosign/snakeyamlanno/constructor/AnnotationAwareConstructor.java:144-151 | No registration and the `Instantiator.class` sentinel both yield "not answered". An inaccessible instantiator class gives an `InstantiationException`. Otherwise the instantiator is called with the default-instantiator lambda. |
| `Instantiation.InstantiationChain` | src/main/java/de/beosign/snakeyamlanno/constructor/AnnotationAwareConstructor.java:142-160 | The first non-null result wins. The global instantiator runs only after a null from the type-specific step. `super.newInstance` runs only when both gave null. Exceptions stop the chain. |
| `Instantiation.NewInstance` | src/main/java/de/beosign/snakeyamlanno/constructor/AnnotationAwareConstructor.java:89-161 | The node changes only in its type, which becomes the selected type. Non-mapping nodes are unchanged. The instance is the chain's result for the retyped node, and a selection failure propagates. |
| `Instantiation.GlobalNotConsultedWhenTypeSpecificAnswers` | src/main/java/de/beosign/snakeyamlanno/constructor/AnnotationAwareConstructor.java:153-155 | Once the type-specific step answers, any global instantiator gives the same outcome. |
| `Instantiation.DefaultAnnotationValueIsNoInstantiator` | src/main/java/de/beosign/snakeyamlanno/constructor/AnnotationAwareConstructor.java:145 | A value-less `@InstantiateBy` behaves like no instantiator. |
| `Instantiation.DefaultInstantiatorCancelsGlobal` | src/main/java/de/beosign/snakeyamlanno/type/DefaultInstantiator.java:6-7 | With `DefaultInstantiator` registered for the type, SnakeYAML's default instance is the result and the global instantiator is not consulted. |
| `Construction.ConstructObject` | src/main/java/de/beosign/snakeyamlanno/constructor/AnnotationAwareConstructor.java:418-430 | Without a `ConstructBy` along the hierarchy, the default construction is used. Otherwise the custom constructor receives the default construction, and its creation or access failures become a `YAMLException`. |
| `Construction.AncestorRegistrationBuildsNode` | src/main/java/de/beosign/snakeyamlanno/constructor/AnnotationAwareConstructor.java:418-430 | After `registerCustomConstructor` for an ancestor, a node of the subtype is built by that custom constructor from the default construction. Its failures are wrapped as in `constructObject`, provided nothing earlier in the walk answers. |
| `Construction.ElementNode` | src/main/java/de/beosign/snakeyamlanno/constructor/AnnotationAwareConstructor.java:186-188 | Only the node's type changes. It becomes the first type argument, and the node is unchanged when the property has none. |
| `Construction.ConstructNodeAsList` | src/main/java/de/beosign/snakeyamlanno/constructor/AnnotationAwareConstructor.java:183-196 | A node missing from the node-to-property map gives `NullPointerException`. A null single object gives null, and any other gives a one-element list of it. The original type is back after a normal return. After an exception the node keeps the element type. |
| `Construction.Construct` | src/main/java/de/beosign/snakeyamlanno/constructor/AnnotationAwareConstructor.java:260-266 | Mapping and scalar nodes of a collection type go through singleton wrapping, and all others through `constructObject`. The scalar constructor at lines 343-348 behaves the same. |
| `Construction.WrappingMatchesDirectConstruction` | src/main/java/de/beosign/snakeyamlanno/constructor/AnnotationAwareConstructor.java:183-196 | For a collection-typed node, the result is the one-element list of exactly what direct construction against the element type yields, or null when that is null. The element type is the node's own type when the property has no type argument. |
| `Construction.ConstructNodeAsListInPlace` | src/main/java/de/beosign/snakeyamlanno/constructor/AnnotationAwareConstructor.java:183-196 | On a mutable node object, the result agrees with the functional model. The node's type is its original one after every normal return. |
| `SecondStep.RetypeKey` | src/main/java/de/beosign/snakeyamlanno/constructor/AnnotationAwareConstructor.java:277 | The key node's type becomes `String` and nothing else in the tuple changes. |
| `SecondStep.WrapPropertyFailure` | src/main/java/de/beosign/snakeyamlanno/constructor/AnnotationAwareConstructor.java:295-306 | A `YAMLException` is rethrown unchanged. Creation or access failures become "cannot be created", and anything else becomes "cannot set value". The result is always a `YAMLException`. |
| `SecondStep.CustomPropertyValue` | src/main/java/de/beosign/snakeyamlanno/constructor/AnnotationAwareConstructor.java:288-294 | The value comes from the custom constructor (given the default construction) and is set into the bean. If the constructor class cannot be created, the construction fails or the setter throws, then that exception is the outcome, in this order. |
| `SecondStep.Step` | src/main/java/de/beosign/snakeyamlanno/constructor/AnnotationAwareConstructor.java:274-325 | The value node is recorded against the resolved property. A property `ConstructBy` removes the tuple, with its failures wrapped as above. Under `ignoreExceptions` the tuple is removed exactly when default construction fails, and the step never fails because of it. Otherwise the tuple is kept. Key and property-resolution failures propagate. |
| `SecondStep.Pass` | src/main/java/de/beosign/snakeyamlanno/constructor/AnnotationAwareConstructor.java:274-325 | On success there is one fate per tuple, each consistent with its tuple's key and resolved property, and the final map is the input map with every fate's value node recorded in order. A failing first tuple aborts the loop with its exception. |
| `SecondStep.PassFollowsSteps` | src/main/java/de/beosign/snakeyamlanno/constructor/AnnotationAwareConstructor.java:274-325 | In a completed loop, each fate is exactly what the iteration gives for its tuple under the map the earlier iterations left. |
| `SecondStep.PassStopsAtFirstFailure` | src/main/java/de/beosign/snakeyamlanno/constructor/AnnotationAwareConstructor.java:274-325 | An aborted loop ran its iterations in order, each as `Step` gives it, until the first that threw. The loop's exception is that iteration's. |
| `SecondStep.PassRecordsEveryValueNode` | src/main/java/de/beosign/snakeyamlanno/constructor/AnnotationAwareConstructor.java:284 | After the loop, the map's keys are the earlier keys plus every value node. Entries for other nodes are unchanged. |
| `SecondStep.PassRecordsResolvedProperty` | src/main/java/de/beosign/snakeyamlanno/constructor/AnnotationAwareConstructor.java:280-284 | Each value node ends up mapped to the property its (last) tuple resolved to. |
| `SecondStep.Kept` | src/main/java/de/beosign/snakeyamlanno/constructor/AnnotationAwareConstructor.java:327-328 | The remaining tuples are those of the unremoved fates, at increasing positions. |
| `SecondStep.KeptIsExactlyTheUnremoved` | src/main/java/de/beosign/snakeyamlanno/constructor/AnnotationAwareConstructor.java:327-328 | Every remaining tuple belongs to an unremoved fate, and every unremoved tuple remains. |
| `SecondStep.ConstructJavaBean2ndStep` | src/main/java/de/beosign/snakeyamlanno/constructor/AnnotationAwareConstructor.java:269-330 | A failing loop aborts the step with its exception. Otherwise SnakeYAML's second step receives the same node with only the kept tuples, and its outcome (value or exception) is the step's outcome. |
| `SecondStep.IgnoredFailureIsDropped` | src/main/java/de/beosign/snakeyamlanno/constructor/AnnotationAwareConstructor.java:309-323 | In a completed loop, an `ignoreExceptions` tuple is withheld from the base step exactly when the default construction of its value fails, under the map built so far. |
| `SecondStep.PlainAndIgnoredPropertiesNeverAbort` | src/main/java/de/beosign/snakeyamlanno/constructor/AnnotationAwareConstructor.java:274-325 | When every key is scalar, converts to a string and resolves to a property without `ConstructBy`, the loop completes. `ignoreExceptions` values that fail to build never abort the bean. |
| `SecondStep.CustomYamlExceptionPropagates` | src/main/java/de/beosign/snakeyamlanno/constructor/AnnotationAwareConstructor.java:295-296 | A `YAMLException` from a property's custom constructor escapes the step unchanged. |
| `SecondStep.BaseStepSeesOnlyUnhandledTuples` | src/main/java/de/beosign/snakeyamlanno/constructor/AnnotationAwareConstructor.java:327-329 | SnakeYAML's second step sees, in order, the unremoved tuples with their keys typed `String`, none of them handled by a property `ConstructBy`. Every unremoved tuple is among them. |
| `ConvertedProperties.NewConvertedProperty` | src/main/java/de/beosign/snakeyamlanno/property/ConvertedProperty.java:26-31 | The property keeps the original's name and declares type `Object`. Its converter is created once, here, and a failure to create it escapes. |
| `ConvertedProperties.ToString` | src/main/java/de/beosign/snakeyamlanno/property/ConvertedProperty.java:38 | `Objects.toString`: null becomes `"null"`, a string is itself, and any other value gives its own `toString()`, whose exception escapes. |
| `ConvertedProperties.Set` | src/main/java/de/beosign/snakeyamlanno/property/ConvertedProperty.java:37-39 | The underlying property stores `convertToModel(toString(value))`, and the store succeeds whenever both calls return normally. Exceptions from `toString()` and from the converter escape, and no other field changes. |
| `ConvertedProperties.Get` | src/main/java/de/beosign/snakeyamlanno/property/ConvertedProperty.java:42-44 | Returns `convertToYaml` of the stored value, or the exception the converter throws. An unset underlying property is read as null before conversion. |
| `ConvertedProperties.SetSeesOnlyTheString` | src/main/java/de/beosign/snakeyamlanno/property/ConvertedProperty.java:38 | Two values with the same string form set the same model value. |
| `ConvertedProperties.NullArrivesAsNullString` | src/main/java/de/beosign/snakeyamlanno/property/ConvertedProperty.java:38 | Setting null is the same as setting the string `"null"`. |
| `ConvertedProperties.GetThenSetRoundTrips` | src/main/java/de/beosign/snakeyamlanno/property/ConvertedProperty.java:37-44 | If the converter turns the stored value into a YAML string and reproduces the value from it, `get` succeeds and writing back what it read leaves the bean unchanged. |
| `ConvertedProperties.SetThenGet` | src/main/java/de/beosign/snakeyamlanno/property/ConvertedProperty.java:37-44 | Reading after writing yields the YAML form of the converted model value. |

## Left out

- Reflection is a given `ClassInfo` per class name: annotation lookup, `Introspector.getBeanInfo`, `ClassUtils` hierarchy enumeration and `Class.newInstance`. Creating a strategy class is reduced to whether and how it fails.
- SnakeYAML internals are abstract functions of `Env`: `super.newInstance`, the default second step, `getConstructor(...).construct`, `typeDefinitions` and `getProperty`. Recursive construction of nested nodes happens inside them.
- User-supplied selectors, instantiators, custom constructors and converters are abstract. The model treats the default handed to a custom constructor or instantiator as side-effect free and hands over its single outcome. In the code that default can be the engine's own second step, which retypes key nodes, writes the node-to-property map and removes tuples from the node in place (`AnnotationAwareConstructor.java:277`, `:284`, `:328`). A custom constructor or instantiator that calls the default more than once, or relies on its mutations to the node and the map, is not modelled. The same holds for the trial construction of an `ignoreExceptions` value (`AnnotationAwareConstructor.java:316-318`): its result is discarded, but in the code it runs the nested instantiation and second step in place on the value node, so the base step (`:329`) builds that already-changed node a second time. User code in the nested bean then runs twice, and the nested bean's `ConstructBy` tuples are gone on the second build. The model's trial construction has no effect on the node or the map, and it hands the base step the value nodes unchanged.
- Logging and the text of exception messages are left out. Exceptions carry a kind and, where the code wraps, the cause.
- Case-insensitive key matching lives in `AnnotationAwarePropertyUtils`, which is not part of this model. Key-to-property resolution is the abstract `resolveProperty`.
- `Type.java`, `ConstructBy.java`, the `@Property` annotation, `CustomConstructor` and `Converter` are not part of this model.
  - `registerSubstitutionTypes` is taken to create a `Type` with the `NoSubstitutionTypeSelector` selector.
  - `ConstructBy.Factory.of` is taken to record the given class.
- A key that constructs to `null` is left out. The probe's alias comparison would then throw `NullPointerException`, and the model only distinguishes string and non-string keys.
- A selector that throws or returns `null` from `getSelectedType` is left out.
- Registering a `null` `Type` or a `null` class key is left out.
- State that an aborted call leaves behind is not modelled, because a failing call returns only its exception. This covers `nodeToPropertyMap` entries and property values set before a later tuple throws, and a substituted node type when instantiation then throws.
- `Property.set` on the bean object is recorded as the fate's `setValue` and not applied to an object heap. The base second step receives the bean reference only.
- `ConvertedProperties.Set` models the delegate property as a field store keyed by property name. The delegate's own `set` and `get` logic (in `AnnotatedProperty`) is not part of this model.
- The identity semantics of `IdentityHashMap` are a node id. The map's lifetime across documents is left to the caller, who passes it in.
- `src/test/java/de/beosign/snakeyamlanno/property/Company.java` is a plain test bean with no logic and is not modelled.
