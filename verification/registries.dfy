/** The per-constructor override tables and the lookups that consult them
    together with the annotations found by reflection. */
module Registries {
  import opened Wrappers
  import opened Runtime
  import opened InstantiateByRecord
  import opened Environment

  /** The programmatic registrations held by one `AnnotationAwareConstructor`. */
  datatype Registry = Registry(
    typesMap: map<ClassName, TypeAnnotation>,
    constructByMap: map<ClassName, ConstructBy>,
    instantiateByMap: map<ClassName, InstantiateBy>,
    globalInstantiator: Option<Instantiator>)

  /** A freshly created constructor registers nothing. */
  const Empty: Registry := Registry(map[], map[], map[], None)

  // ---------------------------------------------------------------- lookups

  /** `getTypeForClass`: a registration for exactly `c` wins over the annotation
      on `c`; no other class is consulted. */
  function GetTypeForClass(env: Env, reg: Registry, c: ClassName): (r: Option<TypeAnnotation>)
    ensures c in reg.typesMap ==> r == Some(reg.typesMap[c])
    ensures c !in reg.typesMap ==> r == env.reflect(c).typeAnnotation
  {
    if c in reg.typesMap then Some(reg.typesMap[c]) else env.reflect(c).typeAnnotation
  }

  /** `getInstantiateBy`: same precedence as `GetTypeForClass`, no hierarchy walk. */
  function GetInstantiateBy(env: Env, reg: Registry, c: ClassName): (r: Option<InstantiateBy>)
    ensures c in reg.instantiateByMap ==> r == Some(reg.instantiateByMap[c])
    ensures c !in reg.instantiateByMap ==> r == env.reflect(c).instantiateByAnnotation
  {
    if c in reg.instantiateByMap then Some(reg.instantiateByMap[c]) else env.reflect(c).instantiateByAnnotation
  }

  /** Only `c`'s own entry and annotation matter to the two exact-class lookups:
      two reflections that agree on `c` but differ on every ancestor give the same answers. */
  lemma ExactLookupsIgnoreHierarchy(env: Env, env': Env, reg: Registry, c: ClassName)
    requires env.reflect(c).typeAnnotation == env'.reflect(c).typeAnnotation
    requires env.reflect(c).instantiateByAnnotation == env'.reflect(c).instantiateByAnnotation
    ensures GetTypeForClass(env, reg, c) == GetTypeForClass(env', reg, c)
    ensures GetInstantiateBy(env, reg, c) == GetInstantiateBy(env', reg, c)
  {
  }

  /** The classes `getConstructBy` visits: the type, its superclasses, then its interfaces. */
  function Hierarchy(env: Env, t: ClassName): (h: seq<ClassName>)
    ensures |h| > 0 && h[0] == t
    ensures h[1..] == env.reflect(t).superclasses + env.reflect(t).interfaces
  {
    [t] + env.reflect(t).superclasses + env.reflect(t).interfaces
  }

  /** One step of the `getConstructBy` walk: the map is checked before the declared annotation. */
  function ConstructByAt(env: Env, reg: Registry, c: ClassName): (r: Option<ConstructBy>)
    ensures c in reg.constructByMap ==> r == Some(reg.constructByMap[c])
    ensures c !in reg.constructByMap ==> r == env.reflect(c).constructByAnnotation
  {
    if c in reg.constructByMap then Some(reg.constructByMap[c]) else env.reflect(c).constructByAnnotation
  }

  /** The first hit of `ConstructByAt` along `types`, or `None` when no class has one. */
  function FirstConstructBy(env: Env, reg: Registry, types: seq<ClassName>): (r: Option<ConstructBy>)
    ensures r.None? <==> forall i :: 0 <= i < |types| ==> ConstructByAt(env, reg, types[i]).None?
    ensures r.Some? ==>
      exists i :: 0 <= i < |types| && ConstructByAt(env, reg, types[i]) == r
                  && forall j :: 0 <= j < i ==> ConstructByAt(env, reg, types[j]).None?
  {
    if |types| == 0 then None
    else
      var here := ConstructByAt(env, reg, types[0]);
      if here.Some? then here
      else
        var rest := FirstConstructBy(env, reg, types[1..]);
        assert forall i :: 1 <= i < |types| ==> types[i] == types[1..][i - 1];
        rest
  }

  /** `getConstructBy`: the first hit along the type's hierarchy, walked as the
      type, its superclasses, then its interfaces. */
  function GetConstructBy(env: Env, reg: Registry, t: ClassName): (r: Option<ConstructBy>)
    ensures t in reg.constructByMap ==> r == Some(reg.constructByMap[t])
    ensures t !in reg.constructByMap && env.reflect(t).constructByAnnotation.Some? ==>
      r == env.reflect(t).constructByAnnotation
    ensures r.None? <==>
      forall i :: 0 <= i < |Hierarchy(env, t)| ==> ConstructByAt(env, reg, Hierarchy(env, t)[i]).None?
    ensures r.Some? ==>
      exists i :: 0 <= i < |Hierarchy(env, t)| && ConstructByAt(env, reg, Hierarchy(env, t)[i]) == r
                  && forall j :: 0 <= j < i ==> ConstructByAt(env, reg, Hierarchy(env, t)[j]).None?
  {
    FirstConstructBy(env, reg, Hierarchy(env, t))
  }

  /** An annotation declared on the type itself beats a registration for any of
      its ancestors, because the type is visited first. */
  lemma OwnAnnotationBeatsAncestorRegistration(env: Env, reg: Registry, t: ClassName, ancestor: ClassName)
    requires ancestor in Hierarchy(env, t)[1..] && ancestor in reg.constructByMap
    requires t !in reg.constructByMap && env.reflect(t).constructByAnnotation.Some?
    ensures GetConstructBy(env, reg, t) == env.reflect(t).constructByAnnotation
  {
  }

  /** When the type and all its superclasses have neither entry nor annotation,
      the first interface (in `getAllInterfaces` order) with a hit decides. */
  lemma {:induction false} InterfacesAfterSuperclasses(env: Env, reg: Registry, t: ClassName, k: nat)
    requires ConstructByAt(env, reg, t).None?
    requires forall s :: s in env.reflect(t).superclasses ==> ConstructByAt(env, reg, s).None?
    requires k < |env.reflect(t).interfaces|
    requires ConstructByAt(env, reg, env.reflect(t).interfaces[k]).Some?
    requires forall j :: 0 <= j < k ==> ConstructByAt(env, reg, env.reflect(t).interfaces[j]).None?
    ensures GetConstructBy(env, reg, t) == ConstructByAt(env, reg, env.reflect(t).interfaces[k])
  {
    var h := Hierarchy(env, t);
    var sup := env.reflect(t).superclasses;
    var itf := env.reflect(t).interfaces;
    var pos := 1 + |sup| + k;
    assert h[pos] == itf[k];
    forall j | 0 <= j < pos
      ensures ConstructByAt(env, reg, h[j]).None?
    {
      if j == 0 {
      } else if j <= |sup| {
        assert h[j] == sup[j - 1];
      } else {
        assert h[j] == itf[j - 1 - |sup|];
      }
    }
    FirstHitIsUnique(env, reg, h, pos);
  }

  /** Any index whose predecessors all miss and which hits is the one `FirstConstructBy` returns. */
  lemma FirstHitIsUnique(env: Env, reg: Registry, types: seq<ClassName>, pos: nat)
    requires pos < |types| && ConstructByAt(env, reg, types[pos]).Some?
    requires forall j :: 0 <= j < pos ==> ConstructByAt(env, reg, types[j]).None?
    ensures FirstConstructBy(env, reg, types) == ConstructByAt(env, reg, types[pos])
  {
  }

  // ---------------------------------------------------------- registration

  /** `registerType`: later lookups of `forType` see `t`. */
  function RegisterType(reg: Registry, forType: ClassName, t: TypeAnnotation): (r: Registry)
    ensures r.typesMap.Keys == reg.typesMap.Keys + {forType} && r.typesMap[forType] == t
    ensures forall c :: c in reg.typesMap && c != forType ==> r.typesMap[c] == reg.typesMap[c]
    ensures r.constructByMap == reg.constructByMap && r.instantiateByMap == reg.instantiateByMap
    ensures r.globalInstantiator == reg.globalInstantiator
  {
    reg.(typesMap := reg.typesMap[forType := t])
  }

  /** `registerSubstitutionTypes`: a `Type` with the given candidates and no custom selector. */
  function RegisterSubstitutionTypes(reg: Registry, forType: ClassName, substitutionTypes: seq<ClassName>): (r: Registry)
    ensures forall env: Env ::
      GetTypeForClass(env, r, forType) == Some(TypeAnnotation(substitutionTypes, NoSubstitutionTypeSelectorClass))
    ensures forall env: Env, c: ClassName :: c != forType ==> GetTypeForClass(env, r, c) == GetTypeForClass(env, reg, c)
    ensures r.typesMap.Keys == reg.typesMap.Keys + {forType}
    ensures r.constructByMap == reg.constructByMap && r.instantiateByMap == reg.instantiateByMap
    ensures r.globalInstantiator == reg.globalInstantiator
  {
    RegisterType(reg, forType, TypeAnnotation(substitutionTypes, NoSubstitutionTypeSelectorClass))
  }

  /** `registerInstantiator`: `None` is a null class, which `Factory.of` rejects
      before the map is touched. */
  function RegisterInstantiator(reg: Registry, forType: ClassName, instantiator: Option<ClassName>): (r: Result<Registry, Error>)
    ensures r.Failure? <==> instantiator.None?
    ensures r.Failure? ==> r.error == NullPointer
    ensures r.Success? ==> r.value.instantiateByMap == reg.instantiateByMap[forType := InstantiateBy(instantiator.value)]
    ensures r.Success? ==> r.value.typesMap == reg.typesMap && r.value.constructByMap == reg.constructByMap
    ensures r.Success? ==> r.value.globalInstantiator == reg.globalInstantiator
  {
    var record :- Of(instantiator);
    Success(reg.(instantiateByMap := reg.instantiateByMap[forType := record]))
  }

  /** `registerCustomConstructor`: `forType` and every type below it now find
      this constructor unless something earlier in their walk answers first
      (`RegisteredConstructorReachesSubtypes`). */
  function RegisterCustomConstructor(reg: Registry, forType: ClassName, customConstructor: ClassName): (r: Registry)
    ensures forall env: Env :: GetConstructBy(env, r, forType) == Some(ConstructBy(customConstructor))
    ensures r.constructByMap.Keys == reg.constructByMap.Keys + {forType}
    ensures forall c :: c in reg.constructByMap && c != forType ==> r.constructByMap[c] == reg.constructByMap[c]
    ensures r.typesMap == reg.typesMap && r.instantiateByMap == reg.instantiateByMap
    ensures r.globalInstantiator == reg.globalInstantiator
  {
    reg.(constructByMap := reg.constructByMap[forType := ConstructBy(customConstructor)])
  }

  /** `unregisterTypes`: clears only the `Type` registrations; constructor and
      instantiator registrations survive. */
  function UnregisterTypes(reg: Registry): (r: Registry)
    ensures forall env: Env, c: ClassName :: GetTypeForClass(env, r, c) == env.reflect(c).typeAnnotation
    ensures r.constructByMap == reg.constructByMap && r.instantiateByMap == reg.instantiateByMap
    ensures r.globalInstantiator == reg.globalInstantiator
  {
    reg.(typesMap := map[])
  }

  /** `setGlobalInstantiator`; `None` removes it. */
  function SetGlobalInstantiator(reg: Registry, global: Option<Instantiator>): (r: Registry)
    ensures r.globalInstantiator == global
    ensures r.typesMap == reg.typesMap && r.constructByMap == reg.constructByMap
    ensures r.instantiateByMap == reg.instantiateByMap
  {
    reg.(globalInstantiator := global)
  }

  /** A registration for `forType` wins over its annotation and leaves every other class's lookup alone. */
  lemma RegisterTypeThenLookup(env: Env, reg: Registry, forType: ClassName, t: TypeAnnotation, c: ClassName)
    ensures GetTypeForClass(env, RegisterType(reg, forType, t), c)
      == if c == forType then Some(t) else GetTypeForClass(env, reg, c)
  {
  }

  /** After an instantiator registration, `getInstantiateBy` of that class
      returns it whatever the class is annotated with. */
  lemma RegisterInstantiatorThenLookup(env: Env, reg: Registry, forType: ClassName, cls: ClassName, c: ClassName)
    ensures RegisterInstantiator(reg, forType, Some(cls)).Success?
    ensures GetInstantiateBy(env, RegisterInstantiator(reg, forType, Some(cls)).value, c)
      == if c == forType then Some(InstantiateBy(cls)) else GetInstantiateBy(env, reg, c)
  {
  }

  /** A constructor registered for an ancestor reaches a subtype whose walk
      meets no earlier entry or annotation. */
  lemma RegisteredConstructorReachesSubtypes(env: Env, reg: Registry, t: ClassName, forType: ClassName,
                                             customConstructor: ClassName, pos: nat)
    requires pos < |Hierarchy(env, t)| && Hierarchy(env, t)[pos] == forType
    requires forall j :: 0 <= j < pos ==>
      ConstructByAt(env, RegisterCustomConstructor(reg, forType, customConstructor), Hierarchy(env, t)[j]).None?
    ensures GetConstructBy(env, RegisterCustomConstructor(reg, forType, customConstructor), t)
         == Some(ConstructBy(customConstructor))
  {
    var r := RegisterCustomConstructor(reg, forType, customConstructor);
    FirstHitIsUnique(env, r, Hierarchy(env, t), pos);
  }
}
