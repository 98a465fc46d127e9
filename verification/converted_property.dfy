/** `ConvertedProperty`: a bean property whose values pass through a
    `Converter` on the way in and on the way out. */
module ConvertedProperties {
  import opened Wrappers
  import opened Runtime
  import opened Environment

  /** The fields of a bean object, by property name. */
  type Bean = map<string, JValue>

  /** A converted property. `declaredType` is what the rest of the pipeline
      sees, so that the base engine does not build the target type itself. */
  datatype ConvertedProperty = ConvertedProperty(
    name: string,
    declaredType: ClassName,
    original: Property,
    converter: Converter)

  /** The constructor: the converter is created once, here; a failure to
      create it escapes. */
  function NewConvertedProperty(env: Env, original: Property, converterClass: ClassName): (r: Result<ConvertedProperty, Error>)
    ensures r.Success? <==> env.classFailure(converterClass).None?
    ensures r.Failure? ==> r.error == env.classFailure(converterClass).value
    ensures r.Success? ==> r.value.name == original.name && r.value.declaredType == ObjectClass
    ensures r.Success? ==> r.value.original == original && r.value.converter == env.converterOf(converterClass)
  {
    match env.classFailure(converterClass)
    case Some(e) => Failure(e)
    case None => Success(ConvertedProperty(original.name, ObjectClass, original, env.converterOf(converterClass)))
  }

  /** `Objects.toString(value)`: `"null"` for null, the string itself for a
      string, and otherwise the object's own `toString()`, whose exception escapes. */
  function ToString(env: Env, v: JValue): (s: Result<string, Error>)
    ensures v.Null? ==> s == Success("null")
    ensures v.Str? ==> s == Success(v.s)
    ensures !v.Null? && !v.Str? ==> s == env.objectToString(v)
  {
    match v
    case Null => Success("null")
    case Str(s) => Success(s)
    case _ => env.objectToString(v)
  }

  /** The value the underlying property holds (`null` while unset). */
  function Stored(bean: Bean, name: string): JValue {
    if name in bean then bean[name] else Null
  }

  /** `set(object, value)`: the underlying property receives the converter's
      model value for the string form of `value`, never `value` itself. */
  function Set(env: Env, p: ConvertedProperty, bean: Bean, value: JValue): (r: Result<Bean, Error>)
    ensures ToString(env, value).Failure? ==> r == Failure(ToString(env, value).error)
    ensures ToString(env, value).Success? && p.converter.convertToModel(ToString(env, value).value).Failure? ==>
      r == Failure(p.converter.convertToModel(ToString(env, value).value).error)
    ensures ToString(env, value).Success? && p.converter.convertToModel(ToString(env, value).value).Success? ==>
      r.Success?
    ensures r.Success? ==>
      && ToString(env, value).Success?
      && Success(Stored(r.value, p.name)) == p.converter.convertToModel(ToString(env, value).value)
    ensures r.Success? ==> r.value.Keys == bean.Keys + {p.name}
    ensures r.Success? ==> forall n :: n in bean && n != p.name ==> r.value[n] == bean[n]
  {
    var text :- ToString(env, value);
    var model :- p.converter.convertToModel(text);
    Success(bean[p.name := model])
  }

  /** `get(object)`: the converter's YAML form of the stored value; an
      exception from the converter escapes. */
  function Get(p: ConvertedProperty, bean: Bean): (r: Result<JValue, Error>)
    ensures p.name in bean ==> r == p.converter.convertToYaml(bean[p.name])
    ensures p.name !in bean ==> r == p.converter.convertToYaml(Null)
  {
    p.converter.convertToYaml(Stored(bean, p.name))
  }

  /** Setting depends on the value only through its string form. */
  lemma SetSeesOnlyTheString(env: Env, p: ConvertedProperty, bean: Bean, v1: JValue, v2: JValue)
    requires ToString(env, v1) == ToString(env, v2)
    ensures Set(env, p, bean, v1) == Set(env, p, bean, v2)
  {
  }

  /** A null value reaches the converter as the string `"null"`, just like the string `"null"` itself. */
  lemma NullArrivesAsNullString(env: Env, p: ConvertedProperty, bean: Bean)
    ensures Set(env, p, bean, Null) == Set(env, p, bean, Str("null"))
  {
  }

  /** The converter's round-trip law lifts to the property: writing back what
      `get` read leaves the bean unchanged when the converter reproduces the
      stored value from its YAML string form. */
  lemma {:induction false} GetThenSetRoundTrips(env: Env, p: ConvertedProperty, bean: Bean, s: string)
    requires p.name in bean
    requires p.converter.convertToYaml(bean[p.name]) == Success(Str(s))
    requires p.converter.convertToModel(s) == Success(bean[p.name])
    ensures Get(p, bean).Success? && Set(env, p, bean, Get(p, bean).value) == Success(bean)
  {
    assert ToString(env, Get(p, bean).value) == Success(s);
    assert bean[p.name := bean[p.name]] == bean;
  }

  /** Reading after writing yields the converter's YAML form of the converted model value. */
  lemma SetThenGet(env: Env, p: ConvertedProperty, bean: Bean, value: JValue)
    requires Set(env, p, bean, value).Success?
    ensures Get(p, Set(env, p, bean, value).value)
         == p.converter.convertToYaml(p.converter.convertToModel(ToString(env, value).value).value)
  {
  }
}
