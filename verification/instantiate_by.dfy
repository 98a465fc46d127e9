/** The `@InstantiateBy` record: either an annotation declared on a class or
    one built programmatically by `InstantiateBy.Factory.of`. */
module InstantiateByRecord {
  import opened Wrappers
  import opened Runtime

  /** An `InstantiateBy` value; `value` is the instantiator class it names. */
  datatype InstantiateBy = InstantiateBy(value: ClassName) {

    /** `annotationType()`: every record, declared or built, reports the annotation type. */
    function AnnotationType(): ClassName {
      InstantiateByAnnotationClass
    }

    /** True when the record names a real instantiator rather than the
        `Instantiator.class` default sentinel. */
    predicate NamesInstantiator() {
      value != InstantiatorClass
    }
  }

  /** `@InstantiateBy` as written on a class: without an explicit value the
      annotation carries its default, `Instantiator.class`. */
  function Declared(explicit: Option<ClassName>): (r: InstantiateBy)
    ensures explicit.None? ==> !r.NamesInstantiator()
    ensures explicit.Some? ==> r.value == explicit.value
  {
    InstantiateBy(explicit.GetOr(InstantiatorClass))
  }

  /** `InstantiateBy.Factory.of`: a `None` argument is Java's `null`, which
      `Objects.requireNonNull` rejects, so a built record never holds null. */
  function Of(instantiator: Option<ClassName>): (r: Result<InstantiateBy, Error>)
    ensures r.Success? <==> instantiator.Some?
    ensures r.Failure? ==> r.error == NullPointer
    ensures r.Success? ==> r.value.value == instantiator.value
    ensures r.Success? ==> r.value.AnnotationType() == InstantiateByAnnotationClass
  {
    match instantiator
    case None => Failure(NullPointer)
    case Some(c) => Success(InstantiateBy(c))
  }
}
