/**
 * The tri-state wrapper `Undefinable<T>`: undefined (the key was absent),
 * defined with null, or defined with a value.  A C# default instance is
 * `Undefined`; every constructor and conversion gives a defined one.
 */
module UndefinableValue {
  import opened Wrappers

  datatype Und<T> = Undefined | Defined(inner: Option<T>)

  /** True once a value has been set, even a null one. */
  function IsDefined<T>(u: Und<T>): (r: bool)
    ensures r <==> u != Undefined
  {
    u.Defined?
  }

  /** `new Undefinable<T>(value)` and the implicit conversion from T. */
  function Of<T>(value: Option<T>): (u: Und<T>)
    ensures IsDefined(u)
  {
    Defined(value)
  }

  /** The `Value` property: the contained value, or an exception when undefined. */
  function Value<T>(u: Und<T>): (r: Result<Option<T>, Exception>)
    ensures r.Failure? <==> !IsDefined(u)
    ensures r.Failure? ==> r.error == InvalidOperation("The value is undefined.")
    ensures r.Success? ==> Of(r.value) == u
  {
    match u
    case Undefined => Failure(InvalidOperation("The value is undefined."))
    case Defined(x) => Success(x)
  }

  /** `GetValueOrDefault(defaultValue)` */
  function GetValueOrDefault<T>(u: Und<T>, defaultValue: Option<T>): (r: Option<T>)
    ensures IsDefined(u) ==> Value(u) == Success(r)
    ensures !IsDefined(u) ==> r == defaultValue
  {
    match u
    case Undefined => defaultValue
    case Defined(x) => x
  }

  /** Every value survives the wrapping: `Of(x).Value == x`, null included. */
  lemma ValueOfRoundTrip<T>(x: Option<T>)
    ensures Value(Of(x)) == Success(x)
    ensures GetValueOrDefault(Of(x), None) == x
  {
  }

  /**
   * The same-type `==` operator, branch by branch.  Values are compared with
   * their own Equals, which the model takes to be value equality; a non-null
   * value never equals null.
   */
  function OperatorEquals<T(==)>(t1: Und<T>, t2: Und<T>): (r: bool)
    ensures r <==> t1 == t2
  {
    if !IsDefined(t1) && !IsDefined(t2) then true
    else if IsDefined(t1) != IsDefined(t2) then false
    else if t1.inner.None? && t2.inner.None? then true
    else if t1.inner.None? then t2.inner == t1.inner
    else t1.inner == t2.inner
  }

  /** The same-type `!=` operator, the negation of `==`. */
  function OperatorNotEquals<T(==)>(t1: Und<T>, t2: Und<T>): (r: bool)
    ensures r <==> t1 != t2
  {
    !OperatorEquals(t1, t2)
  }

  /** The equality table of the tests: undefined only equals undefined, null only equals null. */
  lemma EqualityCases(n: int, m: int)
    ensures OperatorEquals<int>(Undefined, Undefined)
    ensures !OperatorEquals(Of(Some(n)), Undefined)
    ensures OperatorEquals(Of(Some(n)), Of(Some(m))) <==> n == m
    ensures !OperatorEquals(Undefined, Of<int>(None))
    ensures OperatorEquals(Of<int>(None), Of(None))
    ensures !OperatorEquals(Of(None), Of(Some(n)))
  {
  }
}
