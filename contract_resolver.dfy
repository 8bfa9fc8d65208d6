/**
 * The contract resolver that leaves undefined `Undefinable<T>` properties out
 * of the serialized object.  For every property whose type resolves to an
 * `Undefinable<>` instantiation it installs a ShouldSerialize predicate that
 * reads the property's current value and answers whether it is defined.
 */
module ContractResolver {
  import opened Wrappers
  import opened Types
  import opened UndefinableValue
  import JsonConverter

  /** What the walk compares with `typeof(Undefinable<>)`: a generic type's definition, or the type itself. */
  datatype TypeOrDefinition = AType(t: Ty) | ADefinition(d: TypeDef)

  function DefinitionOrSelf(t: Ty): (r: TypeOrDefinition)
    ensures r == ADefinition(UndefinableDef) <==> t.Undefinable?
  {
    if IsGenericType(t) then ADefinition(GenericTypeDefinition(t)) else AType(t)
  }

  /**
   * The generic argument of the first type on the chain whose definition is
   * `Undefinable<>`, or None when no type on the chain has it.
   */
  function FirstUndefinableArgument(chain: seq<Ty>): (r: Option<Ty>)
    ensures r.None? <==> forall i :: 0 <= i < |chain| ==> !chain[i].Undefinable?
    ensures r.Some? ==> exists i :: 0 <= i < |chain| && chain[i] == Undefinable(r.value) &&
                                    forall j :: 0 <= j < i ==> !chain[j].Undefinable?
  {
    if chain == [] then None
    else if DefinitionOrSelf(chain[0]) == ADefinition(UndefinableDef) then
      // `.Single()`: an Undefinable<> instantiation has exactly one argument
      assert |GenericArguments(chain[0])| == 1;
      Some(GenericArguments(chain[0])[0])
    else
      var r := FirstUndefinableArgument(chain[1..]);
      assert forall i :: 1 <= i < |chain| ==> chain[i] == chain[1..][i - 1];
      r
  }

  /** The type parameter the resolver finds for a property type, if any. */
  function UndefinableArgumentOf(t: Ty): Option<Ty> {
    FirstUndefinableArgument(BaseChain(t))
  }

  /**
   * Walks the base-type chain from `settableType`, stopping at null or at
   * System.Object, and returns the single generic argument of the first type
   * whose generic definition is `Undefinable<>`; null when there is none.
   */
  method ResolveOptionTypeParameter(settableType: Ty) returns (r: Option<Ty>)
    ensures r == UndefinableArgumentOf(settableType)
  {
    var toCheck: Option<Ty> := Some(settableType);
    while toCheck.Some? && toCheck.value != ObjectTy
      invariant toCheck.Some? ==> UndefinableArgumentOf(settableType) == UndefinableArgumentOf(toCheck.value)
      invariant toCheck.None? ==> UndefinableArgumentOf(settableType) == None
      decreases if toCheck.Some? then Depth(toCheck.value) + 1 else 0
    {
      var current := toCheck.value;
      var cur := DefinitionOrSelf(current);
      if ADefinition(UndefinableDef) == cur {
        return Some(GenericArguments(current)[0]);
      }
      if BaseType(current).Some? {
        BaseTypeDecreasesDepth(current);
      }
      toCheck := BaseType(current);
    }
    return None;
  }

  /** Above a class or struct, the chain holds classes and structs only. */
  lemma {:induction false} ClassChainHasNoUndefinable(t: Ty)
    requires WellFormed(t) && (t.ObjectTy? || t.Other?)
    ensures forall i :: 0 <= i < |BaseChain(t)| ==> !BaseChain(t)[i].Undefinable?
  {
    if t.Other? && t.base.Some? {
      ClassChainHasNoUndefinable(t.base.value);
      assert BaseChain(t) == [t] + BaseChain(t.base.value);
    }
  }

  /**
   * On well-formed types the walk finds `a` exactly for `Undefinable<a>`
   * itself: the wrapper is a struct, so nothing derives from it.
   */
  lemma {:induction false} ResolvesExactlyUndefinable(t: Ty)
    requires WellFormed(t)
    ensures UndefinableArgumentOf(t).Some? <==> t.Undefinable?
    ensures t.Undefinable? ==> UndefinableArgumentOf(t) == Some(t.arg)
  {
    match t
    case ObjectTy =>
    case Other(_, _, _) => ClassChainHasNoUndefinable(t);
    case Enum(_, _) =>
      assert BaseChain(t) == [t, EnumBaseTy, ValueTypeTy];
    case Nullable(_) =>
      assert BaseChain(t) == [t, ValueTypeTy];
    case Undefinable(_) =>
  }

  /** A property value as the value provider returns it: a tri-state or an ordinary value. */
  datatype Boxed<V> = TriState(und: Und<V>) | Plain(value: Option<V>)

  /** The cast `(Undefinable<T>) v` followed by `IsDefined`; a value of another kind is not emitted. */
  predicate IsDefinedBoxed<V>(b: Boxed<V>) {
    b.TriState? && IsDefined(b.und)
  }

  /** A property of the object contract the serializer works from. */
  class JsonProperty<O, V> {
    const PropertyName: string
    const PropertyType: Ty
    const ValueProvider: O -> Boxed<V>
    var ShouldSerialize: Option<O -> bool>

    constructor (name: string, propertyType: Ty, valueProvider: O -> Boxed<V>)
      ensures PropertyName == name && PropertyType == propertyType && ValueProvider == valueProvider
      ensures ShouldSerialize == None
    {
      PropertyName := name;
      PropertyType := propertyType;
      ValueProvider := valueProvider;
      ShouldSerialize := None;
    }

    /** Whether the serializer writes this property of instance o. */
    predicate Emits(o: O)
      reads this
    {
      ShouldSerialize.None? || ShouldSerialize.value(o)
    }
  }

  /**
   * The predicate installed on a tri-state property: it reads the
   * property's current value on the instance and answers IsDefined.
   */
  function ShouldSerializeSettableBuilder<O(!new), V>(property: JsonProperty<O, V>): (shouldSerialize: O -> bool)
    ensures forall o :: property.ValueProvider(o).TriState? ==>
                          (shouldSerialize(o) <==> IsDefined(property.ValueProvider(o).und))
  {
    o => IsDefinedBoxed(property.ValueProvider(o))
  }

  /** Whether a field of the given declared type and value is written under the resolver. */
  predicate ShouldEmit<V>(declaredType: Ty, value: Boxed<V>) {
    UndefinableArgumentOf(declaredType).None? || IsDefinedBoxed(value)
  }

  /**
   * Takes the property the base resolver created and, when its type
   * resolves to an `Undefinable<>` instantiation, replaces its
   * ShouldSerialize predicate; any other property is returned untouched.
   */
  method CreateProperty<O(!new), V>(property: JsonProperty<O, V>) returns (result: JsonProperty<O, V>)
    modifies property
    ensures result == property
    ensures UndefinableArgumentOf(property.PropertyType).Some? ==>
              property.ShouldSerialize == Some(ShouldSerializeSettableBuilder(property))
    ensures UndefinableArgumentOf(property.PropertyType).None? ==>
              property.ShouldSerialize == old(property.ShouldSerialize)
    ensures old(property.ShouldSerialize).None? ==>
              forall o :: property.Emits(o) == ShouldEmit(property.PropertyType, property.ValueProvider(o))
  {
    var settableTypeParameter := ResolveOptionTypeParameter(property.PropertyType);
    if settableTypeParameter.Some? {
      property.ShouldSerialize := Some(ShouldSerializeSettableBuilder(property));
    }
    result := property;
  }

  /** Ordinary properties are always written. */
  lemma OrdinaryFieldEmitted<V>(declaredType: Ty, value: Boxed<V>)
    requires WellFormed(declaredType) && !declaredType.Undefinable?
    ensures ShouldEmit(declaredType, value)
  {
    ResolvesExactlyUndefinable(declaredType);
  }

  /** A tri-state property is written exactly when defined, a defined null included. */
  lemma TriStateFieldEmittedIffDefined<V>(inner: Ty, u: Und<V>)
    ensures ShouldEmit(Undefinable(inner), TriState(u)) <==> IsDefined(u)
  {
    assert BaseChain(Undefinable(inner)) == [Undefinable(inner), ValueTypeTy];
  }

  /**
   * A tri-state property that the resolver lets through never reaches the
   * converter's undefined branch: the converter hands its value to the
   * inner serializer.
   */
  lemma EmittedFieldIsNeverWrittenAsUndefined<W, P, V>(
    inner: Ty, u: Und<V>, writer: W, serializer: JsonConverter.Serializer<P, V>)
    requires ShouldEmit(Undefinable(inner), TriState(u))
    ensures JsonConverter.WriteJson(Some(writer), Some(u), Some(serializer))
              == Success([JsonConverter.SerializeValue(u.inner)])
  {
    TriStateFieldEmittedIffDefined(inner, u);
  }

  /** A field of the object being serialized. */
  datatype Field<V> = Field(name: string, declaredType: Ty, value: Boxed<V>)

  /** The keys the serializer writes, in field order. */
  function EmittedKeys<V>(fields: seq<Field<V>>): (keys: seq<string>)
    ensures |keys| <= |fields|
    ensures forall k :: k in keys <==>
              exists i :: 0 <= i < |fields| && fields[i].name == k && ShouldEmit(fields[i].declaredType, fields[i].value)
  {
    if fields == [] then []
    else
      var rest := EmittedKeys(fields[1..]);
      assert forall i :: 1 <= i < |fields| ==> fields[i] == fields[1..][i - 1];
      if ShouldEmit(fields[0].declaredType, fields[0].value) then [fields[0].name] + rest else rest
  }

  /**
   * An anonymous object `{ A = a, B = b }` of two `Undefinable<int>`
   * properties: only defined properties are written, so `{A:10, B:undefined}`
   * gives `{"A":10}` and two undefined properties give `{}`.
   */
  lemma TwoFieldObjectKeys(a: Und<int>, b: Und<int>)
    ensures var fields := [Field("A", Undefinable(Int32Ty), TriState(a)), Field("B", Undefinable(Int32Ty), TriState(b))];
            EmittedKeys(fields) == (if IsDefined(a) then ["A"] else []) + (if IsDefined(b) then ["B"] else [])
  {
    TriStateFieldEmittedIffDefined(Int32Ty, a);
    TriStateFieldEmittedIffDefined(Int32Ty, b);
  }

  /** The keys of two concatenated field lists are the keys of each, in order. */
  lemma {:induction false} EmittedKeysAppend<V>(first: seq<Field<V>>, second: seq<Field<V>>)
    ensures EmittedKeys(first + second) == EmittedKeys(first) + EmittedKeys(second)
  {
    if first == [] {
      assert first + second == second;
    } else {
      assert (first + second)[0] == first[0];
      assert (first + second)[1..] == first[1..] + second;
      EmittedKeysAppend(first[1..], second);
    }
  }

  /** Values of the mixed test object: ints and strings. */
  datatype Scalar = IntScalar(n: int) | StringScalar(s: string)

  /** The ordinary properties of the mixed test object, one null and one not. */
  function OrdinaryFields(): seq<Field<Scalar>> {
    [Field("NullString", StringTy, Plain(None)),
     Field("StringWithValue", StringTy, Plain(Some(StringScalar("hello"))))]
  }

  /** Four tri-state properties, undefined twice, null and with a value, of the given declared type. */
  function TriStateFields(names: TriStateNames, declaredType: Ty, value: Scalar): seq<Field<Scalar>> {
    [Field(names.undefinedAndNotSet, declaredType, TriState(Undefined)),
     Field(names.undefined, declaredType, TriState(Undefined)),
     Field(names.isNull, declaredType, TriState(Of(None))),
     Field(names.hasAValue, declaredType, TriState(Of(Some(value))))]
  }

  datatype TriStateNames = TriStateNames(undefinedAndNotSet: string, undefined: string, isNull: string, hasAValue: string)

  lemma {:induction false} TriStateFieldsKeys(names: TriStateNames, inner: Ty, value: Scalar)
    ensures EmittedKeys(TriStateFields(names, Undefinable(inner), value)) == [names.isNull, names.hasAValue]
  {
    var fields := TriStateFields(names, Undefinable(inner), value);
    TriStateFieldEmittedIffDefined<Scalar>(inner, Undefined);
    TriStateFieldEmittedIffDefined<Scalar>(inner, Of(None));
    TriStateFieldEmittedIffDefined<Scalar>(inner, Of(Some(value)));
    assert fields == [fields[0]] + [fields[1]] + ([fields[2]] + [fields[3]]);
    EmittedKeysAppend([fields[0]] + [fields[1]], [fields[2]] + [fields[3]]);
    EmittedKeysAppend([fields[0]], [fields[1]]);
    EmittedKeysAppend([fields[2]], [fields[3]]);
  }

  lemma OrdinaryFieldsKeys()
    ensures EmittedKeys(OrdinaryFields()) == ["NullString", "StringWithValue"]
  {
    var ordinary := OrdinaryFields();
    assert WellFormed(StringTy);
    OrdinaryFieldEmitted(ordinary[0].declaredType, ordinary[0].value);
    OrdinaryFieldEmitted(ordinary[1].declaredType, ordinary[1].value);
    assert ordinary == [ordinary[0]] + [ordinary[1]];
    EmittedKeysAppend([ordinary[0]], [ordinary[1]]);
  }

  const OptionalIntNames := TriStateNames("OptionalIntThatIsUndefinedAndExplicitlyNotSet", "OptionalIntThatIsUndefined",
                                          "OptionalIntThatIsNull", "OptionalIntThatHasAValue")
  const OptionalStringNames := TriStateNames("OptionalStringThatIsUndefinedAndExplicitlyNotSet", "OptionalStringThatIsUndefined",
                                             "OptionalStringThatIsNull", "OptionalStringThatHasAValue")

  /**
   * The mixed object: ordinary string properties are always written, null
   * or not; undefined tri-state properties are dropped; a defined null is
   * written.
   */
  lemma MixedObjectKeys(intValue: int, stringValue: string)
    ensures EmittedKeys(OrdinaryFields()
                        + TriStateFields(OptionalIntNames, Undefinable(Nullable(Int32Ty)), IntScalar(intValue))
                        + TriStateFields(OptionalStringNames, Undefinable(StringTy), StringScalar(stringValue)))
            == ["NullString", "StringWithValue", "OptionalIntThatIsNull", "OptionalIntThatHasAValue",
                "OptionalStringThatIsNull", "OptionalStringThatHasAValue"]
  {
    var ordinary := OrdinaryFields();
    var ints := TriStateFields(OptionalIntNames, Undefinable(Nullable(Int32Ty)), IntScalar(intValue));
    var strings := TriStateFields(OptionalStringNames, Undefinable(StringTy), StringScalar(stringValue));
    OrdinaryFieldsKeys();
    TriStateFieldsKeys(OptionalIntNames, Nullable(Int32Ty), IntScalar(intValue));
    TriStateFieldsKeys(OptionalStringNames, StringTy, StringScalar(stringValue));
    EmittedKeysAppend(ordinary, ints);
    EmittedKeysAppend(ordinary + ints, strings);
  }
}
