/**
 * The JSON converter for `Undefinable<T>`.  The reader is reduced to the
 * token it is positioned at, the inner serializer to a pair of functions,
 * and the writer to the list of calls made on it.  Reflection-based generic
 * dispatch becomes Dafny's own type parameter T.
 */
module JsonConverter {
  import opened Wrappers
  import opened Types
  import opened UndefinableValue

  /** The token a reader is positioned at: a JSON null, or any other token with what follows it. */
  datatype Token<P> = JsonNull | JsonValue(payload: P)

  datatype JsonReader<P> = JsonReader(tokenType: Token<P>)

  /**
   * The external serializer: `deserialize` reads a value of the given inner
   * type from a non-null token (null when it yields no value), and
   * `serialize` gives the token a non-null value is written as.
   */
  datatype Serializer<!P, !T> = Serializer(deserialize: (Ty, P) -> Option<T>, serialize: T -> Token<P>)

  /** What the converter does to the writer. */
  datatype WriterCall<T> = WriteNull | SerializeValue(value: Option<T>)

  /** True exactly for instantiations of `Undefinable<>`; a null type is rejected. */
  function CanConvert(objectType: Option<Ty>): (r: Result<bool, Exception>)
    ensures objectType.None? <==> r == Failure(ArgumentNull("objectType"))
    ensures objectType.Some? ==> r.Success? && (r.value <==> exists a :: objectType.value == Undefinable(a))
  {
    if objectType.None? then Failure(ArgumentNull("objectType"))
    else
      var t := objectType.value;
      Success(IsGenericType(t) && GenericTypeDefinition(t) == UndefinableDef)
  }

  /** The first generic argument of the target type, or an exception when there is none. */
  function InnerType(objectType: Ty): (r: Result<Ty, Exception>)
    ensures r.Failure? <==> !IsGenericType(objectType)
    ensures r.Failure? ==> r.error == InvalidOperation("No inner type found.")
    ensures forall a :: objectType == Undefinable(a) ==> r == Success(a)
  {
    var args := GenericArguments(objectType);
    if args == [] then Failure(InvalidOperation("No inner type found.")) else Success(args[0])
  }

  /**
   * What reflection passes to `Some<T>` in place of the null argument: null
   * when the inner type admits null, default(T) when it is a non-nullable
   * value type.
   */
  predicate IsNullArgumentFor<T>(innerType: Ty, nullArgument: Option<T>) {
    nullArgument.None? <==> AdmitsNull(innerType)
  }

  /**
   * Maps the current token to a tri-state value: a null token is defined
   * (holding null, or default(T) for a non-nullable value type, passed in
   * as `nullArgument`), any other token is handed to the inner
   * deserializer, and a null it returns makes the result undefined.
   */
  function ReadJson<P, T>(reader: Option<JsonReader<P>>, objectType: Option<Ty>, serializer: Option<Serializer<P, T>>,
                          nullArgument: Option<T>)
    : (r: Result<Und<T>, Exception>)
    ensures reader.None? ==> r == Failure(ArgumentNull("reader"))
    ensures reader.Some? && objectType.None? ==> r == Failure(ArgumentNull("objectType"))
    ensures reader.Some? && objectType.Some? && serializer.None? ==> r == Failure(ArgumentNull("serializer"))
    ensures reader.Some? && objectType.Some? && serializer.Some? ==>
              (r.Failure? <==> !IsGenericType(objectType.value)) &&
              (r.Failure? ==> r.error == InvalidOperation("No inner type found."))
    // an explicit null is defined, never undefined
    ensures r.Success? && reader.value.tokenType == JsonNull ==> IsDefined(r.value) && r.value == Of(nullArgument)
    ensures r.Success? && reader.value.tokenType.JsonValue? ==>
              var inner := serializer.value.deserialize(GenericArguments(objectType.value)[0], reader.value.tokenType.payload);
              (r.value == Undefined <==> inner.None?) && (inner.Some? ==> r.value == Of(inner))
  {
    if reader.None? then Failure(ArgumentNull("reader"))
    else if objectType.None? then Failure(ArgumentNull("objectType"))
    else if serializer.None? then Failure(ArgumentNull("serializer"))
    else match InnerType(objectType.value)
      case Failure(e) => Failure(e)
      case Success(innerType) =>
        match reader.value.tokenType
        case JsonNull => Success(Of(nullArgument))
        case JsonValue(payload) =>
          var innerValue := serializer.value.deserialize(innerType, payload);
          if innerValue.None? then Success(Undefined) else Success(Of(innerValue))
  }

  /**
   * A null token read into `Undefinable<a>` is defined null when `a` admits
   * null, and defined with a non-null default when `a` is a non-nullable
   * value type.
   */
  lemma NullTokenByInnerType<P, T>(innerType: Ty, serializer: Serializer<P, T>, nullArgument: Option<T>)
    requires IsNullArgumentFor(innerType, nullArgument)
    ensures var r := ReadJson(Some(JsonReader(JsonNull)), Some(Undefinable(innerType)), Some(serializer), nullArgument);
            r.Success? && IsDefined(r.value) && (r.value == Of(None) <==> AdmitsNull(innerType))
  {
  }

  /**
   * Writes a null token for a null object and for an undefined value, and
   * otherwise hands the contained value (null included) to the inner
   * serializer, exactly once.
   */
  function WriteJson<W, P, T>(writer: Option<W>, value: Option<Und<T>>, serializer: Option<Serializer<P, T>>)
    : (r: Result<seq<WriterCall<T>>, Exception>)
    ensures writer.None? ==> r == Failure(ArgumentNull("writer"))
    ensures writer.Some? && serializer.None? ==> r == Failure(ArgumentNull("serializer"))
    ensures writer.Some? && serializer.Some? ==> r.Success? && |r.value| == 1
    ensures r.Success? ==> (r.value == [WriteNull] <==> value.None? || !IsDefined(value.value))
    ensures r.Success? && value.Some? && IsDefined(value.value) ==>
              r.value == [SerializeValue(value.value.inner)]
  {
    if writer.None? then Failure(ArgumentNull("writer"))
    else if serializer.None? then Failure(ArgumentNull("serializer"))
    else if value.None? then Success([WriteNull])
    else if !IsDefined(value.value) then Success([WriteNull])
    else Success([SerializeValue(GetValueOrDefault(value.value, None))])
  }

  /** The token a writer call produces; serializing a null value writes a null token. */
  function Emit<P, T>(call: WriterCall<T>, serializer: Serializer<P, T>): Token<P> {
    match call
    case WriteNull => JsonNull
    case SerializeValue(None) => JsonNull
    case SerializeValue(Some(v)) => serializer.serialize(v)
  }

  /** The inner serializer reads back every non-null value it writes, as a non-null token. */
  ghost predicate InnerRoundTrips<P, T(!new)>(serializer: Serializer<P, T>, innerType: Ty) {
    forall v :: serializer.serialize(v).JsonValue? &&
                serializer.deserialize(innerType, serializer.serialize(v).payload) == Some(v)
  }

  /**
   * Write then read gives back every defined value, when the inner
   * serializer round-trips its own values; a defined null, which only an
   * inner type admitting null can hold, comes back too.
   */
  lemma WriteThenReadDefined<W, P, T(!new)>(writer: W, u: Und<T>, serializer: Serializer<P, T>, innerType: Ty,
                                            nullArgument: Option<T>)
    requires IsDefined(u)
    requires InnerRoundTrips(serializer, innerType)
    requires IsNullArgumentFor(innerType, nullArgument)
    requires u.inner.None? ==> AdmitsNull(innerType)
    ensures var written := WriteJson(Some(writer), Some(u), Some(serializer));
            written.Success? && |written.value| == 1 &&
            ReadJson(Some(JsonReader(Emit(written.value[0], serializer))), Some(Undefinable(innerType)), Some(serializer),
                     nullArgument)
              == Success(u)
  {
    var written := WriteJson(Some(writer), Some(u), Some(serializer));
    assert written.value == [SerializeValue(u.inner)];
    match u.inner
    case None =>
    case Some(v) =>
      assert Emit(written.value[0], serializer) == serializer.serialize(v);
  }

  /**
   * Written directly, an undefined value becomes a null token, which is read
   * back as defined: defined null for an inner type admitting null, the
   * default value otherwise (`Undefinable<int>` comes back as 0).
   */
  lemma WriteThenReadUndefined<W, P, T>(writer: W, serializer: Serializer<P, T>, innerType: Ty, nullArgument: Option<T>)
    requires IsNullArgumentFor(innerType, nullArgument)
    ensures var written := WriteJson(Some(writer), Some(Undefined), Some(serializer));
            written == Success([WriteNull]) &&
            var r := ReadJson(Some(JsonReader(Emit(WriteNull, serializer))), Some(Undefinable(innerType)), Some(serializer),
                              nullArgument);
            r.Success? && IsDefined(r.value) && (r.value == Of(None) <==> AdmitsNull(innerType))
  {
    NullTokenByInnerType(innerType, serializer, nullArgument);
  }

  /**
   * The deserialization engine around the converter: a key absent from the
   * document never reaches the converter and leaves the field at its
   * default, undefined; a present key is read by the converter.
   */
  function ReadField<P, T>(document: map<string, Token<P>>, key: string, fieldType: Ty, serializer: Serializer<P, T>,
                           nullArgument: Option<T>)
    : (r: Result<Und<T>, Exception>)
    ensures key !in document ==> r == Success(Undefined)
    ensures key in document && document[key] == JsonNull && IsGenericType(fieldType) ==> r == Success(Of(nullArgument))
  {
    if key !in document then Success(Undefined)
    else ReadJson(Some(JsonReader(document[key])), Some(fieldType), Some(serializer), nullArgument)
  }

  /** An int deserializer that reads every payload as itself. */
  function IntSerializer(): Serializer<int, int> {
    Serializer((t: Ty, p: int) => Some(p), (v: int) => JsonValue(v))
  }

  /**
   * The decoding table of the tests for a record with two `Undefinable<int>`
   * fields A and B: a missing key is undefined, `null` is defined with the
   * default 0, and 5 is defined 5.
   */
  lemma DeserializationCases()
    ensures IsNullArgumentFor(Int32Ty, Some(0))
    ensures var ty := Undefinable(Int32Ty);
            var s := IntSerializer();
            var d1: map<string, Token<int>> := map["A" := JsonValue(10)];
            var d2: map<string, Token<int>> := map["A" := JsonValue(10), "B" := JsonNull];
            var d3: map<string, Token<int>> := map[];
            var d4: map<string, Token<int>> := map["A" := JsonValue(10), "B" := JsonValue(5)];
            var d5: map<string, Token<int>> := map["B" := JsonNull];
            var zero := Some(0);
            && ReadField(d1, "A", ty, s, zero) == Success(Of(Some(10))) && ReadField(d1, "B", ty, s, zero) == Success(Undefined)
            && ReadField(d2, "A", ty, s, zero) == Success(Of(Some(10))) && ReadField(d2, "B", ty, s, zero) == Success(Of(Some(0)))
            && ReadField(d3, "A", ty, s, zero) == Success(Undefined) && ReadField(d3, "B", ty, s, zero) == Success(Undefined)
            && ReadField(d4, "A", ty, s, zero) == Success(Of(Some(10))) && ReadField(d4, "B", ty, s, zero) == Success(Of(Some(5)))
            && ReadField(d5, "A", ty, s, zero) == Success(Undefined) && ReadField(d5, "B", ty, s, zero) == Success(Of(Some(0)))
  {
  }

  /**
   * The same documents read into `Undefinable<int?>` fields: there `null`
   * is defined null, and stays distinct from an absent key.
   */
  lemma NullableDeserializationCases()
    ensures IsNullArgumentFor<int>(Nullable(Int32Ty), None)
    ensures var ty := Undefinable(Nullable(Int32Ty));
            var s := IntSerializer();
            var d2: map<string, Token<int>> := map["A" := JsonValue(10), "B" := JsonNull];
            var d5: map<string, Token<int>> := map["B" := JsonNull];
            && ReadField(d2, "A", ty, s, None) == Success(Of(Some(10))) && ReadField(d2, "B", ty, s, None) == Success(Of(None))
            && ReadField(d5, "A", ty, s, None) == Success(Undefined) && ReadField(d5, "B", ty, s, None) == Success(Of(None))
  {
  }
}
