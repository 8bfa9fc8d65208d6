# UndefinableOfT in Dafny

A model of the JSON integration of `Undefinable<T>`, a tri-state wrapper that
tells apart an undefined value (the key was absent), a value defined as null,
and a defined value. The model covers three parts:

- **The converter** (`UndefinableJsonConverter`). `CanConvert` accepts every
  `Undefinable<>` instantiation. `ReadJson` turns the token the reader is
  positioned at into a tri-state value. `WriteJson` writes a null token or
  hands the contained value to the inner serializer.
- **The contract resolver** (`UndefinableContractResolver`). It walks a
  property type's base-type chain looking for `Undefinable<>`. When it finds
  one, it installs a `ShouldSerialize` predicate that writes the property only
  when its value is defined.
- **Core-type comparison** (`TypeExtensions`). It strips `Nullable<>`, reduces
  an enum to its underlying type, and compares two types by what remains.

The wrapper itself is modelled only as far as these parts need it:
`datatype Und<T> = Undefined | Defined(inner: Option<T>)`, where
`Option.None` is C# null. It has `IsDefined`, `Value`, construction, and
`GetValueOrDefault`, plus the same-type `==` and `!=` operators.

Layout, one module per file:

- `wrappers.dfy`: `Option` (null or a value), `Result` (a value or a thrown
  exception), and the two exception kinds.
- `types.dfy`: runtime types as reflection shows them. `Nullable<>`,
  `Undefinable<>` and enums have their own constructors. Every other class,
  struct or interface is `Other(name, args, base)`. The constants
  `System.ValueType` and `System.Enum` give value types their real base
  chain. `IsValueType` holds for types with `System.ValueType` on their base
  chain, other than `System.ValueType` and `System.Enum` themselves.
  `WellFormed` lists the shapes the runtime allows: a class derives only
  from a class, an enum rests on an integral type, and `Nullable<>` wraps a
  value type that is not itself `Nullable<>`.
- `undefinable.dfy`: the wrapper.
- `type_extensions.dfy`, `json_converter.dfy`, `contract_resolver.dfy`: one
  per source file.

Reflection-based generic dispatch (`MakeGenericMethod`, `Invoke`) becomes
Dafny's own type parameter `T`. The converter's private helpers map onto the
wrapper as follows:

- `None<T>()` is `Undefined`.
- `Some<T>(v)` is `Of(v)`.
- `HasValue` is `IsDefined`.
- `GetValue` is `GetValueOrDefault`.

The external collaborators are modelled as follows:

- **The reader** is the token it is positioned at: `JsonNull`, or
  `JsonValue(payload)`, where the payload stands for everything that follows
  the token.
- **The inner serializer** is a pair of functions: `deserialize(innerType,
  payload)`, which may return null, and `serialize(value)`.
- **The writer** is the list of calls the converter makes on it.
- **`Emit`** gives the token each call produces. Serializing a null value
  writes a null token.
- **`base.CreateProperty`** is external. Its result is the `JsonProperty`
  object that `CreateProperty` receives.

`ReadJson` on a non-null token whose inner deserialization yields null
returns `Undefined` (src/UndefinableOfT/UndefinableJsonConverter.cs:31-36).

On a null token, `ReadJson` invokes `Some<T>` through reflection with a null
argument (src/UndefinableOfT/UndefinableJsonConverter.cs:28). Reflection
passes null when `T` admits null, and `default(T)` when `T` is a
non-nullable value type. The model takes this argument as the parameter
`nullArgument`, tied to the inner type by `IsNullArgumentFor`. So `null` read
into `Undefinable<int?>` is a defined null, and read into `Undefinable<int>`
it is a defined 0.

## Model

| member | source | states |
|---|---|---|
| UndefinableValue.IsDefined | src/UndefinableOfT.Tests/UndefinableTests.cs:17-29 | a value is defined exactly when it is not the undefined state |
| UndefinableValue.Of | src/UndefinableOfT.Tests/UndefinableTests.cs:24-30 | construction from a value, null included, always yields a defined value |
| UndefinableValue.Value | src/UndefinableOfT.Tests/UndefinableTests.cs:17-22 | reading the value fails with InvalidOperation exactly when undefined; on success, wrapping the result gives back the original |
| UndefinableValue.GetValueOrDefault | src/UndefinableOfT/UndefinableJsonConverter.cs:78 | a defined value yields what `Value` yields; an undefined one yields the given default |
| UndefinableValue.ValueOfRoundTrip | src/UndefinableOfT.Tests/UndefinableTests.cs:33-52 | wrapping then reading the value gives back any value, null included |
| UndefinableValue.OperatorEquals | src/UndefinableOfT.Tests/UndefinableTests.cs:186-206 | same-type `==` holds exactly when both are undefined, or both are defined with equal values (two nulls being equal) |
| UndefinableValue.OperatorNotEquals | src/UndefinableOfT.Tests/UndefinableTests.cs:194-213 | `!=` holds exactly when the two tri-state values differ |
| UndefinableValue.EqualityCases | src/UndefinableOfT.Tests/UndefinableTests.cs:140-152 | undefined equals only undefined, defined null equals only defined null, and two defined ints are equal iff the ints are |
| Types.BaseChain | src/UndefinableOfT/UndefinableContractResolver.cs:35-43 | the chain walked from a type starts with the type itself, each entry's BaseType is the next entry, the last entry's BaseType is null or System.Object, and System.Object never appears; one entry per level |
| Types.BaseTypeDecreasesDepth | src/UndefinableOfT/UndefinableContractResolver.cs:36-43 | each step to the base type strictly shortens the remaining chain, so the walk terminates |
| TypeExtensions.IsNullableType | src/UndefinableOfT/TypeExtensions.cs:22-25 | true exactly for instantiations of `Nullable<>` |
| TypeExtensions.GetCoreType | src/UndefinableOfT/TypeExtensions.cs:27-39 | a type that is neither nullable nor an enum is its own core type; a bare enum becomes its underlying type |
| TypeExtensions.CoreTypeIsCore | src/UndefinableOfT/TypeExtensions.cs:27-39 | on a well-formed type the core type is neither nullable nor an enum |
| TypeExtensions.GetCoreTypeIdempotent | src/UndefinableOfT/TypeExtensions.cs:29-39 | applying GetCoreType twice equals applying it once, on well-formed types |
| TypeExtensions.GetCoreTypeSeesThroughNullable | src/UndefinableOfT/TypeExtensions.cs:29-32 | `T?` has the core type of `T` |
| TypeExtensions.DoTypesResolveToSameCoreType | src/UndefinableOfT/TypeExtensions.cs:7-20 | equal types resolve to the same core type (reflexive); two non-nullable types match only if equal |
| TypeExtensions.SameCoreTypeSymmetric | src/UndefinableOfT/TypeExtensions.cs:7-20 | the comparison does not depend on argument order |
| TypeExtensions.SameCoreTypeTransitive | src/UndefinableOfT/TypeExtensions.cs:7-20 | the comparison is transitive |
| TypeExtensions.MatchesOwnNullableUnlessEnum | src/UndefinableOfT/TypeExtensions.cs:9-37 | a well-formed type matches its own nullable form iff it is not an enum: `E` against `E?` compares `E` with the underlying type |
| TypeExtensions.NullableEnumMatchesUnderlying | src/UndefinableOfT/TypeExtensions.cs:27-39 | `E?` matches the underlying type of `E`, while a bare `E` does not |
| TypeExtensions.IntAndNullableIntMatch | src/UndefinableOfT/TypeExtensions.cs:9-19 | `int` and `int?` match both ways; `int` and `double?` do not |
| JsonConverter.CanConvert | src/UndefinableOfT/UndefinableJsonConverter.cs:10-14 | a null type is rejected with ArgumentNull; any other type gives a bool, never an exception, true exactly for `Undefinable<a>`, whatever `a` is |
| JsonConverter.InnerType | src/UndefinableOfT/UndefinableJsonConverter.cs:22 | a type with no generic argument fails with "No inner type found."; `Undefinable<a>` yields `a` |
| JsonConverter.ReadJson | src/UndefinableOfT/UndefinableJsonConverter.cs:16-39 | null reader, type and serializer are rejected in that order, before any token is read; otherwise it fails only for a type without generic arguments, with "No inner type found."; a null token gives a defined value holding what reflection passes for null, never undefined; a non-null token gives undefined iff the inner deserializer yields null, else the defined inner value |
| JsonConverter.NullTokenByInnerType | src/UndefinableOfT/UndefinableJsonConverter.cs:26-29 | a null token read into `Undefinable<a>` is defined; it is defined null exactly when `a` admits null, otherwise it holds `default(a)` |
| JsonConverter.WriteJson | src/UndefinableOfT/UndefinableJsonConverter.cs:41-67 | null writer and serializer are rejected before anything is written; otherwise exactly one call is made, a null write iff the object is null or undefined, else the inner serializer on the contained value |
| JsonConverter.WriteThenReadDefined | src/UndefinableOfT/UndefinableJsonConverter.cs:26-66 | a defined value written and read back is the same value, given an inner serializer that round-trips; a defined null, which only an inner type admitting null can hold, comes back too |
| JsonConverter.WriteThenReadUndefined | src/UndefinableOfT/UndefinableJsonConverter.cs:26-62 | written directly, undefined becomes a null token, which reads back as defined: defined null when the inner type admits null, `default(T)` otherwise (`Undefinable<int>` reads back as 0) |
| JsonConverter.ReadField | src/UndefinableOfT.Tests/UndefinableTests.cs:66-79 | an absent key leaves the field undefined; a present null key gives a defined value holding what reflection passes for null |
| JsonConverter.DeserializationCases | src/UndefinableOfT.Tests/UndefinableTests.cs:61-65 | the five decoding cases of the tests for `Undefinable<int>` fields; `{B:null}` gives A undefined and B defined with the default 0 |
| JsonConverter.NullableDeserializationCases | src/UndefinableOfT.Tests/UndefinableJsonSerializerDeserializerTests.cs:36-54 | read into `Undefinable<int?>` fields, `null` is defined null, `10` is defined 10, and an absent key is undefined |
| ContractResolver.DefinitionOrSelf | src/UndefinableOfT/UndefinableContractResolver.cs:38-39 | the compared definition is `Undefinable<>` exactly for `Undefinable<>` instantiations |
| ContractResolver.FirstUndefinableArgument | src/UndefinableOfT/UndefinableContractResolver.cs:35-46 | null iff no type on the chain is an `Undefinable<>` instantiation; otherwise the single argument of the first one |
| ContractResolver.ResolveOptionTypeParameter | src/UndefinableOfT/UndefinableContractResolver.cs:33-48 | the loop, which stops at null or System.Object, returns the first `Undefinable<>` argument on the base chain, or null |
| ContractResolver.ResolvesExactlyUndefinable | src/UndefinableOfT/UndefinableContractResolver.cs:33-48 | on well-formed types the walk finds an argument exactly for `Undefinable<a>`, and that argument is `a` |
| ContractResolver.ShouldSerializeSettableBuilder | src/UndefinableOfT/UndefinableContractResolver.cs:74-81 | the predicate answers, for each instance, whether the property's current tri-state value is defined |
| ContractResolver.CreateProperty | src/UndefinableOfT/UndefinableContractResolver.cs:19-31 | the same property is returned; an `Undefinable<>` property gets the predicate, any other keeps its ShouldSerialize; afterwards it is emitted exactly as ShouldEmit says |
| ContractResolver.OrdinaryFieldEmitted | src/UndefinableOfT/UndefinableContractResolver.cs:21-30 | a property whose type is not `Undefinable<>` is always emitted |
| ContractResolver.TriStateFieldEmittedIffDefined | src/UndefinableOfT/UndefinableContractResolver.cs:76-80 | a tri-state property is emitted exactly when defined, a defined null included |
| ContractResolver.EmittedFieldIsNeverWrittenAsUndefined | src/UndefinableOfT/UndefinableContractResolver.cs:25-28 | a tri-state property the resolver lets through reaches the converter's delegating branch, never the undefined one |
| ContractResolver.EmittedKeys | src/UndefinableOfT.Tests/UndefinableTests.cs:122-129 | a key is written exactly when some field of that name passes ShouldEmit; no more keys than fields |
| ContractResolver.EmittedKeysAppend | src/UndefinableOfT.Tests/UndefinableTests.cs:122-129 | the keys of concatenated field lists are the concatenation of their keys |
| ContractResolver.TwoFieldObjectKeys | src/UndefinableOfT.Tests/UndefinableTests.cs:112-129 | `{A,B}` of `Undefinable<int>` writes only its defined keys: `["A"]` for `{A:10}`, `["B"]` for `{B:0}`, `[]` when both are undefined |
| ContractResolver.MixedObjectKeys | src/UndefinableOfT.Tests/UndefinableJsonSerializerDeserializerTests.cs:11-30 | ordinary string properties are written (null too), undefined tri-state properties are dropped, defined null ones are written |

## Left out

- Textual JSON is not modelled. The model stops at tokens. Float rendering
  such as `0.0` and `-10.53` belongs to the external serializer.
- The static `Instance`, the per-property predicate cache and its thread
  safety are not modelled. They are a concurrency concern.
- `MakeStaticGenericMethodInfo` and `MakeGenericMethod` failures are not
  modelled. The private methods always exist, and generic dispatch is Dafny's
  type parameter.
- ReadJson: the `existingValue` argument is not a parameter, because the
  source never reads it.
- WriteJson: a value whose runtime type is not `Undefinable<>` cannot be
  expressed, because the model is typed. For such a value the source throws
  `InvalidOperationException("No inner type found.")` when the type is not
  generic. When the type is generic, reflection's `Invoke` throws.
- WriteJson: `GetValue` passes `default(T)` as the fallback. The model passes
  null, which is never used because the value is known to be defined there.
- The `asdf` local in WriteJson is not modelled. It is unused.
- CanConvert: the open definition `typeof(Undefinable<>)` itself is not
  representable. `Ty` holds closed types only.
- ContractResolver.ShouldSerializeSettableBuilder: the model answers false
  for a value that is not a tri-state. There the source's cast throws:
  InvalidCastException for a value of another type, and
  NullReferenceException for a null value, since unboxing null fails. Neither
  value can occur for a property declared `Undefinable<T>`, a struct.
- UndefinableValue.OperatorEquals: `T.Equals` is taken to be value equality.
  A user-defined `Equals` is not modelled.
- Not modelled from the wrapper: the cross-nullability `Equals(object)`,
  `GetHashCode`, `ToString`, the `==`/`!=` overloads against a bare `T`, the
  zero-argument `GetValueOrDefault()` (src/UndefinableOfT/Undefinable`1.cs:92-95),
  and the implicit conversion to `T`. The conversion to `T` behaves as
  `Value`. They lie outside the converter, the resolver and type comparison.
- The cross-nullability `Equals(object)` is checked by live tests
  (src/UndefinableOfT.Tests/UndefinableTests.cs:40,51) and is not modelled,
  for the reason above. The commented-out tests are the cross-nullability
  `==` tests (src/UndefinableOfT.Tests/UndefinableTests.cs:169-185).
- ReadJson: the value of `default(T)` for a non-nullable value type is not
  computed from the type. The caller supplies it as `nullArgument`, and
  `IsNullArgumentFor` only says whether it is null.
- ReadJson, WriteJson: the inner `deserialize` and `serialize` cannot fail.
  In the source an exception from `serializer.Deserialize` or
  `serializer.Serialize` (src/UndefinableOfT/UndefinableJsonConverter.cs:31,66)
  propagates, as for a string token read into `Undefinable<int>`.
- The JSON reader and writer, `base.CreateProperty` and the value provider are
  abstract stand-ins, as described above. Only the decisions this code makes
  are modelled.
