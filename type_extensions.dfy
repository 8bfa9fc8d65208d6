/**
 * Comparison of types by their core type: `int?` and `int` share the core
 * type `int`, and a nullable enum is reduced to the enum's underlying type.
 */
module TypeExtensions {
  import opened Types

  /** True exactly for instantiations of `Nullable<>`. */
  function IsNullableType(t: Ty): (r: bool)
    ensures r <==> exists a :: t == Nullable(a)
  {
    IsGenericType(t) && GenericTypeDefinition(t) == NullableDef
  }

  /** Enum.GetUnderlyingType */
  function GetUnderlyingType(t: Ty): Ty
    requires IsEnum(t)
  {
    t.underlying
  }

  /** Strips one `Nullable<>` layer, then replaces an enum by its underlying type. */
  function GetCoreType(t: Ty): (r: Ty)
    ensures !IsNullableType(t) && !IsEnum(t) ==> r == t
    ensures !IsNullableType(t) && IsEnum(t) ==> r == GetUnderlyingType(t)
  {
    var t' := if IsNullableType(t) then GenericArguments(t)[0] else t;
    if IsEnum(t') then GetUnderlyingType(t') else t'
  }

  /** On a well-formed type the core type is neither nullable nor an enum. */
  lemma CoreTypeIsCore(t: Ty)
    requires WellFormed(t)
    ensures !IsNullableType(GetCoreType(t)) && !IsEnum(GetCoreType(t))
  {
  }

  /** Applying GetCoreType a second time changes nothing. */
  lemma GetCoreTypeIdempotent(t: Ty)
    requires WellFormed(t)
    ensures GetCoreType(GetCoreType(t)) == GetCoreType(t)
  {
    CoreTypeIsCore(t);
  }

  /** Nullable of a well-formed type has the core type of what it wraps. */
  lemma GetCoreTypeSeesThroughNullable(t: Ty)
    requires WellFormed(Nullable(t))
    ensures GetCoreType(Nullable(t)) == GetCoreType(t)
  {
  }

  /** Two types are the same once a nullable side is reduced to its core type. */
  function DoTypesResolveToSameCoreType(type1: Ty, type2: Ty): (r: bool)
    ensures type1 == type2 ==> r
    ensures r && !IsNullableType(type1) && !IsNullableType(type2) ==> type1 == type2
  {
    var t1 := if IsNullableType(type1) then GetCoreType(type1) else type1;
    var t2 := if IsNullableType(type2) then GetCoreType(type2) else type2;
    t1 == t2
  }

  lemma SameCoreTypeSymmetric(type1: Ty, type2: Ty)
    ensures DoTypesResolveToSameCoreType(type1, type2) == DoTypesResolveToSameCoreType(type2, type1)
  {
  }

  lemma SameCoreTypeTransitive(type1: Ty, type2: Ty, type3: Ty)
    requires DoTypesResolveToSameCoreType(type1, type2)
    requires DoTypesResolveToSameCoreType(type2, type3)
    ensures DoTypesResolveToSameCoreType(type1, type3)
  {
  }

  /**
   * A well-formed type matches its own nullable form exactly when it is not
   * an enum: `int` matches `int?`, but a bare enum `E` is compared as itself
   * while `E?` is reduced to the underlying type.
   */
  lemma MatchesOwnNullableUnlessEnum(t: Ty)
    requires WellFormed(Nullable(t))
    ensures DoTypesResolveToSameCoreType(t, Nullable(t)) <==> !IsEnum(t)
  {
  }

  /** A nullable enum matches the enum's underlying type. */
  lemma NullableEnumMatchesUnderlying(name: string, u: Ty)
    requires IsIntegral(u)
    ensures DoTypesResolveToSameCoreType(Nullable(Enum(name, u)), u)
    ensures !DoTypesResolveToSameCoreType(Enum(name, u), u)
  {
  }

  lemma IntAndNullableIntMatch()
    ensures DoTypesResolveToSameCoreType(Int32Ty, Nullable(Int32Ty))
    ensures DoTypesResolveToSameCoreType(Nullable(Int32Ty), Int32Ty)
    ensures !DoTypesResolveToSameCoreType(Int32Ty, Nullable(DoubleTy))
  {
  }
}
