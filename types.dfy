/**
 * Runtime types as the reflection facility exposes them: whether a type is
 * generic, its generic definition and arguments, whether it is an enum, and
 * its base type.  Only the distinctions the modelled code looks at are kept.
 */
module Types {
  import opened Wrappers

  /** Open generic type definitions, such as `typeof(Undefinable<>)`. */
  datatype TypeDef = UndefinableDef | NullableDef | OtherDef(name: string, arity: nat)

  /** A closed runtime type. */
  datatype Ty =
    | ObjectTy                                              // System.Object, the universal base type
    | Other(name: string, args: seq<Ty>, base: Option<Ty>)  // any other class, struct or interface; generic when args != []
    | Enum(name: string, underlying: Ty)                    // an enum type and its underlying integral type
    | Nullable(arg: Ty)                                     // System.Nullable<arg>, written arg? in C#
    | Undefinable(arg: Ty)                                  // System.Undefinable<arg>

  const ValueTypeTy: Ty := Other("System.ValueType", [], Some(ObjectTy))
  const EnumBaseTy: Ty := Other("System.Enum", [], Some(ValueTypeTy))
  const Int32Ty: Ty := Other("System.Int32", [], Some(ValueTypeTy))
  const DoubleTy: Ty := Other("System.Double", [], Some(ValueTypeTy))
  const StringTy: Ty := Other("System.String", [], Some(ObjectTy))

  /** Type.IsGenericType */
  predicate IsGenericType(t: Ty) {
    match t
    case Other(_, args, _) => args != []
    case Nullable(_) => true
    case Undefinable(_) => true
    case _ => false
  }

  /** Type.GetGenericTypeDefinition(), which throws unless the type is generic. */
  function GenericTypeDefinition(t: Ty): (d: TypeDef)
    requires IsGenericType(t)
    ensures d == UndefinableDef <==> t.Undefinable?
    ensures d == NullableDef <==> t.Nullable?
  {
    match t
    case Other(name, args, _) => OtherDef(name, |args|)
    case Nullable(_) => NullableDef
    case Undefinable(_) => UndefinableDef
  }

  /** Type.GetGenericArguments() */
  function GenericArguments(t: Ty): (args: seq<Ty>)
    ensures args != [] <==> IsGenericType(t)
  {
    match t
    case Other(_, args, _) => args
    case Nullable(a) => [a]
    case Undefinable(a) => [a]
    case _ => []
  }

  /** Type.IsEnum */
  predicate IsEnum(t: Ty) {
    t.Enum?
  }

  /** Type.BaseType: None for System.Object and for interfaces. */
  function BaseType(t: Ty): Option<Ty> {
    match t
    case ObjectTy => None
    case Other(_, _, base) => base
    case Enum(_, _) => Some(EnumBaseTy)
    case Nullable(_) => Some(ValueTypeTy)
    case Undefinable(_) => Some(ValueTypeTy)
  }

  /** Number of types on the base-type chain of t below System.Object. */
  function Depth(t: Ty): nat {
    match t
    case ObjectTy => 0
    case Other(_, _, base) => if base.Some? then 1 + Depth(base.value) else 1
    case Enum(_, _) => 3
    case Nullable(_) => 2
    case Undefinable(_) => 2
  }

  /** Every step to the base type goes strictly down the chain. */
  lemma BaseTypeDecreasesDepth(t: Ty)
    requires BaseType(t).Some?
    ensures Depth(BaseType(t).value) < Depth(t)
  {
  }

  /**
   * The types met when walking from t through BaseType, stopping before
   * System.Object or at a type without a base type.
   */
  function BaseChain(t: Ty): (chain: seq<Ty>)
    ensures |chain| == Depth(t)
    ensures ObjectTy !in chain
    ensures t != ObjectTy ==> chain[0] == t
    ensures forall i :: 0 <= i < |chain| - 1 ==> BaseType(chain[i]) == Some(chain[i + 1])
    ensures chain != [] ==> BaseType(chain[|chain| - 1]) in {None, Some(ObjectTy)}
    decreases Depth(t)
  {
    if t == ObjectTy then []
    else match BaseType(t)
      case None => [t]
      case Some(b) =>
        BaseTypeDecreasesDepth(t);
        [t] + BaseChain(b)
  }

  /**
   * A value type: System.ValueType is on its base chain and it is neither
   * System.ValueType nor System.Enum, which are themselves classes.
   */
  predicate IsValueType(t: Ty) {
    t != ValueTypeTy && t != EnumBaseTy && ValueTypeTy in BaseChain(t)
  }

  /** Whether a variable of type t can hold null: a reference type or a Nullable instantiation. */
  predicate AdmitsNull(t: Ty) {
    t.Nullable? || !IsValueType(t)
  }

  const IntegralNames: set<string> :=
    {"System.SByte", "System.Byte", "System.Int16", "System.UInt16",
     "System.Int32", "System.UInt32", "System.Int64", "System.UInt64"}

  /** An integral primitive, the only kind of type an enum can have underneath. */
  predicate IsIntegral(t: Ty) {
    t.Other? && t.args == [] && t.base == Some(ValueTypeTy) && t.name in IntegralNames
  }

  /**
   * The shapes the runtime admits: a class or struct derives from a class or
   * struct (never from a sealed Nullable, Undefinable or enum type), an enum
   * rests on an integral type, and Nullable wraps a value type that is not
   * itself Nullable.
   */
  predicate WellFormed(t: Ty) {
    match t
    case ObjectTy => true
    case Other(_, args, base) =>
      && (forall a | a in args :: WellFormed(a))
      && (base.Some? ==> (base.value.ObjectTy? || base.value.Other?) && WellFormed(base.value))
    case Enum(_, u) => IsIntegral(u)
    case Nullable(a) => IsValueType(a) && !a.Nullable? && WellFormed(a)
    case Undefinable(a) => WellFormed(a)
  }
}
