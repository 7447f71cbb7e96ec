/** An abstract stand-in for the runtime type objects and custom attributes
    that the engine inspects by reflection.  Only the questions the engine
    asks are modelled: is the type a value type, a `Nullable<T>` wrapper,
    a constructed generic type, an array, a generic parameter; what are its
    generic arguments and its definition's formal parameters; is it a
    dictionary or an enumerable; which nullability attributes does a
    declaration carry. */
module TypeModel {
  import opened Common

  /** Whether a type is assignable to the non-generic `IDictionary`
      (checked first), else to `IEnumerable`, else neither. */
  datatype CollectionKind = NotCollection | Enumerable | Dictionary

  /** Who declares a generic parameter: a generic type definition or a generic method. */
  datatype ParamOwner = OwnedByType(typeName: string) | OwnedByMethod(methodName: string)

  /** The identity of a generic parameter: its owner and its position. */
  datatype TypeParam = TypeParam(owner: ParamOwner, position: nat)

  /** A generic type definition such as `List<>` or `Dictionary<,>`. */
  datatype GenericDef = GenericDef(name: string, arity: nat, isValueType: bool, collection: CollectionKind)

  /** The shape of a runtime type. */
  datatype Ty =
    | Simple(name: string, isValueType: bool, collection: CollectionKind)  // non-generic class or struct
    | Constructed(def: GenericDef, args: seq<Ty>)                          // a generic type given its arguments
    | ArrayOf(element: Ty)                                                 // `element[]`
    | GenericParameter(param: TypeParam)                                   // an unsubstituted `T`

  const NULLABLE_DEF := GenericDef("System.Nullable`1", 1, true, NotCollection)
  const KEY_VALUE_PAIR_DEF := GenericDef("System.Collections.Generic.KeyValuePair`2", 2, true, NotCollection)

  /** The i-th formal parameter of a generic definition, as a type. */
  function Formal(def: GenericDef, i: nat): (t: Ty)
    ensures t.GenericParameter? && t.param.position == i
  {
    GenericParameter(TypeParam(OwnedByType(def.name), i))
  }

  /** `GetGenericTypeDefinition().GetGenericArguments()`: the formal parameters,
      in order, all distinct, and none a formal of another definition. */
  function Formals(def: GenericDef): (fs: seq<Ty>)
    ensures |fs| == def.arity
    ensures forall i :: 0 <= i < |fs| ==> fs[i] == Formal(def, i)
    ensures forall i, j :: 0 <= i < |fs| && 0 <= j < |fs| && i != j ==> fs[i] != fs[j]
    ensures forall other: GenericDef, i, j :: other.name != def.name && 0 <= i < |fs| ==> fs[i] != Formal(other, j)
  {
    seq(def.arity, i requires 0 <= i => Formal(def, i))
  }

  /** `GetGenericTypeDefinition()`: the open definition, whose arguments are its own formals. */
  function GenericTypeDefinition(def: GenericDef): Ty {
    Constructed(def, Formals(def))
  }

  predicate IsValueType(t: Ty) {
    match t
    case Simple(_, isValue, _) => isValue
    case Constructed(def, _) => def.isValueType
    case _ => false
  }

  /** `Nullable.GetUnderlyingType(t) != null`. */
  predicate IsNullableWrapper(t: Ty) {
    t.Constructed? && t.def == NULLABLE_DEF
  }

  predicate IsGenericType(t: Ty) {
    t.Constructed?
  }

  /** A generic parameter declared by a type (not by a method). */
  predicate IsGenericTypeParameter(t: Ty) {
    t.GenericParameter? && t.param.owner.OwnedByType?
  }

  function Collection(t: Ty): CollectionKind {
    match t
    case Simple(_, _, kind) => kind
    case Constructed(def, _) => def.collection
    case ArrayOf(_) => Enumerable
    case GenericParameter(_) => NotCollection
  }

  /** How many (concrete, formal) pairs `Zip` produces for a constructed type. */
  function ZipCount(t: Ty): (n: nat)
    requires t.Constructed?
    ensures n <= |t.args| && n <= t.def.arity
    ensures n == |t.args| || n == t.def.arity
  {
    if |t.args| < t.def.arity then |t.args| else t.def.arity
  }

  /** What the runtime guarantees of every type object: a constructed type
      has exactly as many arguments as its definition has parameters. */
  predicate WellFormed(t: Ty) {
    match t
    case Simple(_, _, _) => true
    case Constructed(def, args) => |args| == def.arity && forall i :: 0 <= i < |args| ==> WellFormed(args[i])
    case ArrayOf(e) => WellFormed(e)
    case GenericParameter(_) => true
  }

  /** A custom attribute, as far as the engine cares: the compiler's
      `NullableAttribute` (its `NullableFlags` bytes), its
      `NullableContextAttribute` (its `Flag` byte), or anything else. */
  datatype Attribute =
    | NullableAttribute(nullableFlags: seq<byte>)
    | NullableContextAttribute(flag: byte)
    | OtherAttribute(fullName: string)

  /** The payload of the first `NullableAttribute` in the list, if any. */
  function TryGetNullableFlags(attributes: seq<Attribute>): (r: Option<seq<byte>>)
    ensures r.Some? <==> exists i :: 0 <= i < |attributes| && attributes[i].NullableAttribute?
    ensures r.Some? ==> exists i :: 0 <= i < |attributes| && attributes[i] == NullableAttribute(r.value)
                               && forall j :: 0 <= j < i ==> !attributes[j].NullableAttribute?
  {
    if attributes == [] then None
    else if attributes[0].NullableAttribute? then
      Some(attributes[0].nullableFlags)
    else
      var r := TryGetNullableFlags(attributes[1..]);
      assert forall i :: 1 <= i < |attributes| ==> attributes[i] == attributes[1..][i - 1];
      r
  }

  /** The flag of the first `NullableContextAttribute` in the list, if any. */
  function TryGetNullableContextFlag(attributes: seq<Attribute>): (r: Option<byte>)
    ensures r.Some? <==> exists i :: 0 <= i < |attributes| && attributes[i].NullableContextAttribute?
    ensures r.Some? ==> exists i :: 0 <= i < |attributes| && attributes[i] == NullableContextAttribute(r.value)
                               && forall j :: 0 <= j < i ==> !attributes[j].NullableContextAttribute?
  {
    if attributes == [] then None
    else if attributes[0].NullableContextAttribute? then
      Some(attributes[0].flag)
    else
      var r := TryGetNullableContextFlag(attributes[1..]);
      assert forall i :: 1 <= i < |attributes| ==> attributes[i] == attributes[1..][i - 1];
      r
  }
}
