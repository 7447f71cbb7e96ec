/** Unpacking a declaration's nullability annotations into a tree.

    The compiler flattens the flags of a type's reference positions into a
    byte payload in pre-order (the type itself, then its generic arguments or
    array element, left to right).  A one-byte payload instead holds a
    single flag for every reference position.  Without an attribute on the
    declaration, the context flag of the enclosing method, then of the
    enclosing class, applies.  Value-typed positions never take a byte.

    The traversal pops a shared stack in place; the pure functions `FlagOf`
    and `Decode` thread the not-yet-popped bytes and specify the methods. */
module FlagDecoding {
  import opened Common
  import opened TypeModel
  import opened NullabilityTree

  /** `s` in reverse order: position `k` holds the `k`-th element from the end. */
  function Reversed<T>(s: seq<T>): (r: seq<T>)
    ensures |r| == |s|
    ensures forall k :: 0 <= k < |s| ==> r[k] == s[|s| - 1 - k]
  {
    if s == [] then [] else [s[|s| - 1]] + Reversed(s[..|s| - 1])
  }

  lemma ReversedTwice<T>(s: seq<T>)
    ensures Reversed(Reversed(s)) == s
  {
    forall k | 0 <= k < |s|
      ensures Reversed(Reversed(s))[k] == s[k]
    {
    }
  }

  /** The `Stack<byte>` the traversal pops. */
  class FlagStack {
    /** The stacked bytes, bottom first, top last. */
    var items: seq<byte>

    /** `new Stack<byte>(collection)`: pushes the bytes in enumeration order. */
    constructor (collection: seq<byte>)
      ensures items == collection
    {
      items := collection;
    }

    /** The bytes in the order successive pops return them. */
    function Pending(): seq<byte>
      reads this
    {
      Reversed(items)
    }

    method Pop() returns (r: Result<byte>)
      modifies this
      ensures old(Pending()) == [] ==> r == Failure(EmptyStack) && Pending() == []
      ensures old(Pending()) != [] ==> r == Success(old(Pending())[0]) && Pending() == old(Pending())[1..]
    {
      if items == [] {
        return Failure(EmptyStack);
      }
      r := Success(items[|items| - 1]);
      items := items[..|items| - 1];
    }
  }

  /** The bytes a (possibly absent) stack still holds, in pop order. */
  function StackView(flags: FlagStack?): Option<seq<byte>>
    reads flags
  {
    if flags == null then None else Some(flags.Pending())
  }

  /** The flag a value type always gets: 2 for `Nullable<T>`, else 1. */
  function ValueTypeFlag(t: Ty): (f: byte)
    ensures f == FLAG_REQUIRED || f == FLAG_OPTIONAL
    ensures f == FLAG_OPTIONAL <==> IsNullableWrapper(t)
  {
    if IsNullableWrapper(t) then FLAG_OPTIONAL else FLAG_REQUIRED
  }

  /** The flag of one position and the bytes left afterwards. */
  function FlagOf(t: Ty, stack: Option<seq<byte>>, contextFlag: Option<byte>): (r: Result<(byte, Option<seq<byte>>)>)
    ensures IsValueType(t) ==> r == Success((ValueTypeFlag(t), stack))
    ensures !IsValueType(t) && stack.None? ==> r == Success((contextFlag.GetOr(FLAG_UNKNOWN), None))
    ensures !IsValueType(t) && stack.Some? && stack.value != [] ==> r == Success((stack.value[0], Some(stack.value[1..])))
    ensures r.Failure? <==> !IsValueType(t) && stack == Some([])
  {
    if IsValueType(t) then Success((ValueTypeFlag(t), stack))
    else if stack.None? then Success((contextFlag.GetOr(FLAG_UNKNOWN), None))
    else if stack.value == [] then Failure(EmptyStack)
    else Success((stack.value[0], Some(stack.value[1..])))
  }

  /** The tree of type `t` and the bytes left after its pre-order traversal. */
  function Decode(t: Ty, stack: Option<seq<byte>>, contextFlag: Option<byte>): (r: Result<(Tree, Option<seq<byte>>)>)
    ensures r.Success? ==> (r.value.1.Some? <==> stack.Some?)
    ensures r.Failure? ==> r.error == EmptyStack
    decreases t, 1
  {
    var (flag, afterFlag) :- FlagOf(t, stack, contextFlag);
    match t
    case Constructed(_, _) =>
      var (inner, rest) :- DecodeArgs(t, ZipCount(t), afterFlag, contextFlag);
      Success((Tree(flag, inner), rest))
    case ArrayOf(e) =>
      var (sub, rest) :- Decode(e, afterFlag, contextFlag);
      Success((Tree(flag, map[e := sub]), rest))
    case _ =>
      Success((Tree(flag, map[]), afterFlag))
  }

  /** The root of a decoded tree carries the flag of the type's own position. */
  lemma DecodeOwnFlag(t: Ty, stack: Option<seq<byte>>, contextFlag: Option<byte>)
    requires Decode(t, stack, contextFlag).Success?
    ensures FlagOf(t, stack, contextFlag).Success?
    ensures Decode(t, stack, contextFlag).value.0.flag == FlagOf(t, stack, contextFlag).value.0
  {
  }

  /** The entries for the first `n` (argument, formal) pairs of `t`, keyed by the formals. */
  function DecodeArgs(t: Ty, n: nat, stack: Option<seq<byte>>, contextFlag: Option<byte>)
    : (r: Result<(map<Ty, Tree>, Option<seq<byte>>)>)
    requires t.Constructed? && n <= ZipCount(t)
    ensures r.Success? ==> (r.value.1.Some? <==> stack.Some?)
    ensures r.Failure? ==> r.error == EmptyStack
    decreases t, 0, n
  {
    if n == 0 then Success((map[], stack))
    else
      var (inner, afterPrefix) :- DecodeArgs(t, n - 1, stack, contextFlag);
      var (sub, rest) :- Decode(t.args[n - 1], afterPrefix, contextFlag);
      Success((inner[Formal(t.def, n - 1) := sub], rest))
  }

  /** The entries of a decoded prefix are keyed by the formals of the first `n` positions
      and by nothing else. */
  lemma {:induction false} DecodeArgsKeys(t: Ty, n: nat, stack: Option<seq<byte>>, contextFlag: Option<byte>, j: nat)
    requires t.Constructed? && n <= ZipCount(t)
    requires DecodeArgs(t, n, stack, contextFlag).Success?
    ensures Formal(t.def, j) in DecodeArgs(t, n, stack, contextFlag).value.0 <==> j < n
    ensures DecodeArgs(t, n, stack, contextFlag).value.0.Keys == set i | 0 <= i < n :: Formal(t.def, i)
    decreases n
  {
    if n > 0 {
      DecodeArgsKeys(t, n - 1, stack, contextFlag, j);
      assert (set i | 0 <= i < n :: Formal(t.def, i)) == (set i | 0 <= i < n - 1 :: Formal(t.def, i)) + {Formal(t.def, n - 1)};
    }
  }

  /** Once a prefix of the arguments fails, every longer prefix fails the same way. */
  lemma {:induction false} DecodeArgsFailurePersists(t: Ty, m: nat, n: nat, stack: Option<seq<byte>>, contextFlag: Option<byte>)
    requires t.Constructed? && m <= n <= ZipCount(t)
    requires DecodeArgs(t, m, stack, contextFlag).Failure?
    ensures DecodeArgs(t, n, stack, contextFlag) == DecodeArgs(t, m, stack, contextFlag)
    decreases n
  {
    if n > m {
      DecodeArgsFailurePersists(t, m, n - 1, stack, contextFlag);
    }
  }

  method GetFlag(concreteType: Ty, flags: FlagStack?, contextFlag: Option<byte>) returns (r: Result<byte>)
    modifies flags
    ensures match FlagOf(concreteType, old(StackView(flags)), contextFlag)
            case Success((f, rest)) => r == Success(f) && StackView(flags) == rest
            case Failure(e) => r == Failure(e) && flags != null && flags.Pending() == []
  {
    if IsValueType(concreteType) {
      r := Success(ValueTypeFlag(concreteType));
    } else if flags == null {
      r := Success(contextFlag.GetOr(FLAG_UNKNOWN));
    } else {
      r := flags.Pop();
    }
  }

  /** Builds the tree of `concreteType`, popping one byte per reference position. */
  method Traverse(concreteType: Ty, flags: FlagStack?, contextFlag: Option<byte>) returns (r: Result<Tree>)
    modifies flags
    ensures match Decode(concreteType, old(StackView(flags)), contextFlag)
            case Success((tree, rest)) => r == Success(tree) && StackView(flags) == rest
            case Failure(e) => r == Failure(e) && flags != null && flags.Pending() == []
    decreases concreteType
  {
    var flag :- GetFlag(concreteType, flags, contextFlag);
    ghost var afterFlag := StackView(flags);
    var inner: map<Ty, Tree> := map[];
    if concreteType.Constructed? {
      var concreteArgs := concreteType.args;
      var defArgs := Formals(concreteType.def);
      var n := ZipCount(concreteType);
      var i := 0;
      while i < n
        invariant 0 <= i <= n
        invariant DecodeArgs(concreteType, i, afterFlag, contextFlag) == Success((inner, StackView(flags)))
      {
        DecodeArgsKeys(concreteType, i, afterFlag, contextFlag, i);
        assert defArgs[i] !in inner;  // so `Dictionary.Add` never finds the key present
        var sub := Traverse(concreteArgs[i], flags, contextFlag);
        if sub.Failure? {
          DecodeArgsFailurePersists(concreteType, i + 1, n, afterFlag, contextFlag);
          return Failure(sub.error);
        }
        inner := inner[defArgs[i] := sub.value];
        i := i + 1;
      }
    } else if concreteType.ArrayOf? {
      var elemType := concreteType.element;
      var sub := Traverse(elemType, flags, contextFlag);
      if sub.Failure? {
        return Failure(sub.error);
      }
      inner := inner[elemType := sub.value];
    }
    r := Success(Tree(flag, inner));
  }

  /** Where the flags of a declaration come from: a payload to pop and/or a context flag. */
  datatype AnnotationSource = AnnotationSource(stack: Option<seq<byte>>, contextFlag: Option<byte>)

  /** A one-byte payload is a context flag; any other is popped in array order. */
  function PayloadSource(payload: seq<byte>): (s: AnnotationSource)
    ensures |payload| == 1 ==> s == AnnotationSource(None, Some(payload[0]))
    ensures |payload| != 1 ==> s == AnnotationSource(Some(payload), None)
  {
    if |payload| == 1 then AnnotationSource(None, Some(payload[0]))
    else AnnotationSource(Some(payload), None)
  }

  method ConstructFlags(value: seq<byte>) returns (flags: FlagStack?, contextFlag: Option<byte>)
    ensures StackView(flags) == PayloadSource(value).stack
    ensures contextFlag == PayloadSource(value).contextFlag
    ensures flags != null ==> fresh(flags)
  {
    if |value| == 1 {
      flags := null;
      contextFlag := Some(value[0]);
    } else {
      flags := new FlagStack(Reversed(value));
      ReversedTwice(value);
      contextFlag := None;
    }
  }

  /** The property overload: own `NullableAttribute`, else the class's context flag. */
  function PropertySource(propertyAttributes: seq<Attribute>, classAttributes: seq<Attribute>): AnnotationSource {
    match TryGetNullableFlags(propertyAttributes)
    case Some(payload) => PayloadSource(payload)
    case None => AnnotationSource(None, TryGetNullableContextFlag(classAttributes))
  }

  /** The parameter overload: own `NullableAttribute`, else the method's
      context flag, else the class's. */
  function ParameterSource(parameterAttributes: seq<Attribute>, methodAttributes: seq<Attribute>,
                           classAttributes: seq<Attribute>): AnnotationSource
  {
    match TryGetNullableFlags(parameterAttributes)
    case Some(payload) => PayloadSource(payload)
    case None =>
      match TryGetNullableContextFlag(methodAttributes)
      case Some(f) => AnnotationSource(None, Some(f))
      case None => AnnotationSource(None, TryGetNullableContextFlag(classAttributes))
  }

  /** The tree a declaration of type `t` gets from `source` (leftover bytes are ignored). */
  function Unpack(t: Ty, source: AnnotationSource): Result<Tree> {
    var (tree, _) :- Decode(t, source.stack, source.contextFlag);
    Success(tree)
  }

  method UnpackPropertyFlags(propertyType: Ty, propertyAttributes: seq<Attribute>, classAttributes: seq<Attribute>)
    returns (r: Result<Tree>)
    ensures r == Unpack(propertyType, PropertySource(propertyAttributes, classAttributes))
  {
    var flags: FlagStack? := null;
    var contextFlag: Option<byte>;
    var propFlags := TryGetNullableFlags(propertyAttributes);
    if propFlags.Some? {
      flags, contextFlag := ConstructFlags(propFlags.value);
    } else {
      contextFlag := TryGetNullableContextFlag(classAttributes);
    }
    r := Traverse(propertyType, flags, contextFlag);
  }

  method UnpackParameterFlags(parameterType: Ty, parameterAttributes: seq<Attribute>,
                              methodAttributes: seq<Attribute>, classAttributes: seq<Attribute>)
    returns (r: Result<Tree>)
    ensures r == Unpack(parameterType, ParameterSource(parameterAttributes, methodAttributes, classAttributes))
  {
    var flags: FlagStack? := null;
    var contextFlag: Option<byte>;
    var paramFlags := TryGetNullableFlags(parameterAttributes);
    if paramFlags.Some? {
      flags, contextFlag := ConstructFlags(paramFlags.value);
    } else {
      contextFlag := TryGetNullableContextFlag(methodAttributes);
      if contextFlag.None? {
        contextFlag := TryGetNullableContextFlag(classAttributes);
      }
    }
    r := Traverse(parameterType, flags, contextFlag);
  }

  /** The flag of a generic type definition's own parameter: the first byte of
      its first `NullableAttribute`, else the flag of the declaring type's
      first `NullableContextAttribute`, else 0.  Only a parameter with an
      empty payload fails, on the index. */
  function GetTypeDefParameterFlag(typeDefParameter: Ty, parameterAttributes: seq<Attribute>,
                                   declaringTypeAttributes: seq<Attribute>): (r: Result<byte>)
    ensures !IsGenericTypeParameter(typeDefParameter) ==> r == Failure(NotAGenericTypeParameter)
    ensures IsGenericTypeParameter(typeDefParameter) ==> (r.Success? <==> TryGetNullableFlags(parameterAttributes) != Some([]))
    ensures r == Failure(IndexOutOfRange) <==>
      IsGenericTypeParameter(typeDefParameter) && TryGetNullableFlags(parameterAttributes) == Some([])
    ensures IsGenericTypeParameter(typeDefParameter) && r.Success? ==>
      (exists i :: 0 <= i < |parameterAttributes| && parameterAttributes[i].NullableAttribute?
                && (forall j :: 0 <= j < i ==> !parameterAttributes[j].NullableAttribute?)
                && parameterAttributes[i].nullableFlags != [] && parameterAttributes[i].nullableFlags[0] == r.value)
      || ((forall i :: 0 <= i < |parameterAttributes| ==> !parameterAttributes[i].NullableAttribute?)
          && ((exists i :: 0 <= i < |declaringTypeAttributes| && declaringTypeAttributes[i] == NullableContextAttribute(r.value)
                        && forall j :: 0 <= j < i ==> !declaringTypeAttributes[j].NullableContextAttribute?)
              || ((forall i :: 0 <= i < |declaringTypeAttributes| ==> !declaringTypeAttributes[i].NullableContextAttribute?)
                  && r.value == FLAG_UNKNOWN)))
  {
    if !IsGenericTypeParameter(typeDefParameter) then Failure(NotAGenericTypeParameter)
    else match TryGetNullableFlags(parameterAttributes)
      case Some(paramFlags) =>
        if paramFlags == [] then Failure(IndexOutOfRange) else Success(paramFlags[0])
      case None =>
        match TryGetNullableContextFlag(declaringTypeAttributes)
        case Some(contextFlag) => Success(contextFlag)
        case None => Success(FLAG_UNKNOWN)
  }

  /** A type parameter's flag is the top-level flag that a declaration of that
      parameter's type would get from the same attributes under the property
      rules: it fails exactly when that decoding fails, and agrees with it
      otherwise. */
  lemma TypeDefParameterFlagIsDeclarationFlag(typeDefParameter: Ty, parameterAttributes: seq<Attribute>,
                                              declaringTypeAttributes: seq<Attribute>)
    requires IsGenericTypeParameter(typeDefParameter)
    ensures GetTypeDefParameterFlag(typeDefParameter, parameterAttributes, declaringTypeAttributes).Success? <==>
      Unpack(typeDefParameter, PropertySource(parameterAttributes, declaringTypeAttributes)).Success?
    ensures GetTypeDefParameterFlag(typeDefParameter, parameterAttributes, declaringTypeAttributes).Success? ==>
      GetTypeDefParameterFlag(typeDefParameter, parameterAttributes, declaringTypeAttributes).value ==
      Unpack(typeDefParameter, PropertySource(parameterAttributes, declaringTypeAttributes)).value.flag
  {
  }
}
