/** What the pre-order traversal decodes, stated against an independent
    encoder: `Flatten` lists the flags of a tree's reference positions in the
    order the compiler emits them.  Decoding consumes exactly `RefCount(t)`
    bytes, fails on a shorter payload, and is inverse to `Flatten`. */
module PayloadRoundTrip {
  import opened Common
  import opened TypeModel
  import opened NullabilityTree
  import opened FlagDecoding

  /** The number of reference-typed positions of `t`: those that take a byte. */
  function RefCount(t: Ty): nat
    decreases t, 1
  {
    (if IsValueType(t) then 0 else 1) +
    match t
    case Constructed(_, _) => RefCountArgs(t, ZipCount(t))
    case ArrayOf(e) => RefCount(e)
    case _ => 0
  }

  function RefCountArgs(t: Ty, n: nat): nat
    requires t.Constructed? && n <= ZipCount(t)
    decreases t, 0, n
  {
    if n == 0 then 0 else RefCountArgs(t, n - 1) + RefCount(t.args[n - 1])
  }

  /** `tree` has the shape of type `t`: keys are exactly the definition's
      formals (paired with the arguments), or the array's element type, or
      none; and every value-typed position carries its fixed flag. */
  ghost predicate Conforms(t: Ty, tree: Tree)
    decreases t, 1
  {
    (IsValueType(t) ==> tree.flag == ValueTypeFlag(t)) &&
    match t
    case Constructed(_, _) => ConformsArgs(t, ZipCount(t), tree.typeArgs)
    case ArrayOf(e) => tree.typeArgs.Keys == {e} && Conforms(e, tree.typeArgs[e])
    case _ => tree.typeArgs == map[]
  }

  /** `m` holds exactly the formals of the first `n` pairs, each with a tree
      conforming to the argument in that position. */
  ghost predicate ConformsArgs(t: Ty, n: nat, m: map<Ty, Tree>)
    requires t.Constructed? && n <= ZipCount(t)
    decreases t, 0, n
  {
    if n == 0 then m == map[]
    else
      var key := Formal(t.def, n - 1);
      key in m && Conforms(t.args[n - 1], m[key]) && ConformsArgs(t, n - 1, m - {key})
  }

  /** The payload the compiler would emit for `tree`: its reference flags in pre-order. */
  ghost function Flatten(t: Ty, tree: Tree): seq<byte>
    requires Conforms(t, tree)
    decreases t, 1
  {
    (if IsValueType(t) then [] else [tree.flag]) +
    match t
    case Constructed(_, _) => FlattenArgs(t, ZipCount(t), tree.typeArgs)
    case ArrayOf(e) => Flatten(e, tree.typeArgs[e])
    case _ => []
  }

  ghost function FlattenArgs(t: Ty, n: nat, m: map<Ty, Tree>): seq<byte>
    requires t.Constructed? && n <= ZipCount(t)
    requires ConformsArgs(t, n, m)
    decreases t, 0, n
  {
    if n == 0 then []
    else
      var key := Formal(t.def, n - 1);
      FlattenArgs(t, n - 1, m - {key}) + Flatten(t.args[n - 1], m[key])
  }

  /** A map conforming to the first `n` pairs holds no formal at position `n` or later. */
  lemma {:induction false} ConformsArgsAvoids(t: Ty, n: nat, m: map<Ty, Tree>, j: nat)
    requires t.Constructed? && n <= ZipCount(t) && n <= j
    requires ConformsArgs(t, n, m)
    ensures Formal(t.def, j) !in m
    decreases n
  {
    if n > 0 {
      ConformsArgsAvoids(t, n - 1, m - {Formal(t.def, n - 1)}, j);
    }
  }

  /** The keys of a map conforming to the first `n` pairs are exactly those formals. */
  lemma {:induction false} ConformsArgsKeys(t: Ty, n: nat, m: map<Ty, Tree>)
    requires t.Constructed? && n <= ZipCount(t)
    requires ConformsArgs(t, n, m)
    ensures m.Keys == set j | 0 <= j < n :: Formal(t.def, j)
    decreases n
  {
    if n > 0 {
      var key := Formal(t.def, n - 1);
      ConformsArgsKeys(t, n - 1, m - {key});
      assert (set j | 0 <= j < n :: Formal(t.def, j)) == (set j | 0 <= j < n - 1 :: Formal(t.def, j)) + {key};
    }
  }

  /** Adding the entry of the next pair to a conforming prefix map. */
  lemma ConformsArgsExtend(t: Ty, n: nat, inner: map<Ty, Tree>, sub: Tree)
    requires t.Constructed? && 0 < n <= ZipCount(t)
    requires ConformsArgs(t, n - 1, inner) && Conforms(t.args[n - 1], sub)
    ensures ConformsArgs(t, n, inner[Formal(t.def, n - 1) := sub])
    ensures FlattenArgs(t, n, inner[Formal(t.def, n - 1) := sub]) == FlattenArgs(t, n - 1, inner) + Flatten(t.args[n - 1], sub)
  {
    var key := Formal(t.def, n - 1);
    ConformsArgsAvoids(t, n - 1, inner, n - 1);
    assert inner[key := sub] - {key} == inner;
  }

  /** One more pair on top of a decoded prefix. */
  lemma DecodeArgsStep(t: Ty, n: nat, stack: Option<seq<byte>>, contextFlag: Option<byte>,
                       inner: map<Ty, Tree>, mid: Option<seq<byte>>, sub: Tree, rest: Option<seq<byte>>)
    requires t.Constructed? && 0 < n <= ZipCount(t)
    requires DecodeArgs(t, n - 1, stack, contextFlag) == Success((inner, mid))
    requires Decode(t.args[n - 1], mid, contextFlag) == Success((sub, rest))
    ensures DecodeArgs(t, n, stack, contextFlag) == Success((inner[Formal(t.def, n - 1) := sub], rest))
  {
  }

  lemma AppendAssoc<T>(a: seq<T>, b: seq<T>, c: seq<T>)
    ensures (a + b) + c == a + (b + c)
  {
  }

  lemma SliceSplit<T>(s: seq<T>, p: nat, q: nat)
    requires p + q <= |s|
    ensures s[..p + q] == s[..p] + s[p..][..q]
    ensures s[p + q..] == s[p..][q..]
  {
  }

  /** Reading the own flag of a conforming position consumes exactly its own bytes. */
  lemma FlagOfOwnBytes(t: Ty, flag: byte, tail: seq<byte>, contextFlag: Option<byte>)
    requires IsValueType(t) ==> flag == ValueTypeFlag(t)
    ensures FlagOf(t, Some((if IsValueType(t) then [] else [flag]) + tail), contextFlag) == Success((flag, Some(tail)))
  {
    if !IsValueType(t) {
      assert ([flag] + tail)[1..] == tail;
    } else {
      assert [] + tail == tail;
    }
  }

  /** Decoding from a payload `s`: it succeeds exactly when `s` holds at least
      `RefCount(t)` bytes; it then consumes exactly that many, the tree has
      the shape of `t`, and re-flattening it gives back the consumed bytes. */
  lemma {:induction false} DecodeFromPayload(t: Ty, s: seq<byte>, contextFlag: Option<byte>)
    ensures Decode(t, Some(s), contextFlag).Success? <==> RefCount(t) <= |s|
    ensures Decode(t, Some(s), contextFlag).Success? ==>
      && Decode(t, Some(s), contextFlag).value.1 == Some(s[RefCount(t)..])
      && Conforms(t, Decode(t, Some(s), contextFlag).value.0)
      && Flatten(t, Decode(t, Some(s), contextFlag).value.0) == s[..RefCount(t)]
    decreases t, 1
  {
    var own: nat := if IsValueType(t) then 0 else 1;
    if own == 1 && s == [] {
      assert Decode(t, Some(s), contextFlag).Failure?;
      return;
    }
    var flag := if own == 1 then s[0] else ValueTypeFlag(t);
    var afterFlag := s[own..];
    assert s[..own] == (if IsValueType(t) then [] else [flag]);
    assert FlagOf(t, Some(s), contextFlag) == Success((flag, Some(afterFlag)));
    match t
    case Constructed(_, _) =>
      DecodeArgsFromPayload(t, ZipCount(t), afterFlag, contextFlag);
      var n := RefCountArgs(t, ZipCount(t));
      if n <= |afterFlag| {
        SliceSplit(s, own, n);
      }
    case ArrayOf(e) =>
      DecodeFromPayload(e, afterFlag, contextFlag);
      var n := RefCount(e);
      if n <= |afterFlag| {
        var sub := Decode(e, Some(afterFlag), contextFlag).value.0;
        assert Decode(t, Some(s), contextFlag) == Success((Tree(flag, map[e := sub]), Some(afterFlag[n..])));
        SliceSplit(s, own, n);
      }
    case _ =>
  }

  lemma {:induction false} DecodeArgsFromPayload(t: Ty, n: nat, s: seq<byte>, contextFlag: Option<byte>)
    requires t.Constructed? && n <= ZipCount(t)
    ensures DecodeArgs(t, n, Some(s), contextFlag).Success? <==> RefCountArgs(t, n) <= |s|
    ensures DecodeArgs(t, n, Some(s), contextFlag).Success? ==>
      && DecodeArgs(t, n, Some(s), contextFlag).value.1 == Some(s[RefCountArgs(t, n)..])
      && ConformsArgs(t, n, DecodeArgs(t, n, Some(s), contextFlag).value.0)
      && FlattenArgs(t, n, DecodeArgs(t, n, Some(s), contextFlag).value.0) == s[..RefCountArgs(t, n)]
    decreases t, 0, n
  {
    if n > 0 {
      DecodeArgsFromPayload(t, n - 1, s, contextFlag);
      var p := RefCountArgs(t, n - 1);
      if p <= |s| {
        var inner := DecodeArgs(t, n - 1, Some(s), contextFlag).value.0;
        var afterPrefix := s[p..];
        var arg := t.args[n - 1];
        DecodeFromPayload(arg, afterPrefix, contextFlag);
        var q := RefCount(arg);
        if q <= |afterPrefix| {
          var sub := Decode(arg, Some(afterPrefix), contextFlag).value.0;
          DecodeArgsStep(t, n, Some(s), contextFlag, inner, Some(afterPrefix), sub, Some(afterPrefix[q..]));
          ConformsArgsExtend(t, n, inner, sub);
          SliceSplit(s, p, q);
        }
      }
    }
  }

  /** Decoding what `Flatten` emits gives the tree back and leaves the rest. */
  lemma {:induction false} DecodeFlatten(t: Ty, tree: Tree, rest: seq<byte>, contextFlag: Option<byte>)
    requires Conforms(t, tree)
    ensures Decode(t, Some(Flatten(t, tree) + rest), contextFlag) == Success((tree, Some(rest)))
    decreases t, 1
  {
    var own: seq<byte> := if IsValueType(t) then [] else [tree.flag];
    match t
    case Constructed(_, _) =>
      var body := FlattenArgs(t, ZipCount(t), tree.typeArgs);
      AppendAssoc(own, body, rest);
      FlagOfOwnBytes(t, tree.flag, body + rest, contextFlag);
      DecodeArgsFlatten(t, ZipCount(t), tree.typeArgs, body + rest, rest, contextFlag);
    case ArrayOf(e) =>
      var body := Flatten(e, tree.typeArgs[e]);
      AppendAssoc(own, body, rest);
      FlagOfOwnBytes(t, tree.flag, body + rest, contextFlag);
      DecodeFlatten(e, tree.typeArgs[e], rest, contextFlag);
      assert map[e := tree.typeArgs[e]] == tree.typeArgs;
    case _ =>
      AppendAssoc(own, [], rest);
      FlagOfOwnBytes(t, tree.flag, rest, contextFlag);
  }

  lemma {:induction false} DecodeArgsFlatten(t: Ty, n: nat, m: map<Ty, Tree>, s: seq<byte>, rest: seq<byte>, contextFlag: Option<byte>)
    requires t.Constructed? && n <= ZipCount(t)
    requires ConformsArgs(t, n, m)
    requires s == FlattenArgs(t, n, m) + rest
    ensures DecodeArgs(t, n, Some(s), contextFlag) == Success((m, Some(rest)))
    decreases t, 0, n
  {
    if n == 0 {
      assert s == rest;
    } else {
      var key := Formal(t.def, n - 1);
      var prefix := m - {key};
      var tail := Flatten(t.args[n - 1], m[key]) + rest;
      AppendAssoc(FlattenArgs(t, n - 1, prefix), Flatten(t.args[n - 1], m[key]), rest);
      DecodeArgsFlatten(t, n - 1, prefix, s, tail, contextFlag);
      DecodeFlatten(t.args[n - 1], m[key], rest, contextFlag);
      DecodeArgsStep(t, n, Some(s), contextFlag, prefix, Some(tail), m[key], Some(rest));
      assert prefix[key := m[key]] == m;
    }
  }

  /** Every byte of `s` is `f`. */
  ghost predicate Uniform(s: seq<byte>, f: byte) {
    forall i :: 0 <= i < |s| ==> s[i] == f
  }

  lemma UniformConcat(a: seq<byte>, b: seq<byte>, f: byte)
    requires Uniform(a, f) && Uniform(b, f)
    ensures Uniform(a + b, f)
  {
  }

  /** Without a payload to pop, every reference position takes the context
      flag (0 when there is none): the tree has the shape of `t` and its
      flattened flags are that one flag, once per reference position. */
  lemma {:induction false} DecodeWithoutPayload(t: Ty, contextFlag: Option<byte>)
    ensures Decode(t, None, contextFlag).Success?
    ensures Decode(t, None, contextFlag).value.1 == None
    ensures Conforms(t, Decode(t, None, contextFlag).value.0)
    ensures |Flatten(t, Decode(t, None, contextFlag).value.0)| == RefCount(t)
    ensures Uniform(Flatten(t, Decode(t, None, contextFlag).value.0), contextFlag.GetOr(FLAG_UNKNOWN))
    decreases t, 1
  {
    var f := contextFlag.GetOr(FLAG_UNKNOWN);
    var own := if IsValueType(t) then ValueTypeFlag(t) else f;
    assert FlagOf(t, None, contextFlag) == Success((own, None));
    match t
    case Constructed(_, _) =>
      DecodeArgsWithoutPayload(t, ZipCount(t), contextFlag);
      var m := DecodeArgs(t, ZipCount(t), None, contextFlag).value.0;
      UniformConcat(if IsValueType(t) then [] else [own], FlattenArgs(t, ZipCount(t), m), f);
    case ArrayOf(e) =>
      DecodeWithoutPayload(e, contextFlag);
      var sub := Decode(e, None, contextFlag).value.0;
      assert Decode(t, None, contextFlag) == Success((Tree(own, map[e := sub]), None));
      UniformConcat([own], Flatten(e, sub), f);
    case _ =>
  }

  lemma {:induction false} DecodeArgsWithoutPayload(t: Ty, n: nat, contextFlag: Option<byte>)
    requires t.Constructed? && n <= ZipCount(t)
    ensures DecodeArgs(t, n, None, contextFlag).Success?
    ensures DecodeArgs(t, n, None, contextFlag).value.1 == None
    ensures ConformsArgs(t, n, DecodeArgs(t, n, None, contextFlag).value.0)
    ensures |FlattenArgs(t, n, DecodeArgs(t, n, None, contextFlag).value.0)| == RefCountArgs(t, n)
    ensures Uniform(FlattenArgs(t, n, DecodeArgs(t, n, None, contextFlag).value.0), contextFlag.GetOr(FLAG_UNKNOWN))
    decreases t, 0, n
  {
    if n > 0 {
      DecodeArgsWithoutPayload(t, n - 1, contextFlag);
      var inner := DecodeArgs(t, n - 1, None, contextFlag).value.0;
      DecodeWithoutPayload(t.args[n - 1], contextFlag);
      var sub := Decode(t.args[n - 1], None, contextFlag).value.0;
      DecodeArgsStep(t, n, None, contextFlag, inner, None, sub, None);
      ConformsArgsExtend(t, n, inner, sub);
      UniformConcat(FlattenArgs(t, n - 1, inner), Flatten(t.args[n - 1], sub), contextFlag.GetOr(FLAG_UNKNOWN));
    }
  }

  /** A single context flag means the same as a payload repeating that flag
      once per reference position. */
  lemma ContextFlagIsRepeatedPayload(t: Ty, f: byte, other: Option<byte>)
    ensures Decode(t, Some(seq(RefCount(t), _ => f)), other).Success?
    ensures Decode(t, None, Some(f)).Success?
    ensures Decode(t, None, Some(f)).value.0 == Decode(t, Some(seq(RefCount(t), _ => f)), other).value.0
  {
    DecodeWithoutPayload(t, Some(f));
    var tree := Decode(t, None, Some(f)).value.0;
    assert Flatten(t, tree) == seq(RefCount(t), _ => f);
    DecodeFlatten(t, tree, [], other);
    assert Flatten(t, tree) + [] == Flatten(t, tree);
  }

  /** For a type the runtime can produce, a decoded tree's keys are all of the
      definition's formals, or the array's element type, or none. */
  lemma DecodedKeys(t: Ty, stack: Option<seq<byte>>, contextFlag: Option<byte>)
    requires WellFormed(t)
    requires Decode(t, stack, contextFlag).Success?
    ensures var tree := Decode(t, stack, contextFlag).value.0;
      && (t.Constructed? ==> tree.typeArgs.Keys == set i | 0 <= i < t.def.arity :: Formal(t.def, i))
      && (t.ArrayOf? ==> tree.typeArgs.Keys == {t.element})
      && (!t.Constructed? && !t.ArrayOf? ==> tree.typeArgs == map[])
      && (IsValueType(t) ==> tree.flag == ValueTypeFlag(t))
  {
    if stack.Some? {
      DecodeFromPayload(t, stack.value, contextFlag);
    } else {
      DecodeWithoutPayload(t, contextFlag);
    }
    if t.Constructed? {
      var tree := Decode(t, stack, contextFlag).value.0;
      ConformsArgsKeys(t, ZipCount(t), tree.typeArgs);
    }
  }

  /** The fallback chain of a parameter: its own `NullableAttribute` decides
      alone; without one the method's context flag decides; without that the
      class's; and with none of them every reference position is 0. */
  lemma ParameterFallbackChain(t: Ty, parameterAttributes: seq<Attribute>,
                               methodAttributes: seq<Attribute>, classAttributes: seq<Attribute>,
                               otherMethodAttributes: seq<Attribute>, otherClassAttributes: seq<Attribute>)
    ensures TryGetNullableFlags(parameterAttributes).Some? ==>
      Unpack(t, ParameterSource(parameterAttributes, methodAttributes, classAttributes)) ==
      Unpack(t, ParameterSource(parameterAttributes, otherMethodAttributes, otherClassAttributes))
    ensures TryGetNullableFlags(parameterAttributes).None? && TryGetNullableContextFlag(methodAttributes).Some? ==>
      Unpack(t, ParameterSource(parameterAttributes, methodAttributes, classAttributes)) ==
      Unpack(t, ParameterSource(parameterAttributes, methodAttributes, otherClassAttributes))
    ensures TryGetNullableFlags(parameterAttributes).None? && TryGetNullableContextFlag(methodAttributes).None? &&
            TryGetNullableContextFlag(classAttributes).None? ==>
      && Unpack(t, ParameterSource(parameterAttributes, methodAttributes, classAttributes)).Success?
      && Conforms(t, Unpack(t, ParameterSource(parameterAttributes, methodAttributes, classAttributes)).value)
      && Uniform(Flatten(t, Unpack(t, ParameterSource(parameterAttributes, methodAttributes, classAttributes)).value), FLAG_UNKNOWN)
  {
    DecodeWithoutPayload(t, None);
  }

  /** The fallback chain of a property: its own `NullableAttribute`, else the
      declaring class's context flag, else 0 at every reference position. */
  lemma PropertyFallbackChain(t: Ty, propertyAttributes: seq<Attribute>, classAttributes: seq<Attribute>,
                              otherClassAttributes: seq<Attribute>)
    ensures TryGetNullableFlags(propertyAttributes).Some? ==>
      Unpack(t, PropertySource(propertyAttributes, classAttributes)) ==
      Unpack(t, PropertySource(propertyAttributes, otherClassAttributes))
    ensures TryGetNullableFlags(propertyAttributes).None? && TryGetNullableContextFlag(classAttributes).None? ==>
      && Unpack(t, PropertySource(propertyAttributes, classAttributes)).Success?
      && Conforms(t, Unpack(t, PropertySource(propertyAttributes, classAttributes)).value)
      && Uniform(Flatten(t, Unpack(t, PropertySource(propertyAttributes, classAttributes)).value), FLAG_UNKNOWN)
  {
    DecodeWithoutPayload(t, None);
  }
}
