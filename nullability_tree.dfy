/** The nullability tree of one declaration: its own flag and, for each
    generic parameter of its type's definition (or the element of an array),
    the tree of the argument in that position.  Trees are values: `Apply`
    builds a new tree and never alters its input. */
module NullabilityTree {
  import opened Common
  import opened TypeModel

  datatype Tree = Tree(flag: byte, typeArgs: map<Ty, Tree>)

  /** The one-argument record constructor: a tree without type arguments. */
  function Leaf(flag: byte): (t: Tree)
    ensures t.flag == flag && |t.typeArgs| == 0
  {
    Tree(flag, map[])
  }

  /** What `Apply` makes of one entry: an entry bound by `outer` collapses to a
      leaf carrying the bound flag (and it must have been a leaf already);
      any other entry is substituted recursively. */
  function ApplyEntry(key: Ty, sub: Tree, outer: map<Ty, byte>): Result<Tree>
    decreases sub, 2
  {
    if key in outer then
      if sub.typeArgs != map[] then Failure(InvariantViolation) else Success(Leaf(outer[key]))
    else
      Apply(sub, outer)
  }

  /** Substitutes the flags of bound generic parameters throughout the tree;
      fails if any entry it would collapse still has type arguments. */
  function Apply(t: Tree, outer: map<Ty, byte>): (r: Result<Tree>)
    ensures r.Success? ==> r.value.flag == t.flag && r.value.typeArgs.Keys == t.typeArgs.Keys
    ensures r.Failure? ==> r.error == InvariantViolation
    decreases t, 1
  {
    var entries := map k | k in t.typeArgs :: ApplyEntry(k, t.typeArgs[k], outer);
    if exists k | k in entries :: entries[k].Failure? then
      Failure(InvariantViolation)
    else
      Success(Tree(t.flag, map k | k in entries :: entries[k].value))
  }

  /** The two trees have the same key set at every level. */
  ghost predicate SameKeys(a: Tree, b: Tree)
    decreases a
  {
    a.typeArgs.Keys == b.typeArgs.Keys &&
    forall k | k in a.typeArgs :: SameKeys(a.typeArgs[k], b.typeArgs[k])
  }

  /** No level of the tree has a key that `outer` binds. */
  ghost predicate AvoidsKeys(t: Tree, outer: map<Ty, byte>)
    decreases t
  {
    forall k | k in t.typeArgs :: k !in outer && AvoidsKeys(t.typeArgs[k], outer)
  }

  /** Somewhere below the root, along entries `outer` does not bind, there is
      an entry that `outer` binds although it has type arguments of its own. */
  ghost predicate Collides(t: Tree, outer: map<Ty, byte>)
    decreases t
  {
    exists k | k in t.typeArgs ::
      if k in outer then t.typeArgs[k].typeArgs != map[] else Collides(t.typeArgs[k], outer)
  }

  /** One level of `Apply`: bound entries become leaves with the bound flag,
      the others are the substitution of the same map into the old entry. */
  lemma ApplyAtEntry(t: Tree, outer: map<Ty, byte>, k: Ty)
    requires Apply(t, outer).Success? && k in t.typeArgs
    ensures k in outer ==> t.typeArgs[k].typeArgs == map[] && Apply(t, outer).value.typeArgs[k] == Leaf(outer[k])
    ensures k !in outer ==> Apply(t.typeArgs[k], outer) == Success(Apply(t, outer).value.typeArgs[k])
  {
    var entries := map k | k in t.typeArgs :: ApplyEntry(k, t.typeArgs[k], outer);
    assert k in entries && entries[k].Success?;
  }

  /** `Apply` keeps the root flag and the key set of every level. */
  lemma {:induction false} ApplyKeepsShape(t: Tree, outer: map<Ty, byte>)
    requires Apply(t, outer).Success?
    ensures Apply(t, outer).value.flag == t.flag
    ensures SameKeys(t, Apply(t, outer).value)
    decreases t
  {
    var r := Apply(t, outer).value;
    forall k | k in t.typeArgs
      ensures SameKeys(t.typeArgs[k], r.typeArgs[k])
    {
      ApplyAtEntry(t, outer, k);
      if k !in outer {
        ApplyKeepsShape(t.typeArgs[k], outer);
      }
    }
  }

  /** A substitution that binds no key of the tree leaves it as it is. */
  lemma {:induction false} ApplyAvoidingIsIdentity(t: Tree, outer: map<Ty, byte>)
    requires AvoidsKeys(t, outer)
    ensures Apply(t, outer) == Success(t)
    decreases t
  {
    var entries := map k | k in t.typeArgs :: ApplyEntry(k, t.typeArgs[k], outer);
    forall k | k in entries
      ensures entries[k] == Success(t.typeArgs[k])
    {
      ApplyAvoidingIsIdentity(t.typeArgs[k], outer);
    }
    assert (map k | k in entries :: entries[k].value) == t.typeArgs;
  }

  /** `Apply` fails exactly when some reachable bound entry is not a leaf. */
  lemma {:induction false} ApplyFailsIffCollides(t: Tree, outer: map<Ty, byte>)
    ensures Apply(t, outer).Failure? <==> Collides(t, outer)
    decreases t
  {
    var entries := map k | k in t.typeArgs :: ApplyEntry(k, t.typeArgs[k], outer);
    forall k | k in t.typeArgs && k !in outer
      ensures Apply(t.typeArgs[k], outer).Failure? <==> Collides(t.typeArgs[k], outer)
    {
      ApplyFailsIffCollides(t.typeArgs[k], outer);
    }
    if Collides(t, outer) {
      var k :| k in t.typeArgs &&
        (if k in outer then t.typeArgs[k].typeArgs != map[] else Collides(t.typeArgs[k], outer));
      assert entries[k].Failure?;
    }
    if Apply(t, outer).Failure? {
      var k :| k in entries && entries[k].Failure?;
      assert if k in outer then t.typeArgs[k].typeArgs != map[] else Collides(t.typeArgs[k], outer);
    }
  }

  /** Substituting the same map twice changes nothing more. */
  lemma {:induction false} ApplyIdempotent(t: Tree, outer: map<Ty, byte>)
    requires Apply(t, outer).Success?
    ensures Apply(Apply(t, outer).value, outer) == Apply(t, outer)
    decreases t
  {
    var r := Apply(t, outer).value;
    var entries := map k | k in r.typeArgs :: ApplyEntry(k, r.typeArgs[k], outer);
    forall k | k in r.typeArgs
      ensures entries[k] == Success(r.typeArgs[k])
    {
      ApplyAtEntry(t, outer, k);
      if k !in outer {
        ApplyIdempotent(t.typeArgs[k], outer);
      }
    }
    assert (map k | k in entries :: entries[k].value) == r.typeArgs;
  }
}
