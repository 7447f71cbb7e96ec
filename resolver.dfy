/** The fold over the metadata chain of a path: the first object is the
    action parameter, whose declaration gives the first tree; each later
    object projects the tree one step, to a collection's element or to a
    container's property.  The answer is the flag of the last tree. */
module Resolver {
  import opened Common
  import opened TypeModel
  import opened NullabilityTree
  import opened FlagDecoding
  import opened Metadata
  import opened PathWalker
  import opened Projections
  import PayloadRoundTrip

  /** The action method a parameter belongs to: the identity of its
      `MethodInfo`, its name, the metadata object of each of its parameters
      by parameter name, its own attributes and those of its declaring class. */
  datatype ActionMethod = ActionMethod(id: nat, name: string, parameters: map<string, NodeId>,
                                       methodAttributes: seq<Attribute>, classAttributes: seq<Attribute>)

  /** Every object of the chain is in the graph. */
  ghost predicate InGraph(g: Graph, chain: seq<NodeId>) {
    forall i :: 0 <= i < |chain| ==> chain[i] in g
  }

  /** The tree of a parameter declaration of the action. */
  function ParameterTree(action: ActionMethod, node: MetaNode): Result<Tree> {
    Unpack(node.modelType, ParameterSource(node.parameterAttributes, action.methodAttributes, action.classAttributes))
  }

  /** One turn of the loop: the tree after `meta`, from the object before it and the tree so far. */
  function ResolveStep(g: Graph, refl: Reflection, action: ActionMethod,
                       prev: Option<NodeId>, current: Option<Tree>, meta: NodeId): Result<Tree>
    requires Closed(g) && meta in g && (prev.Some? ==> prev.value in g)
  {
    var node := g[meta];
    match node.kind
    case ParameterKind =>
      if current.None? then ParameterTree(action, node) else Failure(StructuralError)
    case TypeKind =>
      if current.None? || prev.None? || g[prev.value].elementMetadata != Some(meta) then Failure(StructuralError)
      else GetCollectionElementNullability(current.value, g[prev.value])
    case PropertyKind =>
      if current.None? || prev.None? || node.containerMetadata.None? then Failure(StructuralError)
      else GetPropertyNullability(current.value, g[prev.value], node, refl)
    case ConstructorKind =>
      Failure(StructuralError)
  }

  /** The tree after the whole chain, from the given state; the first failing step ends it. */
  function ResolveFrom(g: Graph, refl: Reflection, action: ActionMethod,
                       prev: Option<NodeId>, current: Option<Tree>, chain: seq<NodeId>): Result<Option<Tree>>
    requires Closed(g) && InGraph(g, chain) && (prev.Some? ==> prev.value in g)
    decreases |chain|
  {
    if chain == [] then Success(current)
    else
      var t :- ResolveStep(g, refl, action, prev, current, chain[0]);
      ResolveFrom(g, refl, action, Some(chain[0]), Some(t), chain[1..])
  }

  /** What the resolution of a lazily walked chain returns: the error of the
      first failing step, else the walk's own error, raised when the next
      object is asked for, else the last tree's flag. */
  function Resolution(g: Graph, refl: Reflection, action: ActionMethod, walk: Walk): Result<byte>
    requires Closed(g) && InGraph(g, walk.nodes)
  {
    var current :- ResolveFrom(g, refl, action, None, None, walk.nodes);
    if walk.error.Some? then Failure(walk.error.value)
    else if current.None? then Failure(StructuralError)
    else Success(current.value.flag)
  }

  /** One unfolding of the fold at position `i` of the chain. */
  lemma ResolveFromAt(g: Graph, refl: Reflection, action: ActionMethod,
                      prev: Option<NodeId>, current: Option<Tree>, chain: seq<NodeId>, i: nat)
    requires Closed(g) && InGraph(g, chain) && (prev.Some? ==> prev.value in g) && i < |chain|
    ensures ResolveFrom(g, refl, action, prev, current, chain[i..]) ==
      match ResolveStep(g, refl, action, prev, current, chain[i])
      case Failure(e) => Failure(e)
      case Success(t) => ResolveFrom(g, refl, action, Some(chain[i]), Some(t), chain[i + 1..])
  {
    assert chain[i..][0] == chain[i] && chain[i..][1..] == chain[i + 1..];
  }

  /** The loop of the source, over the objects the walk yielded. */
  method ResolveNullability(g: Graph, refl: Reflection, action: ActionMethod, walk: Walk) returns (r: Result<byte>)
    requires Closed(g) && InGraph(g, walk.nodes)
    ensures r == Resolution(g, refl, action, walk)
  {
    var prev: Option<NodeId> := None;
    var current: Option<Tree> := None;
    var i := 0;
    while i < |walk.nodes|
      invariant 0 <= i <= |walk.nodes| && (prev.Some? ==> prev.value in g)
      invariant ResolveFrom(g, refl, action, None, None, walk.nodes) ==
        ResolveFrom(g, refl, action, prev, current, walk.nodes[i..])
      decreases |walk.nodes| - i
    {
      ResolveFromAt(g, refl, action, prev, current, walk.nodes, i);
      var meta := walk.nodes[i];
      var node := g[meta];
      var next: Result<Tree>;
      if node.kind == ParameterKind {
        if current.None? {
          next := UnpackParameterFlags(node.modelType, node.parameterAttributes, action.methodAttributes, action.classAttributes);
        } else {
          next := Failure(StructuralError);
        }
      } else if node.kind == TypeKind {
        if current.None? || prev.None? || g[prev.value].elementMetadata != Some(meta) {
          next := Failure(StructuralError);
        } else {
          next := GetCollectionElementNullability(current.value, g[prev.value]);
        }
      } else if node.kind == PropertyKind {
        if current.None? || prev.None? || node.containerMetadata.None? {
          next := Failure(StructuralError);
        } else {
          next := GetPropertyNullability(current.value, g[prev.value], node, refl);
        }
      } else {
        next := Failure(StructuralError);
      }
      if next.Failure? {
        return Failure(next.error);
      }
      current := Some(next.value);
      prev := Some(meta);
      i := i + 1;
    }
    if walk.error.Some? {
      return Failure(walk.error.value);
    }
    if current.None? {
      return Failure(StructuralError);
    }
    r := Success(current.value.flag);
  }

  /** How an object may follow the one before it in a chain: as its element
      metadata, or as a property that has a container. */
  ghost predicate Link(g: Graph, before: NodeId, after: NodeId)
    requires before in g && after in g
  {
    || (g[after].kind == TypeKind && g[before].elementMetadata == Some(after))
    || (g[after].kind == PropertyKind && g[after].containerMetadata.Some?)
  }

  /** A fold that succeeds from a state whose previous object and tree are
      both present or both absent follows the chain shape from that state. */
  lemma {:induction false} ResolveFromShape(g: Graph, refl: Reflection, action: ActionMethod,
                                            prev: Option<NodeId>, current: Option<Tree>, chain: seq<NodeId>)
    requires Closed(g) && InGraph(g, chain) && (prev.Some? ==> prev.value in g)
    requires prev.Some? <==> current.Some?
    requires ResolveFrom(g, refl, action, prev, current, chain).Success?
    ensures chain != [] && prev.None? ==> g[chain[0]].kind == ParameterKind
    ensures chain != [] && prev.Some? ==> Link(g, prev.value, chain[0])
    ensures forall i :: 1 <= i < |chain| ==> Link(g, chain[i - 1], chain[i])
    ensures chain != [] ==> ResolveFrom(g, refl, action, prev, current, chain).value.Some?
    decreases |chain|
  {
    if chain != [] {
      var t := ResolveStep(g, refl, action, prev, current, chain[0]);
      var tail := chain[1..];
      ResolveFromShape(g, refl, action, Some(chain[0]), Some(t.value), tail);
      forall i | 1 <= i < |chain|
        ensures Link(g, chain[i - 1], chain[i])
      {
        if i > 1 {
          assert chain[i - 1] == tail[i - 2] && chain[i] == tail[i - 1];
        }
      }
    }
  }

  /** A resolution succeeds only on a complete walk whose chain starts with a
      parameter and continues with element and property objects, each
      linked to the one before: an empty chain, a later parameter, an
      element object that is not the previous object's element, or a
      property without a container all fail. */
  lemma ResolutionNeedsChainShape(g: Graph, refl: Reflection, action: ActionMethod, walk: Walk)
    requires Closed(g) && InGraph(g, walk.nodes)
    requires Resolution(g, refl, action, walk).Success?
    ensures walk.error.None? && walk.nodes != []
    ensures g[walk.nodes[0]].kind == ParameterKind
    ensures forall i :: 1 <= i < |walk.nodes| ==> g[walk.nodes[i]].kind != ParameterKind
    ensures forall i :: 1 <= i < |walk.nodes| ==> Link(g, walk.nodes[i - 1], walk.nodes[i])
  {
    ResolveFromShape(g, refl, action, None, None, walk.nodes);
    forall i | 1 <= i < |walk.nodes|
      ensures g[walk.nodes[i]].kind != ParameterKind
    {
      assert Link(g, walk.nodes[i - 1], walk.nodes[i]);
    }
  }

  /** The zero-length path: resolving the root parameter alone yields that
      declaration's own top-level flag, and any other kind of root fails. */
  lemma RootOnly(g: Graph, refl: Reflection, action: ActionMethod, root: NodeId)
    requires Closed(g) && root in g
    ensures var node := g[root];
      var source := ParameterSource(node.parameterAttributes, action.methodAttributes, action.classAttributes);
      var r := Resolution(g, refl, action, Walk([root], None));
      && (node.kind != ParameterKind ==> r == Failure(StructuralError))
      && (node.kind == ParameterKind ==> (r.Success? <==> ParameterTree(action, node).Success?))
      && (node.kind == ParameterKind && r.Success? ==>
            r.value == FlagOf(node.modelType, source.stack, source.contextFlag).value.0)
  {
    assert [root][1..] == [];
    var node := g[root];
    var step := ResolveStep(g, refl, action, None, None, root);
    if step.Success? {
      assert ResolveFrom(g, refl, action, None, None, [root]) == Success(Some(step.value));
    }
    if node.kind == ParameterKind {
      var source := ParameterSource(node.parameterAttributes, action.methodAttributes, action.classAttributes);
      if Decode(node.modelType, source.stack, source.contextFlag).Success? {
        DecodeOwnFlag(node.modelType, source.stack, source.contextFlag);
      }
    }
  }

  /** A value-type parameter resolves to required, or to optional for a
      `Nullable<T>`, whatever its annotations say. */
  lemma ValueTypeParameter(g: Graph, refl: Reflection, action: ActionMethod, root: NodeId)
    requires Closed(g) && root in g && g[root].kind == ParameterKind && IsValueType(g[root].modelType)
    requires Resolution(g, refl, action, Walk([root], None)).Success?
    ensures Resolution(g, refl, action, Walk([root], None)).value ==
      (if IsNullableWrapper(g[root].modelType) then FLAG_OPTIONAL else FLAG_REQUIRED)
  {
    RootOnly(g, refl, action, root);
  }

  /** No annotation anywhere: a reference-typed parameter is oblivious. */
  lemma UnannotatedReferenceParameter(g: Graph, refl: Reflection, action: ActionMethod, root: NodeId)
    requires Closed(g) && root in g && g[root].kind == ParameterKind && !IsValueType(g[root].modelType)
    requires TryGetNullableFlags(g[root].parameterAttributes).None?
    requires TryGetNullableContextFlag(action.methodAttributes).None?
    requires TryGetNullableContextFlag(action.classAttributes).None?
    ensures Resolution(g, refl, action, Walk([root], None)) == Success(FLAG_UNKNOWN)
  {
    RootOnly(g, refl, action, root);
    PayloadRoundTrip.DecodeWithoutPayload(g[root].modelType, None);
  }

  /** An unannotated parameter of a method or class with a context flag gets
      that flag at every reference-typed position of its tree, its own
      position included. */
  lemma ContextFlagEverywhere(g: Graph, refl: Reflection, action: ActionMethod, root: NodeId, f: byte)
    requires Closed(g) && root in g && g[root].kind == ParameterKind
    requires TryGetNullableFlags(g[root].parameterAttributes).None?
    requires TryGetNullableContextFlag(action.methodAttributes) == Some(f) ||
      (TryGetNullableContextFlag(action.methodAttributes).None? && TryGetNullableContextFlag(action.classAttributes) == Some(f))
    ensures ParameterTree(action, g[root]).Success?
    ensures var tree := ParameterTree(action, g[root]).value;
      PayloadRoundTrip.Conforms(g[root].modelType, tree) &&
      PayloadRoundTrip.Uniform(PayloadRoundTrip.Flatten(g[root].modelType, tree), f)
    ensures !IsValueType(g[root].modelType) ==> Resolution(g, refl, action, Walk([root], None)) == Success(f)
  {
    RootOnly(g, refl, action, root);
    PayloadRoundTrip.DecodeWithoutPayload(g[root].modelType, Some(f));
  }

  /** Resolution never reports an invalid path, when the walk does not. */
  lemma NoInvalidPathAfterParse(g: Graph, refl: Reflection, action: ActionMethod, w: Walk)
    requires Closed(g) && InGraph(g, w.nodes)
    requires w.error.Some? ==> w.error.value == StructuralError
    ensures Resolution(g, refl, action, w) != Failure(InvalidPath)
  {
    NoInvalidPathInFold(g, refl, action, None, None, w.nodes);
  }

  lemma {:induction false} NoInvalidPathInFold(g: Graph, refl: Reflection, action: ActionMethod,
                                               prev: Option<NodeId>, current: Option<Tree>, chain: seq<NodeId>)
    requires Closed(g) && InGraph(g, chain) && (prev.Some? ==> prev.value in g)
    ensures ResolveFrom(g, refl, action, prev, current, chain) != Failure(InvalidPath)
    decreases |chain|
  {
    if chain != [] {
      var step := ResolveStep(g, refl, action, prev, current, chain[0]);
      StepNeverInvalidPath(g, refl, action, prev, current, chain[0]);
      if step.Success? {
        NoInvalidPathInFold(g, refl, action, Some(chain[0]), Some(step.value), chain[1..]);
      }
    }
  }

  lemma StepNeverInvalidPath(g: Graph, refl: Reflection, action: ActionMethod,
                             prev: Option<NodeId>, current: Option<Tree>, meta: NodeId)
    requires Closed(g) && meta in g && (prev.Some? ==> prev.value in g)
    ensures ResolveStep(g, refl, action, prev, current, meta) != Failure(InvalidPath)
  {
  }
}
