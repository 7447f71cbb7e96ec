/** The walk from a root metadata object along the tokens of a path: each
    index token steps to the element metadata, each name token to the one
    property metadata of that name.  The source walk is lazy; it is modelled
    by what it has yielded when it stops, together with the error it raises
    at that point, if any. */
module PathWalker {
  import opened Common
  import opened Metadata
  import opened ModelPath

  /** The objects a walk yielded, in order, and the error that ended it early. */
  datatype Walk = Walk(nodes: seq<NodeId>, error: Option<Error>)

  /** The property nodes among `props` whose property name is `name`, in order. */
  function Matching(g: Graph, props: seq<NodeId>, name: string): (r: seq<NodeId>)
    requires forall i :: 0 <= i < |props| ==> props[i] in g
    ensures forall i :: 0 <= i < |r| ==> r[i] in g && g[r[i]].propertyName == Some(name)
  {
    if props == [] then []
    else (if g[props[0]].propertyName == Some(name) then [props[0]] else []) + Matching(g, props[1..], name)
  }

  /** Position `i` of `props` is named `name` and no other position is. */
  ghost predicate OnlyMatchAt(g: Graph, props: seq<NodeId>, name: string, i: int)
    requires forall j :: 0 <= j < |props| ==> props[j] in g
  {
    && 0 <= i < |props|
    && g[props[i]].propertyName == Some(name)
    && forall j :: 0 <= j < |props| && j != i ==> g[props[j]].propertyName != Some(name)
  }

  /** The single property of that name (a lookup that refuses both none and
      several), which must be default metadata. */
  function FindProperty(g: Graph, current: NodeId, name: string): Result<NodeId>
    requires Closed(g) && current in g
  {
    var found := Matching(g, g[current].properties, name);
    if |found| != 1 then Failure(StructuralError)
    else if !g[found[0]].isDefault then Failure(StructuralError)
    else Success(found[0])
  }

  /** One step of the walk. */
  function Step(g: Graph, current: NodeId, part: string): (r: Result<NodeId>)
    requires Closed(g) && current in g
    ensures r.Success? ==> r.value in g && g[r.value].isDefault
    ensures part == PATH_INDEX ==>
      (r.Success? <==> g[current].elementMetadata.Some? && g[g[current].elementMetadata.value].isDefault)
    ensures part == PATH_INDEX && r.Success? ==> Some(r.value) == g[current].elementMetadata
    ensures part != PATH_INDEX ==> r == FindProperty(g, current, part)
    ensures r.Failure? ==> r.error == StructuralError
  {
    if part == PATH_INDEX then
      match g[current].elementMetadata
      case None => Failure(StructuralError)
      case Some(e) => if !g[e].isDefault then Failure(StructuralError) else Success(e)
    else
      FindProperty(g, current, part)
  }

  /** The objects reached from `current` by `parts`, stopping at the first step that fails. */
  function WalkFrom(g: Graph, current: NodeId, parts: seq<string>): (w: Walk)
    requires Closed(g) && current in g
    ensures forall i :: 0 <= i < |w.nodes| ==> w.nodes[i] in g
    decreases |parts|
  {
    if parts == [] then Walk([], None)
    else match Step(g, current, parts[0])
      case Failure(e) => Walk([], Some(e))
      case Success(next) =>
        var rest := WalkFrom(g, next, parts[1..]);
        Walk([next] + rest.nodes, rest.error)
  }

  /** The tokens a walk from `root` consumes: a parameter not bound from the
      body drops the first token, which names the parameter itself. */
  function EffectiveTokens(root: MetaNode, path: seq<string>): seq<string> {
    if root.kind == ParameterKind && root.bindingSource != Some(Body) then
      (if path == [] then [] else path[1..])
    else path
  }

  /** The whole lazy sequence: the root first, then the walk. */
  function PathModelMetadata(g: Graph, root: NodeId, path: seq<string>): (w: Walk)
    requires Closed(g) && root in g
    ensures forall i :: 0 <= i < |w.nodes| ==> w.nodes[i] in g
  {
    var w := WalkFrom(g, root, EffectiveTokens(g[root], path));
    Walk([root] + w.nodes, w.error)
  }

  /** The object a step at position `i` starts from. */
  function Before(current: NodeId, nodes: seq<NodeId>, i: nat): NodeId
    requires i <= |nodes|
  {
    if i == 0 then current else nodes[i - 1]
  }

  /** The walk, step by step, as the source writes it. */
  method GetPathModelMetadata(g: Graph, root: NodeId, path: seq<string>) returns (w: Walk)
    requires Closed(g) && root in g
    ensures w == PathModelMetadata(g, root, path)
  {
    var parts := path;
    if g[root].kind == ParameterKind && g[root].bindingSource != Some(Body) {
      parts := if |path| == 0 then [] else path[1..];
    }
    var done: seq<NodeId> := [];
    var current := root;
    var i := 0;
    while i < |parts|
      invariant 0 <= i <= |parts| && current in g
      invariant WalkFrom(g, root, parts) ==
        Walk(done + WalkFrom(g, current, parts[i..]).nodes, WalkFrom(g, current, parts[i..]).error)
      decreases |parts| - i
    {
      WalkFromAt(g, current, parts, i);
      var next := Step(g, current, parts[i]);
      if next.Failure? {
        return Walk([root] + done, Some(next.error));
      }
      ghost var rest := WalkFrom(g, next.value, parts[i + 1..]);
      assert done + ([next.value] + rest.nodes) == (done + [next.value]) + rest.nodes;
      current := next.value;
      done := done + [current];
      i := i + 1;
    }
    w := Walk([root] + done, None);
  }

  /** One unfolding of the walk at position `i` of the tokens. */
  lemma WalkFromAt(g: Graph, current: NodeId, parts: seq<string>, i: nat)
    requires Closed(g) && current in g && i < |parts|
    ensures WalkFrom(g, current, parts[i..]) ==
      match Step(g, current, parts[i])
      case Failure(e) => Walk([], Some(e))
      case Success(next) => Walk([next] + WalkFrom(g, next, parts[i + 1..]).nodes, WalkFrom(g, next, parts[i + 1..]).error)
  {
    assert parts[i..][0] == parts[i] && parts[i..][1..] == parts[i + 1..];
  }

  /** Without a name match the list yields nothing; with one it yields that match first. */
  lemma {:induction false} MatchingEmpty(g: Graph, props: seq<NodeId>, name: string)
    requires forall i :: 0 <= i < |props| ==> props[i] in g
    ensures Matching(g, props, name) == [] <==> forall j :: 0 <= j < |props| ==> g[props[j]].propertyName != Some(name)
    decreases |props|
  {
    if props != [] {
      MatchingEmpty(g, props[1..], name);
      assert forall j :: 1 <= j < |props| ==> props[j] == props[1..][j - 1];
    }
  }

  /** Exactly one match is exactly one position carrying the name. */
  lemma {:induction false} MatchingSingle(g: Graph, props: seq<NodeId>, name: string)
    requires forall i :: 0 <= i < |props| ==> props[i] in g
    ensures |Matching(g, props, name)| == 1 <==> exists i :: OnlyMatchAt(g, props, name, i)
    ensures forall i :: OnlyMatchAt(g, props, name, i) ==> Matching(g, props, name) == [props[i]]
    decreases |props|
  {
    if props != [] {
      var tail := props[1..];
      assert forall j :: 1 <= j < |props| ==> props[j] == tail[j - 1];
      MatchingSingle(g, tail, name);
      MatchingEmpty(g, tail, name);
      if g[props[0]].propertyName == Some(name) {
        if |Matching(g, props, name)| == 1 {
          assert OnlyMatchAt(g, props, name, 0);
        }
        forall i | OnlyMatchAt(g, props, name, i)
          ensures Matching(g, props, name) == [props[i]]
        {
          assert i == 0;
        }
      } else {
        if |Matching(g, props, name)| == 1 {
          var k :| OnlyMatchAt(g, tail, name, k);
          assert OnlyMatchAt(g, props, name, k + 1);
        }
        forall i | OnlyMatchAt(g, props, name, i)
          ensures Matching(g, props, name) == [props[i]]
        {
          assert i != 0;
          assert OnlyMatchAt(g, tail, name, i - 1);
        }
      }
    }
  }

  /** A name step finds a property exactly when one and only one listed
      property has that name and it is default metadata. */
  lemma FindPropertyUnique(g: Graph, current: NodeId, name: string, b: NodeId)
    requires Closed(g) && current in g
    ensures FindProperty(g, current, name) == Success(b) <==>
      (exists i :: OnlyMatchAt(g, g[current].properties, name, i) && g[current].properties[i] == b) && g[b].isDefault
  {
    var props := g[current].properties;
    MatchingSingle(g, props, name);
    if FindProperty(g, current, name) == Success(b) {
      var i :| OnlyMatchAt(g, props, name, i);
      assert props[i] == b;
    }
  }

  /** The walk is the chain of successful steps, stopped at the first failing
      one, whose error it carries. */
  lemma {:induction false} WalkFromSteps(g: Graph, current: NodeId, parts: seq<string>)
    requires Closed(g) && current in g
    ensures var w := WalkFrom(g, current, parts);
      && |w.nodes| <= |parts|
      && (forall i :: 0 <= i < |w.nodes| ==> Step(g, Before(current, w.nodes, i), parts[i]) == Success(w.nodes[i]))
      && (w.error.None? <==> |w.nodes| == |parts|)
      && (w.error.Some? ==> Step(g, Before(current, w.nodes, |w.nodes|), parts[|w.nodes|]) == Failure(w.error.value))
    decreases |parts|
  {
    if parts != [] {
      var step := Step(g, current, parts[0]);
      if step.Success? {
        var next := step.value;
        var rest := WalkFrom(g, next, parts[1..]);
        WalkFromSteps(g, next, parts[1..]);
        var w := WalkFrom(g, current, parts);
        assert w.nodes == [next] + rest.nodes;
        forall i | 0 < i <= |w.nodes|
          ensures Before(current, w.nodes, i) == Before(next, rest.nodes, i - 1)
        {
        }
        forall i | 0 < i < |w.nodes|
          ensures Step(g, Before(current, w.nodes, i), parts[i]) == Success(w.nodes[i])
        {
          assert parts[i] == parts[1..][i - 1];
        }
        if w.error.Some? {
          assert parts[|w.nodes|] == parts[1..][|rest.nodes|];
        }
      }
    }
  }

  /** The walk always starts with the root, and its successful steps stay
      inside the default metadata. */
  lemma WalkStartsAtRoot(g: Graph, root: NodeId, path: seq<string>)
    requires Closed(g) && root in g
    ensures var w := PathModelMetadata(g, root, path);
      w.nodes != [] && w.nodes[0] == root && forall i :: 1 <= i < |w.nodes| ==> g[w.nodes[i]].isDefault
  {
    var parts := EffectiveTokens(g[root], path);
    var rest := WalkFrom(g, root, parts);
    WalkFromSteps(g, root, parts);
    var w := PathModelMetadata(g, root, path);
    forall i | 1 <= i < |w.nodes|
      ensures g[w.nodes[i]].isDefault
    {
      assert w.nodes[i] == rest.nodes[i - 1];
    }
  }

  /** The first token of a path rooted at a parameter that is not bound from
      the body is the binding prefix and plays no part in the walk; from a
      body-bound root it is the first step. */
  lemma BindingPrefixIgnored(g: Graph, root: NodeId, first: string, other: string, rest: seq<string>)
    requires Closed(g) && root in g
    ensures g[root].kind == ParameterKind && g[root].bindingSource != Some(Body) ==>
      PathModelMetadata(g, root, [first] + rest) == PathModelMetadata(g, root, [other] + rest)
    ensures !(g[root].kind == ParameterKind && g[root].bindingSource != Some(Body)) ==>
      PathModelMetadata(g, root, [first] + rest).nodes[1..] == WalkFrom(g, root, [first] + rest).nodes
  {
    assert ([first] + rest)[1..] == rest && ([other] + rest)[1..] == rest;
  }

  /** An index token steps only to the element metadata: a walk over a
      single index token from a node without one fails at once. */
  lemma IndexNeedsElement(g: Graph, current: NodeId)
    requires Closed(g) && current in g
    ensures g[current].elementMetadata.None? ==> WalkFrom(g, current, [PATH_INDEX]) == Walk([], Some(StructuralError))
    ensures WalkFrom(g, current, [PATH_INDEX]).error.None? ==> WalkFrom(g, current, [PATH_INDEX]).nodes == [g[current].elementMetadata.value]
  {
    assert [PATH_INDEX][1..] == [];
  }
}
