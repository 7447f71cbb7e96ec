/** The validator itself: for a field whose value is missing, and only when
    no earlier validator has failed, it resolves the nullability flag of the
    field's path (parse, walk, resolve), remembers it per action method,
    parameter and path, and reports the field as required when the flag is 1.
    The process-wide cache is the one piece of state; it is modelled as a
    field of a validator object. */
module Validator {
  import opened Common
  import opened Metadata
  import opened ModelPath
  import opened PathWalker
  import opened Resolver

  /** The cache key: the action method, the root parameter's name and the path string. */
  datatype CacheKey = CacheKey(action: ActionMethod, parameter: Option<string>, path: string)

  /** What the validator reads of its context.  `controller` is the action
      method when the action context is a controller's, and `None` otherwise. */
  datatype ValidationContext =
    | PathAwareContext(controller: Option<ActionMethod>, rootMetadata: NodeId, path: string,
                       modelIsNull: bool, errorCount: nat)
    | OtherContext

  /** The one result the validator can report: the field is required. */
  datatype ValidationResult = FieldRequired

  /** The flag of a path string below a root: parse it, walk it, resolve the chain. */
  function ComputeFlag(g: Graph, refl: Reflection, action: ActionMethod, root: NodeId, path: string): Result<byte>
    requires Closed(g) && root in g
  {
    var tokens :- ParseModelPath(path);
    Resolution(g, refl, action, PathModelMetadata(g, root, tokens))
  }

  /** The computation handed to the cache on a miss, as the source sequences it. */
  method ResolvePath(g: Graph, refl: Reflection, action: ActionMethod, root: NodeId, path: string) returns (r: Result<byte>)
    requires Closed(g) && root in g
    ensures r == ComputeFlag(g, refl, action, root, path)
  {
    var tokens := ParseModelPath(path);
    if tokens.Failure? {
      return Failure(tokens.error);
    }
    var pathMeta := GetPathModelMetadata(g, root, tokens.value);
    r := ResolveNullability(g, refl, action, pathMeta);
  }

  /** The context is one the validator understands. */
  predicate Understood(ctx: ValidationContext) {
    ctx.PathAwareContext? && ctx.controller.Some?
  }

  /** The field is to be checked: its value is missing and no error was recorded before. */
  predicate Applies(ctx: ValidationContext) {
    Understood(ctx) && ctx.modelIsNull && ctx.errorCount == 0
  }

  function Key(g: Graph, ctx: ValidationContext): CacheKey
    requires Understood(ctx) && ctx.rootMetadata in g
  {
    CacheKey(ctx.controller.value, g[ctx.rootMetadata].parameterName, ctx.path)
  }

  /** What is reported for a flag. */
  function Report(flag: byte): (r: seq<ValidationResult>)
    ensures r != [] <==> flag == FLAG_REQUIRED
  {
    if flag == FLAG_REQUIRED then [FieldRequired] else []
  }

  /** The results of one validation and the cache afterwards: a hit reads the
      stored flag, a miss computes it and stores it when the computation
      succeeds. */
  function ValidateSpec(g: Graph, refl: Reflection, cache: map<CacheKey, byte>, ctx: ValidationContext)
    : (Result<seq<ValidationResult>>, map<CacheKey, byte>)
    requires Closed(g) && (ctx.PathAwareContext? ==> ctx.rootMetadata in g)
  {
    if !Understood(ctx) then (Failure(WrongContextType), cache)
    else if !Applies(ctx) then (Success([]), cache)
    else
      var key := Key(g, ctx);
      if key in cache then (Success(Report(cache[key])), cache)
      else match ComputeFlag(g, refl, key.action, ctx.rootMetadata, ctx.path)
        case Failure(e) => (Failure(e), cache)
        case Success(f) => (Success(Report(f)), cache[key := f])
  }

  /** Every stored flag is what the computation gives for its key, from the
      root recorded for it, whose parameter name is the key's. */
  ghost predicate CacheSound(g: Graph, refl: Reflection, cache: map<CacheKey, byte>, roots: map<CacheKey, NodeId>)
    requires Closed(g)
  {
    forall k | k in cache ::
      && k in roots && roots[k] in g
      && g[roots[k]].parameterName == k.parameter
      && ComputeFlag(g, refl, k.action, roots[k], k.path) == Success(cache[k])
  }

  /** The roots recorded after a validation: the context's root for a newly stored key. */
  ghost function RootsAfter(g: Graph, refl: Reflection, cache: map<CacheKey, byte>, roots: map<CacheKey, NodeId>,
                            ctx: ValidationContext): map<CacheKey, NodeId>
    requires Closed(g) && (ctx.PathAwareContext? ==> ctx.rootMetadata in g)
  {
    if Applies(ctx) && Key(g, ctx) !in cache && ComputeFlag(g, refl, ctx.controller.value, ctx.rootMetadata, ctx.path).Success?
    then roots[Key(g, ctx) := ctx.rootMetadata]
    else roots
  }

  /** A validation changes the cache at its own key only, and only on a miss
      whose computation succeeds; what was stored stays stored. */
  lemma ValidateTouchesOnlyItsKey(g: Graph, refl: Reflection, cache: map<CacheKey, byte>, ctx: ValidationContext)
    requires Closed(g) && (ctx.PathAwareContext? ==> ctx.rootMetadata in g)
    ensures var after := ValidateSpec(g, refl, cache, ctx).1;
      && (forall k | k in cache :: k in after && after[k] == cache[k])
      && (forall k | k in after && k !in cache :: Applies(ctx) && k == Key(g, ctx))
      && (after != cache ==> ValidateSpec(g, refl, cache, ctx).0.Success?)
  {
  }

  /** The cache stays sound. */
  lemma ValidateKeepsCacheSound(g: Graph, refl: Reflection, cache: map<CacheKey, byte>, roots: map<CacheKey, NodeId>,
                                ctx: ValidationContext)
    requires Closed(g) && (ctx.PathAwareContext? ==> ctx.rootMetadata in g)
    requires CacheSound(g, refl, cache, roots)
    ensures CacheSound(g, refl, ValidateSpec(g, refl, cache, ctx).1, RootsAfter(g, refl, cache, roots, ctx))
  {
  }

  /** A field is reported exactly when the context is understood, the value
      is missing, no error was recorded before, and the flag (stored, or
      computed on a miss) is 1. */
  lemma ReportsExactlyRequired(g: Graph, refl: Reflection, cache: map<CacheKey, byte>, ctx: ValidationContext)
    requires Closed(g) && (ctx.PathAwareContext? ==> ctx.rootMetadata in g)
    ensures var r := ValidateSpec(g, refl, cache, ctx).0;
      (r.Success? && r.value != []) <==>
        && Applies(ctx)
        && (Key(g, ctx) in cache ==> cache[Key(g, ctx)] == FLAG_REQUIRED)
        && (Key(g, ctx) !in cache ==>
              ComputeFlag(g, refl, ctx.controller.value, ctx.rootMetadata, ctx.path) == Success(FLAG_REQUIRED))
  {
  }

  /** The root is the metadata object the action lists for the parameter the
      root is named after, and it is a parameter object.  The visitor checks
      only the kind; that the object is this action's parameter is up to the
      parameter binding that starts validation. */
  predicate ParameterRoot(g: Graph, action: ActionMethod, root: NodeId) {
    && root in g && g[root].kind == ParameterKind && g[root].parameterName.Some?
    && g[root].parameterName.value in action.parameters
    && action.parameters[g[root].parameterName.value] == root
  }

  /** A context whose validation applies has its action's parameter as root. */
  predicate WellRooted(g: Graph, ctx: ValidationContext) {
    Applies(ctx) ==> ParameterRoot(g, ctx.controller.value, ctx.rootMetadata)
  }

  /** Every recorded root is the parameter metadata its key's action lists. */
  ghost predicate RootsCanonical(g: Graph, roots: map<CacheKey, NodeId>) {
    forall k | k in roots :: ParameterRoot(g, k.action, roots[k])
  }

  /** Validating a well-rooted context keeps the recorded roots canonical. */
  lemma RootsAfterCanonical(g: Graph, refl: Reflection, cache: map<CacheKey, byte>, roots: map<CacheKey, NodeId>,
                            ctx: ValidationContext)
    requires Closed(g) && (ctx.PathAwareContext? ==> ctx.rootMetadata in g)
    requires RootsCanonical(g, roots) && WellRooted(g, ctx)
    ensures RootsCanonical(g, RootsAfter(g, refl, cache, roots, ctx))
  {
  }

  /** With a sound cache whose roots are canonical, a well-rooted context
      gets the answer a cold cache would give: a key names one action (by
      identity) and one of its parameters, hence one root. */
  lemma HitMatchesFresh(g: Graph, refl: Reflection, cache: map<CacheKey, byte>, roots: map<CacheKey, NodeId>,
                        ctx: ValidationContext)
    requires Closed(g) && (ctx.PathAwareContext? ==> ctx.rootMetadata in g)
    requires CacheSound(g, refl, cache, roots) && RootsCanonical(g, roots)
    requires WellRooted(g, ctx)
    ensures ValidateSpec(g, refl, cache, ctx).0 == ValidateSpec(g, refl, map[], ctx).0
  {
    if Applies(ctx) && Key(g, ctx) in cache {
      var k := Key(g, ctx);
      assert ParameterRoot(g, k.action, roots[k]);
      assert g[roots[k]].parameterName == k.parameter == g[ctx.rootMetadata].parameterName;
    }
  }

  /** What one action's validation stores never answers another's: after
      validating `first` on a cold cache, validating `second` gives what a cold
      cache gives, even for the same path and an action with the same name,
      parameter names and attributes. */
  lemma EarlierValidationDoesNotLeak(g: Graph, refl: Reflection, first: ValidationContext, second: ValidationContext)
    requires Closed(g) && (first.PathAwareContext? ==> first.rootMetadata in g)
    requires second.PathAwareContext? ==> second.rootMetadata in g
    requires WellRooted(g, first) && WellRooted(g, second)
    ensures ValidateSpec(g, refl, ValidateSpec(g, refl, map[], first).1, second).0 == ValidateSpec(g, refl, map[], second).0
  {
    var roots: map<CacheKey, NodeId> := map[];
    ValidateKeepsCacheSound(g, refl, map[], roots, first);
    RootsAfterCanonical(g, refl, map[], roots, first);
    HitMatchesFresh(g, refl, ValidateSpec(g, refl, map[], first).1, RootsAfter(g, refl, map[], roots, first), second);
  }

  /** Validating the same context twice gives the same answer and leaves the cache as the first time did. */
  lemma RepeatIsStable(g: Graph, refl: Reflection, cache: map<CacheKey, byte>, ctx: ValidationContext)
    requires Closed(g) && (ctx.PathAwareContext? ==> ctx.rootMetadata in g)
    ensures var (r1, c1) := ValidateSpec(g, refl, cache, ctx);
      ValidateSpec(g, refl, c1, ctx) == (r1, c1)
  {
  }

  /** Two paths that differ only in the digits of their indexes get the same flag. */
  lemma IndexDigitsDoNotMatter(g: Graph, refl: Reflection, action: ActionMethod, root: NodeId, ps: seq<Piece>, qs: seq<Piece>)
    requires Closed(g) && root in g
    requires WellFormedPieces(ps) && WellFormedPieces(qs) && SameUpToIndexDigits(ps, qs)
    ensures ComputeFlag(g, refl, action, root, Render(ps)) == ComputeFlag(g, refl, action, root, Render(qs))
  {
    IndexDigitsIrrelevant(ps, qs);
  }

  /** A path outside the grammar fails before any metadata is visited. */
  lemma InvalidPathFails(g: Graph, refl: Reflection, action: ActionMethod, root: NodeId, path: string)
    requires Closed(g) && root in g
    ensures ComputeFlag(g, refl, action, root, path) == Failure(InvalidPath) <==> !Matches(path)
  {
    ParseAcceptsExactly(path);
    if ParseModelPath(path).Success? {
      var tokens := ParseModelPath(path).value;
      var w := PathModelMetadata(g, root, tokens);
      WalkFromSteps(g, root, EffectiveTokens(g[root], tokens));
      if w.error.Some? {
        assert w.error.value == StructuralError;
      }
      NoInvalidPathAfterParse(g, refl, action, w);
    }
  }

  /** The validator object and its process-wide cache. */
  class NullabilityModelValidator {
    const graph: Graph
    const reflection: Reflection
    var cache: map<CacheKey, byte>
    /** The root each stored flag was computed from. */
    ghost var roots: map<CacheKey, NodeId>

    ghost predicate Valid()
      reads this
    {
      Closed(graph) && CacheSound(graph, reflection, cache, roots)
    }

    constructor(g: Graph, refl: Reflection)
      requires Closed(g)
      ensures Valid() && graph == g && reflection == refl && cache == map[]
    {
      graph := g;
      reflection := refl;
      cache := map[];
      roots := map[];
    }

    /** Validates one field: the results and the new cache are those of `ValidateSpec`. */
    method Validate(ctx: ValidationContext) returns (r: Result<seq<ValidationResult>>)
      requires Valid() && (ctx.PathAwareContext? ==> ctx.rootMetadata in graph)
      modifies this
      ensures Valid()
      ensures (r, cache) == ValidateSpec(graph, reflection, old(cache), ctx)
      ensures roots == RootsAfter(graph, reflection, old(cache), old(roots), ctx)
      ensures RootsCanonical(graph, old(roots)) && WellRooted(graph, ctx) ==> RootsCanonical(graph, roots)
    {
      ValidateKeepsCacheSound(graph, reflection, cache, roots, ctx);
      if RootsCanonical(graph, roots) && WellRooted(graph, ctx) {
        RootsAfterCanonical(graph, reflection, cache, roots, ctx);
      }
      if !(ctx.PathAwareContext? && ctx.controller.Some?) {
        return Failure(WrongContextType);
      }
      if !(ctx.modelIsNull && ctx.errorCount == 0) {
        return Success([]);
      }
      var key := CacheKey(ctx.controller.value, graph[ctx.rootMetadata].parameterName, ctx.path);
      var flag: byte;
      if key in cache {
        flag := cache[key];
      } else {
        var computed := ResolvePath(graph, reflection, key.action, ctx.rootMetadata, ctx.path);
        if computed.Failure? {
          return Failure(computed.error);
        }
        flag := computed.value;
        cache := cache[key := flag];
        roots := roots[key := ctx.rootMetadata];
      }
      if flag == FLAG_REQUIRED {
        r := Success([FieldRequired]);
      } else {
        r := Success([]);
      }
    }
  }
}
