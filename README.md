# Nullability resolution for implicit `[Required]` validation

This project models the core of an ASP.NET Core model validator. For a model
field whose value is missing, the validator decides whether the field is
required from the C# compiler's nullable-reference annotations. In C#,
`string` means required and `string?` means optional.

The engine has three parts.

- **Nullability trees.** A tree is a flag plus one sub-tree per generic
  parameter (or array element). The flags are 0 for oblivious, 1 for
  required and 2 for optional.
  - The tree of a declaration is decoded from the compiler's `NullableAttribute`
    payload. The payload is a flat pre-order list of bytes, one per
    reference-typed position.
  - A one-byte payload, or a `NullableContextAttribute` on the enclosing
    method or class, gives a single flag for every position.
  - `Apply` substitutes the flags of a generic container's parameters into a
    property's tree.
- **The model-path parser.** A path such as `Items[0].Name` becomes the
  tokens `Items`, `[_]`, `Name`. Every index collapses to `[_]`. A path
  outside the grammar is rejected.
- **The walker and resolver.**
  - The path's tokens walk the metadata graph from the action parameter: an
    index goes to the element metadata, a name to the one property of that
    name.
  - The chain of metadata is then folded into a tree. The first object gives
    the parameter's tree; each later object projects it to a collection's
    element or to a property.
  - The validator reports the field as required when the final flag is 1. It
    caches the flag per action method, parameter and path. An action method
    carries an identity, standing for its `MethodInfo`, and the metadata
    object of each parameter, so two distinct methods never share a key.

Each part is a module:

| module | contents |
|---|---|
| `Common` | `byte`, the three flags, and `Option`/`Result` (exceptions become `Failure` with an error category) |
| `TypeModel` | the shapes of runtime types and attributes |
| `NullabilityTree` | the tree record and `Apply` |
| `FlagDecoding` | the byte stack as a class, the in-place traversal methods, and the pure functions specifying them |
| `PayloadRoundTrip` | an independent encoder `Flatten`, and the decode/encode round trip |
| `Metadata` | the metadata graph and the reflection facts |
| `ModelPath` | the path grammar, its matcher and the tokenizer |
| `PathWalker` | the walk over the metadata graph |
| `Projections` | the element and property projections |
| `Resolver` | the fold over the chain |
| `Validator` | the cached decision, and the validator as a class holding the cache |
| `Scenarios` | worked cases on concrete metadata |

Where the source works in place, the model has a method proved equal to a
pure specification function. The lemmas are stated about that function.

- The shared `Stack<byte>` becomes `FlagDecoding.FlagStack`. It is popped by
  `Traverse` and `GetFlag`, which are specified by `Decode` and `FlagOf`.
- The walk loop `GetPathModelMetadata` is specified by `PathModelMetadata`.
- The fold loop `ResolveNullability` is specified by `Resolution`.
- The cache of `Validate` is specified by `ValidateSpec`.

Metadata objects are nodes of a map keyed by id. Two references are the same
object exactly when their ids are equal.

## Model

| member | source | states |
|---|---|---|
| TypeModel.TryGetNullableFlags | NullabilityTree.cs:140-152 | a payload is found iff the list holds some `NullableAttribute`, and it is the payload of the first one |
| TypeModel.TryGetNullableContextFlag | NullabilityTree.cs:154-166 | a flag is found iff the list holds some `NullableContextAttribute`, and it is the flag of the first one |
| TypeModel.Formals | NullabilityTree.cs:107 | a definition has `arity` formals, the i-th is formal i, no two are equal, and none is a formal of another definition |
| TypeModel.ZipCount | NullabilityTree.cs:106-109 | zipping the arguments with the formals pairs as many as the shorter of the two lists |
| NullabilityTree.Apply | NullabilityTree.cs:14-34 | a substitution that succeeds keeps the root flag and the root key set; its only failure is the invariant violation |
| NullabilityTree.ApplyAtEntry | NullabilityTree.cs:19-28 | an entry bound by `Outer` becomes a leaf carrying the bound flag, and it had no type arguments; any other entry is the substitution of the same map into it |
| NullabilityTree.ApplyKeepsShape | NullabilityTree.cs:14-34 | the substituted tree has the input's root flag and the same key set at every level |
| NullabilityTree.ApplyAvoidingIsIdentity | NullabilityTree.cs:16-33 | a map that binds no key at any level returns a tree equal to the input |
| NullabilityTree.ApplyFailsIffCollides | NullabilityTree.cs:19-22 | substitution fails exactly when a reachable bound entry has type arguments of its own |
| NullabilityTree.ApplyIdempotent | NullabilityTree.cs:14-34 | substituting the same map again changes nothing |
| FlagDecoding.ReversedTwice | NullabilityTree.cs:94 | reversing twice is the identity, so a stack built from the reversed payload pops it in array order |
| FlagDecoding.FlagStack.Pop | NullabilityTree.cs:134 | pop returns the next pending byte and removes it; an empty stack fails |
| FlagDecoding.ValueTypeFlag | NullabilityTree.cs:127 | a value type's flag is 1 or 2, and it is 2 exactly for `Nullable<T>` |
| FlagDecoding.FlagOf | NullabilityTree.cs:121-138 | a value type gets 1, or 2 for `Nullable<T>`, and pops nothing; a reference type pops the next byte, or without a stack takes the context flag, else 0; it fails iff a reference type meets an empty stack |
| FlagDecoding.GetFlag | NullabilityTree.cs:121-138 | the method returns the flag `FlagOf` gives and leaves the stack holding what `FlagOf` leaves |
| FlagDecoding.Decode | NullabilityTree.cs:99-119 | a decoded stack stays present or absent as it was; the only failure is an empty stack |
| FlagDecoding.DecodeOwnFlag | NullabilityTree.cs:101-118 | the root of a decoded tree carries the flag of the type's own position |
| FlagDecoding.DecodeArgs | NullabilityTree.cs:104-111 | decoding the argument pairs keeps the stack's presence; the only failure is an empty stack |
| FlagDecoding.DecodeArgsKeys | NullabilityTree.cs:107-110 | after n successful pairs, formal j is a key iff j < n, and the key set is exactly the set of the first n formals |
| FlagDecoding.DecodeArgsFailurePersists | NullabilityTree.cs:109-110 | once one argument fails, the whole traversal fails with that error |
| FlagDecoding.Traverse | NullabilityTree.cs:99-119 | the in-place traversal returns `Decode`'s tree and leaves the stack as `Decode` leaves it; on failure the stack is empty |
| FlagDecoding.PayloadSource | NullabilityTree.cs:85-97 | a one-byte payload is a context flag with no stack; any other payload is a stack with no context flag |
| FlagDecoding.ConstructFlags | NullabilityTree.cs:85-97 | the stack built pops exactly the payload, in array order; the context flag is set only for a one-byte payload |
| FlagDecoding.UnpackPropertyFlags | NullabilityTree.cs:36-51 | the property overload yields the tree decoded from the property's own payload, else from the class's context flag |
| FlagDecoding.UnpackParameterFlags | NullabilityTree.cs:53-69 | the parameter overload yields the tree decoded from the parameter's payload, else the method's context flag, else the class's |
| FlagDecoding.GetTypeDefParameterFlag | NullabilityTree.cs:71-83 | a non-type-parameter is rejected; a type parameter succeeds unless its first `NullableAttribute` has an empty payload, which is the index failure and the only other error; the flag is the first byte of the first `NullableAttribute`, else the flag of the first `NullableContextAttribute` of the declaring type, else 0 |
| FlagDecoding.TypeDefParameterFlagIsDeclarationFlag | NullabilityTree.cs:71-83 | for a type parameter, the flag succeeds exactly when unpacking the parameter as a property of the declaring type succeeds, and then equals the unpacked tree's root flag |
| PayloadRoundTrip.DecodeFromPayload | NullabilityTree.cs:99-116 | decoding from a payload succeeds iff it holds at least one byte per reference position; it consumes exactly that many, and re-encoding the tree gives them back |
| PayloadRoundTrip.DecodeArgsFromPayload | NullabilityTree.cs:104-111 | the same for the first n argument pairs |
| PayloadRoundTrip.DecodeFlatten | NullabilityTree.cs:99-119 | decoding the encoding of a well-shaped tree gives the tree back and leaves the remaining bytes |
| PayloadRoundTrip.DecodeArgsFlatten | NullabilityTree.cs:104-111 | the same for the first n argument pairs |
| PayloadRoundTrip.DecodeWithoutPayload | NullabilityTree.cs:131-132 | without a stack, decoding succeeds, and every reference position gets the context flag, else 0 |
| PayloadRoundTrip.ContextFlagIsRepeatedPayload | NullabilityTree.cs:87-91 | a single context flag decodes to the same tree as a payload repeating that flag once per reference position |
| PayloadRoundTrip.DecodedKeys | NullabilityTree.cs:104-118 | for a well-formed type, a generic type's keys are exactly its definition's formals, an array's key is its element type, and others have none; a value type's flag is 1 or 2 |
| PayloadRoundTrip.ParameterFallbackChain | NullabilityTree.cs:53-69 | the parameter's own attribute decides alone; else the method's context flag, whatever the class says; with neither, every reference position is 0 |
| PayloadRoundTrip.PropertyFallbackChain | NullabilityTree.cs:36-51 | the property's own attribute decides alone; with no class context flag either, every reference position is 0 |
| ModelPath.DigitRun | NullabilityModelValidator.cs:35 | the length of the leading run of digits |
| ModelPath.NameRun | NullabilityModelValidator.cs:35 | the length of the leading run of characters other than `.` and `[` |
| ModelPath.IdentLength | NullabilityModelValidator.cs:35 | a non-zero length is that of an index or name identifier at the start |
| ModelPath.ScanSound | NullabilityModelValidator.cs:35 | whatever the matcher returns is a well-formed sequence of segments spelling its input |
| ModelPath.ScanComplete | NullabilityModelValidator.cs:35 | every well-formed sequence of segments is what the matcher finds for its text |
| ModelPath.ParseAcceptsExactly | NullabilityModelValidator.cs:65-70 | a path is accepted iff it matches the grammar |
| ModelPath.ParseTokens | NullabilityModelValidator.cs:72-73 | the tokens of a well-formed path are its segments, with every index replaced by `[_]` and every name unchanged |
| ModelPath.IndexTokenOnlyFromIndex | NullabilityModelValidator.cs:36-73 | a token is `[_]` iff its segment is an index |
| ModelPath.IndexDigitsIrrelevant | NullabilityModelValidator.cs:72-73 | paths differing only in the digits of their indexes parse identically |
| ModelPath.EmptyPath | NullabilityModelValidator.cs:35 | the empty path yields no tokens |
| ModelPath.TrailingDot | NullabilityModelValidator.cs:35 | `a.` is accepted as the single token `a` |
| ModelPath.DotsRejected | NullabilityModelValidator.cs:35 | `.a` and `a..b` are rejected |
| ModelPath.IndexedPath | NullabilityModelValidator.cs:35-73 | `Items[0].Name` yields `Items`, `[_]`, `Name` |
| PathWalker.Matching | NullabilityModelValidator.cs:101 | the properties kept are graph nodes with that name |
| PathWalker.MatchingSingle | NullabilityModelValidator.cs:101 | exactly one match iff exactly one listed property has the name, and then the match is that property |
| PathWalker.Step | NullabilityModelValidator.cs:88-111 | `[_]` succeeds iff there is element metadata and it is default metadata, and then moves to it; a name is the property lookup; a step ends on default metadata and fails only structurally |
| PathWalker.FindPropertyUnique | NullabilityModelValidator.cs:101-107 | a name step reaches a node iff it is the one listed property of that name and it is default metadata |
| PathWalker.WalkFrom | NullabilityModelValidator.cs:86-112 | every node walked is in the graph |
| PathWalker.WalkFromSteps | NullabilityModelValidator.cs:86-112 | the walk is the chain of successful steps, each from the node before; it is complete iff it has no error, and an error is that of the step after the last node |
| PathWalker.PathModelMetadata | NullabilityModelValidator.cs:76-113 | every node yielded is in the graph |
| PathWalker.GetPathModelMetadata | NullabilityModelValidator.cs:76-113 | the walking loop yields what `PathModelMetadata` specifies |
| PathWalker.WalkStartsAtRoot | NullabilityModelValidator.cs:78-111 | the root comes first, and every later node is default metadata |
| PathWalker.BindingPrefixIgnored | NullabilityModelValidator.cs:80-84 | from a parameter not bound from the body, the first token plays no part; from any other root it is the first step |
| PathWalker.IndexNeedsElement | NullabilityModelValidator.cs:88-91 | `[_]` from a node without element metadata fails at once; a completed `[_]` step yields the element metadata |
| Projections.SingletonKeys | NullabilityModelValidator.cs:194 | a key of a one-entry map is its only key |
| Projections.SingleValue | NullabilityModelValidator.cs:194 | the value of a one-entry map is the value at its only key |
| Projections.GetCollectionElementNullability | NullabilityModelValidator.cs:165-200 | a non-collection is unsupported, and only it is. A dictionary yields a required pair tree, its two sub-trees re-keyed onto the pair's formals; its failures are structural or a missing key. An enumerable succeeds iff it has one sub-tree and is an array or has a one-parameter definition, and then yields that sub-tree |
| Projections.DeclaringClassAttributes | NullabilityModelValidator.cs:210-212 | the container metadata's type attributes when the declaring type is the container type or unknown; else the declaring type's own attributes |
| Projections.ClassArgsFlags | NullabilityModelValidator.cs:228-234 | succeeds iff the container's tree holds every formal, with exactly those keys each mapped to that sub-tree's flag; else a missing key |
| Projections.GetPropertyNullability | NullabilityModelValidator.cs:202-244 | a property's tree fails only structurally, on a missing key, on a substitution clash or when its payload runs out |
| Projections.OwnTreeUnlessSubstituted | NullabilityModelValidator.cs:214-243 | a property of a non-generic container, or of a generic one whose definition declares it with a non-parameter type while its own type is not generic, gets its own declaration's tree, whatever the container's tree |
| Projections.PropertyStructuralErrorIff | NullabilityModelValidator.cs:204-220 | a structural failure happens exactly when the property has no container type or no name, or its generic container's definition lacks it |
| Projections.FormalTypedPropertyTakesContainerEntry | NullabilityModelValidator.cs:222-225 | a property declared as a formal gets the container's entry for it, else a missing key; its annotations and the class attributes play no part |
| Projections.SubstitutionUsesContainerFlags | NullabilityModelValidator.cs:226-238 | a generic property of a generic container keeps its own tree's flag and keys, and each formal entry becomes a leaf with the container's flag for that formal |
| Projections.SubstitutionFailures | NullabilityModelValidator.cs:226-238 | in source order, the substitution branch fails with a missing key when the container's tree lacks a formal, then with the payload's failure, then exactly when the substitution collides |
| Projections.ElementOfDecodedCollection | NullabilityModelValidator.cs:171-195 | for any decoded list, array or two-parameter dictionary, the element projection finds its element |
| Resolver.ResolveNullability | NullabilityModelValidator.cs:115-163 | the folding loop returns what `Resolution` specifies |
| Resolver.ResolveFromShape | NullabilityModelValidator.cs:122-157 | a successful fold follows the chain shape, and a non-empty chain ends with a tree |
| Resolver.ResolutionNeedsChainShape | NullabilityModelValidator.cs:122-162 | success needs a complete, non-empty walk starting with a parameter, with no later parameter, each later node the element of the one before or a property with a container |
| Resolver.RootOnly | NullabilityModelValidator.cs:122-162 | a zero-length path of a parameter yields the declaration's own top-level flag; a root of any other kind fails |
| Resolver.ValueTypeParameter | NullabilityModelValidator.cs:122-131 | a value-type parameter resolves to 1, or 2 for `Nullable<T>` |
| Resolver.UnannotatedReferenceParameter | NullabilityModelValidator.cs:122-131 | a reference-type parameter with no annotation anywhere resolves to 0 |
| Resolver.ContextFlagEverywhere | NullabilityModelValidator.cs:122-131 | an unannotated parameter under a context flag gets that flag at every reference position |
| Resolver.NoInvalidPathAfterParse | NullabilityModelValidator.cs:115-163 | resolution never reports an invalid path itself |
| Validator.ResolvePath | NullabilityModelValidator.cs:47-53 | the cache factory computes parse, walk and fold in sequence |
| Validator.Report | NullabilityModelValidator.cs:55-56 | a result is reported iff the flag is 1 |
| Validator.ReportsExactlyRequired | NullabilityModelValidator.cs:40-57 | a field is reported iff its value is missing, there are no prior model-state errors, and the stored flag (or the computed one on a miss) is 1 |
| Validator.ValidateTouchesOnlyItsKey | NullabilityModelValidator.cs:47-53 | stored entries are never changed; only the context's own key is ever added, and only on a successful validation |
| Validator.ValidateKeepsCacheSound | NullabilityModelValidator.cs:34-53 | every stored flag stays the computation's flag for its key |
| Validator.RootsAfterCanonical | NullabilityModelValidator.cs:34-53 | validating a context whose root is its action's parameter keeps every recorded root the parameter its key names |
| Validator.HitMatchesFresh | NullabilityModelValidator.cs:34-53 | with a sound cache whose roots are canonical, a context rooted at its action's parameter gets the answer a cold cache gives, hit or miss |
| Validator.EarlierValidationDoesNotLeak | NullabilityModelValidator.cs:34-53 | after one action's validation, another's answer is its cold-cache answer, even for an action with the same name and attributes |
| Validator.RepeatIsStable | NullabilityModelValidator.cs:47-53 | validating the same context again gives the same answer and leaves the cache unchanged |
| Validator.IndexDigitsDoNotMatter | NullabilityModelValidator.cs:49-52 | paths differing only in index digits get the same flag |
| Validator.InvalidPathFails | NullabilityModelValidator.cs:49-70 | the computation fails with an invalid path iff the path is outside the grammar |
| Validator.NullabilityModelValidator.constructor | NullabilityModelValidator.cs:34 | the cache starts empty and sound |
| Validator.NullabilityModelValidator.Validate | NullabilityModelValidator.cs:38-63 | the results and the new cache are those of `ValidateSpec`; the cache stays sound, and its roots stay canonical for a context rooted at its action's parameter |
| Scenarios.ListProjection | NullabilityModelValidator.cs:189-195 | a list projects to the sub-tree of its argument |
| Scenarios.DictionaryProjection | NullabilityModelValidator.cs:171-187 | a dictionary with a required key and an optional value yields a required pair whose `Key` is required and whose `Value` is optional |
| Scenarios.NameIndexName | NullabilityModelValidator.cs:35-73 | `a[0].b` yields `a`, `[_]`, `b` |
| Scenarios.OrderWalk | NullabilityModelValidator.cs:76-113 | `Addresses[_].Street` from the order walks order, list, address, street |
| Scenarios.AddressesTree | NullabilityModelValidator.cs:242-243 | an optional list of required addresses gets tree 2 over 1 from its own payload |
| Scenarios.StreetTree | NullabilityModelValidator.cs:210-212 | an unannotated street takes the context flag of its class |
| Scenarios.OrderResolution | NullabilityModelValidator.cs:115-163 | the street under the optional list is required, while the list itself is optional |
| Scenarios.AddressStreetIsRequired | NullabilityModelValidator.cs:47-53 | the flag of `Addresses[0].Street` is 1 |
| Scenarios.MissingStreetReported | NullabilityModelValidator.cs:43-56 | a missing street is reported on first validation, and its flag is stored under the action, parameter and path |

## Left out

- `NullabilityModelValidatorProvider` (NullabilityModelValidator.cs:18-30) is not part of this model. It is MVC plumbing that registers one shared validator.
- PathAwareValidationVisitor.cs, PathAwareObjectModelValidator.cs and PathAwareModelValidationContext.cs are not part of this model. They supply the validation context, with its path and root metadata, which here is the `ValidationContext` parameter of `Validate`.
- Reflection is abstract. Types are the shapes in `TypeModel`. Custom attributes are a list of nullability attributes, read with first-match semantics. Lookup by full type name and by field through `GetField(...).GetValue` is not modelled.
- `Metadata.GetProperty`: one map answers both property lookups of `GetPropertyNullability`. The source's instance-only lookup and its default lookup, which also sees static properties, are not distinguished. `AmbiguousMatchException` for a hidden property is not modelled.
- `ActionMethod.id` stands for `MethodInfo` reference identity, but a cache key compares the whole `ActionMethod` value. The model assumes each id comes with one fixed value (name, parameters and attributes), so that equality of values stands for equality of methods. `HitMatchesFresh` and `EarlierValidationDoesNotLeak` also need the context's root to be the metadata its action lists for that parameter (`ParameterRoot`). PathAwareValidationVisitor.cs only checks that the root is parameter metadata and passes on whatever it received. That the root belongs to that action's parameter lies with MVC's parameter binding, which calls the visitor; it is not part of this model.
- Exceptions are error categories of `Common.Error`, not .NET exception types. A null `ElementType` on a dictionary's metadata, a null dereference in the source, is a structural error here.
- The path grammar uses ASCII digits. The regex engine's Unicode `\d` and the `$` that also matches before a final newline are not modelled.
- `Validate` returns its results as a whole. In the source they are produced lazily, and the checks run when the caller first enumerates them.
- The cache is a sequential map with get-or-add. `ConcurrentDictionary`'s thread safety is not modelled, nor the factory running twice under a race. The cache is static in the source and here belongs to the one validator object.
- The display name and the message text of the reported result are not modelled; a report is `FieldRequired`.
- For a type parameter with no annotation and no context flag, the model returns 0 (oblivious), as `GetTypeDefParameterFlag` does at NullabilityTree.cs:82. It does not default to required.
- `GetTypeDefParameterFlag`'s separate check for a null `DeclaringType` is covered by the type-parameter check. In the model, only a parameter owned by a type passes that check, and it always has a declaring type.
