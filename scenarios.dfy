/** Worked cases of the whole engine on small concrete metadata: the
    element projections of a list and of a dictionary, and the resolution of
    `Addresses[0].Street` under an order whose address list is optional while
    the addresses in it and their streets are not. */
module Scenarios {
  import opened Common
  import opened TypeModel
  import opened NullabilityTree
  import opened FlagDecoding
  import opened PayloadRoundTrip
  import opened Metadata
  import opened ModelPath
  import opened PathWalker
  import opened Projections
  import opened Resolver
  import opened Validator

  const ADDRESS := Simple("Address", false, NotCollection)
  const STRING := Simple("System.String", false, NotCollection)
  const ORDER := Simple("Order", false, NotCollection)
  const LIST_DEF := GenericDef("System.Collections.Generic.List`1", 1, false, Enumerable)
  const DICTIONARY_DEF := GenericDef("System.Collections.Generic.Dictionary`2", 2, false, Dictionary)

  /** A list projects to the sub-tree of its one type argument, whatever the list's own flag. */
  lemma ListProjection(f: byte, element: Ty, sub: Tree, listMeta: MetaNode)
    requires listMeta.modelType == Constructed(LIST_DEF, [element])
    ensures GetCollectionElementNullability(Tree(f, map[Formal(LIST_DEF, 0) := sub]), listMeta) == Success(sub)
  {
    var m := map[Formal(LIST_DEF, 0) := sub];
    assert m.Keys == {Formal(LIST_DEF, 0)};
  }

  /** A dictionary with a required key and an optional value projects to a
      required pair whose `Key` property is required and whose `Value`
      property is optional. */
  lemma DictionaryProjection(f: byte, key: Ty, value: Ty, dictionaryMeta: MetaNode,
                             pairMeta: MetaNode, keyMeta: MetaNode, valueMeta: MetaNode, refl: Reflection)
    requires dictionaryMeta.modelType == Constructed(DICTIONARY_DEF, [key, value])
    requires dictionaryMeta.elementType == Some(Constructed(KEY_VALUE_PAIR_DEF, [key, value]))
    requires keyMeta.containerType == Some(Constructed(KEY_VALUE_PAIR_DEF, [key, value])) && keyMeta.propertyName == Some("Key")
    requires valueMeta.containerType == Some(Constructed(KEY_VALUE_PAIR_DEF, [key, value])) && valueMeta.propertyName == Some("Value")
    requires GetProperty(refl, GenericTypeDefinition(KEY_VALUE_PAIR_DEF), "Key") ==
      Some(PropertyInfo(GenericTypeDefinition(KEY_VALUE_PAIR_DEF), Formal(KEY_VALUE_PAIR_DEF, 0)))
    requires GetProperty(refl, GenericTypeDefinition(KEY_VALUE_PAIR_DEF), "Value") ==
      Some(PropertyInfo(GenericTypeDefinition(KEY_VALUE_PAIR_DEF), Formal(KEY_VALUE_PAIR_DEF, 1)))
    ensures var dictionary := Tree(f, map[Formal(DICTIONARY_DEF, 0) := Leaf(FLAG_REQUIRED), Formal(DICTIONARY_DEF, 1) := Leaf(FLAG_OPTIONAL)]);
      var pair := GetCollectionElementNullability(dictionary, dictionaryMeta);
      && pair.Success? && pair.value.flag == FLAG_REQUIRED
      && GetPropertyNullability(pair.value, pairMeta, keyMeta, refl) == Success(Leaf(FLAG_REQUIRED))
      && GetPropertyNullability(pair.value, pairMeta, valueMeta, refl) == Success(Leaf(FLAG_OPTIONAL))
  {
    var dictionary := Tree(f, map[Formal(DICTIONARY_DEF, 0) := Leaf(FLAG_REQUIRED), Formal(DICTIONARY_DEF, 1) := Leaf(FLAG_OPTIONAL)]);
    assert Formal(DICTIONARY_DEF, 0) != Formal(DICTIONARY_DEF, 1);
    assert dictionary.typeArgs.Keys == {Formal(DICTIONARY_DEF, 0), Formal(DICTIONARY_DEF, 1)};
    assert |dictionary.typeArgs| == 2;
    assert Formal(KEY_VALUE_PAIR_DEF, 0) != Formal(KEY_VALUE_PAIR_DEF, 1);
  }

  /** A name, an index and a name: `a[0].b` is `a`, `[_]`, `b`. */
  lemma NameIndexName(a: string, b: string)
    requires IsNameIdent(a) && IsNameIdent(b)
    ensures ParseModelPath(a + "[0]." + b) == Success([a, PATH_INDEX, b])
  {
    var p0, p1, p2 := Piece(a, Lookahead), Piece("[0]", Dot), Piece(b, Lookahead);
    assert IsIndexIdent(p1.ident);
    WellFormedCons(p2, []);
    WellFormedCons(p1, [p2]);
    WellFormedCons(p0, [p1, p2]);
    RenderCons(p2, []);
    RenderCons(p1, [p2]);
    RenderCons(p0, [p1, p2]);
    assert [p2] + [] == [p2];
    assert [p1] + [p2] == [p1, p2];
    assert [p0] + [p1, p2] == [p0, p1, p2];
    assert Render([p0, p1, p2]) == a + "[0]." + b;
    ScanComplete([p0, p1, p2]);
    assert Tokens([p0, p1, p2]) == [a, PATH_INDEX, b];
  }

  const ADDRESS_LIST := Constructed(LIST_DEF, [ADDRESS])

  /** The order model: a body-bound `Order` parameter (0) whose `Addresses`
      property (1) is a `List<Address>?` annotated as an optional list of
      non-null addresses, whose element (2) is an `Address` from a class that
      is not-null by default, with a `string` property `Street` (3). */
  const ORDER_NODE := MetaNode(ParameterKind, Some(Body), ORDER, None, None, [1], Some("order"), None, None, None,
                               [], [], [NullableContextAttribute(FLAG_REQUIRED)], true)
  const ADDRESSES_NODE := MetaNode(PropertyKind, None, ADDRESS_LIST, Some(ADDRESS), Some(2), [], None, Some("Addresses"),
                                   Some(ORDER), Some(0), [], [NullableAttribute([FLAG_OPTIONAL, FLAG_REQUIRED])], [], true)
  const ADDRESS_NODE := MetaNode(TypeKind, None, ADDRESS, None, None, [3], None, None, None, None,
                                 [], [], [NullableContextAttribute(FLAG_REQUIRED)], true)
  const STREET_NODE := MetaNode(PropertyKind, None, STRING, None, None, [], None, Some("Street"), Some(ADDRESS), Some(2),
                                [], [], [], true)

  function OrderGraph(): Graph {
    map[0 := ORDER_NODE, 1 := ADDRESSES_NODE, 2 := ADDRESS_NODE, 3 := STREET_NODE]
  }

  const ORDER_ACTION := ActionMethod(0, "Create", map["order" := 0], [], [NullableContextAttribute(FLAG_REQUIRED)])
  const NO_REFLECTION := Reflection(map[], map[])

  lemma OrderGraphClosed()
    ensures Closed(OrderGraph())
  {
  }

  /** The walk of `Addresses`, `[_]`, `Street` from the order visits 0, 1, 2, 3. */
  lemma OrderWalk()
    ensures Closed(OrderGraph())
    ensures PathModelMetadata(OrderGraph(), 0, ["Addresses", PATH_INDEX, "Street"]) == Walk([0, 1, 2, 3], None)
  {
    var g := OrderGraph();
    OrderGraphClosed();
    assert "Addresses" != PATH_INDEX && "Street" != PATH_INDEX;
    assert Matching(g, [1], "Addresses") == [1];
    assert Matching(g, [3], "Street") == [3];
    var parts := ["Addresses", PATH_INDEX, "Street"];
    assert parts[1..] == [PATH_INDEX, "Street"] && parts[1..][1..] == ["Street"] && parts[1..][1..][1..] == [];
    assert WalkFrom(g, 3, []) == Walk([], None);
    assert WalkFrom(g, 2, ["Street"]) == Walk([3], None);
    assert WalkFrom(g, 1, [PATH_INDEX, "Street"]) == Walk([2, 3], None);
  }

  /** The order parameter is required: the class context flag applies. */
  lemma OrderTree()
    ensures ParameterTree(ORDER_ACTION, ORDER_NODE) == Success(Leaf(FLAG_REQUIRED))
  {
    assert TryGetNullableContextFlag(ORDER_ACTION.classAttributes) == Some(FLAG_REQUIRED);
  }

  const ADDRESSES_TREE := Tree(FLAG_OPTIONAL, map[Formal(LIST_DEF, 0) := Leaf(FLAG_REQUIRED)])

  /** The list is optional and its element required, as its own payload says. */
  lemma AddressesTree()
    ensures GetPropertyNullability(Leaf(FLAG_REQUIRED), ORDER_NODE, ADDRESSES_NODE, NO_REFLECTION) == Success(ADDRESSES_TREE)
  {
    assert TryGetNullableFlags(ADDRESSES_NODE.propertyAttributes) == Some([FLAG_OPTIONAL, FLAG_REQUIRED]);
    assert ZipCount(ADDRESS_LIST) == 1;
    var payload: seq<byte> := [FLAG_OPTIONAL, FLAG_REQUIRED];
    assert payload[1..] == [FLAG_REQUIRED] && [FLAG_REQUIRED][1..] == [];
    assert FlagOf(ADDRESS_LIST, Some(payload), None) == Success((FLAG_OPTIONAL, Some([FLAG_REQUIRED])));
    assert Decode(ADDRESS, Some([FLAG_REQUIRED]), None) == Success((Leaf(FLAG_REQUIRED), Some([])));
    DecodeArgsStep(ADDRESS_LIST, 1, Some([FLAG_REQUIRED]), None, map[], Some([FLAG_REQUIRED]), Leaf(FLAG_REQUIRED), Some([]));
  }

  /** The element of the list is required. */
  lemma AddressElementTree()
    ensures GetCollectionElementNullability(ADDRESSES_TREE, ADDRESSES_NODE) == Success(Leaf(FLAG_REQUIRED))
  {
    ListProjection(FLAG_OPTIONAL, ADDRESS, Leaf(FLAG_REQUIRED), ADDRESSES_NODE);
  }

  /** The street takes the not-null context of the address class. */
  lemma StreetTree()
    ensures GetPropertyNullability(Leaf(FLAG_REQUIRED), ADDRESS_NODE, STREET_NODE, NO_REFLECTION) == Success(Leaf(FLAG_REQUIRED))
  {
    assert TryGetNullableFlags(STREET_NODE.propertyAttributes) == None;
    assert TryGetNullableContextFlag(ADDRESS_NODE.typeAttributes) == Some(FLAG_REQUIRED);
  }

  /** The four steps of the chain in the order model. */
  lemma OrderSteps()
    ensures Closed(OrderGraph())
    ensures ResolveStep(OrderGraph(), NO_REFLECTION, ORDER_ACTION, None, None, 0) == Success(Leaf(FLAG_REQUIRED))
    ensures ResolveStep(OrderGraph(), NO_REFLECTION, ORDER_ACTION, Some(0), Some(Leaf(FLAG_REQUIRED)), 1) == Success(ADDRESSES_TREE)
    ensures ResolveStep(OrderGraph(), NO_REFLECTION, ORDER_ACTION, Some(1), Some(ADDRESSES_TREE), 2) == Success(Leaf(FLAG_REQUIRED))
    ensures ResolveStep(OrderGraph(), NO_REFLECTION, ORDER_ACTION, Some(2), Some(Leaf(FLAG_REQUIRED)), 3) == Success(Leaf(FLAG_REQUIRED))
  {
    OrderGraphClosed();
    OrderTree();
    AddressesTree();
    AddressElementTree();
    StreetTree();
  }

  /** A chain of four objects whose steps all succeed ends with the last
      step's tree, and its first two objects end with the second's. */
  lemma FoldOfFour(g: Graph, refl: Reflection, action: ActionMethod, t0: Tree, t1: Tree, t2: Tree, t3: Tree)
    requires Closed(g) && 0 in g && 1 in g && 2 in g && 3 in g
    requires ResolveStep(g, refl, action, None, None, 0) == Success(t0)
    requires ResolveStep(g, refl, action, Some(0), Some(t0), 1) == Success(t1)
    requires ResolveStep(g, refl, action, Some(1), Some(t1), 2) == Success(t2)
    requires ResolveStep(g, refl, action, Some(2), Some(t2), 3) == Success(t3)
    ensures InGraph(g, [0, 1, 2, 3]) && ResolveFrom(g, refl, action, None, None, [0, 1, 2, 3]) == Success(Some(t3))
    ensures InGraph(g, [0, 1]) && ResolveFrom(g, refl, action, None, None, [0, 1]) == Success(Some(t1))
  {
    var chain := [0, 1, 2, 3];
    ResolveFromAt(g, refl, action, None, None, chain, 0);
    ResolveFromAt(g, refl, action, Some(0), Some(t0), chain, 1);
    ResolveFromAt(g, refl, action, Some(1), Some(t1), chain, 2);
    ResolveFromAt(g, refl, action, Some(2), Some(t2), chain, 3);
    assert chain[0..] == chain && chain[4..] == [];
    var short := [0, 1];
    ResolveFromAt(g, refl, action, None, None, short, 0);
    ResolveFromAt(g, refl, action, Some(0), Some(t0), short, 1);
    assert short[0..] == short && short[2..] == [];
  }

  /** The fold along the chain ends with the street's flag; stopping after
      the list gives the list's. */
  lemma OrderResolution()
    ensures Closed(OrderGraph())
    ensures Resolution(OrderGraph(), NO_REFLECTION, ORDER_ACTION, Walk([0, 1, 2, 3], None)) == Success(FLAG_REQUIRED)
    ensures Resolution(OrderGraph(), NO_REFLECTION, ORDER_ACTION, Walk([0, 1], None)) == Success(FLAG_OPTIONAL)
  {
    OrderSteps();
    FoldOfFour(OrderGraph(), NO_REFLECTION, ORDER_ACTION, Leaf(FLAG_REQUIRED), ADDRESSES_TREE, Leaf(FLAG_REQUIRED), Leaf(FLAG_REQUIRED));
  }

  /** `Addresses[0].Street` is required although `Addresses` itself is optional. */
  lemma AddressStreetIsRequired()
    ensures Closed(OrderGraph())
    ensures ComputeFlag(OrderGraph(), NO_REFLECTION, ORDER_ACTION, 0, "Addresses[0].Street") == Success(FLAG_REQUIRED)
  {
    OrderGraphClosed();
    assert IsNameIdent("Addresses") && IsNameIdent("Street");
    NameIndexName("Addresses", "Street");
    assert "Addresses" + "[0]." + "Street" == "Addresses[0].Street";
    OrderWalk();
    OrderResolution();
  }

  /** On first validation of a missing street the field is reported and the flag is stored. */
  lemma MissingStreetReported()
    ensures Closed(OrderGraph())
    ensures ValidateSpec(OrderGraph(), NO_REFLECTION, map[],
                         PathAwareContext(Some(ORDER_ACTION), 0, "Addresses[0].Street", true, 0)) ==
      (Success([FieldRequired]), map[CacheKey(ORDER_ACTION, Some("order"), "Addresses[0].Street") := FLAG_REQUIRED])
  {
    AddressStreetIsRequired();
  }
}
