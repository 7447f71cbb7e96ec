/** The two projections a path step applies to the current tree: from a
    collection's tree to its element's tree, and from a container's tree to
    one of its properties' trees.  Both are pure: they read the metadata and
    the reflection facts and build a new tree. */
module Projections {
  import opened Common
  import opened TypeModel
  import opened NullabilityTree
  import opened FlagDecoding
  import opened Metadata
  import PayloadRoundTrip

  /** The formals of the type's generic definition, or none for a type that is not generic. */
  function TypeDefArgs(t: Ty): (fs: seq<Ty>)
    ensures t.Constructed? ==> fs == Formals(t.def)
    ensures !t.Constructed? ==> fs == []
  {
    if t.Constructed? then Formals(t.def) else []
  }

  /** A key of a one-entry map is its only key. */
  lemma SingletonKeys(m: map<Ty, Tree>, k: Ty)
    requires |m| == 1 && k in m
    ensures m.Keys == {k}
  {
    var rest := m.Keys - {k};
    assert m.Keys == rest + {k};
    assert |rest| == 0;
  }

  /** The value of a one-entry map. */
  function SingleValue(m: map<Ty, Tree>): (v: Tree)
    requires |m| == 1
    ensures exists k :: k in m && m.Keys == {k} && v == m[k]
  {
    var k :| k in m;
    SingletonKeys(m, k);
    m[k]
  }

  /** The element tree of a collection's tree.  A dictionary (checked first)
      pairs its two sub-trees with the key/value pair's formals under a
      required flag; any other enumerable hands back its one sub-tree. */
  function GetCollectionElementNullability(collection: Tree, collectionMeta: MetaNode): (r: Result<Tree>)
    ensures r == Failure(UnsupportedCollection) <==> Collection(collectionMeta.modelType) == NotCollection
    ensures r.Success? && Collection(collectionMeta.modelType) == Dictionary ==>
      var t := collectionMeta.modelType;
      && t.Constructed? && t.def.arity == 2 && |collection.typeArgs| == 2
      && collectionMeta.elementType.Some? && collectionMeta.elementType.value.Constructed?
      && collectionMeta.elementType.value.def == KEY_VALUE_PAIR_DEF
      && Formal(t.def, 0) in collection.typeArgs && Formal(t.def, 1) in collection.typeArgs
      && r.value == Tree(FLAG_REQUIRED, map[Formal(KEY_VALUE_PAIR_DEF, 0) := collection.typeArgs[Formal(t.def, 0)],
                                            Formal(KEY_VALUE_PAIR_DEF, 1) := collection.typeArgs[Formal(t.def, 1)]])
    ensures Collection(collectionMeta.modelType) == Dictionary && r.Failure? ==>
      r.error == MissingKey || r.error == StructuralError
    ensures r.Success? && Collection(collectionMeta.modelType) == Enumerable ==>
      var t := collectionMeta.modelType;
      && (t.ArrayOf? || (t.Constructed? && t.def.arity == 1))
      && exists k :: k in collection.typeArgs && collection.typeArgs.Keys == {k} && r.value == collection.typeArgs[k]
    ensures Collection(collectionMeta.modelType) == Enumerable ==>
      (r.Success? <==> (|collection.typeArgs| == 1 &&
        (collectionMeta.modelType.ArrayOf? || |TypeDefArgs(collectionMeta.modelType)| == 1)))
  {
    var t := collectionMeta.modelType;
    var typeDefArgs := TypeDefArgs(t);
    match Collection(t)
    case Dictionary =>
      if |collection.typeArgs| != 2 || |typeDefArgs| != 2 then Failure(StructuralError)
      else if collectionMeta.elementType.None? then Failure(StructuralError)
      else if !(collectionMeta.elementType.value.Constructed? && collectionMeta.elementType.value.def == KEY_VALUE_PAIR_DEF) then
        Failure(StructuralError)
      else
        var kvpArgs := Formals(KEY_VALUE_PAIR_DEF);
        if typeDefArgs[0] !in collection.typeArgs || typeDefArgs[1] !in collection.typeArgs then Failure(MissingKey)
        else Success(Tree(FLAG_REQUIRED, map[kvpArgs[0] := collection.typeArgs[typeDefArgs[0]],
                                             kvpArgs[1] := collection.typeArgs[typeDefArgs[1]]]))
    case Enumerable =>
      if |collection.typeArgs| != 1 || (!t.ArrayOf? && |typeDefArgs| != 1) then Failure(StructuralError)
      else Success(SingleValue(collection.typeArgs))
    case NotCollection =>
      Failure(UnsupportedCollection)
  }

  /** The type that declares the property, as reflection reports it, else the container type. */
  function DeclaringType(refl: Reflection, containerType: Ty, name: string): Ty {
    match GetProperty(refl, containerType, name)
    case Some(info) => info.declaringType
    case None => containerType
  }

  /** The attributes of the class that declares the property: those recorded on
      the container's metadata when it is the container itself, else those
      reflection reports for the declaring type. */
  function DeclaringClassAttributes(refl: Reflection, containerType: Ty, name: string, containerMeta: MetaNode): (attrs: seq<Attribute>)
    ensures (containerType, name) !in refl.properties ==> attrs == containerMeta.typeAttributes
    ensures (containerType, name) in refl.properties && refl.properties[(containerType, name)].declaringType == containerType ==>
      attrs == containerMeta.typeAttributes
    ensures (containerType, name) in refl.properties && refl.properties[(containerType, name)].declaringType != containerType ==>
      attrs == GetCustomAttributes(refl, refl.properties[(containerType, name)].declaringType)
  {
    var declaringType := DeclaringType(refl, containerType, name);
    if declaringType == containerType then containerMeta.typeAttributes else GetCustomAttributes(refl, declaringType)
  }

  /** The flag of each formal of the container's definition, read from the
      container's tree; fails if the tree lacks any of them. */
  function ClassArgsFlags(formals: seq<Ty>, typeArgs: map<Ty, Tree>): (r: Result<map<Ty, byte>>)
    ensures r.Success? <==> forall i :: 0 <= i < |formals| ==> formals[i] in typeArgs
    ensures r.Failure? ==> r.error == MissingKey
    ensures r.Success? ==> forall k :: k in r.value <==> k in formals
    ensures r.Success? ==> forall k :: k in r.value ==> r.value[k] == typeArgs[k].flag
  {
    if forall i :: 0 <= i < |formals| ==> formals[i] in typeArgs then
      Success(map k | k in formals :: typeArgs[k].flag)
    else
      Failure(MissingKey)
  }

  /** The tree of a property, from its container's tree.  In a generic
      container, a property whose declared type is one of the definition's
      own parameters takes the container's entry for it; a property of a
      generic type gets its own tree with the container's argument flags
      substituted; every other property gets its own tree. */
  function GetPropertyNullability(container: Tree, containerMeta: MetaNode, propertyMeta: MetaNode, refl: Reflection): (r: Result<Tree>)
    ensures r.Failure? ==> r.error in {StructuralError, MissingKey, InvariantViolation, EmptyStack}
  {
    if propertyMeta.containerType.None? || propertyMeta.propertyName.None? then Failure(StructuralError)
    else
      var containerType := propertyMeta.containerType.value;
      var name := propertyMeta.propertyName.value;
      var classAttrs := DeclaringClassAttributes(refl, containerType, name, containerMeta);
      var own := Unpack(propertyMeta.modelType, PropertySource(propertyMeta.propertyAttributes, classAttrs));
      if !containerType.Constructed? then own
      else match GetProperty(refl, GenericTypeDefinition(containerType.def), name)
        case None => Failure(StructuralError)
        case Some(typeDefProp) =>
          if typeDefProp.propertyType.GenericParameter? then
            if typeDefProp.propertyType in container.typeArgs then Success(container.typeArgs[typeDefProp.propertyType])
            else Failure(MissingKey)
          else if propertyMeta.modelType.Constructed? then
            var classArgs :- ClassArgsFlags(Formals(containerType.def), container.typeArgs);
            var tree :- own;
            Apply(tree, classArgs)
          else own
  }

  /** The property gets the tree of its own declaration: its container is not
      generic, or it is, and the definition declares the property with a type
      that is neither one of its parameters nor the property's type generic. */
  predicate TakesOwnTree(propertyMeta: MetaNode, refl: Reflection) {
    && propertyMeta.containerType.Some? && propertyMeta.propertyName.Some?
    && (propertyMeta.containerType.value.Constructed? ==>
          && GetProperty(refl, GenericTypeDefinition(propertyMeta.containerType.value.def), propertyMeta.propertyName.value).Some?
          && !GetProperty(refl, GenericTypeDefinition(propertyMeta.containerType.value.def), propertyMeta.propertyName.value).value.propertyType.GenericParameter?
          && !propertyMeta.modelType.Constructed?)
  }

  /** Outside the two generic branches a property gets the tree of its own
      declaration, whatever the container's tree says; for instance a `string`
      property of a generic page type. */
  lemma OwnTreeUnlessSubstituted(container: Tree, other: Tree, containerMeta: MetaNode, propertyMeta: MetaNode, refl: Reflection)
    requires TakesOwnTree(propertyMeta, refl)
    ensures GetPropertyNullability(container, containerMeta, propertyMeta, refl) ==
      Unpack(propertyMeta.modelType, PropertySource(propertyMeta.propertyAttributes,
        DeclaringClassAttributes(refl, propertyMeta.containerType.value, propertyMeta.propertyName.value, containerMeta)))
    ensures GetPropertyNullability(container, containerMeta, propertyMeta, refl) ==
      GetPropertyNullability(other, containerMeta, propertyMeta, refl)
  {
  }

  /** The structural failures are exactly a property without a container
      type or a name, and a generic container whose definition lacks the
      property. */
  lemma PropertyStructuralErrorIff(container: Tree, containerMeta: MetaNode, propertyMeta: MetaNode, refl: Reflection)
    ensures GetPropertyNullability(container, containerMeta, propertyMeta, refl) == Failure(StructuralError) <==>
      || propertyMeta.containerType.None? || propertyMeta.propertyName.None?
      || (propertyMeta.containerType.value.Constructed? &&
          GetProperty(refl, GenericTypeDefinition(propertyMeta.containerType.value.def), propertyMeta.propertyName.value).None?)
  {
  }

  /** The definition's property is declared as one of the definition's own
      parameters: the container's entry for that parameter is the answer,
      and the property's own annotations play no part. */
  predicate IsFormalTypedProperty(propertyMeta: MetaNode, refl: Reflection) {
    && propertyMeta.containerType.Some? && propertyMeta.propertyName.Some?
    && propertyMeta.containerType.value.Constructed?
    && GetProperty(refl, GenericTypeDefinition(propertyMeta.containerType.value.def), propertyMeta.propertyName.value).Some?
    && GetProperty(refl, GenericTypeDefinition(propertyMeta.containerType.value.def), propertyMeta.propertyName.value).value.propertyType.GenericParameter?
  }

  lemma FormalTypedPropertyTakesContainerEntry(container: Tree, containerMeta: MetaNode, propertyMeta: MetaNode,
                                               refl: Reflection, otherAttributes: seq<Attribute>)
    requires IsFormalTypedProperty(propertyMeta, refl)
    ensures var p := GetProperty(refl, GenericTypeDefinition(propertyMeta.containerType.value.def), propertyMeta.propertyName.value).value.propertyType;
      GetPropertyNullability(container, containerMeta, propertyMeta, refl) ==
        (if p in container.typeArgs then Success(container.typeArgs[p]) else Failure(MissingKey))
    ensures GetPropertyNullability(container, containerMeta, propertyMeta, refl) ==
      GetPropertyNullability(container, containerMeta.(typeAttributes := otherAttributes),
                             propertyMeta.(propertyAttributes := otherAttributes), refl)
  {
  }

  /** A generic-typed property of a generic container: the result is the
      property's own tree with every entry keyed by one of the container's
      formals collapsed to a leaf carrying the container's flag for it. */
  lemma {:induction false} SubstitutionUsesContainerFlags(container: Tree, containerMeta: MetaNode, propertyMeta: MetaNode, refl: Reflection)
    requires propertyMeta.containerType.Some? && propertyMeta.propertyName.Some?
    requires propertyMeta.containerType.value.Constructed? && propertyMeta.modelType.Constructed?
    requires !IsFormalTypedProperty(propertyMeta, refl)
    requires GetPropertyNullability(container, containerMeta, propertyMeta, refl).Success?
    ensures var def := propertyMeta.containerType.value.def;
      var own := Unpack(propertyMeta.modelType, PropertySource(propertyMeta.propertyAttributes,
        DeclaringClassAttributes(refl, propertyMeta.containerType.value, propertyMeta.propertyName.value, containerMeta)));
      var r := GetPropertyNullability(container, containerMeta, propertyMeta, refl).value;
      && own.Success?
      && r.flag == own.value.flag
      && r.typeArgs.Keys == own.value.typeArgs.Keys
      && forall i :: 0 <= i < def.arity && Formal(def, i) in own.value.typeArgs ==>
           Formal(def, i) in container.typeArgs && r.typeArgs[Formal(def, i)] == Leaf(container.typeArgs[Formal(def, i)].flag)
  {
    var def := propertyMeta.containerType.value.def;
    var own := Unpack(propertyMeta.modelType, PropertySource(propertyMeta.propertyAttributes,
      DeclaringClassAttributes(refl, propertyMeta.containerType.value, propertyMeta.propertyName.value, containerMeta)));
    var classArgs := ClassArgsFlags(Formals(def), container.typeArgs);
    assert classArgs.Success? && own.Success?;
    assert GetPropertyNullability(container, containerMeta, propertyMeta, refl) == Apply(own.value, classArgs.value);
    forall i | 0 <= i < def.arity && Formal(def, i) in own.value.typeArgs
      ensures Formal(def, i) in container.typeArgs
      ensures Apply(own.value, classArgs.value).value.typeArgs[Formal(def, i)] == Leaf(container.typeArgs[Formal(def, i)].flag)
    {
      assert Formals(def)[i] == Formal(def, i);
      ApplyAtEntry(own.value, classArgs.value, Formal(def, i));
    }
  }

  /** How the substitution branch fails, in the order the source evaluates:
      a formal missing from the container's tree is a missing key; otherwise a
      payload that runs out fails the property's own tree; otherwise the
      substitution fails exactly when it collides. */
  lemma SubstitutionFailures(container: Tree, containerMeta: MetaNode, propertyMeta: MetaNode, refl: Reflection)
    requires propertyMeta.containerType.Some? && propertyMeta.propertyName.Some?
    requires propertyMeta.containerType.value.Constructed? && propertyMeta.modelType.Constructed?
    requires GetProperty(refl, GenericTypeDefinition(propertyMeta.containerType.value.def), propertyMeta.propertyName.value).Some?
    requires !IsFormalTypedProperty(propertyMeta, refl)
    ensures var def := propertyMeta.containerType.value.def;
      var own := Unpack(propertyMeta.modelType, PropertySource(propertyMeta.propertyAttributes,
        DeclaringClassAttributes(refl, propertyMeta.containerType.value, propertyMeta.propertyName.value, containerMeta)));
      var r := GetPropertyNullability(container, containerMeta, propertyMeta, refl);
      && ((exists i :: 0 <= i < def.arity && Formal(def, i) !in container.typeArgs) ==> r == Failure(MissingKey))
      && ((forall i :: 0 <= i < def.arity ==> Formal(def, i) in container.typeArgs) ==>
            && (own.Failure? ==> r == Failure(EmptyStack))
            && (own.Success? ==>
                  (r.Failure? <==> Collides(own.value, ClassArgsFlags(Formals(def), container.typeArgs).value))))
  {
    var def := propertyMeta.containerType.value.def;
    var own := Unpack(propertyMeta.modelType, PropertySource(propertyMeta.propertyAttributes,
      DeclaringClassAttributes(refl, propertyMeta.containerType.value, propertyMeta.propertyName.value, containerMeta)));
    var fs := Formals(def);
    assert forall i :: 0 <= i < |fs| ==> fs[i] == Formal(def, i);
    var classArgs := ClassArgsFlags(fs, container.typeArgs);
    if classArgs.Success? && own.Success? {
      ApplyFailsIffCollides(own.value, classArgs.value);
    }
  }

  /** Whatever tree a well-formed collection type decodes to, the element
      projection finds its element: the one sub-tree of a list or array, the
      re-keyed pair of a two-parameter dictionary. */
  lemma ElementOfDecodedCollection(collectionMeta: MetaNode, stack: Option<seq<byte>>, contextFlag: Option<byte>)
    requires WellFormed(collectionMeta.modelType)
    requires Decode(collectionMeta.modelType, stack, contextFlag).Success?
    ensures var t := collectionMeta.modelType;
      var tree := Decode(t, stack, contextFlag).value.0;
      var r := GetCollectionElementNullability(tree, collectionMeta);
      && (t.ArrayOf? ==> t.element in tree.typeArgs && r == Success(tree.typeArgs[t.element]))
      && (t.Constructed? && t.def.collection == Enumerable && t.def.arity == 1 ==>
            Formal(t.def, 0) in tree.typeArgs && r == Success(tree.typeArgs[Formal(t.def, 0)]))
      && (t.Constructed? && t.def.collection == Enumerable && t.def.arity != 1 ==> r == Failure(StructuralError))
      && (t.Constructed? && t.def.collection == Dictionary && t.def.arity == 2 &&
          collectionMeta.elementType.Some? && collectionMeta.elementType.value.Constructed? &&
          collectionMeta.elementType.value.def == KEY_VALUE_PAIR_DEF ==>
            Formal(t.def, 0) in tree.typeArgs && Formal(t.def, 1) in tree.typeArgs &&
            r == Success(Tree(FLAG_REQUIRED, map[Formal(KEY_VALUE_PAIR_DEF, 0) := tree.typeArgs[Formal(t.def, 0)],
                                                 Formal(KEY_VALUE_PAIR_DEF, 1) := tree.typeArgs[Formal(t.def, 1)]])))
  {
    var t := collectionMeta.modelType;
    var tree := Decode(t, stack, contextFlag).value.0;
    PayloadRoundTrip.DecodedKeys(t, stack, contextFlag);
    if t.Constructed? && t.def.arity == 1 {
      assert tree.typeArgs.Keys == {Formal(t.def, 0)};
    }
    if t.Constructed? && t.def.arity == 2 {
      var ks := set i | 0 <= i < t.def.arity :: Formal(t.def, i);
      assert ks == {Formal(t.def, 0), Formal(t.def, 1)};
      assert Formal(t.def, 0) != Formal(t.def, 1);
      assert |tree.typeArgs| == 2;
    }
  }
}
