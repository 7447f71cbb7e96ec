/** The model metadata the validator walks, and the reflection facts it
    consults.  Metadata objects are nodes of a graph keyed by identity: a
    node refers to its element node, its property nodes and its container
    node by id, and two references are the same object exactly when their
    ids are equal. */
module Metadata {
  import opened Common
  import opened TypeModel

  type NodeId = nat

  /** What a metadata object describes. */
  datatype MetadataKind = ParameterKind | TypeKind | PropertyKind | ConstructorKind

  /** Where a parameter's value is bound from; only the request body matters here. */
  datatype BindingSource = Body | OtherSource(id: string)

  /** One metadata object.  `isDefault` says whether it is the framework's
      default metadata class, the only one the walker accepts. */
  datatype MetaNode = MetaNode(
    kind: MetadataKind,
    bindingSource: Option<BindingSource>,
    modelType: Ty,
    elementType: Option<Ty>,
    elementMetadata: Option<NodeId>,
    properties: seq<NodeId>,
    parameterName: Option<string>,
    propertyName: Option<string>,
    containerType: Option<Ty>,
    containerMetadata: Option<NodeId>,
    parameterAttributes: seq<Attribute>,
    propertyAttributes: seq<Attribute>,
    typeAttributes: seq<Attribute>,
    isDefault: bool)

  type Graph = map<NodeId, MetaNode>

  /** Every reference held by a node is to a node of the graph, as object
      references always are. */
  ghost predicate Closed(g: Graph) {
    forall id | id in g ::
      && (g[id].elementMetadata.Some? ==> g[id].elementMetadata.value in g)
      && (g[id].containerMetadata.Some? ==> g[id].containerMetadata.value in g)
      && (forall i :: 0 <= i < |g[id].properties| ==> g[id].properties[i] in g)
  }

  /** What reflection reports about a property: the type that declares it and its type. */
  datatype PropertyInfo = PropertyInfo(declaringType: Ty, propertyType: Ty)

  /** The reflection facts the engine asks for: public instance properties by
      (type, name), and the custom attributes of a type. */
  datatype Reflection = Reflection(properties: map<(Ty, string), PropertyInfo>, typeAttributes: map<Ty, seq<Attribute>>)

  /** `type.GetProperty(name)`, or `None` when there is no such property. */
  function GetProperty(refl: Reflection, t: Ty, name: string): (r: Option<PropertyInfo>)
    ensures r.Some? <==> (t, name) in refl.properties
    ensures r.Some? ==> r.value == refl.properties[(t, name)]
  {
    if (t, name) in refl.properties then Some(refl.properties[(t, name)]) else None
  }

  /** `type.GetCustomAttributes(false)`: none when reflection records none. */
  function GetCustomAttributes(refl: Reflection, t: Ty): (r: seq<Attribute>)
    ensures t in refl.typeAttributes ==> r == refl.typeAttributes[t]
    ensures t !in refl.typeAttributes ==> r == []
  {
    if t in refl.typeAttributes then refl.typeAttributes[t] else []
  }
}
