/**
  The read-only view of the content repository and the media library that the
  usage index consumes: nodes, node types, property values and the external
  collaborators (hashing, JSON encoding, persistence identifiers, variant lookup).
 */
module Content {
  import opened Wrappers

  /** Content-dimension values in insertion order, e.g. [("language", ["en"])]. */
  type Dimensions = seq<(string, seq<string>)>

  /** An asset object of the media library; `handle` stands for object identity. */
  datatype Asset = Asset(handle: nat, isVariant: bool)

  /** One element of a property value: PHP null, a bare identifier string, or an asset object. */
  datatype AssetRef = NullRef | IdRef(id: string) | AssetObject(asset: Asset)

  /** A node property value: a single element, or a PHP array of elements. */
  datatype PropertyValue = Scalar(ref: AssetRef) | List(refs: seq<AssetRef>)

  /** PHP truthiness of a property value: null, "", "0" and the empty array are false. */
  predicate Truthy(v: PropertyValue)
  {
    match v
    case Scalar(NullRef) => false
    case Scalar(IdRef(s)) => s != "" && s != "0"
    case Scalar(AssetObject(_)) => true
    case List(refs) => |refs| > 0
  }

  /** The elements of a value: a list as it is, anything else as a one-element list. */
  function Elements(v: PropertyValue): seq<AssetRef>
  {
    match v
    case Scalar(r) => [r]
    case List(refs) => refs
  }

  /** One declared property of a node type and its declared type string. */
  datatype PropertyDecl = PropertyDecl(name: string, typeName: string)

  /** A node type: its name and its declared properties in declaration order. */
  datatype NodeType = NodeType(name: string, declared: seq<PropertyDecl>)

  /** The type the node-type schema reports for a property it does not declare. */
  const UndeclaredPropertyType := "string"

  /** `NodeType::getPropertyType`: the declared type, or the schema default. */
  function PropertyType(nt: NodeType, propertyName: string): string
  {
    DeclaredType(nt.declared, propertyName)
  }

  function DeclaredType(declared: seq<PropertyDecl>, propertyName: string): string
  {
    if |declared| == 0 then UndeclaredPropertyType
    else if declared[0].name == propertyName then declared[0].typeName
    else DeclaredType(declared[1..], propertyName)
  }

  /**
    A content node in one workspace and one dimension combination. `nodeType`
    is None when the node's type cannot be resolved (the repository throws).
   */
  datatype Node = Node(
    identifier: string,
    nodeType: Option<NodeType>,
    workspace: string,
    dimensions: Dimensions,
    removed: bool,
    properties: map<string, PropertyValue>)

  /**
    The external functions the core calls and cannot see: an MD5 hash, a JSON
    encoder for dimension values, the persistence manager's identifier lookup
    and the variant-to-original lookup (which may throw).
   */
  datatype Env = Env(
    md5: string -> string,
    jsonEncode: Dimensions -> string,
    identifierOf: AssetRef -> string,
    originalOf: Asset -> Result<Asset, string>)

  /** The message a node whose type cannot be resolved aborts a handler with. */
  const NodeTypeNotFound := "node type not found"
}
