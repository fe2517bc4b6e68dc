/** The in-memory OpenAPI document the pruning pipeline works on, reduced to
    the parts it reads or removes from. Every .NET dictionary is an
    insertion-ordered entry sequence; every nullable reference is an Option.

    Schemas form a possibly cyclic graph. The model stores every schema object
    once in an arena keyed by node id, and schemas refer to each other by id,
    so node identity (not structural equality) decides membership in the
    visited set. The document reader is assumed to have resolved references:
    a `$ref` to a component and the component entry itself are one node. */
module OpenApi {
  import opened Wrappers
  import opened Collections

  /** Identity of one schema object. */
  type NodeId = nat

  /** Identity of one tag object; tag equality is left abstract. */
  type TagId = nat

  /** `OpenApiReference`: only whether it is present and whether it has an id matter. */
  datatype Reference = Reference(id: Option<string>)

  /** A named property of an object schema. */
  datatype Property = Property(name: string, schema: NodeId)

  /** `OpenApiSchema`, restricted to the fields the traversal reads. */
  datatype Schema = Schema(
    reference: Option<Reference>,
    items: Option<NodeId>,
    allOf: seq<NodeId>,
    oneOf: seq<NodeId>,
    anyOf: seq<NodeId>,
    not: Option<NodeId>,
    properties: seq<Property>)

  /** The schema arena: every schema object of the document, by identity. */
  type SchemaGraph = map<NodeId, Schema>

  /** A media-type entry of some `Content` dictionary. */
  datatype MediaType = MediaType(schema: Option<NodeId>)

  type Content = seq<Entry<string, MediaType>>

  datatype Parameter = Parameter(name: string, schema: Option<NodeId>, content: Content)

  /** A request body or a response: its `Content` may be null. */
  datatype RequestBody = RequestBody(content: Option<Content>)

  datatype Response = Response(content: Option<Content>)

  datatype Operation = Operation(
    tags: seq<TagId>,
    parameters: seq<Parameter>,
    requestBody: Option<RequestBody>,
    responses: seq<Entry<string, Response>>)

  /** The HTTP methods an OpenAPI path item can hold an operation for. */
  datatype OperationType = Get | Put | Post | Delete | Options | Head | Patch | Trace

  /** The display name the library attaches to each operation type. */
  function DisplayName(t: OperationType): (name: string)
  {
    match t
    case Get => "get"
    case Put => "put"
    case Post => "post"
    case Delete => "delete"
    case Options => "options"
    case Head => "head"
    case Patch => "patch"
    case Trace => "trace"
  }

  /** Distinct operation types have distinct display names, so selecting
      operations by display name is selecting them by type. */
  lemma DisplayNameInjective(s: OperationType, t: OperationType)
    ensures DisplayName(s) == DisplayName(t) <==> s == t
  {
  }

  datatype PathItem = PathItem(operations: seq<Entry<OperationType, Operation>>)

  /** `OpenApiDocument`: paths, document-level tags, the component schema
      table (name to schema node) and the arena of all schema nodes. */
  datatype Document = Document(
    paths: seq<Entry<string, PathItem>>,
    tags: seq<TagId>,
    components: seq<Entry<string, NodeId>>,
    graph: SchemaGraph)

  /** The filter: path to the display names of the operations to keep, or
      `None` to keep every operation of that path. */
  type PathFilter = map<string, Option<seq<string>>>
}
