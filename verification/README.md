# extract-open-api pruning pipeline in Dafny

This project models the core of `extract-open-api`. The tool reduces an OpenAPI document to the paths and operations a caller selects. It also keeps only the component schemas those operations still use. The model covers three parts:

- **Path-filter parser** (`PathFilterSpec`). It turns the command-line strings `path[=op1,op2,...]` into a filter map from path to an optional list of operation names. It rejects a specification with more than one `=`, and it rejects a path that appears twice.
- **Operation selector** (`OperationSelector`, plus validation in `DocumentModifier.Modify`). Every filter path must exist in the document, and the error reports all missing paths at once. Paths outside the filter are dropped. Inside a kept path, an operation is dropped unless its display name is in that path's list; a null list keeps every operation. Document tags that no surviving operation lists are dropped.
- **Schema reachability shaker** (`SchemaShaker`). It collects the root schemas of the surviving operations: parameter schemas, parameter content schemas, request-body content schemas and response content schemas. From those roots it walks the possibly cyclic schema graph with a visited set, and then removes every component schema whose node was never visited.

Schemas are stored once in an arena, `map<NodeId, Schema>`, and refer to each other by id. Visited-set membership therefore uses node identity, as the `HashSet<OpenApiSchema>` of `ShakeOperationsSchemaTree` does. A `$ref` and the component it points to are the same node, just as they are after the library's reader resolves references. Every dictionary of the document becomes an insertion-ordered sequence of `Entry(key, value)`; the path filter is a Dafny `map` (`PathFilter`). Every nullable reference becomes an `Option`. Operations are pure functions, and errors are `Result` values.

The traversal is written exactly as coded, asymmetries included:

- A node with a reference id contributes only its properties. Its own `items` and compositions are not followed.
- `items` is followed only when it is a reference.
- Members of `allOf`, `oneOf` and `anyOf` are inserted directly, whether or not they are references.
- `not` is followed only when it is a reference.
- An inline object reached as a root or as a property value is not searched. Only an inline `allOf`/`oneOf`/`anyOf` member, which is inserted directly, has its properties searched (`Scenarios.InlineCompositionKeepsPropertyTarget`).

Termination follows from a lexicographic measure: (number of unvisited arena nodes, call rank, remaining list length). The first component drops only on a fresh insert (`SchemaShaker.UnvisitedDrops`).

The main results:

- The visited set is exactly the least set that holds the roots' dispatch targets and is closed under the traversal rule (`SchemaShaker.WalkIsLeastClosure`). It therefore does not depend on the order of the roots (`SchemaShaker.WalkOrderIndependent`).
- Every node is expanded at most once (`SchemaShaker.Traverse`, through `Consistent`).
- After a successful run the path key set equals the filter's key set (`DocumentModifier.Modify`).
- A component survives iff it is reachable from the operations that survived selection (`DocumentModifier.ModifyKeepsReachableComponents`).
- Running the pipeline a second time changes nothing (`DocumentModifier.ModifyIdempotent`).
- Splitting on a separator and joining on it are inverse operations (`PathFilterSpec.JoinSplit`, `PathFilterSpec.SplitJoin`).

Behaviour worth knowing:

- **A kept reference can dangle.** Component `Pets`, an array of `$ref Pet`, is kept, but `Pet` is removed, because a node with a reference id contributes only its properties. `Scenarios.ArrayComponentDropsItsItems` shows this on a concrete document.
- **Unknown operation names are ignored.** A listed name that matches no operation of its path selects nothing, and `Modify` fails only for unknown paths.
- **Composition members are inserted directly.** Members of `allOf`, `oneOf` and `anyOf` do not go through the full dispatch, and `not` is followed only when it is a reference.

## Model

| member | source | states |
|---|---|---|
| `Collections.Filter` | OpenApiDocumentModifier.cs:51-53 | Removal keeps an element iff the predicate holds of it. Every occurrence of a kept value survives, nothing is added, and the result is a subsequence of the input (original relative order). |
| `Collections.FilterIdempotent` | OpenApiDocumentModifier.cs:51-53 | Filtering a second time with the same predicate removes nothing more. |
| `OperationSelector.RestrictByTypes` | OpenApiDocumentModifier.cs:37 | Listing the display names of some operation types keeps exactly the operations of those types, because no two types share a display name. |
| `OperationSelector.RestrictOperations` | OpenApiDocumentModifier.cs:33-38 | A null filter entry leaves the path item unchanged. Otherwise the kept operations are exactly the original ones whose display name occurs in the list (exact string match), in their original order. |
| `OperationSelector.RestrictOperationsIdempotent` | OpenApiDocumentModifier.cs:33-38 | Restricting a path item again with the same entry changes nothing. |
| `OperationSelector.SelectPaths` | OpenApiDocumentModifier.cs:29-43 | The kept path keys are the document's keys that are filter keys, in document order. Looking up a kept path gives the original item restricted by its filter entry; looking up any other path gives nothing. |
| `OperationSelector.SelectPathsIdempotent` | OpenApiDocumentModifier.cs:29-43 | Selecting paths again with the same filter is a no-op. |
| `OperationSelector.OperationTags` | OpenApiDocumentModifier.cs:46-47 | A tag is collected iff some operation of the path item lists it. |
| `OperationSelector.UsedTags` | OpenApiDocumentModifier.cs:45-49 | A tag is collected iff some operation of some remaining path lists it. |
| `OperationSelector.FilterOperations` | OpenApiDocumentModifier.cs:27-54 | Components and schema graph are untouched. The path keys become the document keys that are in the filter, in document order. Each kept path holds its original item restricted by its filter entry. A document tag survives iff some surviving operation lists it, and survivors keep their relative order. |
| `OperationSelector.FilterOperationsIdempotent` | OpenApiDocumentModifier.cs:27-54 | A second selection with the same filter changes nothing. |
| `SchemaShaker.ContentSchemas` | OpenApiDocumentModifier.cs:69-70 | The collected schemas are exactly the schemas of the content's media-type entries. |
| `SchemaShaker.ParameterRoots` | OpenApiDocumentModifier.cs:66-71 | A root comes from the parameters iff it is some parameter's schema or some parameter content schema. |
| `SchemaShaker.BodyRoots` | OpenApiDocumentModifier.cs:73-75 | Request-body roots exist only when the body and its content are non-null, and then they are exactly its content schemas. |
| `SchemaShaker.ResponseRoots` | OpenApiDocumentModifier.cs:77-80 | A root comes from the responses iff it is a content schema of a response whose content is non-null. |
| `SchemaShaker.OperationRoots` | OpenApiDocumentModifier.cs:66-80 | An operation's roots are exactly the four sources (`IsRootOf`), and nothing else. |
| `SchemaShaker.PathItemRoots` | OpenApiDocumentModifier.cs:64-81 | The roots of a path item are exactly the roots of its operations. |
| `SchemaShaker.Roots` | OpenApiDocumentModifier.cs:62-82 | The traversal roots are exactly the roots of the operations present in the paths it is given. The shake runs after selection, so those are the surviving operations. |
| `SchemaShaker.Dispatch` | OpenApiDocumentModifier.cs:92-115 | A null schema yields no target. A schema with a reference id yields only itself. Otherwise, when `items` is a reference, only the items node is a target. Otherwise the targets are every `allOf`, `oneOf` and `anyOf` member, plus `not` only when it is a reference. |
| `SchemaShaker.VisitIfNew` | OpenApiDocumentModifier.cs:117-122 | The visited set only grows, and only by graph nodes. A walk in which every node was expanded at most once stays so: properties are processed only on a fresh insert. |
| `SchemaShaker.ProcessProperties` | OpenApiDocumentModifier.cs:124-128 | Visiting the property schemas in turn only grows the visited set and keeps each node expanded at most once. |
| `SchemaShaker.CheckSchema` | OpenApiDocumentModifier.cs:92-115 | Checking one schema only grows the visited set, by graph nodes, and keeps the walk consistent. |
| `SchemaShaker.VisitAll` | OpenApiDocumentModifier.cs:100-113 | Visiting composition members in turn only grows the visited set and keeps the walk consistent. |
| `SchemaShaker.CheckAll` | OpenApiDocumentModifier.cs:62-82 | Checking every root in turn only grows the visited set and keeps the walk consistent. |
| `SchemaShaker.UnvisitedDrops` | OpenApiDocumentModifier.cs:119-121 | A fresh insert leaves strictly fewer unvisited nodes. This is the termination measure on cyclic graphs. |
| `SchemaShaker.Traverse` | OpenApiDocumentModifier.cs:61-82 | From an empty set, the visited nodes are graph nodes. The expansion trace lists each visited node exactly once, with no repeats. |
| `SchemaShaker.Shake` | OpenApiDocumentModifier.cs:59-90 | Only the component table changes. An entry is kept iff its schema node was visited, and kept entries are unchanged and in order. |
| `SchemaShaker.VisitIfNewComplete` | OpenApiDocumentModifier.cs:117-122 | A graph node handed to the insert ends up visited. Every node the call inserts has all its successors visited. |
| `SchemaShaker.ProcessPropertiesComplete` | OpenApiDocumentModifier.cs:124-128 | Every property schema's dispatch targets end up visited, and newly inserted nodes are closed. |
| `SchemaShaker.CheckSchemaComplete` | OpenApiDocumentModifier.cs:92-115 | Every dispatch target ends up visited, and newly inserted nodes are closed. |
| `SchemaShaker.VisitAllComplete` | OpenApiDocumentModifier.cs:100-113 | Every listed graph node ends up visited, and newly inserted nodes are closed. |
| `SchemaShaker.CheckAllComplete` | OpenApiDocumentModifier.cs:62-82 | Every root's dispatch targets end up visited, and newly inserted nodes are closed. |
| `SchemaShaker.VisitIfNewWithin` | OpenApiDocumentModifier.cs:117-122 | Started inside a closed set that holds the node, the insert never leaves that set. |
| `SchemaShaker.ProcessPropertiesWithin` | OpenApiDocumentModifier.cs:124-128 | Started inside a closed set that holds the property targets, processing never leaves that set. |
| `SchemaShaker.CheckSchemaWithin` | OpenApiDocumentModifier.cs:92-115 | Started inside a closed set that holds the dispatch targets, checking never leaves that set. |
| `SchemaShaker.VisitAllWithin` | OpenApiDocumentModifier.cs:100-113 | Started inside a closed set that holds the listed nodes, visiting never leaves that set. |
| `SchemaShaker.CheckAllWithin` | OpenApiDocumentModifier.cs:62-82 | Started inside a closed set that covers the roots, the traversal never leaves that set. |
| `SchemaShaker.WalkIsLeastClosure` | OpenApiDocumentModifier.cs:61-128 | The visited set is the least set of graph nodes that holds every root's dispatch targets and is closed under the traversal rule. |
| `SchemaShaker.WalkOrderIndependent` | OpenApiDocumentModifier.cs:62-82 | The visited set depends only on the set of roots, not on their order or repetition. |
| `DocumentModifier.Modify` | OpenApiDocumentModifier.cs:14-22 | It fails iff some filter path is missing from the document, and the error names exactly all such paths. On success the path key set equals the filter key set and the schema graph is unchanged. |
| `DocumentModifier.ModifyKeepsSelectedOperations` | OpenApiDocumentModifier.cs:29-38 | Each filter path survives. With a null entry it keeps all its operations. Otherwise it keeps exactly the operations whose display name is listed; listed names that match nothing are ignored. |
| `DocumentModifier.ModifyKeepsUsedTags` | OpenApiDocumentModifier.cs:45-53 | A tag survives iff it was a document tag and some surviving operation lists it. Survivors keep their relative order, and no tag is added. |
| `DocumentModifier.ModifyKeepsReachableComponents` | OpenApiDocumentModifier.cs:59-89 | A component entry survives iff its node is reachable by the traversal rule from the roots of the surviving operations. Surviving entries are unchanged and in order. |
| `DocumentModifier.ModifyIdempotent` | OpenApiDocumentModifier.cs:14-22 | Running the pipeline again with the same filter on its output changes nothing. |
| `PathFilterSpec.SplitShape` | Program.cs:88 | `String.Split(char)`: one piece more than there are separators, and no piece contains the separator. |
| `PathFilterSpec.JoinSplit` | Program.cs:88 | Joining the pieces of a split with the separator gives back the original text (nothing trimmed or lost). |
| `PathFilterSpec.SplitJoin` | Program.cs:91 | Splitting the join of separator-free pieces gives back the pieces, empty ones included. |
| `PathFilterSpec.SplitAtFirst` | Program.cs:88-91 | The first piece is the text before the first separator, and the rest is the split of the text after it. |
| `PathFilterSpec.SplitWithout` | Program.cs:88 | Text that holds no separator splits into itself alone. |
| `PathFilterSpec.SplitMeaning` | Program.cs:88-91 | For a specification with at most one `=`, the first piece of the split is the text before the first `=`. There is a second piece iff the text holds an `=`, and it is the text after it. |
| `PathFilterSpec.ParseSpec` | Program.cs:88-91 | A specification is rejected iff it holds more than one `=`. Otherwise the path is the text before the `=`, or all of it when there is none. With an `=`, the operations are the text after it split on `,`, in order and keeping empty pieces. Without one, every operation is selected. |
| `PathFilterSpec.ParsePathFilters` | Program.cs:85-95 | Parsing succeeds iff every specification has at most one `=` and no path repeats. On success there is one entry per specification, keyed by its path text. On failure the error describes the first offending specification. |
| `PathFilterSpec.ParseStep` | Program.cs:88-94 | One pass of the loop succeeds iff the specifications so far stay well formed. It then adds exactly the new specification's entry, growing the table by one. Otherwise the specification is the first offending one and the error is the one it causes. |
| `PathFilterSpec.RejectAt` | Program.cs:89-93 | A specification with several `=`, or one repeating an earlier path, makes the list ill formed from that point on. |
| `Scenarios.SelectsOnePathAndOperation` | OpenApiDocumentModifier.cs:29-43 | With paths `/a` (get, post) and `/b` (get) and filter `/a=get`, only `get /a` is left. |
| `Scenarios.UnknownPathFails` | OpenApiDocumentModifier.cs:16-18 | A filter naming a missing `/c` fails, and the error names `/c`. |
| `Scenarios.SelfReferenceExpandedOnce` | OpenApiDocumentModifier.cs:117-128 | On a schema whose property refers to itself, the walk terminates and expands the node exactly once. |
| `Scenarios.SelfReferenceKeptUnusedRemoved` | OpenApiDocumentModifier.cs:84-89 | The self-referential component is kept once, and an unreferenced component is removed. |
| `Scenarios.ArrayComponentDropsItsItems` | OpenApiDocumentModifier.cs:94-97 | A referenced array component keeps only itself, so its item component is removed even though the array still refers to it. |
| `Scenarios.InlineArrayKeepsItsItems` | OpenApiDocumentModifier.cs:96-97 | An inline array whose items are a reference keeps the item component. |
| `Scenarios.InlineCompositionKeepsPropertyTarget` | OpenApiDocumentModifier.cs:100-128 | An inline `allOf` member is inserted and its properties are searched, so the component its property refers to is kept. |
| `Scenarios.EmptyOperationList` | Program.cs:88-91 | `p=` parses to path `p` with the single empty operation name. |

## Left out

- Program.cs outside lines 85-95. This is CLI option and command setup, HTTP download and file opening, `OpenApiStreamReader` parsing and its diagnostics, serialization and file writing, and logging. It is all I/O or library plumbing.
- Reference resolution by the document reader is not modelled. The arena assumes it has happened: a `$ref` and its component are one node.
- `OpenApiTag` equality is not modelled. Tags are abstract ids compared by equality.
- The path filter's insertion order is not kept: `PathFilter` is a `map`. Only the order of the keys in the unknown-path exception message depended on it.
- Exception message text is not modelled. The unknown-path error carries the set of missing keys, while `Modify` prints the key/value pairs in dictionary order.
- The "Can't remove" exceptions at OpenApiDocumentModifier.cs:38 and 42 are not modelled. Removal is compute-then-apply, so they cannot occur.
- .NET removal during dictionary enumeration (OpenApiDocumentModifier.cs:29-42) is not modelled. It is read as compute-then-apply.
- A null `doc.Components` is not modelled. The model assumes it is present.
- Null `AllOf`/`OneOf`/`AnyOf`/`Properties` collections and null parameter `Content` are not modelled. They are empty sequences, as the library initialises them.
- Property values are never null in the model.
- A schema id that is missing from the arena is read as a null schema. A .NET object graph cannot hold such a dangling object reference.
- Dictionary key uniqueness is not required by any definition or proof, so it is not modelled.
- `Walk.expanded` has no counterpart in the program. It is an observation added to state that each node is expanded at most once.
