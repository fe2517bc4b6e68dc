/** `OpenApiDocumentModifier.Modify`: validate the filter against the
    document, then select operations, then shake the schema tree. */
module DocumentModifier {
  import opened Wrappers
  import opened Collections
  import opened OpenApi
  import opened OperationSelector
  import opened SchemaShaker

  /** The failure `Modify` raises: every filter path the document lacks. */
  datatype ModifyError = PathsNotFound(paths: set<string>)

  /** Validates first and fails before anything is touched; on success the
      document has exactly the filter's paths over the same schema graph. */
  function Modify(doc: Document, filter: PathFilter): (r: Result<Document, ModifyError>)
    ensures r.Failure? <==> exists k :: k in filter && k !in Keys(doc.paths)
    ensures r.Failure? ==> forall k :: k in r.error.paths <==> k in filter && k !in Keys(doc.paths)
    ensures r.Success? ==> Keys(r.value.paths) == filter.Keys && r.value.graph == doc.graph
  {
    var notFound := filter.Keys - Keys(doc.paths);
    if notFound != {} then Failure(PathsNotFound(notFound))
    else
      assert forall k :: k in filter && k !in Keys(doc.paths) ==> k in notFound;
      Success(Shake(FilterOperations(doc, filter)))
  }

  /** Each kept path holds the operations its filter entry selects: all of
      them for a null entry, otherwise exactly those whose display name is
      listed (listed names that match nothing are ignored). */
  lemma ModifyKeepsSelectedOperations(doc: Document, filter: PathFilter, k: string)
    requires filter.Keys <= Keys(doc.paths) && k in filter
    ensures Lookup(doc.paths, k).Some? && Lookup(Modify(doc, filter).value.paths, k).Some?
    ensures var item, kept := Lookup(doc.paths, k).value, Lookup(Modify(doc, filter).value.paths, k).value;
      && (filter[k].None? ==> kept == item)
      && (filter[k].Some? ==>
            forall e :: e in kept.operations <==> e in item.operations && DisplayName(e.key) in filter[k].value)
      && Subseq(kept.operations, item.operations)
  {
  }

  /** A document tag survives iff it was a document tag and some surviving
      operation lists it; survivors keep their relative order. */
  lemma ModifyKeepsUsedTags(doc: Document, filter: PathFilter)
    requires filter.Keys <= Keys(doc.paths)
    ensures var r := Modify(doc, filter).value;
      && (forall t :: t in r.tags <==> t in doc.tags && TagListed(r.paths, t))
      && Subseq(r.tags, doc.tags)
  {
  }

  /** Node `n` is in every set that is closed under the traversal rule and
      holds the dispatch targets of `roots`. */
  ghost predicate Reachable(g: SchemaGraph, roots: seq<Option<NodeId>>, n: NodeId)
  {
    n in g && forall s :: Closed(g, s) && RootsCovered(g, roots, s) ==> n in s
  }

  /** A component entry survives iff its schema node is reachable, by the
      traversal rule, from the roots of the operations that survived the
      selection; surviving entries are unchanged and keep their order. */
  lemma ModifyKeepsReachableComponents(doc: Document, filter: PathFilter)
    requires filter.Keys <= Keys(doc.paths)
    ensures var r := Modify(doc, filter).value;
      && (forall e :: e in r.components <==>
            e in doc.components && Reachable(doc.graph, Roots(r.paths), e.value))
      && Subseq(r.components, doc.components)
  {
    var selected := FilterOperations(doc, filter);
    var r := Shake(selected);
    assert r == Modify(doc, filter).value;
    WalkIsLeastClosure(doc.graph, Roots(selected.paths));
  }

  /** Running the pipeline again with the same filter changes nothing. */
  lemma ModifyIdempotent(doc: Document, filter: PathFilter)
    requires filter.Keys <= Keys(doc.paths)
    ensures Modify(Modify(doc, filter).value, filter) == Modify(doc, filter)
  {
    var selected := FilterOperations(doc, filter);
    var once := Shake(selected);
    FilterOperationsIdempotent(doc, filter);
    assert FilterOperations(once, filter) == once;
    var visited := Traverse(selected).visited;
    assert Traverse(once) == Traverse(selected);
    FilterIdempotent(selected.components, (e: Entry<string, NodeId>) => e.value in visited);
  }
}
