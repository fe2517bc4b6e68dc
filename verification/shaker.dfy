/** The schema reachability shaker: `ShakeOperationsSchemaTree`,
    `CheckSchemaExtractable`, `ProcessPropertiesIfNew` and `ProcessProperties`
    in OpenApiDocumentModifier.cs.

    The traversal is transcribed as coded, including its asymmetries: a node
    with a reference id contributes only its properties, an array is followed
    only when its items are a reference, composition members are inserted
    whether or not they are references, and `not` is followed only when it
    is a reference. An inline object reached as a root or as a property
    value is not searched; only an inline `allOf`/`oneOf`/`anyOf` member,
    which is inserted directly, has its properties searched. */
module SchemaShaker {
  import opened Wrappers
  import opened Collections
  import opened OpenApi

  // ---------------------------------------------------------------------------
  // Traversal roots
  // ---------------------------------------------------------------------------

  /** `s` is the schema of some media-type entry of `content`. */
  ghost predicate InContent(content: Content, s: Option<NodeId>)
  {
    exists m :: m in content && s == m.value.schema
  }

  /** `s` is one of the four root sources of operation `op`: a parameter's
      schema, a parameter's content schema, a request-body content schema
      (when the body and its content are non-null), or a response content
      schema (when that content is non-null). */
  ghost predicate IsRootOf(op: Operation, s: Option<NodeId>)
  {
    || (exists p :: p in op.parameters && (s == p.schema || InContent(p.content, s)))
    || (op.requestBody.Some? && op.requestBody.value.content.Some? && InContent(op.requestBody.value.content.value, s))
    || (exists e :: e in op.responses && e.value.content.Some? && InContent(e.value.content.value, s))
  }

  /** The schemas of a content dictionary, in order. */
  function ContentSchemas(content: Content): (r: seq<Option<NodeId>>)
    ensures forall s :: s in r <==> InContent(content, s)
    decreases |content|
  {
    if |content| == 0 then []
    else
      assert forall m :: m in content <==> m == content[0] || m in content[1..];
      [content[0].value.schema] + ContentSchemas(content[1..])
  }

  /** Each parameter's schema, followed by its content schemas. */
  function ParameterRoots(params: seq<Parameter>): (r: seq<Option<NodeId>>)
    ensures forall s :: s in r <==>
      exists p :: p in params && (s == p.schema || InContent(p.content, s))
    decreases |params|
  {
    if |params| == 0 then []
    else
      assert forall p :: p in params <==> p == params[0] || p in params[1..];
      [params[0].schema] + ContentSchemas(params[0].content) + ParameterRoots(params[1..])
  }

  /** The request-body content schemas; nothing when the body or its content is null. */
  function BodyRoots(body: Option<RequestBody>): (r: seq<Option<NodeId>>)
    ensures forall s :: s in r <==> body.Some? && body.value.content.Some? && InContent(body.value.content.value, s)
  {
    if body.Some? && body.value.content.Some? then ContentSchemas(body.value.content.value) else []
  }

  /** The content schemas of every response whose content is non-null. */
  function ResponseRoots(responses: seq<Entry<string, Response>>): (r: seq<Option<NodeId>>)
    ensures forall s :: s in r <==> exists e :: e in responses && e.value.content.Some? && InContent(e.value.content.value, s)
    decreases |responses|
  {
    if |responses| == 0 then []
    else
      assert forall e :: e in responses <==> e == responses[0] || e in responses[1..];
      var here := if responses[0].value.content.Some? then ContentSchemas(responses[0].value.content.value) else [];
      here + ResponseRoots(responses[1..])
  }

  /** The roots one operation contributes, in the order `ShakeOperationsSchemaTree`
      in OpenApiDocumentModifier.cs visits them. */
  function OperationRoots(op: Operation): (r: seq<Option<NodeId>>)
    ensures forall s :: s in r <==> IsRootOf(op, s)
  {
    ParameterRoots(op.parameters) + BodyRoots(op.requestBody) + ResponseRoots(op.responses)
  }

  /** The roots of every operation of one path item. */
  function PathItemRoots(ops: seq<Entry<OperationType, Operation>>): (r: seq<Option<NodeId>>)
    ensures forall s :: s in r <==> exists o :: o in ops && IsRootOf(o.value, s)
    decreases |ops|
  {
    if |ops| == 0 then []
    else
      assert forall o :: o in ops <==> o == ops[0] || o in ops[1..];
      OperationRoots(ops[0].value) + PathItemRoots(ops[1..])
  }

  /** Every traversal root of the document: the roots of its operations and nothing else. */
  function Roots(paths: seq<Entry<string, PathItem>>): (r: seq<Option<NodeId>>)
    ensures forall s :: s in r <==> exists e, o :: e in paths && o in e.value.operations && IsRootOf(o.value, s)
    decreases |paths|
  {
    if |paths| == 0 then []
    else
      assert forall e :: e in paths <==> e == paths[0] || e in paths[1..];
      PathItemRoots(paths[0].value.operations) + Roots(paths[1..])
  }

  // ---------------------------------------------------------------------------
  // The traversal
  // ---------------------------------------------------------------------------

  /** `Reference.Id` is non-null. */
  predicate HasReferenceId(s: Schema)
  {
    s.reference.Some? && s.reference.value.id.Some?
  }

  /** Node `n` exists and its `Reference` is non-null. */
  predicate IsReference(g: SchemaGraph, n: NodeId)
  {
    n in g && g[n].reference.Some?
  }

  /** The nodes `CheckSchemaExtractable` hands to `ProcessPropertiesIfNew`,
      in order. An id absent from the graph is treated like a null schema. */
  function Dispatch(g: SchemaGraph, s: Option<NodeId>): (targets: seq<NodeId>)
    ensures s.None? || s.value !in g ==> targets == []
    ensures s.Some? && s.value in g ==>
      var node := g[s.value];
      forall t :: t in targets <==>
        if HasReferenceId(node) then t == s.value
        else if node.items.Some? && IsReference(g, node.items.value) then t == node.items.value
        else t in node.allOf || t in node.oneOf || t in node.anyOf ||
             (node.not.Some? && IsReference(g, node.not.value) && t == node.not.value)
  {
    if s.None? || s.value !in g then []
    else
      var node := g[s.value];
      if HasReferenceId(node) then [s.value]
      else if node.items.Some? && IsReference(g, node.items.value) then [node.items.value]
      else
        var negated := if node.not.Some? && IsReference(g, node.not.value) then [node.not.value] else [];
        node.allOf + node.oneOf + node.anyOf + negated
  }

  /** The state the traversal threads: the visited set, and (as an
      observation) the nodes whose properties were processed, in order. */
  datatype Walk = Walk(visited: set<NodeId>, expanded: seq<NodeId>)

  /** Each node was expanded at most once, and exactly the visited nodes were. */
  ghost predicate Consistent(w: Walk)
  {
    && (forall i, j :: 0 <= i < j < |w.expanded| ==> w.expanded[i] != w.expanded[j])
    && (forall x :: x in w.expanded <==> x in w.visited)
  }

  /** The unvisited nodes can only shrink as the visited set grows. */
  lemma UnvisitedShrinks(g: SchemaGraph, v: set<NodeId>, v': set<NodeId>)
    requires v <= v'
    ensures |g.Keys - v'| <= |g.Keys - v|
  {
    var fewer, more := g.Keys - v', g.Keys - v;
    var gone := more - fewer;
    assert more == fewer + gone;
    assert fewer !! gone;
  }

  /** A fresh insert of a graph node leaves one node fewer unvisited: the
      measure that makes the traversal terminate on cyclic graphs. */
  lemma UnvisitedDrops(g: SchemaGraph, v: set<NodeId>, n: NodeId)
    requires n in g && n !in v
    ensures |g.Keys - (v + {n})| < |g.Keys - v|
  {
    var fewer := g.Keys - (v + {n});
    assert g.Keys - v == fewer + {n};
    assert n !in fewer;
  }

  /** Inserting a fresh node and recording its expansion keeps the walk consistent. */
  lemma ExpandFresh(w: Walk, n: NodeId)
    requires n !in w.visited
    ensures Consistent(w) ==> Consistent(Walk(w.visited + {n}, w.expanded + [n]))
  {
    if !Consistent(w) {
      return;
    }
    var e := w.expanded + [n];
    forall i, j | 0 <= i < j < |e| ensures e[i] != e[j] {
      if j == |w.expanded| {
        assert e[i] == w.expanded[i] && e[i] in w.visited;
      }
    }
  }

  /** `ProcessPropertiesIfNew`: inserts `n`, and only on a fresh insert
      processes its properties. */
  function VisitIfNew(g: SchemaGraph, n: NodeId, w: Walk): (r: Walk)
    ensures w.visited <= r.visited <= w.visited + g.Keys
    ensures Consistent(w) ==> Consistent(r)
    decreases |g.Keys - w.visited|, 0, 0
  {
    if n in w.visited || n !in g then w
    else
      var w' := Walk(w.visited + {n}, w.expanded + [n]);
      ExpandFresh(w, n);
      UnvisitedDrops(g, w.visited, n);
      ProcessProperties(g, g[n].properties, w')
  }

  /** `ProcessProperties`: `CheckSchemaExtractable` on each property schema, in order. */
  function ProcessProperties(g: SchemaGraph, props: seq<Property>, w: Walk): (r: Walk)
    ensures w.visited <= r.visited <= w.visited + g.Keys
    ensures Consistent(w) ==> Consistent(r)
    decreases |g.Keys - w.visited|, 3, |props|
  {
    if |props| == 0 then w
    else
      var w' := CheckSchema(g, Some(props[0].schema), w);
      UnvisitedShrinks(g, w.visited, w'.visited);
      ProcessProperties(g, props[1..], w')
  }

  /** `CheckSchemaExtractable`: dispatch, then visit each target in order. */
  function CheckSchema(g: SchemaGraph, s: Option<NodeId>, w: Walk): (r: Walk)
    ensures w.visited <= r.visited <= w.visited + g.Keys
    ensures Consistent(w) ==> Consistent(r)
    decreases |g.Keys - w.visited|, 2, 0
  {
    VisitAll(g, Dispatch(g, s), w)
  }

  /** `ProcessPropertiesIfNew` on each node of `ns`, in order. */
  function VisitAll(g: SchemaGraph, ns: seq<NodeId>, w: Walk): (r: Walk)
    ensures w.visited <= r.visited <= w.visited + g.Keys
    ensures Consistent(w) ==> Consistent(r)
    decreases |g.Keys - w.visited|, 1, |ns|
  {
    if |ns| == 0 then w
    else
      var w' := VisitIfNew(g, ns[0], w);
      UnvisitedShrinks(g, w.visited, w'.visited);
      VisitAll(g, ns[1..], w')
  }

  /** `CheckSchemaExtractable` on each root, in order. */
  function CheckAll(g: SchemaGraph, roots: seq<Option<NodeId>>, w: Walk): (r: Walk)
    ensures w.visited <= r.visited <= w.visited + g.Keys
    ensures Consistent(w) ==> Consistent(r)
    decreases |roots|
  {
    if |roots| == 0 then w
    else CheckAll(g, roots[1..], CheckSchema(g, roots[0], w))
  }

  /** The traversal of the first loop of `ShakeOperationsSchemaTree`, from an
      empty visited set over the roots of the current paths. */
  function Traverse(doc: Document): (w: Walk)
    ensures w.visited <= doc.graph.Keys
    ensures Consistent(w)
  {
    CheckAll(doc.graph, Roots(doc.paths), Walk({}, []))
  }

  /** `ShakeOperationsSchemaTree`: keeps exactly the component entries whose
      schema node was visited. Only the component table changes. */
  function Shake(doc: Document): (r: Document)
    ensures r.paths == doc.paths && r.tags == doc.tags && r.graph == doc.graph
    ensures forall e :: e in r.components <==> e in doc.components && e.value in Traverse(doc).visited
    ensures Subseq(r.components, doc.components)
  {
    var visited := Traverse(doc).visited;
    doc.(components := Filter(doc.components, (e: Entry<string, NodeId>) => e.value in visited))
  }

  // ---------------------------------------------------------------------------
  // What the traversal computes
  // ---------------------------------------------------------------------------

  /** The nodes `ProcessProperties` dispatches to for a property list, in order. */
  function PropertyTargets(g: SchemaGraph, props: seq<Property>): (ts: seq<NodeId>)
    decreases |props|
  {
    if |props| == 0 then [] else Dispatch(g, Some(props[0].schema)) + PropertyTargets(g, props[1..])
  }

  /** The successors of node `n` under the traversal rule: the dispatch
      targets of its property schemas. Nothing else of `n` is followed. */
  function Successors(g: SchemaGraph, n: NodeId): (ts: seq<NodeId>)
  {
    if n in g then PropertyTargets(g, g[n].properties) else []
  }

  /** Every graph node of `ns` is in `s`. */
  ghost predicate Covers(g: SchemaGraph, ns: seq<NodeId>, s: set<NodeId>)
  {
    forall t :: t in ns && t in g ==> t in s
  }

  /** Every graph node that some root dispatches to is in `s`. */
  ghost predicate RootsCovered(g: SchemaGraph, roots: seq<Option<NodeId>>, s: set<NodeId>)
  {
    forall r, t :: r in roots && t in Dispatch(g, r) && t in g ==> t in s
  }

  /** Every node of `s` outside `base` has all its successors in `s`. */
  ghost predicate ClosedBeyond(g: SchemaGraph, base: set<NodeId>, s: set<NodeId>)
  {
    forall x, t :: x in s && x !in base && t in Successors(g, x) && t in g ==> t in s
  }

  /** `s` is closed under the traversal rule. */
  ghost predicate Closed(g: SchemaGraph, s: set<NodeId>)
  {
    forall x, t :: x in s && t in Successors(g, x) && t in g ==> t in s
  }

  /** A fresh insert expands the node completely before returning, so every
      node the call inserts has its successors in the result. */
  lemma {:induction false} VisitIfNewComplete(g: SchemaGraph, n: NodeId, w: Walk)
    ensures n in g ==> n in VisitIfNew(g, n, w).visited
    ensures ClosedBeyond(g, w.visited, VisitIfNew(g, n, w).visited)
    decreases |g.Keys - w.visited|, 0, 0
  {
    if n !in w.visited && n in g {
      var w' := Walk(w.visited + {n}, w.expanded + [n]);
      UnvisitedDrops(g, w.visited, n);
      ProcessPropertiesComplete(g, g[n].properties, w');
    }
  }

  lemma {:induction false} ProcessPropertiesComplete(g: SchemaGraph, props: seq<Property>, w: Walk)
    ensures Covers(g, PropertyTargets(g, props), ProcessProperties(g, props, w).visited)
    ensures ClosedBeyond(g, w.visited, ProcessProperties(g, props, w).visited)
    decreases |g.Keys - w.visited|, 3, |props|
  {
    if |props| > 0 {
      var w' := CheckSchema(g, Some(props[0].schema), w);
      CheckSchemaComplete(g, Some(props[0].schema), w);
      UnvisitedShrinks(g, w.visited, w'.visited);
      ProcessPropertiesComplete(g, props[1..], w');
    }
  }

  lemma {:induction false} CheckSchemaComplete(g: SchemaGraph, s: Option<NodeId>, w: Walk)
    ensures Covers(g, Dispatch(g, s), CheckSchema(g, s, w).visited)
    ensures ClosedBeyond(g, w.visited, CheckSchema(g, s, w).visited)
    decreases |g.Keys - w.visited|, 2, 0
  {
    VisitAllComplete(g, Dispatch(g, s), w);
  }

  lemma {:induction false} VisitAllComplete(g: SchemaGraph, ns: seq<NodeId>, w: Walk)
    ensures Covers(g, ns, VisitAll(g, ns, w).visited)
    ensures ClosedBeyond(g, w.visited, VisitAll(g, ns, w).visited)
    decreases |g.Keys - w.visited|, 1, |ns|
  {
    if |ns| > 0 {
      var w' := VisitIfNew(g, ns[0], w);
      VisitIfNewComplete(g, ns[0], w);
      UnvisitedShrinks(g, w.visited, w'.visited);
      VisitAllComplete(g, ns[1..], w');
    }
  }

  lemma {:induction false} CheckAllComplete(g: SchemaGraph, roots: seq<Option<NodeId>>, w: Walk)
    ensures RootsCovered(g, roots, CheckAll(g, roots, w).visited)
    ensures ClosedBeyond(g, w.visited, CheckAll(g, roots, w).visited)
    decreases |roots|
  {
    if |roots| > 0 {
      CheckSchemaComplete(g, roots[0], w);
      CheckAllComplete(g, roots[1..], CheckSchema(g, roots[0], w));
    }
  }

  /** Started inside a closed set that holds `n`, the walk never leaves it. */
  lemma {:induction false} VisitIfNewWithin(g: SchemaGraph, n: NodeId, w: Walk, s: set<NodeId>)
    requires Closed(g, s) && w.visited <= s && (n in g ==> n in s)
    ensures VisitIfNew(g, n, w).visited <= s
    decreases |g.Keys - w.visited|, 0, 0
  {
    if n !in w.visited && n in g {
      var w' := Walk(w.visited + {n}, w.expanded + [n]);
      UnvisitedDrops(g, w.visited, n);
      ProcessPropertiesWithin(g, g[n].properties, w', s);
    }
  }

  lemma {:induction false} ProcessPropertiesWithin(g: SchemaGraph, props: seq<Property>, w: Walk, s: set<NodeId>)
    requires Closed(g, s) && w.visited <= s && Covers(g, PropertyTargets(g, props), s)
    ensures ProcessProperties(g, props, w).visited <= s
    decreases |g.Keys - w.visited|, 3, |props|
  {
    if |props| > 0 {
      var w' := CheckSchema(g, Some(props[0].schema), w);
      CheckSchemaWithin(g, Some(props[0].schema), w, s);
      UnvisitedShrinks(g, w.visited, w'.visited);
      ProcessPropertiesWithin(g, props[1..], w', s);
    }
  }

  lemma {:induction false} CheckSchemaWithin(g: SchemaGraph, r: Option<NodeId>, w: Walk, s: set<NodeId>)
    requires Closed(g, s) && w.visited <= s && Covers(g, Dispatch(g, r), s)
    ensures CheckSchema(g, r, w).visited <= s
    decreases |g.Keys - w.visited|, 2, 0
  {
    VisitAllWithin(g, Dispatch(g, r), w, s);
  }

  lemma {:induction false} VisitAllWithin(g: SchemaGraph, ns: seq<NodeId>, w: Walk, s: set<NodeId>)
    requires Closed(g, s) && w.visited <= s && Covers(g, ns, s)
    ensures VisitAll(g, ns, w).visited <= s
    decreases |g.Keys - w.visited|, 1, |ns|
  {
    if |ns| > 0 {
      var w' := VisitIfNew(g, ns[0], w);
      VisitIfNewWithin(g, ns[0], w, s);
      UnvisitedShrinks(g, w.visited, w'.visited);
      VisitAllWithin(g, ns[1..], w', s);
    }
  }

  lemma {:induction false} CheckAllWithin(g: SchemaGraph, roots: seq<Option<NodeId>>, w: Walk, s: set<NodeId>)
    requires Closed(g, s) && w.visited <= s && RootsCovered(g, roots, s)
    ensures CheckAll(g, roots, w).visited <= s
    decreases |roots|
  {
    if |roots| > 0 {
      CheckSchemaWithin(g, roots[0], w, s);
      CheckAllWithin(g, roots[1..], CheckSchema(g, roots[0], w), s);
    }
  }

  /** From an empty visited set, the traversal computes exactly the least
      set of graph nodes that holds every root's dispatch targets and is
      closed under the traversal rule. */
  lemma WalkIsLeastClosure(g: SchemaGraph, roots: seq<Option<NodeId>>)
    ensures var v := CheckAll(g, roots, Walk({}, [])).visited;
      && v <= g.Keys
      && RootsCovered(g, roots, v)
      && Closed(g, v)
      && forall s :: Closed(g, s) && RootsCovered(g, roots, s) ==> v <= s
  {
    var v := CheckAll(g, roots, Walk({}, [])).visited;
    CheckAllComplete(g, roots, Walk({}, []));
    forall s | Closed(g, s) && RootsCovered(g, roots, s) ensures v <= s {
      CheckAllWithin(g, roots, Walk({}, []), s);
    }
  }

  /** The visited set depends only on the set of roots, not on their order
      or repetition. */
  lemma WalkOrderIndependent(g: SchemaGraph, roots: seq<Option<NodeId>>, roots': seq<Option<NodeId>>)
    requires forall r :: r in roots <==> r in roots'
    ensures CheckAll(g, roots, Walk({}, [])).visited == CheckAll(g, roots', Walk({}, [])).visited
  {
    var v := CheckAll(g, roots, Walk({}, [])).visited;
    var v' := CheckAll(g, roots', Walk({}, [])).visited;
    CheckAllComplete(g, roots, Walk({}, []));
    CheckAllComplete(g, roots', Walk({}, []));
    CheckAllWithin(g, roots, Walk({}, []), v');
    CheckAllWithin(g, roots', Walk({}, []), v);
  }
}
