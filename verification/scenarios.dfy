/** Concrete documents and what the model computes for them: the behaviours
    the pipeline is meant to show, and one it shows although a reader might
    not expect it. */
module Scenarios {
  import opened Wrappers
  import opened Collections
  import opened OpenApi
  import opened SchemaShaker
  import opened DocumentModifier
  import opened PathFilterSpec
  import opened OperationSelector

  /** A schema with only a reference id and properties. */
  function Named(name: string, props: seq<Property>): Schema
  {
    Schema(Some(Reference(Some(name))), None, [], [], [], None, props)
  }

  /** An operation whose single `200` response has a JSON body of schema `s`. */
  function Returning(s: NodeId): Operation
  {
    Operation([], [], None, [Entry("200", Response(Some([Entry("application/json", MediaType(Some(s)))])))])
  }

  /** Paths `/a` (get, post) and `/b` (get). */
  function TwoPaths(): Document
  {
    var get, post := Returning(0), Returning(1);
    Document([Entry("/a", PathItem([Entry(Get, get), Entry(Post, post)])), Entry("/b", PathItem([Entry(Get, get)]))],
             [], [], map[])
  }

  /** `TwoPaths` reduced to `get /a`. */
  function OnlyGetA(): Document
  {
    Document([Entry("/a", PathItem([Entry(Get, Returning(0))]))], [], [], map[])
  }

  /** The selector alone turns `TwoPaths` into `OnlyGetA`. */
  lemma SelectorKeepsGetA()
    ensures FilterOperations(TwoPaths(), map["/a" := Some(["get"])]) == OnlyGetA()
  {
    var doc := TwoPaths();
    var a, b := doc.paths[0], doc.paths[1];
    var filter: PathFilter := map["/a" := Some(["get"])];
    assert RestrictOperations(a.value, Some(["get"])) == OnlyGetA().paths[0].value by {
      assert Filter(a.value.operations[1..], NamedIn(["get"])) == [];
    }
    assert SelectPaths(doc.paths[1..], filter) == [];
  }

  /** With the filter `/a=get`, only `get /a` survives; `/b` is gone. */
  lemma SelectsOnePathAndOperation()
    ensures Modify(TwoPaths(), map["/a" := Some(["get"])]) == Success(OnlyGetA())
  {
    var doc := TwoPaths();
    var a, b := doc.paths[0], doc.paths[1];
    assert Keys(doc.paths) == {"/a", "/b"} by {
      KeysCons(a, [b]);
      KeysCons(b, []);
      assert [a] + [b] == doc.paths;
    }
    SelectorKeepsGetA();
    assert Traverse(OnlyGetA()).visited == {};
  }

  /** A filter path missing from the document fails and names that path. */
  lemma UnknownPathFails()
    ensures var doc := Document([Entry("/a", PathItem([]))], [], [], map[]);
      Modify(doc, map["/a" := None, "/c" := None]) == Failure(PathsNotFound({"/c"}))
  {
    var a := Entry("/a", PathItem([]));
    var filter: PathFilter := map["/a" := None, "/c" := None];
    assert filter.Keys == {"/a", "/c"};
    KeysCons(a, []);
    assert [a] + [] == [a];
    assert Keys([a]) == {"/a"};
    assert filter.Keys - Keys([a]) == {"/c"};
  }

  /** `Node` (node 0) has a property `next` of schema `Node`; `Unused`
      (node 1) is a component no operation reaches; `get /a` returns a `Node`. */
  function SelfReferencing(): Document
  {
    Document([Entry("/a", PathItem([Entry(Get, Returning(0))]))], [],
             [Entry("Node", 0), Entry("Unused", 1)],
             map[0 := Named("Node", [Property("next", 0)]), 1 := Named("Unused", [])])
  }

  /** The traversal terminates on the cycle and expands `Node` exactly once. */
  lemma SelfReferenceExpandedOnce()
    ensures Traverse(SelfReferencing()) == Walk({0}, [0])
  {
    var doc := SelfReferencing();
    var g := doc.graph;
    var start, inserted := Walk({}, []), Walk({0}, [0]);
    assert Dispatch(g, Some(0)) == [0];
    assert VisitIfNew(g, 0, inserted) == inserted;
    assert VisitAll(g, [0], inserted) == inserted;
    assert CheckSchema(g, Some(0), inserted) == inserted;
    assert ProcessProperties(g, [Property("next", 0)], inserted) == inserted;
    assert Walk(start.visited + {0}, start.expanded + [0]) == inserted;
    assert VisitIfNew(g, 0, start) == inserted;
    assert VisitAll(g, [0], start) == inserted;
    assert Roots(doc.paths) == [Some(0)];
  }

  /** A filter that keeps the only path of a one-path document keeps it whole. */
  lemma KeepWholeSinglePath(doc: Document, path: string)
    requires |doc.paths| == 1 && doc.paths[0].key == path && doc.tags == []
    ensures Keys(doc.paths) == {path}
    ensures FilterOperations(doc, map[path := None]) == doc
  {
    KeysCons(doc.paths[0], []);
    assert [doc.paths[0]] + [] == doc.paths;
    assert SelectPaths(doc.paths[1..], map[path := None]) == [];
  }

  /** Shaking the self-referencing document keeps `Node` and drops `Unused`. */
  lemma SelfReferenceShake()
    ensures Shake(SelfReferencing()).components == [Entry("Node", 0)]
  {
    var doc := SelfReferencing();
    SelfReferenceExpandedOnce();
    var keep := (e: Entry<string, NodeId>) => e.value in {0};
    assert Filter(doc.components[1..], keep) == [];
  }

  /** `Node` is kept once and `Unused` is removed. */
  lemma SelfReferenceKeptUnusedRemoved()
    ensures Modify(SelfReferencing(), map["/a" := None]) ==
      Success(SelfReferencing().(components := [Entry("Node", 0)]))
  {
    KeepWholeSinglePath(SelfReferencing(), "/a");
    SelfReferenceShake();
  }

  /** `Pets` (node 0) is an array of `Pet` (node 1) references and is itself
      referenced by the response of `get /pets`. */
  function ArrayOfReferences(): Document
  {
    Document([Entry("/pets", PathItem([Entry(Get, Returning(0))]))], [],
             [Entry("Pets", 0), Entry("Pet", 1)],
             map[0 := Schema(Some(Reference(Some("Pets"))), Some(1), [], [], [], None, []),
                 1 := Named("Pet", [])])
  }

  /** A referenced node contributes only its properties, so `Pet` is removed
      although the kept `Pets` still refers to it. */
  lemma ArrayComponentDropsItsItems()
    ensures Modify(ArrayOfReferences(), map["/pets" := None]) ==
      Success(ArrayOfReferences().(components := [Entry("Pets", 0)]))
  {
    KeepWholeSinglePath(ArrayOfReferences(), "/pets");
    ArrayShake();
  }

  /** Shaking `ArrayOfReferences` keeps `Pets` and drops `Pet`. */
  lemma ArrayShake()
    ensures Shake(ArrayOfReferences()).components == [Entry("Pets", 0)]
  {
    var doc := ArrayOfReferences();
    ArrayTraversal();
    var keep := (e: Entry<string, NodeId>) => e.value in {0};
    assert Filter(doc.components[1..], keep) == [];
  }

  /** The walk over `ArrayOfReferences` inserts `Pets` and stops there. */
  lemma ArrayTraversal()
    ensures Traverse(ArrayOfReferences()) == Walk({0}, [0])
  {
    var doc := ArrayOfReferences();
    var g := doc.graph;
    var inserted := Walk({0}, [0]);
    assert Walk({} + {0}, [] + [0]) == inserted;
    assert VisitIfNew(g, 0, Walk({}, [])) == inserted;
    assert Dispatch(g, Some(0)) == [0];
    assert Roots(doc.paths) == [Some(0)];
  }

  /** `Pet` (node 1) referenced as the items of an inline array (node 0). */
  function InlineArray(): Document
  {
    Document([Entry("/pets", PathItem([Entry(Get, Returning(0))]))], [],
             [Entry("Pet", 1)],
             map[0 := Schema(None, Some(1), [], [], [], None, []), 1 := Named("Pet", [])])
  }

  /** An inline array whose items are a reference keeps the item component. */
  lemma InlineArrayKeepsItsItems()
    ensures Modify(InlineArray(), map["/pets" := None]) == Success(InlineArray())
  {
    KeepWholeSinglePath(InlineArray(), "/pets");
    InlineArrayShake();
  }

  /** Shaking `InlineArray` keeps its only component, `Pet`. */
  lemma InlineArrayShake()
    ensures Shake(InlineArray()).components == InlineArray().components
  {
    var doc := InlineArray();
    InlineArrayTraversal();
    var keep := (e: Entry<string, NodeId>) => e.value in {1};
    assert Filter(doc.components[1..], keep) == [];
  }

  /** The walk over `InlineArray` inserts only the items node `Pet`. */
  lemma InlineArrayTraversal()
    ensures Traverse(InlineArray()) == Walk({1}, [1])
  {
    var doc := InlineArray();
    var g := doc.graph;
    var inserted := Walk({1}, [1]);
    assert Walk({} + {1}, [] + [1]) == inserted;
    assert VisitIfNew(g, 1, Walk({}, [])) == inserted;
    assert Dispatch(g, Some(0)) == [1];
    assert Roots(doc.paths) == [Some(0)];
  }

  /** An inline root (node 0) whose `allOf` holds an inline object (node 1)
      with a property of component schema `Other` (node 2). */
  function InlineComposition(): Document
  {
    Document([Entry("/shapes", PathItem([Entry(Get, Returning(0))]))], [],
             [Entry("Other", 2)],
             map[0 := Schema(None, None, [1], [], [], None, []),
                 1 := Schema(None, None, [], [], [], None, [Property("x", 2)]),
                 2 := Named("Other", [])])
  }

  /** An inline composition member is inserted and its properties are
      searched, so `Other` is kept. */
  lemma InlineCompositionKeepsPropertyTarget()
    ensures Modify(InlineComposition(), map["/shapes" := None]) == Success(InlineComposition())
  {
    KeepWholeSinglePath(InlineComposition(), "/shapes");
    InlineCompositionShake();
  }

  /** Shaking `InlineComposition` keeps its only component, `Other`. */
  lemma InlineCompositionShake()
    ensures Shake(InlineComposition()).components == InlineComposition().components
  {
    var doc := InlineComposition();
    InlineCompositionTraversal();
    var keep := (e: Entry<string, NodeId>) => e.value in {1, 2};
    assert Filter(doc.components[1..], keep) == [];
  }

  /** The walk over `InlineComposition` inserts the member (node 1), then,
      through its property, `Other` (node 2); the inline root is not inserted. */
  lemma InlineCompositionTraversal()
    ensures Traverse(InlineComposition()) == Walk({1, 2}, [1, 2])
  {
    var doc := InlineComposition();
    InlineMemberExpanded();
    assert Dispatch(doc.graph, Some(0)) == [1];
    assert Roots(doc.paths) == [Some(0)];
  }

  /** Inserting the member (node 1) expands its property and inserts `Other`. */
  lemma InlineMemberExpanded()
    ensures VisitIfNew(InlineComposition().graph, 1, Walk({}, [])) == Walk({1, 2}, [1, 2])
  {
    var g := InlineComposition().graph;
    var one, both := Walk({1}, [1]), Walk({1, 2}, [1, 2]);
    assert Walk({} + {1}, [] + [1]) == one;
    assert Walk(one.visited + {2}, one.expanded + [2]) == both;
    assert VisitIfNew(g, 2, one) == both;
    assert Dispatch(g, Some(2)) == [2];
    assert ProcessProperties(g, [Property("x", 2)], one) == both;
  }

  /** `p=` selects the single empty operation name, which matches no operation. */
  lemma EmptyOperationList()
    ensures ParseSpec("p=") == Success(("p", Some([""])))
  {
    assert "p="[..1] == "p";
  }
}
