/** The operation selector: keeps the filtered paths, inside each kept path
    the filtered operations, and the document tags still in use. Models
    `FilterOperations` in OpenApiDocumentModifier.cs. */
module OperationSelector {
  import opened Wrappers
  import opened Collections
  import opened OpenApi

  /** The selection test for one operation entry: its display name is one of
      `names`, by exact string comparison. */
  function NamedIn(names: seq<string>): Entry<OperationType, Operation> -> bool
  {
    (e: Entry<OperationType, Operation>) => DisplayName(e.key) in names
  }

  /** Keeps the operations of one path item that its filter entry names;
      a null entry keeps every operation. Names that match no operation
      are ignored. */
  function RestrictOperations(item: PathItem, names: Option<seq<string>>): (r: PathItem)
    ensures names.None? ==> r == item
    ensures names.Some? ==>
      forall e :: e in r.operations <==> e in item.operations && DisplayName(e.key) in names.value
    ensures Subseq(r.operations, item.operations)
  {
    match names
    case None =>
      SubseqRefl(item.operations);
      item
    case Some(ns) => PathItem(Filter(item.operations, NamedIn(ns)))
  }

  /** Restricting a path item twice with the same entry changes nothing more. */
  lemma RestrictOperationsIdempotent(item: PathItem, names: Option<seq<string>>)
    ensures RestrictOperations(RestrictOperations(item, names), names) == RestrictOperations(item, names)
  {
    if names.Some? {
      FilterIdempotent(item.operations, NamedIn(names.value));
    }
  }

  /** The display names of a list of operation types, in order. */
  function DisplayNames(types: seq<OperationType>): (names: seq<string>)
    ensures |names| == |types|
    ensures forall i :: 0 <= i < |types| ==> names[i] == DisplayName(types[i])
  {
    seq(|types|, i requires 0 <= i < |types| => DisplayName(types[i]))
  }

  /** Selecting by the display names of some operation types keeps exactly
      the operations of those types: no other type shares a display name. */
  lemma RestrictByTypes(item: PathItem, types: seq<OperationType>)
    ensures forall e :: e in RestrictOperations(item, Some(DisplayNames(types))).operations <==>
      e in item.operations && e.key in types
  {
    var names := DisplayNames(types);
    forall t: OperationType ensures DisplayName(t) in names <==> t in types {
      if DisplayName(t) in names {
        var i :| 0 <= i < |names| && names[i] == DisplayName(t);
        DisplayNameInjective(t, types[i]);
      }
    }
  }

  /** The path pass: drops every path that is not a filter key and restricts
      the operations of every kept one, keeping the original path order. */
  function SelectPaths(paths: seq<Entry<string, PathItem>>, filter: PathFilter): (r: seq<Entry<string, PathItem>>)
    ensures Keys(r) == Keys(paths) * filter.Keys
    ensures Subseq(KeySeq(r), KeySeq(paths))
    ensures forall k :: (Lookup(r, k) ==
                          if k in filter && Lookup(paths, k).Some?
                          then Some(RestrictOperations(Lookup(paths, k).value, filter[k]))
                          else None)
    decreases |paths|
  {
    if |paths| == 0 then []
    else
      var rest := SelectPaths(paths[1..], filter);
      var e := paths[0];
      assert paths == [e] + paths[1..];
      KeysCons(e, paths[1..]);
      KeySeqCons(e, paths[1..]);
      if e.key in filter then
        var r := [Entry(e.key, RestrictOperations(e.value, filter[e.key]))] + rest;
        assert r[1..] == rest;
        KeysCons(r[0], rest);
        KeySeqCons(r[0], rest);
        assert forall k :: Lookup(r, k) == if k == e.key then Some(r[0].value) else Lookup(rest, k);
        r
      else
        assert forall k :: Lookup(paths, k) == if k == e.key then Some(e.value) else Lookup(paths[1..], k);
        rest
  }

  /** Selecting paths a second time with the same filter is a no-op. */
  lemma {:induction false} SelectPathsIdempotent(paths: seq<Entry<string, PathItem>>, filter: PathFilter)
    ensures SelectPaths(SelectPaths(paths, filter), filter) == SelectPaths(paths, filter)
    decreases |paths|
  {
    if |paths| > 0 {
      SelectPathsIdempotent(paths[1..], filter);
      var e := paths[0];
      if e.key in filter {
        RestrictOperationsIdempotent(e.value, filter[e.key]);
        var rest := SelectPaths(paths[1..], filter);
        var r := [Entry(e.key, RestrictOperations(e.value, filter[e.key]))] + rest;
        assert r[1..] == rest;
      }
    }
  }

  /** Some operation of some path lists tag `t`. */
  ghost predicate TagListed(paths: seq<Entry<string, PathItem>>, t: TagId)
  {
    exists e, o :: e in paths && o in e.value.operations && t in o.value.tags
  }

  /** The tags listed by the operations of one path item. */
  function OperationTags(ops: seq<Entry<OperationType, Operation>>): (r: set<TagId>)
    ensures forall t :: t in r <==> exists o :: o in ops && t in o.value.tags
    decreases |ops|
  {
    if |ops| == 0 then {}
    else
      assert forall o :: o in ops <==> o == ops[0] || o in ops[1..];
      (set t | t in ops[0].value.tags) + OperationTags(ops[1..])
  }

  /** The tags still used by some operation: the `Distinct` tag list that
      `FilterOperations` in OpenApiDocumentModifier.cs builds. */
  function UsedTags(paths: seq<Entry<string, PathItem>>): (r: set<TagId>)
    ensures forall t :: t in r <==> TagListed(paths, t)
    decreases |paths|
  {
    if |paths| == 0 then {}
    else
      assert forall e :: e in paths <==> e == paths[0] || e in paths[1..];
      OperationTags(paths[0].value.operations) + UsedTags(paths[1..])
  }

  /** `FilterOperations`: the path pass followed by the tag pass. The
      component table and the schema graph are left alone. */
  function FilterOperations(doc: Document, filter: PathFilter): (r: Document)
    ensures r.components == doc.components && r.graph == doc.graph
    ensures Keys(r.paths) == Keys(doc.paths) * filter.Keys
    ensures Subseq(KeySeq(r.paths), KeySeq(doc.paths))
    ensures forall k :: (Lookup(r.paths, k) ==
                          if k in filter && Lookup(doc.paths, k).Some?
                          then Some(RestrictOperations(Lookup(doc.paths, k).value, filter[k]))
                          else None)
    ensures forall t :: t in r.tags <==> t in doc.tags && TagListed(r.paths, t)
    ensures Subseq(r.tags, doc.tags)
  {
    var paths := SelectPaths(doc.paths, filter);
    var used := UsedTags(paths);
    doc.(paths := paths, tags := Filter(doc.tags, t => t in used))
  }

  /** Running the selector again with the same filter changes nothing. */
  lemma FilterOperationsIdempotent(doc: Document, filter: PathFilter)
    ensures FilterOperations(FilterOperations(doc, filter), filter) == FilterOperations(doc, filter)
  {
    var once := FilterOperations(doc, filter);
    SelectPathsIdempotent(doc.paths, filter);
    var used := UsedTags(once.paths);
    FilterIdempotent(doc.tags, t => t in used);
  }
}
