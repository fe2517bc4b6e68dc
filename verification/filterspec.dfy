/** The path-filter specifications of the command line: each
    `path[=operation1[,operation2,...]]` string becomes one filter entry.
    Models the parsing loop of `ProcessDocument` in Program.cs. */
module PathFilterSpec {
  import opened Wrappers
  import opened OpenApi

  /** The number of occurrences of `c` in `s`. */
  function Count(s: string, c: char): (n: nat)
    ensures n == 0 <==> c !in s
    ensures n <= |s|
    decreases |s|
  {
    if |s| == 0 then 0 else (if s[0] == c then 1 else 0) + Count(s[1..], c)
  }

  /** The position of the first `c` in `s`. */
  function IndexOf(s: string, c: char): (i: nat)
    requires c in s
    ensures i < |s| && s[i] == c && c !in s[..i]
    decreases |s|
  {
    if s[0] == c then 0
    else
      var i := 1 + IndexOf(s[1..], c);
      assert s[..i] == [s[0]] + s[1..][..i - 1];
      i
  }

  /** `String.Split(char)`: the pieces between occurrences of `c`, in order,
      empty pieces included; one piece more than there are separators. */
  function Split(s: string, c: char): (parts: seq<string>)
    ensures |parts| >= 1
    decreases |s|
  {
    if |s| == 0 then [""]
    else
      var rest := Split(s[1..], c);
      if s[0] == c then [""] + rest else [[s[0]] + rest[0]] + rest[1..]
  }

  /** A split has one piece more than there are separators, and no piece
      holds the separator. */
  lemma {:induction false} SplitShape(s: string, c: char)
    ensures |Split(s, c)| == Count(s, c) + 1
    ensures forall i :: 0 <= i < |Split(s, c)| ==> c !in Split(s, c)[i]
    decreases |s|
  {
    if |s| > 0 {
      SplitShape(s[1..], c);
      var rest := Split(s[1..], c);
      if s[0] != c {
        var parts := Split(s, c);
        assert forall i :: 1 <= i < |parts| ==> parts[i] == rest[i];
      }
    }
  }

  /** `String.Join(char, ...)`: the pieces with `c` between neighbours. */
  function Join(parts: seq<string>, c: char): (s: string)
    decreases |parts|
  {
    if |parts| == 0 then ""
    else if |parts| == 1 then parts[0]
    else parts[0] + [c] + Join(parts[1..], c)
  }

  /** Joining the pieces of a split gives back the original text. */
  lemma {:induction false} JoinSplit(s: string, c: char)
    ensures Join(Split(s, c), c) == s
    decreases |s|
  {
    if |s| > 0 {
      JoinSplit(s[1..], c);
      var rest := Split(s[1..], c);
      if s[0] == c {
        assert Split(s, c)[1..] == rest;
      } else {
        var parts := [[s[0]] + rest[0]] + rest[1..];
        assert parts[1..] == rest[1..];
        if |rest| > 1 {
          assert Join(rest, c) == rest[0] + [c] + Join(rest[1..], c);
        }
      }
    }
  }

  /** Splitting text whose head holds no separator extends the first piece. */
  lemma {:induction false} SplitPrefix(a: string, t: string, c: char)
    requires c !in a
    ensures Split(a + t, c) == [a + Split(t, c)[0]] + Split(t, c)[1..]
    decreases |a|
  {
    if |a| > 0 {
      var p := Split(t, c);
      assert (a + t)[1..] == a[1..] + t;
      SplitPrefix(a[1..], t, c);
      var rest := Split(a[1..] + t, c);
      assert rest[0] == a[1..] + p[0] && rest[1..] == p[1..];
      assert [a[0]] + (a[1..] + p[0]) == a + p[0];
    } else {
      var p := Split(t, c);
      assert a + t == t;
      assert p == [p[0]] + p[1..];
      assert a + p[0] == p[0];
    }
  }

  /** Splitting the join of separator-free pieces gives back the pieces. */
  lemma {:induction false} SplitJoin(parts: seq<string>, c: char)
    requires |parts| >= 1
    requires forall i :: 0 <= i < |parts| ==> c !in parts[i]
    ensures Split(Join(parts, c), c) == parts
    decreases |parts|
  {
    if |parts| == 1 {
      SplitPrefix(parts[0], "", c);
      assert parts[0] + "" == parts[0];
    } else {
      var tail := Join(parts[1..], c);
      SplitJoin(parts[1..], c);
      SplitPrefix(parts[0], [c] + tail, c);
      assert ([c] + tail)[1..] == tail;
      assert parts[0] + [c] + tail == parts[0] + ([c] + tail);
      assert Split([c] + tail, c) == [""] + parts[1..];
      assert parts[0] + "" == parts[0];
    }
  }

  /** The first separator splits the text into its first piece and the split of the rest. */
  lemma SplitAtFirst(s: string, c: char)
    requires c in s
    ensures Split(s, c) == [s[..IndexOf(s, c)]] + Split(s[IndexOf(s, c) + 1..], c)
  {
    var i := IndexOf(s, c);
    var t := s[i + 1..];
    assert s == s[..i] + ([c] + t);
    SplitPrefix(s[..i], [c] + t, c);
    assert ([c] + t)[1..] == t;
    assert s[..i] + "" == s[..i];
  }

  /** The path of a specification: the text before its first `=`, all of
      it when there is none. */
  function SpecPath(spec: string): string
  {
    if '=' in spec then spec[..IndexOf(spec, '=')] else spec
  }

  /** The operation list of a specification: the text after its first `=`
      split on `,`, empty pieces kept; `None` (every operation) when there
      is no `=`. */
  function SpecOperations(spec: string): Option<seq<string>>
  {
    if '=' in spec then Some(Split(spec[IndexOf(spec, '=') + 1..], ',')) else None
  }

  /** Splitting a specification with at most one `=` on `=` gives its path
      first and, when there is a second piece, the text after the `=`. */
  lemma SplitMeaning(spec: string)
    requires Count(spec, '=') <= 1
    ensures var parts := Split(spec, '=');
      && parts[0] == SpecPath(spec)
      && (|parts| == 2 <==> '=' in spec)
      && (|parts| == 2 ==> parts[1] == spec[IndexOf(spec, '=') + 1..])
  {
    SplitShape(spec, '=');
    if '=' in spec {
      var rest := spec[IndexOf(spec, '=') + 1..];
      SplitAtFirst(spec, '=');
      SplitShape(rest, '=');
      SplitWithout(rest, '=');
    } else {
      SplitWithout(spec, '=');
    }
  }

  /** Text without the separator splits into itself alone. */
  lemma SplitWithout(s: string, c: char)
    requires c !in s
    ensures Split(s, c) == [s]
  {
    SplitPrefix(s, "", c);
    assert s + "" == s;
  }

  /** Why a list of specifications was rejected. */
  datatype FilterSpecError =
    | InvalidSpec(spec: string)
    | DuplicatePath(path: string, spec: string)

  /** Every specification has at most one `=` and no path appears twice. */
  ghost predicate WellFormedSpecs(specs: seq<string>)
  {
    && (forall i :: 0 <= i < |specs| ==> Count(specs[i], '=') <= 1)
    && (forall i, j :: 0 <= i < j < |specs| ==> SpecPath(specs[i]) != SpecPath(specs[j]))
  }

  /** Specification `i` is the first one that makes the list ill formed. */
  ghost predicate FirstRejected(specs: seq<string>, i: int)
  {
    0 <= i < |specs| && WellFormedSpecs(specs[..i]) && !WellFormedSpecs(specs[..i + 1])
  }

  /** The exception `ProcessDocument` in Program.cs throws for the first
      offending specification. */
  function ErrorFor(spec: string): FilterSpecError
  {
    if Count(spec, '=') > 1 then InvalidSpec(spec) else DuplicatePath(SpecPath(spec), spec)
  }

  /** One specification, split on `=` as `ProcessDocument` in Program.cs
      does it: more than one `=` is rejected; otherwise the pieces are the
      text before the first `=` and the operation list after it. */
  function ParseSpec(spec: string): (r: Result<(string, Option<seq<string>>), FilterSpecError>)
    ensures r.Success? <==> Count(spec, '=') <= 1
    ensures r.Success? ==> r.value == (SpecPath(spec), SpecOperations(spec))
    ensures r.Failure? ==> r.error == ErrorFor(spec)
  {
    var parts := Split(spec, '=');
    SplitShape(spec, '=');
    if |parts| > 2 then Failure(InvalidSpec(spec))
    else
      SplitMeaning(spec);
      Success((parts[0], if |parts| == 2 then Some(Split(parts[1], ',')) else None))
  }

  /** The parsing loop: succeeds iff every specification is well formed and
      names a new path, with one entry per specification; otherwise reports
      the first offending specification. */
  method ParsePathFilters(specs: seq<string>) returns (r: Result<PathFilter, FilterSpecError>)
    ensures r.Success? <==> WellFormedSpecs(specs)
    ensures r.Success? ==> |r.value| == |specs|
    ensures r.Success? ==> forall i :: 0 <= i < |specs| ==>
      SpecPath(specs[i]) in r.value && r.value[SpecPath(specs[i])] == SpecOperations(specs[i])
    ensures r.Success? ==> forall p :: p in r.value ==> exists i :: 0 <= i < |specs| && SpecPath(specs[i]) == p
    ensures r.Failure? ==> exists i :: FirstRejected(specs, i) && r.error == ErrorFor(specs[i])
  {
    var paths: PathFilter := map[];
    var k := 0;
    while k < |specs|
      invariant 0 <= k <= |specs|
      invariant WellFormedSpecs(specs[..k])
      invariant Parsed(specs, k, paths)
      invariant |paths| == k
    {
      var step := ParseStep(specs, k, paths);
      if step.Failure? {
        return Failure(step.error);
      }
      paths, k := step.value, k + 1;
    }
    assert specs[..k] == specs;
    return Success(paths);
  }

  /** A loop step that throws: specification `k` has several `=` or repeats
      a path already in the table, so it is the first offending one. */
  lemma StepRejects(specs: seq<string>, k: nat, paths: PathFilter)
    requires k < |specs| && WellFormedSpecs(specs[..k]) && Parsed(specs, k, paths)
    requires Count(specs[k], '=') > 1 || SpecPath(specs[k]) in paths
    ensures FirstRejected(specs, k) && !WellFormedSpecs(specs)
  {
    if Count(specs[k], '=') <= 1 {
      var i :| 0 <= i < k && SpecPath(specs[i]) == SpecPath(specs[k]);
    }
    RejectAt(specs, k);
  }

  /** A loop step that adds an entry: the prefix stays well formed and the
      table gains exactly the entry of specification `k`. */
  lemma StepAccepts(specs: seq<string>, k: nat, paths: PathFilter)
    requires k < |specs| && WellFormedSpecs(specs[..k]) && Parsed(specs, k, paths)
    requires Count(specs[k], '=') <= 1 && SpecPath(specs[k]) !in paths
    ensures WellFormedSpecs(specs[..k + 1])
    ensures Parsed(specs, k + 1, paths[SpecPath(specs[k]) := SpecOperations(specs[k])])
  {
    ParsedExtend(specs, k, paths);
    ExtendWellFormed(specs, k);
  }

  /** One pass of the loop body: parse specification `k` and add its entry,
      throwing when it has several `=` or repeats a path in the table. */
  method ParseStep(specs: seq<string>, k: nat, paths: PathFilter) returns (r: Result<PathFilter, FilterSpecError>)
    requires k < |specs| && WellFormedSpecs(specs[..k]) && Parsed(specs, k, paths) && |paths| == k
    ensures r.Success? <==> WellFormedSpecs(specs[..k + 1])
    ensures r.Success? ==> Parsed(specs, k + 1, r.value) && |r.value| == k + 1
    ensures r.Failure? ==> FirstRejected(specs, k) && !WellFormedSpecs(specs) && r.error == ErrorFor(specs[k])
  {
    var parsed := ParseSpec(specs[k]);
    if parsed.Failure? {
      StepRejects(specs, k, paths);
      return Failure(parsed.error);
    }
    var (path, methods) := parsed.value;
    if path in paths {
      StepRejects(specs, k, paths);
      return Failure(DuplicatePath(path, specs[k]));
    }
    StepAccepts(specs, k, paths);
    GrowsByOne(paths, path, methods);
    return Success(paths[path := methods]);
  }

  /** `paths` holds the entry of each of the first `k` specifications and
      no other key. */
  ghost predicate Parsed(specs: seq<string>, k: nat, paths: PathFilter)
    requires k <= |specs|
  {
    && (forall i :: 0 <= i < k ==>
          SpecPath(specs[i]) in paths && paths[SpecPath(specs[i])] == SpecOperations(specs[i]))
    && (forall p :: p in paths ==> exists i :: 0 <= i < k && SpecPath(specs[i]) == p)
  }

  /** Adding the entry of a specification whose path is new keeps the
      entries in step with the specifications, and the path differs from
      every earlier one. */
  lemma ParsedExtend(specs: seq<string>, k: nat, paths: PathFilter)
    requires k < |specs| && Parsed(specs, k, paths) && SpecPath(specs[k]) !in paths
    ensures Parsed(specs, k + 1, paths[SpecPath(specs[k]) := SpecOperations(specs[k])])
    ensures forall i :: 0 <= i < k ==> SpecPath(specs[i]) != SpecPath(specs[k])
  {
    EntriesExtend(specs, k, paths);
    OriginsExtend(specs, k, paths);
  }

  /** Adding a new key grows a map by exactly one entry. */
  lemma GrowsByOne<K, V>(m: map<K, V>, key: K, v: V)
    requires key !in m
    ensures |m[key := v]| == |m| + 1
  {
    assert m[key := v].Keys == m.Keys + {key};
  }

  /** Every earlier specification keeps its entry, and the new one has its own. */
  lemma EntriesExtend(specs: seq<string>, k: nat, paths: PathFilter)
    requires k < |specs| && SpecPath(specs[k]) !in paths
    requires forall i :: 0 <= i < k ==>
      SpecPath(specs[i]) in paths && paths[SpecPath(specs[i])] == SpecOperations(specs[i])
    ensures var paths' := paths[SpecPath(specs[k]) := SpecOperations(specs[k])];
      forall i :: 0 <= i < k + 1 ==>
        SpecPath(specs[i]) in paths' && paths'[SpecPath(specs[i])] == SpecOperations(specs[i])
    ensures forall i :: 0 <= i < k ==> SpecPath(specs[i]) != SpecPath(specs[k])
  {
    var key := SpecPath(specs[k]);
    var paths' := paths[key := SpecOperations(specs[k])];
    forall i | 0 <= i < k + 1
      ensures SpecPath(specs[i]) in paths' && paths'[SpecPath(specs[i])] == SpecOperations(specs[i])
    {
      if i < k {
        assert SpecPath(specs[i]) in paths && SpecPath(specs[i]) != key;
      }
    }
  }

  /** Every key of the extended map still comes from some specification. */
  lemma OriginsExtend(specs: seq<string>, k: nat, paths: PathFilter)
    requires k < |specs|
    requires forall p :: p in paths ==> exists i :: 0 <= i < k && SpecPath(specs[i]) == p
    ensures var paths' := paths[SpecPath(specs[k]) := SpecOperations(specs[k])];
      forall p :: p in paths' ==> exists i :: 0 <= i < k + 1 && SpecPath(specs[i]) == p
  {
    var key := SpecPath(specs[k]);
    var paths' := paths[key := SpecOperations(specs[k])];
    forall p | p in paths' ensures exists i :: 0 <= i < k + 1 && SpecPath(specs[i]) == p {
      if p != key {
        var i :| 0 <= i < k && SpecPath(specs[i]) == p;
        assert 0 <= i < k + 1;
      } else {
        assert SpecPath(specs[k]) == p;
      }
    }
  }

  /** A well-formed prefix followed by a well-formed specification with a new path is well formed. */
  lemma ExtendWellFormed(specs: seq<string>, k: nat)
    requires k < |specs| && WellFormedSpecs(specs[..k]) && Count(specs[k], '=') <= 1
    requires forall i :: 0 <= i < k ==> SpecPath(specs[i]) != SpecPath(specs[k])
    ensures WellFormedSpecs(specs[..k + 1])
  {
    var pre, ext := specs[..k], specs[..k + 1];
    forall i | 0 <= i < |ext| ensures Count(ext[i], '=') <= 1 {
      if i < k {
        assert ext[i] == pre[i];
      }
    }
    forall i, j | 0 <= i < j < |ext| ensures SpecPath(ext[i]) != SpecPath(ext[j]) {
      if j < k {
        assert ext[i] == pre[i] && ext[j] == pre[j];
      } else {
        assert ext[i] == specs[i] && ext[j] == specs[k];
      }
    }
  }

  /** A specification with several `=`, or repeating an earlier path, makes
      the list (and every longer prefix) ill formed. */
  lemma RejectAt(specs: seq<string>, k: nat)
    requires k < |specs|
    requires Count(specs[k], '=') > 1 || exists i :: 0 <= i < k && SpecPath(specs[i]) == SpecPath(specs[k])
    ensures !WellFormedSpecs(specs[..k + 1]) && !WellFormedSpecs(specs)
  {
    var ext := specs[..k + 1];
    assert ext[k] == specs[k];
    assert forall i :: 0 <= i < k ==> ext[i] == specs[i];
  }
}
