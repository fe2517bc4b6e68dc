/** Ordered key/value entries and order-preserving filtering: the shape of
    every .NET dictionary and list the pruning pipeline removes entries from. */
module Collections {
  import opened Wrappers

  /** One entry of an insertion-ordered dictionary. */
  datatype Entry<K, V> = Entry(key: K, value: V)

  /** The key set of an entry sequence. */
  function Keys<K, V>(es: seq<Entry<K, V>>): set<K>
  {
    set i | 0 <= i < |es| :: es[i].key
  }

  /** Prepending an entry adds exactly its key. */
  lemma KeysCons<K, V>(e: Entry<K, V>, es: seq<Entry<K, V>>)
    ensures Keys([e] + es) == {e.key} + Keys(es)
  {
    var t := [e] + es;
    forall k | k in Keys(es) ensures k in Keys(t) {
      var i :| 0 <= i < |es| && es[i].key == k;
      assert t[i + 1].key == k;
    }
    forall k | k in Keys(t) ensures k in {e.key} + Keys(es) {
      var i :| 0 <= i < |t| && t[i].key == k;
      if i > 0 {
        assert es[i - 1].key == k;
      }
    }
    assert t[0].key == e.key;
  }

  /** The sequence of keys, in entry order. */
  function KeySeq<K, V>(es: seq<Entry<K, V>>): (ks: seq<K>)
    ensures |ks| == |es|
    ensures forall i :: 0 <= i < |es| ==> ks[i] == es[i].key
  {
    seq(|es|, i requires 0 <= i < |es| => es[i].key)
  }

  /** Prepending an entry prepends its key. */
  lemma KeySeqCons<K, V>(e: Entry<K, V>, es: seq<Entry<K, V>>)
    ensures KeySeq([e] + es) == [e.key] + KeySeq(es)
  {
    var l, r := KeySeq([e] + es), [e.key] + KeySeq(es);
    forall i | 0 <= i < |l| ensures l[i] == r[i] {
      if i > 0 {
        assert ([e] + es)[i] == es[i - 1];
      }
    }
  }

  /** The value of the first entry with key `k`, as a dictionary lookup. */
  function Lookup<K(==), V>(es: seq<Entry<K, V>>, k: K): (r: Option<V>)
    ensures r.Some? <==> k in Keys(es)
    ensures r.Some? ==> Entry(k, r.value) in es
    decreases |es|
  {
    if |es| == 0 then None
    else if es[0].key == k then Some(es[0].value)
    else Lookup(es[1..], k)
  }

  /** `r` occurs in `s` in order, possibly with gaps (greedy matching
      decides this exactly). */
  predicate Subseq<T(==)>(r: seq<T>, s: seq<T>)
    decreases |s|
  {
    if |r| == 0 then true
    else if |s| == 0 then false
    else if r[0] == s[0] then Subseq(r[1..], s[1..])
    else Subseq(r, s[1..])
  }

  /** Every sequence is a subsequence of itself. */
  lemma {:induction false} SubseqRefl<T>(s: seq<T>)
    ensures Subseq(s, s)
    decreases |s|
  {
    if |s| > 0 {
      SubseqRefl(s[1..]);
    }
  }

  /** The elements of `s` that satisfy `keep`, in their original order.
      Every occurrence of a kept value survives and nothing is added. */
  function Filter<T(==,!new)>(s: seq<T>, keep: T -> bool): (r: seq<T>)
    ensures forall x :: x in r <==> x in s && keep(x)
    ensures forall x :: multiset(r)[x] == if keep(x) then multiset(s)[x] else 0
    ensures Subseq(r, s)
    ensures |r| <= |s|
  {
    if |s| == 0 then []
    else
      assert s == [s[0]] + s[1..];
      if keep(s[0]) then [s[0]] + Filter(s[1..], keep) else Filter(s[1..], keep)
  }

  /** Filtering a second time with the same predicate removes nothing more. */
  lemma {:induction false} FilterIdempotent<T(!new)>(s: seq<T>, keep: T -> bool)
    ensures Filter(Filter(s, keep), keep) == Filter(s, keep)
    decreases |s|
  {
    if |s| > 0 {
      FilterIdempotent(s[1..], keep);
      if keep(s[0]) {
        var t := Filter(s[1..], keep);
        assert ([s[0]] + t)[1..] == t;
      }
    }
  }
}
