/**
 * Whole-column operations: a pandas column map is `Map`, a boolean-mask selection is
 * `Filter`, and a chain of both is a `FilterMap`. The fusion lemmas turn a chain of steps
 * into one row-by-row function.
 */
module Seqs {
  import opened Wrappers

  function Map<A, B>(f: A -> B, s: seq<A>): (r: seq<B>)
    ensures |r| == |s| && forall i :: 0 <= i < |s| ==> r[i] == f(s[i])
  {
    if s == [] then [] else [f(s[0])] + Map(f, s[1..])
  }

  function Filter<A(!new)>(p: A -> bool, s: seq<A>): (r: seq<A>)
    ensures |r| <= |s|
    ensures forall x :: x in r <==> x in s && p(x)
  {
    if s == [] then [] else (if p(s[0]) then [s[0]] else []) + Filter(p, s[1..])
  }

  function FilterMap<A(!new), B(!new)>(f: A -> Option<B>, s: seq<A>): (r: seq<B>)
    ensures |r| <= |s|
    ensures forall y :: y in r ==> exists x :: x in s && f(x) == Some(y)
    ensures forall x :: x in s && f(x).Some? ==> f(x).value in r
  {
    if s == [] then []
    else
      var rest := FilterMap(f, s[1..]);
      assert forall x :: x in s[1..] ==> x in s;
      match f(s[0])
      case None => rest
      case Some(y) => [y] + rest
  }

  /** `a` is `b` with some elements left out, the rest in their original order. */
  ghost predicate IsSubsequence<A>(a: seq<A>, b: seq<A>)
    decreases |b|
  {
    a == [] || (b != [] && ((a[0] == b[0] && IsSubsequence(a[1..], b[1..])) || IsSubsequence(a, b[1..])))
  }

  lemma {:induction false} SubsequenceTransitive<A>(a: seq<A>, b: seq<A>, c: seq<A>)
    requires IsSubsequence(a, b) && IsSubsequence(b, c)
    ensures IsSubsequence(a, c)
    decreases |c|
  {
    if a != [] {
      assert b != [] && c != [];
      if b[0] == c[0] && IsSubsequence(b[1..], c[1..]) {
        if a[0] == b[0] && IsSubsequence(a[1..], b[1..]) {
          SubsequenceTransitive(a[1..], b[1..], c[1..]);
        } else {
          SubsequenceTransitive(a, b[1..], c[1..]);
        }
      } else {
        SubsequenceTransitive(a, b, c[1..]);
      }
    }
  }

  lemma {:induction false} FilterIsSubsequence<A(!new)>(p: A -> bool, s: seq<A>)
    ensures IsSubsequence(Filter(p, s), s)
    decreases |s|
  {
    if s != [] {
      FilterIsSubsequence(p, s[1..]);
      var r := Filter(p, s);
      if p(s[0]) {
        assert r[0] == s[0] && r[1..] == Filter(p, s[1..]);
      } else {
        assert r == Filter(p, s[1..]);
      }
    }
  }

  /** A map step followed by the rest of the chain is the rest applied to the mapped row. */
  lemma {:induction false} FilterMapOfMap<A(!new), B(!new), C(!new)>(f: A -> B, g: B -> Option<C>, h: A -> Option<C>, s: seq<A>)
    requires forall x :: x in s ==> h(x) == g(f(x))
    ensures FilterMap(g, Map(f, s)) == FilterMap(h, s)
    decreases |s|
  {
    if s != [] {
      var m := Map(f, s);
      assert m[0] == f(s[0]) && m[1..] == Map(f, s[1..]);
      assert forall x :: x in s[1..] ==> x in s;
      FilterMapOfMap(f, g, h, s[1..]);
    }
  }

  /** A filter step followed by the rest of the chain drops the row or hands it on. */
  lemma {:induction false} FilterMapOfFilter<A(!new), C(!new)>(p: A -> bool, g: A -> Option<C>, h: A -> Option<C>, s: seq<A>)
    requires forall x :: x in s ==> h(x) == if p(x) then g(x) else None
    ensures FilterMap(g, Filter(p, s)) == FilterMap(h, s)
    decreases |s|
  {
    if s != [] {
      var r := Filter(p, s);
      assert forall x :: x in s[1..] ==> x in s;
      FilterMapOfFilter(p, g, h, s[1..]);
      if p(s[0]) {
        assert r[0] == s[0] && r[1..] == Filter(p, s[1..]);
      } else {
        assert r == Filter(p, s[1..]);
      }
    }
  }

  /** A step at the end of a chain that keeps every row is a `FilterMap` that never says None. */
  lemma {:induction false} AllSomeAsFilterMap<A(!new), B(!new)>(r: seq<B>, h: A -> Option<B>, s: seq<A>)
    requires |r| == |s| && forall i :: 0 <= i < |s| ==> h(s[i]) == Some(r[i])
    ensures r == FilterMap(h, s)
    decreases |s|
  {
    if s != [] {
      assert forall i :: 0 <= i < |s[1..]| ==> h(s[1..][i]) == Some(r[1..][i]) by {
        forall i | 0 <= i < |s[1..]| ensures h(s[1..][i]) == Some(r[1..][i]) {
          assert s[1..][i] == s[i + 1] && r[1..][i] == r[i + 1];
        }
      }
      AllSomeAsFilterMap(r[1..], h, s[1..]);
      assert r == [r[0]] + r[1..];
    }
  }

  /** Every result of a `FilterMap` comes from its own input row, and those rows keep their order. */
  lemma {:induction false} FilterMapSources<A(!new), B(!new)>(f: A -> Option<B>, s: seq<A>) returns (src: seq<A>)
    ensures IsSubsequence(src, s)
    ensures |src| == |FilterMap(f, s)|
    ensures forall i :: 0 <= i < |src| ==> f(src[i]) == Some(FilterMap(f, s)[i])
    decreases |s|
  {
    if s == [] {
      src := [];
    } else {
      var tail := FilterMapSources(f, s[1..]);
      var r := FilterMap(f, s);
      if f(s[0]).Some? {
        src := [s[0]] + tail;
        assert src[0] == s[0] && src[1..] == tail;
        assert r[0] == f(s[0]).value && r[1..] == FilterMap(f, s[1..]);
        forall i | 1 <= i < |src| ensures f(src[i]) == Some(r[i]) {
          assert src[i] == tail[i - 1] && r[i] == FilterMap(f, s[1..])[i - 1];
        }
      } else {
        src := tail;
      }
    }
  }

  /** Keys that are pairwise distinct among the input rows stay distinct among the results,
      when each result carries the key of the row it came from. */
  lemma {:induction false} FilterMapKeepsDistinct<A(!new), B(!new), K>(f: A -> Option<B>, key: A -> K, key': B -> K, s: seq<A>)
    requires forall i, j :: 0 <= i < j < |s| ==> key(s[i]) != key(s[j])
    requires forall x :: x in s && f(x).Some? ==> key'(f(x).value) == key(x)
    ensures forall i, j :: 0 <= i < j < |FilterMap(f, s)| ==> key'(FilterMap(f, s)[i]) != key'(FilterMap(f, s)[j])
    decreases |s|
  {
    if s != [] {
      var r := FilterMap(f, s);
      var rest := FilterMap(f, s[1..]);
      assert forall x :: x in s[1..] ==> x in s;
      FilterMapKeepsDistinct(f, key, key', s[1..]);
      if f(s[0]).Some? {
        assert r == [f(s[0]).value] + rest;
        forall i | 0 <= i < |rest| ensures key'(rest[i]) != key(s[0]) {
          assert rest[i] in rest;
          var x :| x in s[1..] && f(x) == Some(rest[i]);
          var k :| 0 <= k < |s[1..]| && s[1..][k] == x;
          assert s[k + 1] == x;
        }
        DistinctCons(key', f(s[0]).value, rest);
      }
    }
  }

  /** A head whose key differs from every key of a key-distinct tail keeps the keys distinct. */
  lemma DistinctCons<B, K>(key': B -> K, v: B, rest: seq<B>)
    requires forall i, j :: 0 <= i < j < |rest| ==> key'(rest[i]) != key'(rest[j])
    requires forall i :: 0 <= i < |rest| ==> key'(rest[i]) != key'(v)
    ensures forall i, j :: 0 <= i < j < |[v] + rest| ==> key'(([v] + rest)[i]) != key'(([v] + rest)[j])
  {
    var all := [v] + rest;
    forall i, j | 0 <= i < j < |all| ensures key'(all[i]) != key'(all[j]) {
      assert all[j] == rest[j - 1];
      if i > 0 {
        assert all[i] == rest[i - 1];
      }
    }
  }

  /** Two filters in a row keep exactly the rows that pass both. */
  lemma {:induction false} FilterOfFilter<A(!new)>(p: A -> bool, q: A -> bool, pq: A -> bool, s: seq<A>)
    requires forall x :: x in s ==> pq(x) == (p(x) && q(x))
    ensures Filter(q, Filter(p, s)) == Filter(pq, s)
    decreases |s|
  {
    if s != [] {
      var r := Filter(p, s);
      assert forall x :: x in s[1..] ==> x in s;
      FilterOfFilter(p, q, pq, s[1..]);
      if p(s[0]) {
        assert r[0] == s[0] && r[1..] == Filter(p, s[1..]);
      } else {
        assert r == Filter(p, s[1..]);
      }
    }
  }
}
