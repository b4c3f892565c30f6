/**
 * Array.prototype.filter and Array.prototype.find over a sequence, both of
 * which keep the order of the input.
 */
module Seqs {
  import opened Wrappers

  /** r is the first element of s, in order, on which p holds; None when p holds on none. */
  ghost predicate IsFirstMatch<T>(s: seq<T>, p: T -> bool, r: Option<T>) {
    match r
    case None => forall i :: 0 <= i < |s| ==> !p(s[i])
    case Some(x) =>
      exists i :: 0 <= i < |s| && s[i] == x && p(x) && forall j :: 0 <= j < i ==> !p(s[j])
  }

  /** s.find(p) */
  function Find<T>(s: seq<T>, p: T -> bool): (r: Option<T>)
    ensures IsFirstMatch(s, p, r)
    decreases |s|
  {
    if s == [] then None
    else if p(s[0]) then Some(s[0])
    else
      var r := Find(s[1..], p);
      assert r.Some? ==> exists i :: 0 <= i < |s[1..]| && s[1..][i] == r.value && p(r.value)
                                     && forall j :: 0 <= j < i ==> !p(s[1..][j]);
      assert r.Some? ==> exists i :: 0 <= i < |s| && s[i] == r.value && p(r.value)
                                     && forall j :: 0 <= j < i ==> !p(s[j]) by {
        if r.Some? {
          var i :| 0 <= i < |s[1..]| && s[1..][i] == r.value && p(r.value)
                   && forall j :: 0 <= j < i ==> !p(s[1..][j]);
          assert s[i + 1] == r.value;
          forall j | 0 <= j < i + 1 ensures !p(s[j]) {
            if j > 0 { assert s[j] == s[1..][j - 1]; }
          }
        }
      }
      r
  }

  /** r is s with some elements dropped and the rest kept in their order. */
  ghost predicate IsSubsequence<T>(r: seq<T>, s: seq<T>)
    decreases |s|
  {
    if r == [] then true
    else if s == [] then false
    else (r[0] == s[0] && IsSubsequence(r[1..], s[1..])) || IsSubsequence(r, s[1..])
  }

  /** s.filter(p): the elements of s on which p holds, in their order (FilterCounts, FilterOrder). */
  function Filter<T>(s: seq<T>, p: T -> bool): (r: seq<T>)
    ensures |r| <= |s|
    ensures forall i :: 0 <= i < |r| ==> p(r[i]) && r[i] in s
    ensures Find(s, p) == if r == [] then None else Some(r[0])
    decreases |s|
  {
    if s == [] then []
    else if p(s[0]) then [s[0]] + Filter(s[1..], p)
    else Filter(s[1..], p)
  }

  /** Filter keeps every element of s on which p holds, as often as s has it, and nothing else. */
  lemma {:induction false} FilterCounts<T>(s: seq<T>, p: T -> bool)
    ensures forall x :: multiset(Filter(s, p))[x] == if p(x) then multiset(s)[x] else 0
    decreases |s|
  {
    if s != [] {
      FilterCounts(s[1..], p);
      assert s == [s[0]] + s[1..];
    }
  }

  /** Filter keeps the elements it keeps in their order in s. */
  lemma {:induction false} FilterOrder<T>(s: seq<T>, p: T -> bool)
    ensures IsSubsequence(Filter(s, p), s)
    decreases |s|
  {
    if s != [] {
      FilterOrder(s[1..], p);
      var rest := Filter(s[1..], p);
      if p(s[0]) {
        assert ([s[0]] + rest)[1..] == rest;
      }
    }
  }

  /** Filtering by p and then finding by q finds the first element on which both hold. */
  lemma {:induction false} FindAfterFilter<T>(s: seq<T>, p: T -> bool, q: T -> bool, both: T -> bool)
    requires forall x :: both(x) == (p(x) && q(x))
    ensures Find(Filter(s, p), q) == Find(s, both)
    decreases |s|
  {
    if s != [] {
      FindAfterFilter(s[1..], p, q, both);
      if p(s[0]) {
        var f := [s[0]] + Filter(s[1..], p);
        assert f[0] == s[0] && f[1..] == Filter(s[1..], p);
      }
    }
  }
}
