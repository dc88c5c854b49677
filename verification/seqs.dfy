/** Order-related facts about sequences. */
module Seqs {
  import opened Wrappers

  /** `a` can be obtained from `b` by deleting elements: the elements of `a` occur in `b`
      in the same relative order. */
  predicate Subsequence<T(==)>(a: seq<T>, b: seq<T>)
    decreases |b|
  {
    a == [] || (b != [] && ((a[0] == b[0] && Subsequence(a[1..], b[1..])) || Subsequence(a, b[1..])))
  }

  /** No element occurs twice. */
  predicate Distinct<T(==)>(s: seq<T>) {
    forall i, j :: 0 <= i < j < |s| ==> s[i] != s[j]
  }

  /** The first index from `i` on whose element satisfies `p`, if any (`Iterator::position`). */
  function FirstIndex<T>(xs: seq<T>, p: T -> bool, i: nat): (r: Option<nat>)
    requires i <= |xs|
    ensures r.Some? ==> i <= r.value < |xs| && p(xs[r.value])
    ensures r.Some? ==> forall k :: i <= k < r.value ==> !p(xs[k])
    ensures r.None? ==> forall k :: i <= k < |xs| ==> !p(xs[k])
    decreases |xs| - i
  {
    if i == |xs| then None
    else if p(xs[i]) then Some(i)
    else FirstIndex(xs, p, i + 1)
  }

  /** The first `k` in `[i, n)` at which `f` yields something, if any. */
  function FirstHit<T>(f: nat -> Option<T>, i: nat, n: nat): (r: Option<nat>)
    requires i <= n
    ensures r.Some? ==> i <= r.value < n && f(r.value).Some?
    ensures r.Some? ==> forall k :: i <= k < r.value ==> f(k).None?
    ensures r.None? ==> forall k :: i <= k < n ==> f(k).None?
    decreases n - i
  {
    if i == n then None
    else if f(i).Some? then Some(i)
    else FirstHit(f, i + 1, n)
  }

  /** `Vec::insert`: `x` placed at index `i`, everything from `i` on moved up by one. */
  function InsertAt<T>(xs: seq<T>, i: nat, x: T): (r: seq<T>)
    requires i <= |xs|
    ensures |r| == |xs| + 1 && r[i] == x
    ensures r[..i] + r[i + 1..] == xs
    ensures r[..i] == xs[..i] && r[i + 1..] == xs[i..]
  {
    var r := xs[..i] + [x] + xs[i..];
    assert r[..i] == xs[..i] && r[i + 1..] == xs[i..];
    r
  }

  /** The set of elements of `s`. */
  function Elements<T>(s: seq<T>): set<T> {
    set x | x in s
  }

  /** A sequence has at most as many distinct elements as it has elements, and exactly
      as many when no element repeats. */
  lemma {:induction false} ElementsCount<T>(s: seq<T>)
    ensures |Elements(s)| <= |s|
    ensures |Elements(s)| == |s| <==> Distinct(s)
    decreases |s|
  {
    if s != [] {
      var init, x := s[..|s| - 1], s[|s| - 1];
      assert s == init + [x];
      ElementsCount(init);
      assert Elements(s) == Elements(init) + {x};
      if x in init {
        assert Elements(s) == Elements(init);
        var i :| 0 <= i < |init| && init[i] == x;
        assert s[i] == s[|s| - 1];
      } else {
        assert Distinct(s) <==> Distinct(init) by {
          if Distinct(init) {
            forall i, j | 0 <= i < j < |s| ensures s[i] != s[j] {
              if j < |s| - 1 {
                assert s[i] == init[i] && s[j] == init[j];
              } else {
                assert s[i] == init[i];
              }
            }
          }
          if Distinct(s) {
            forall i, j | 0 <= i < j < |init| ensures init[i] != init[j] {
              assert s[i] == init[i] && s[j] == init[j];
            }
          }
        }
      }
    }
  }
}
