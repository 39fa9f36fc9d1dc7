/**
 * The JavaScript array built-ins the piano relies on: `indexOf` with strict
 * equality, `filter` with a predicate callback, and the `diff` helper that
 * keyboard.js installs on `Array.prototype` (the elements of one array that
 * do not occur in another). Arrays are modelled as sequences.
 */
module ArrayOps {

  /** No value occurs twice. */
  predicate NoDuplicates(s: seq<int>) {
    forall i, j :: 0 <= i < j < |s| ==> s[i] != s[j]
  }

  /**
   * `r` occurs in `s` in the same order, possibly with gaps (matched greedily
   * from the front, which is complete for subsequences).
   */
  predicate IsSubsequence(r: seq<int>, s: seq<int>)
    decreases |s|
  {
    if r == [] then true
    else if s == [] then false
    else if r[0] == s[0] then IsSubsequence(r[1..], s[1..])
    else IsSubsequence(r, s[1..])
  }

  /** `s.indexOf(x)`: the position of the first occurrence of `x`, or -1. */
  function IndexOf(s: seq<int>, x: int): (r: int)
    ensures -1 <= r < |s|
    ensures r == -1 <==> x !in s
    ensures 0 <= r ==> s[r] == x && x !in s[..r]
  {
    if s == [] then -1
    else if s[0] == x then 0
    else
      var j := IndexOf(s[1..], x);
      if j == -1 then -1
      else
        assert s[..j + 1] == [s[0]] + s[1..][..j];
        j + 1
  }

  /** `s.filter(keep)`: the elements of `s` for which `keep` holds, in order. */
  function Filter(s: seq<int>, keep: int -> bool): (r: seq<int>)
    ensures |r| <= |s|
    ensures forall x :: x in r <==> x in s && keep(x)
    ensures IsSubsequence(r, s)
  {
    if s == [] then []
    else
      assert s == [s[0]] + s[1..];
      var rest := Filter(s[1..], keep);
      if keep(s[0]) then [s[0]] + rest else rest
  }

  /** `s` with every occurrence of `x` taken out, the rest in order. */
  function Without(s: seq<int>, x: int): seq<int> {
    Filter(s, y => y != x)
  }

  /** `a.diff(b)`, i.e. `a.filter(i => b.indexOf(i) < 0)`. */
  function Diff(a: seq<int>, b: seq<int>): (r: seq<int>)
    ensures forall x :: x in r <==> x in a && x !in b
    ensures IsSubsequence(r, a)
    ensures NoDuplicates(a) ==> NoDuplicates(r)
  {
    FilterKeepsDistinct(a, i => IndexOf(b, i) < 0);
    Filter(a, i => IndexOf(b, i) < 0)
  }

  /** Filtering a list without duplicates cannot create one. */
  lemma {:induction false} FilterKeepsDistinct(s: seq<int>, keep: int -> bool)
    ensures NoDuplicates(s) ==> NoDuplicates(Filter(s, keep))
  {
    if s != [] && NoDuplicates(s) {
      var rest := Filter(s[1..], keep);
      TailKeepsDistinct(s);
      FilterKeepsDistinct(s[1..], keep);
      if keep(s[0]) {
        assert s[0] !in rest;
        var r := [s[0]] + rest;
        forall i, j | 0 <= i < j < |r| ensures r[i] != r[j] {
          if i == 0 {
            assert r[j] == rest[j - 1];
          } else {
            assert r[i] == rest[i - 1] && r[j] == rest[j - 1];
          }
        }
      }
    }
  }

  /** `filter` keeps every occurrence of a kept value and no occurrence of any other. */
  lemma {:induction false} FilterCounts(s: seq<int>, keep: int -> bool, x: int)
    ensures multiset(Filter(s, keep))[x] == if keep(x) then multiset(s)[x] else 0
  {
    if s != [] {
      FilterCounts(s[1..], keep, x);
      assert s == [s[0]] + s[1..];
    }
  }

  /** Filtering twice with the same predicate is filtering once. */
  lemma {:induction false} FilterIdempotent(s: seq<int>, keep: int -> bool)
    ensures Filter(Filter(s, keep), keep) == Filter(s, keep)
  {
    if s != [] {
      FilterIdempotent(s[1..], keep);
      var rest := Filter(s[1..], keep);
      if keep(s[0]) {
        var r := [s[0]] + rest;
        assert r[0] == s[0] && r[1..] == rest;
      }
    }
  }

  /**
   * `s.splice(s.indexOf(x), 1)` on a list without duplicates removes `x`
   * entirely and leaves every other element in its order.
   */
  lemma {:induction false} SpliceRemovesAll(s: seq<int>, x: int)
    requires NoDuplicates(s) && x in s
    ensures var i := IndexOf(s, x); s[..i] + s[i + 1..] == Without(s, x)
  {
    var i := IndexOf(s, x);
    var t := s[1..];
    TailKeepsDistinct(s);
    if i == 0 {
      assert x !in t;
      FilterAllKept(t, y => y != x);
      assert s[..0] + s[1..] == t;
    } else {
      assert IndexOf(t, x) == i - 1;
      var u := t[..i - 1] + t[i..];
      assert u == Without(t, x) by {
        SpliceRemovesAll(t, x);
      }
      assert s[..i] + s[i + 1..] == [s[0]] + u by {
        assert s[..i] == [s[0]] + t[..i - 1];
        assert s[i + 1..] == t[i..];
      }
      WithoutCons(s, x);
    }
  }

  /** Dropping the head of a list without duplicates leaves one without duplicates. */
  lemma TailKeepsDistinct(s: seq<int>)
    requires s != [] && NoDuplicates(s)
    ensures NoDuplicates(s[1..]) && s[0] !in s[1..]
  {
    forall a, b | 0 <= a < b < |s[1..]| ensures s[1..][a] != s[1..][b] {
      assert s[1..][a] == s[a + 1] && s[1..][b] == s[b + 1];
    }
  }

  /** `Without` on a non-empty list: the head stays exactly when it differs from `x`. */
  lemma WithoutCons(s: seq<int>, x: int)
    requires s != []
    ensures Without(s, x) == if s[0] != x then [s[0]] + Without(s[1..], x) else Without(s[1..], x)
  {
  }

  /** Taking out a value that does not occur changes nothing. */
  lemma WithoutAbsent(s: seq<int>, x: int)
    requires x !in s
    ensures Without(s, x) == s
  {
    FilterAllKept(s, y => y != x);
  }

  /** When `keep` holds for every element, `filter` returns the list unchanged. */
  lemma {:induction false} FilterAllKept(s: seq<int>, keep: int -> bool)
    requires forall x :: x in s ==> keep(x)
    ensures Filter(s, keep) == s
  {
    if s != [] {
      assert s[0] in s;
      assert forall x :: x in s[1..] ==> x in s;
      FilterAllKept(s[1..], keep);
      assert [s[0]] + s[1..] == s;
    }
  }
}
