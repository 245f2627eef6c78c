/** Sequence helpers shared by the selection manager and the catalogue pages. */
module Seqs {

  /** `array.filter(p)`: the elements satisfying `p`, in their original order. */
  function Filter<T(!new)>(s: seq<T>, p: T -> bool): (r: seq<T>)
    ensures |r| <= |s|
    ensures forall x :: x in r <==> x in s && p(x)
    ensures forall i :: 0 <= i < |r| ==> p(r[i])
  {
    if |s| == 0 then []
    else
      var rest := Filter(s[1..], p);
      if p(s[0]) then
        var r := [s[0]] + rest;
        assert forall i :: 1 <= i < |r| ==> r[i] == rest[i - 1];
        r
      else rest
  }

  /** Filtering distributes over concatenation, so the original order is kept. */
  lemma {:induction false} FilterAppend<T(!new)>(a: seq<T>, b: seq<T>, p: T -> bool)
    ensures Filter(a + b, p) == Filter(a, p) + Filter(b, p)
  {
    if |a| == 0 {
      assert a + b == b;
    } else {
      assert (a + b)[1..] == a[1..] + b;
      FilterAppend(a[1..], b, p);
    }
  }

  /** A filter every element passes changes nothing. */
  lemma {:induction false} FilterAll<T(!new)>(s: seq<T>, p: T -> bool)
    requires forall i :: 0 <= i < |s| ==> p(s[i])
    ensures Filter(s, p) == s
  {
    if |s| > 0 {
      FilterAll(s[1..], p);
      assert s == [s[0]] + s[1..];
    }
  }

  /** Filters whose predicates agree on every element give the same result. */
  lemma {:induction false} FilterSame<T(!new)>(s: seq<T>, p: T -> bool, q: T -> bool)
    requires forall i :: 0 <= i < |s| ==> p(s[i]) == q(s[i])
    ensures Filter(s, p) == Filter(s, q)
  {
    if |s| > 0 {
      FilterSame(s[1..], p, q);
    }
  }

  /** The position of the first occurrence of `x`. */
  function FirstIndex<T(==)>(s: seq<T>, x: T): (i: nat)
    requires x in s
    ensures i < |s| && s[i] == x && x !in s[..i]
  {
    if s[0] == x then 0
    else
      var j := FirstIndex(s[1..], x);
      assert s[..j + 1] == [s[0]] + s[1..][..j];
      j + 1
  }

  /** An element already in a prefix is first found at the same place in the whole. */
  lemma FirstIndexPrefix<T>(s: seq<T>, k: nat, x: T)
    requires k <= |s| && x in s[..k]
    ensures FirstIndex(s, x) == FirstIndex(s[..k], x)
  {
    var i := FirstIndex(s[..k], x);
    var j := FirstIndex(s, x);
    assert s[..k][..i] == s[..i];
    assert s[..k][i] == s[i];
    assert forall m :: 0 <= m < i ==> s[..i][m] == s[m];
    assert forall m :: 0 <= m < j ==> s[..j][m] == s[m];
  }

  lemma AppendAssoc<T>(p: seq<T>, q: seq<T>, r: seq<T>)
    ensures p + (q + r) == (p + q) + r
  {
  }

  /** A list with one element in front is duplicate-free when the rest is and lacks that element. */
  lemma DistinctCons<T>(x: T, s: seq<T>)
    ensures Distinct([x] + s) <==> x !in s && Distinct(s)
  {
    var l := [x] + s;
    assert forall i :: 0 <= i < |s| ==> l[i + 1] == s[i];
    if x in s {
      var k :| 0 <= k < |s| && s[k] == x;
      assert l[0] == l[k + 1];
    }
  }

  /** `s.slice(0, n)`: the first `n` elements, or all of them when there are fewer. */
  function Take<T>(s: seq<T>, n: nat): (r: seq<T>)
    ensures |r| == if n <= |s| then n else |s|
    ensures r == s[..|r|]
  {
    if n <= |s| then s[..n] else s
  }

  /** No element occurs twice. */
  predicate Distinct<T(==)>(s: seq<T>) {
    forall i, j :: 0 <= i < j < |s| ==> s[i] != s[j]
  }

  /** Two duplicate-free sequences with no common element concatenate to a duplicate-free one. */
  lemma DistinctAppend<T>(a: seq<T>, b: seq<T>)
    requires Distinct(a) && Distinct(b)
    requires forall x :: x in a ==> x !in b
    ensures Distinct(a + b)
  {
    forall i, j | 0 <= i < j < |a + b|
      ensures (a + b)[i] != (a + b)[j]
    {
      if i < |a| && |a| <= j {
        assert (a + b)[i] in a && (a + b)[j] == b[j - |a|];
      }
    }
  }

  /** `array.forEach` setting a flag when some element passes `p`. */
  method AnyOf<T>(s: seq<T>, p: T -> bool) returns (found: bool)
    ensures found <==> exists x :: x in s && p(x)
  {
    found := false;
    var j := 0;
    while j < |s|
      invariant 0 <= j <= |s|
      invariant found <==> exists x :: x in s[..j] && p(x)
    {
      assert s[..j + 1] == s[..j] + [s[j]];
      if p(s[j]) {
        found := true;
      }
      j := j + 1;
    }
    assert s[..j] == s;
  }

  /** The union of `f(x)` over the elements of `xs`, gathered left to right. */
  function UnionOf<T, U>(xs: seq<T>, f: T -> set<U>): set<U> {
    if |xs| == 0 then {} else UnionOf(xs[..|xs| - 1], f) + f(xs[|xs| - 1])
  }

  /** A value is in the union exactly when some element contributes it. */
  lemma {:induction false} UnionOfMembers<T, U>(xs: seq<T>, f: T -> set<U>, y: U)
    ensures y in UnionOf(xs, f) <==> exists x :: x in xs && y in f(x)
  {
    if |xs| > 0 {
      var n := |xs| - 1;
      var pre, last := xs[..n], xs[n];
      UnionOfMembers(pre, f, y);
      if y in f(last) {
        assert last in xs;
      } else if y in UnionOf(pre, f) {
        var x :| x in pre && y in f(x);
        assert x in xs;
      } else {
        forall x | x in xs
          ensures y !in f(x)
        {
          assert x in pre || x == last by {
            assert xs == pre + [last];
          }
        }
      }
    }
  }

  /** One more element adds its own contribution. */
  lemma UnionOfPrefix<T, U>(xs: seq<T>, f: T -> set<U>, i: nat)
    requires i < |xs|
    ensures UnionOf(xs[..i + 1], f) == UnionOf(xs[..i], f) + f(xs[i])
  {
    assert xs[..i + 1][..i] == xs[..i];
  }
}
