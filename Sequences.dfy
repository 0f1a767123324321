/**
 * The list shapes the scraper builds with loops: keeping the elements that
 * pass a test, collecting what a partial function yields, and lists without
 * repeats.
 */
module Sequences {
  import opened Wrappers

  /** The elements of `xs` that satisfy `p`, in order. */
  function Filter<T>(xs: seq<T>, p: T -> bool): (r: seq<T>)
    ensures forall k :: 0 <= k < |r| ==> r[k] in xs && p(r[k])
    ensures forall k :: 0 <= k < |xs| && p(xs[k]) ==> xs[k] in r
  {
    if |xs| == 0 then []
    else
      var last := xs[|xs| - 1];
      assert xs == xs[..|xs| - 1] + [last];
      Filter(xs[..|xs| - 1], p) + (if p(last) then [last] else [])
  }

  /** What `f` yields for the elements of `xs`, in order, skipping those it yields nothing for. */
  function Collect<A, B>(xs: seq<A>, f: A -> Option<B>): seq<B> {
    if |xs| == 0 then []
    else Collect(xs[..|xs| - 1], f) + ToSeq(f(xs[|xs| - 1]))
  }

  /** `Collect` yields exactly the values `f` yields for some element. */
  lemma {:induction false} CollectExact<A, B>(xs: seq<A>, f: A -> Option<B>, y: B)
    ensures y in Collect(xs, f) <==> exists i :: 0 <= i < |xs| && f(xs[i]) == Some(y)
  {
    if |xs| > 0 {
      var init := xs[..|xs| - 1];
      CollectExact(init, f, y);
      if i :| 0 <= i < |init| && f(init[i]) == Some(y) {
        assert xs[i] == init[i];
      }
      if i :| 0 <= i < |xs| && f(xs[i]) == Some(y) {
        if i < |init| {
          assert init[i] == xs[i];
        }
      }
    }
  }

  /** Collecting over a concatenation concatenates what is collected. */
  lemma {:induction false} CollectAppend<A, B>(xs: seq<A>, ys: seq<A>, f: A -> Option<B>)
    ensures Collect(xs + ys, f) == Collect(xs, f) + Collect(ys, f)
  {
    if |ys| > 0 {
      var init := ys[..|ys| - 1];
      assert (xs + ys)[..|xs + ys| - 1] == xs + init;
      CollectAppend(xs, init, f);
    } else {
      assert xs + ys == xs;
    }
  }

  /** An element `f` yields nothing for leaves the rest of the collection as it is. */
  lemma CollectSkips<A, B>(xs: seq<A>, a: A, ys: seq<A>, f: A -> Option<B>)
    requires f(a).None?
    ensures Collect(xs + [a] + ys, f) == Collect(xs, f) + Collect(ys, f)
  {
    var xa := xs + [a];
    assert xa[..|xa| - 1] == xs;
    assert Collect(xa, f) == Collect(xs, f) + [];
    assert Collect(xs, f) + [] == Collect(xs, f);
    CollectAppend(xa, ys, f);
  }

  /** The occurrences of `x` around one more `x`. */
  lemma CountAround<T>(a: seq<T>, x: T, b: seq<T>)
    ensures multiset(a + [x] + b)[x] == multiset(a)[x] + 1 + multiset(b)[x]
  {
    assert multiset(a + [x] + b) == multiset(a) + multiset{x} + multiset(b);
  }

  lemma AppendAssoc<T>(a: seq<T>, b: seq<T>, c: seq<T>)
    ensures a + (b + c) == (a + b) + c
  {
  }

  predicate Distinct<T(==)>(s: seq<T>) {
    forall i, j :: 0 <= i < j < |s| ==> s[i] != s[j]
  }

  lemma {:induction false} DistinctAtMostOnce<T>(s: seq<T>, x: T)
    requires Distinct(s)
    ensures multiset(s)[x] <= 1
  {
    if |s| > 0 {
      assert s == [s[0]] + s[1..];
      DistinctAtMostOnce(s[1..], x);
    }
  }

  lemma TwiceCounted<T>(s: seq<T>, i: int, j: int)
    requires 0 <= i < j < |s| && s[i] == s[j]
    ensures multiset(s)[s[i]] >= 2
  {
    assert s == s[..j] + [s[j]] + s[j + 1..];
    assert s[i] in s[..j];
  }

  /** Reordering keeps a list free of repeats. */
  lemma DistinctPermutation<T>(s: seq<T>, t: seq<T>)
    requires multiset(s) == multiset(t) && Distinct(s)
    ensures Distinct(t)
  {
    forall i, j | 0 <= i < j < |t| ensures t[i] != t[j] {
      if t[i] == t[j] {
        TwiceCounted(t, i, j);
        DistinctAtMostOnce(s, t[i]);
      }
    }
  }
}
