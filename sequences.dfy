/** Facts about sequences used to state the filter and deduplication properties. */
module Sequences {

  /** The set of elements of a sequence. */
  function Elems<T>(s: seq<T>): set<T> {
    set x | x in s
  }

  /** No element occurs twice. */
  predicate NoDup<T(==)>(s: seq<T>) {
    forall i, j :: 0 <= i < j < |s| ==> s[i] != s[j]
  }

  /** `idx` lists, in strictly increasing order, the positions of `ys` that spell out `xs`. */
  predicate Embedding<T(==)>(idx: seq<nat>, xs: seq<T>, ys: seq<T>) {
    && |idx| == |xs|
    && (forall k :: 0 <= k < |idx| ==> idx[k] < |ys| && xs[k] == ys[idx[k]])
    && (forall k, l :: 0 <= k < l < |idx| ==> idx[k] < idx[l])
  }

  /** `xs` is obtained from `ys` by deleting elements, keeping the order of the rest. */
  ghost predicate IsSubsequence<T>(xs: seq<T>, ys: seq<T>) {
    exists idx: seq<nat> :: Embedding(idx, xs, ys)
  }

  /** A duplicate-free sequence with the same elements as `xs`: what `list(set(xs))` may return. */
  predicate IsArrangement<T(==)>(d: seq<T>, xs: seq<T>) {
    NoDup(d) && Elems(d) == Elems(xs)
  }

  /** A subsequence of a duplicate-free sequence is duplicate-free. */
  lemma SubsequenceKeepsNoDup<T>(xs: seq<T>, ys: seq<T>)
    requires IsSubsequence(xs, ys) && NoDup(ys)
    ensures NoDup(xs)
  {
    var idx :| Embedding(idx, xs, ys);
    forall i, j | 0 <= i < j < |xs| ensures xs[i] != xs[j] {
      assert idx[i] < idx[j];
    }
  }

  /** A duplicate-free sequence has as many distinct elements as it has positions. */
  lemma {:induction false} NoDupCard<T>(s: seq<T>)
    requires NoDup(s)
    ensures |Elems(s)| == |s|
  {
    if s != [] {
      var init := s[..|s| - 1];
      NoDupCard(init);
      assert Elems(s) == Elems(init) + {s[|s| - 1]};
      assert s[|s| - 1] !in Elems(init);
    }
  }

  /** A duplicate-free sequence whose only element is `a` is `[a]`. */
  lemma SingletonArrangement<T>(d: seq<T>, a: T)
    requires NoDup(d) && Elems(d) == {a}
    ensures d == [a]
  {
    NoDupCard(d);
    assert d[0] in Elems(d);
  }

  /** The elements of `s` that `keep` accepts, in their order. */
  function Filter<T>(s: seq<T>, keep: T -> bool): seq<T> {
    if s == [] then []
    else Filter(s[..|s| - 1], keep) + (if keep(s[|s| - 1]) then [s[|s| - 1]] else [])
  }

  /** An element survives exactly when it occurs and is accepted. */
  lemma {:induction false} FilterMembership<T>(s: seq<T>, keep: T -> bool, x: T)
    ensures x in Filter(s, keep) <==> x in s && keep(x)
  {
    if s != [] {
      var init := s[..|s| - 1];
      FilterMembership(init, keep, x);
      assert s == init + [s[|s| - 1]];
    }
  }

  /** The positions of the survivors, as a witness that they form a subsequence. */
  lemma {:induction false} FilterPositions<T>(s: seq<T>, keep: T -> bool) returns (idx: seq<nat>)
    ensures Embedding(idx, Filter(s, keep), s)
  {
    if s == [] {
      idx := [];
    } else {
      var n := |s| - 1;
      var init := s[..n];
      var prev := FilterPositions(init, keep);
      var kept := Filter(init, keep);
      assert forall k :: 0 <= k < |prev| ==> prev[k] < n && kept[k] == s[prev[k]];
      if keep(s[n]) {
        idx := prev + [n];
        assert Filter(s, keep) == kept + [s[n]];
      } else {
        idx := prev;
        assert Filter(s, keep) == kept;
      }
    }
  }

  /** The survivors appear unchanged and in their original order. */
  lemma FilterIsSubsequence<T>(s: seq<T>, keep: T -> bool)
    ensures IsSubsequence(Filter(s, keep), s)
  {
    var idx := FilterPositions(s, keep);
  }

  /** Filtering distributes over concatenation. */
  lemma {:induction false} FilterAppend<T>(a: seq<T>, b: seq<T>, keep: T -> bool)
    ensures Filter(a + b, keep) == Filter(a, keep) + Filter(b, keep)
  {
    if b == [] {
      assert a + b == a;
    } else {
      var n := |b| - 1;
      assert (a + b)[..|a + b| - 1] == a + b[..n];
      FilterAppend(a, b[..n], keep);
    }
  }

  /** Filtering twice is filtering once. */
  lemma {:induction false} FilterIdempotent<T>(s: seq<T>, keep: T -> bool)
    ensures Filter(Filter(s, keep), keep) == Filter(s, keep)
  {
    if s != [] {
      var n := |s| - 1;
      var last := s[n];
      var tail := if keep(last) then [last] else [];
      FilterIdempotent(s[..n], keep);
      FilterAppend(Filter(s[..n], keep), tail, keep);
      assert Filter(tail, keep) == tail by {
        if keep(last) {
          assert tail[..0] == [];
        }
      }
    }
  }

  /** Filtering a duplicate-free sequence leaves it duplicate-free. */
  lemma FilterKeepsNoDup<T>(s: seq<T>, keep: T -> bool)
    requires NoDup(s)
    ensures NoDup(Filter(s, keep))
  {
    FilterIsSubsequence(s, keep);
    SubsequenceKeepsNoDup(Filter(s, keep), s);
  }

  /** Nothing survives when nothing is accepted. */
  lemma {:induction false} FilterNone<T>(s: seq<T>, keep: T -> bool)
    requires forall k :: 0 <= k < |s| ==> !keep(s[k])
    ensures Filter(s, keep) == []
  {
    if s != [] {
      var init := s[..|s| - 1];
      assert forall k :: 0 <= k < |init| ==> init[k] == s[k];
      FilterNone(init, keep);
    }
  }

  /** A one-element sequence keeps its element exactly when it is accepted. */
  lemma FilterSingleton<T>(x: T, keep: T -> bool)
    ensures Filter([x], keep) == if keep(x) then [x] else []
  {
    assert [x][..0] == [];
  }

  /** The concatenation of `f(x)` over the elements `x` of `xs`, in order. */
  function FlatMap<A, B>(xs: seq<A>, f: A -> seq<B>): seq<B> {
    if xs == [] then [] else FlatMap(xs[..|xs| - 1], f) + f(xs[|xs| - 1])
  }

  lemma FlatMapSnoc<A, B>(xs: seq<A>, x: A, f: A -> seq<B>)
    ensures FlatMap(xs + [x], f) == FlatMap(xs, f) + f(x)
  {
    assert (xs + [x])[..|xs|] == xs;
  }

  lemma {:induction false} FlatMapAppend<A, B>(a: seq<A>, b: seq<A>, f: A -> seq<B>)
    ensures FlatMap(a + b, f) == FlatMap(a, f) + FlatMap(b, f)
    decreases |b|
  {
    if b == [] {
      assert a + b == a;
    } else {
      var init, last := b[..|b| - 1], b[|b| - 1];
      assert a + b == (a + init) + [last];
      FlatMapSnoc(a + init, last, f);
      FlatMapAppend(a, init, f);
      FlatMapSnoc(init, last, f);
      assert init + [last] == b;
    }
  }

  /** `y` occurs in the concatenation exactly when it occurs in some `f(xs[k])`. */
  lemma {:induction false} FlatMapMembership<A, B>(xs: seq<A>, f: A -> seq<B>, y: B)
    ensures y in FlatMap(xs, f) <==> exists k :: 0 <= k < |xs| && y in f(xs[k])
  {
    if xs != [] {
      var n := |xs| - 1;
      var init := xs[..n];
      FlatMapMembership(init, f, y);
      if y in FlatMap(xs, f) {
        if y in FlatMap(init, f) {
          var k :| 0 <= k < |init| && y in f(init[k]);
          assert init[k] == xs[k];
        } else {
          assert y in f(xs[n]);
        }
      }
      if exists k :: 0 <= k < |xs| && y in f(xs[k]) {
        var k :| 0 <= k < |xs| && y in f(xs[k]);
        if k < n {
          assert init[k] == xs[k];
        }
      }
    }
  }

  /** The concatenation is empty when every part is. */
  lemma {:induction false} FlatMapOfEmpties<A, B>(xs: seq<A>, f: A -> seq<B>)
    requires forall k :: 0 <= k < |xs| ==> f(xs[k]) == []
    ensures FlatMap(xs, f) == []
  {
    if xs != [] {
      var init := xs[..|xs| - 1];
      assert forall k :: 0 <= k < |init| ==> init[k] == xs[k];
      FlatMapOfEmpties(init, f);
    }
  }
}
