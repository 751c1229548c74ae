/** Specification functions over the vector's element sequence, with the
    properties the vector's operations are proved against. */
module Sequences {

  /** Ascending order, stated over every pair of positions. */
  predicate Sorted(s: seq<int>)
  {
    forall i, j :: 0 <= i < j < |s| ==> s[i] <= s[j]
  }

  /** No value occurs twice. */
  predicate NoDups<T(==)>(s: seq<T>)
  {
    forall i, j :: 0 <= i < j < |s| ==> s[i] != s[j]
  }

  /** `s` with the element at position `i` taken out. */
  function Removed<T>(s: seq<T>, i: int): (r: seq<T>)
    requires 0 <= i < |s|
    ensures |r| == |s| - 1
    ensures forall k :: 0 <= k < i ==> r[k] == s[k]
    ensures forall k :: i <= k < |r| ==> r[k] == s[k + 1]
    ensures multiset(r) == multiset(s) - multiset{s[i]}
  {
    assert s == s[..i] + [s[i]] + s[i + 1..];
    s[..i] + s[i + 1..]
  }

  /** Position of the first occurrence of `x` in `s`, or -1 when absent. */
  function FirstIndexOf<T(==)>(s: seq<T>, x: T): (r: int)
    ensures -1 <= r < |s|
    ensures r == -1 <==> x !in s
    ensures 0 <= r ==> s[r] == x && x !in s[..r]
  {
    if s == [] then -1
    else if s[0] == x then 0
    else
      var r := FirstIndexOf(s[1..], x);
      assert s[1..][..r + 1] == s[1..r + 2] by { if r >= 0 { } }
      if r < 0 then -1 else r + 1
  }

  /** A position holding `x` with no `x` before it is the first index of `x`. */
  lemma FirstIndexOfUnique<T>(s: seq<T>, x: T, i: int)
    requires 0 <= i < |s| && s[i] == x && x !in s[..i]
    ensures FirstIndexOf(s, x) == i
  {
    var r := FirstIndexOf(s, x);
    assert x in s;
  }

  /** `s` with every occurrence of `x` left out, the others in their order. */
  function AllRemoved<T(==)>(s: seq<T>, x: T): (r: seq<T>)
    ensures x !in r
    ensures multiset(r) == multiset(s)[x := 0]
  {
    if s == [] then []
    else
      var init, last := s[..|s| - 1], s[|s| - 1];
      assert s == init + [last];
      if last == x then AllRemoved(init, x) else AllRemoved(init, x) + [last]
  }

  /** Removing every `x` keeps the relative order of the other elements:
      it distributes over concatenation. */
  lemma {:induction false} AllRemovedAppend<T>(a: seq<T>, b: seq<T>, x: T)
    ensures AllRemoved(a + b, x) == AllRemoved(a, x) + AllRemoved(b, x)
  {
    if b == [] {
      assert a + b == a;
    } else {
      var bi := b[..|b| - 1];
      assert (a + b)[..|a + b| - 1] == a + bi;
      AllRemovedAppend(a, bi, x);
    }
  }

  /** Removing a value that does not occur changes nothing. */
  lemma {:induction false} AllRemovedAbsent<T>(s: seq<T>, x: T)
    requires x !in s
    ensures AllRemoved(s, x) == s
  {
    if s != [] {
      AllRemovedAbsent(s[..|s| - 1], x);
    }
  }

  /** The first occurrence of every value, in the order the values are first
      seen. */
  function Dedup<T(==)>(s: seq<T>): (r: seq<T>)
    ensures NoDups(r)
    ensures forall i :: 0 <= i < |r| ==> r[i] in s
    ensures forall i :: 0 <= i < |s| ==> s[i] in r
  {
    if s == [] then []
    else
      var init, last := s[..|s| - 1], s[|s| - 1];
      assert s == init + [last];
      if last in init then Dedup(init) else Dedup(init) + [last]
  }

  /** A sequence without duplicates is its own deduplication. */
  lemma {:induction false} DedupNoDups<T>(s: seq<T>)
    requires NoDups(s)
    ensures Dedup(s) == s
  {
    if s != [] {
      var init, last := s[..|s| - 1], s[|s| - 1];
      assert last !in init;
      DedupNoDups(init);
    }
  }

  /** Deduplicating twice is deduplicating once. */
  lemma DedupIdempotent<T>(s: seq<T>)
    ensures Dedup(Dedup(s)) == Dedup(s)
  {
    DedupNoDups(Dedup(s));
  }

  /** The first occurrence of a value in a prefix is its first occurrence in
      any extension of the prefix. */
  lemma FirstIndexOfExtend<T>(s: seq<T>, t: seq<T>, x: T)
    requires x in s
    ensures FirstIndexOf(s + t, x) == FirstIndexOf(s, x)
  {
    var r, r' := FirstIndexOf(s, x), FirstIndexOf(s + t, x);
    assert (s + t)[..r] == s[..r];
    assert (s + t)[r] == x;
  }

  /** The values kept by `Dedup` appear in the order of their first
      occurrences in the original sequence. */
  predicate FirstSeenOrder<T(==)>(s: seq<T>, d: seq<T>)
  {
    forall p, q :: 0 <= p < q < |d| ==> FirstIndexOf(s, d[p]) < FirstIndexOf(s, d[q])
  }

  /** Appending an element moves no first occurrence of an earlier value. */
  lemma FirstIndexOfSnoc<T>(init: seq<T>, last: T)
    ensures forall y :: y in init ==> FirstIndexOf(init + [last], y) == FirstIndexOf(init, y)
  {
    forall y | y in init ensures FirstIndexOf(init + [last], y) == FirstIndexOf(init, y) {
      FirstIndexOfExtend(init, [last], y);
    }
  }

  /** The step of `DedupFirstSeenOrder` for a last element seen before. */
  lemma DedupOrderSeen<T>(init: seq<T>, last: T)
    requires last in init && FirstSeenOrder(init, Dedup(init))
    ensures FirstSeenOrder(init + [last], Dedup(init + [last]))
  {
    var s := init + [last];
    assert s[..|s| - 1] == init;
    var d := Dedup(s);
    assert d == Dedup(init);
    FirstIndexOfSnoc(init, last);
    forall p, q | 0 <= p < q < |d| ensures FirstIndexOf(s, d[p]) < FirstIndexOf(s, d[q]) {
      assert d[p] in init && d[q] in init;
    }
  }

  /** The step of `DedupFirstSeenOrder` for a last element not seen before. */
  lemma DedupOrderFresh<T>(init: seq<T>, last: T)
    requires last !in init && FirstSeenOrder(init, Dedup(init))
    ensures FirstSeenOrder(init + [last], Dedup(init + [last]))
  {
    var s := init + [last];
    assert s[..|s| - 1] == init;
    var d, di := Dedup(s), Dedup(init);
    assert d == di + [last];
    FirstIndexOfSnoc(init, last);
    assert FirstIndexOf(s, last) == |s| - 1 by {
      FirstIndexOfUnique(s, last, |s| - 1);
    }
    forall p, q | 0 <= p < q < |d| ensures FirstIndexOf(s, d[p]) < FirstIndexOf(s, d[q]) {
      assert d[p] == di[p] && d[p] in init;
      if q < |di| {
        assert d[q] == di[q] && d[q] in init;
      }
    }
  }

  lemma {:induction false} DedupFirstSeenOrder<T>(s: seq<T>)
    ensures FirstSeenOrder(s, Dedup(s))
  {
    if s != [] {
      var init, last := s[..|s| - 1], s[|s| - 1];
      assert s == init + [last];
      DedupFirstSeenOrder(init);
      if last in init {
        DedupOrderSeen(init, last);
      } else {
        DedupOrderFresh(init, last);
      }
    }
  }

  /** The positions holding `x` in `s`, ascending. */
  function IndicesOf<T(==)>(s: seq<T>, x: T): (r: seq<int>)
    ensures |r| == multiset(s)[x]
    ensures forall k :: 0 <= k < |r| ==> 0 <= r[k] < |s| && s[r[k]] == x
  {
    if s == [] then []
    else
      var init, last := s[..|s| - 1], s[|s| - 1];
      assert s == init + [last];
      IndicesOf(init, x) + if last == x then [|s| - 1] else []
  }

  /** Every position holding `x` is listed. */
  lemma {:induction false} IndicesOfComplete<T>(s: seq<T>, x: T)
    ensures forall i :: 0 <= i < |s| && s[i] == x ==> i in IndicesOf(s, x)
  {
    if s != [] {
      var init := s[..|s| - 1];
      IndicesOfComplete(init, x);
      forall i | 0 <= i < |s| - 1 && s[i] == x ensures i in IndicesOf(s, x) {
        assert init[i] == x;
      }
    }
  }

  /** The positions are listed in strictly increasing order. */
  lemma {:induction false} IndicesOfAscending<T>(s: seq<T>, x: T)
    ensures forall p, q :: 0 <= p < q < |IndicesOf(s, x)| ==> IndicesOf(s, x)[p] < IndicesOf(s, x)[q]
  {
    if s != [] {
      var init := s[..|s| - 1];
      IndicesOfAscending(init, x);
    }
  }

  /** `s` back to front. */
  function Reversed<T>(s: seq<T>): (r: seq<T>)
    ensures |r| == |s|
    ensures forall k :: 0 <= k < |s| ==> r[k] == s[|s| - 1 - k]
  {
    if s == [] then [] else [s[|s| - 1]] + Reversed(s[..|s| - 1])
  }

  /** Reversing twice restores the sequence. */
  lemma ReversedInvolution<T>(s: seq<T>)
    ensures Reversed(Reversed(s)) == s
  {
  }

  /** Insertion of `x` into `s` before the first element not below it. */
  function SortedInsert(s: seq<int>, x: int): (r: seq<int>)
    ensures multiset(r) == multiset(s) + multiset{x}
  {
    if s == [] then [x]
    else if x <= s[0] then [x] + s
    else
      assert s == [s[0]] + s[1..];
      [s[0]] + SortedInsert(s[1..], x)
  }

  /** A lower bound of `s` and `x` bounds the result of inserting `x`. */
  lemma SortedInsertBound(s: seq<int>, x: int, lo: int)
    requires forall k :: 0 <= k < |s| ==> lo <= s[k]
    requires lo <= x
    ensures forall k :: 0 <= k < |SortedInsert(s, x)| ==> lo <= SortedInsert(s, x)[k]
  {
    var t := SortedInsert(s, x);
    forall k | 0 <= k < |t| ensures lo <= t[k] {
      assert t[k] in multiset(t);
      if t[k] != x {
        assert t[k] in multiset(s);
        var j :| 0 <= j < |s| && s[j] == t[k];
      }
    }
  }

  /** Inserting into a sorted sequence keeps it sorted. */
  lemma {:induction false} SortedInsertSorted(s: seq<int>, x: int)
    requires Sorted(s)
    ensures Sorted(SortedInsert(s, x))
  {
    if s != [] && x > s[0] {
      var tail := s[1..];
      var t := SortedInsert(tail, x);
      SortedInsertSorted(tail, x);
      assert forall k :: 0 <= k < |tail| ==> s[0] <= tail[k];
      SortedInsertBound(tail, x, s[0]);
      var r := [s[0]] + t;
      assert r == SortedInsert(s, x);
      forall i, j | 0 <= i < j < |r| ensures r[i] <= r[j] {
        if i > 0 {
          assert r[i] == t[i - 1] && r[j] == t[j - 1];
        }
      }
    }
  }

  /** The first element of a sorted sequence is below every element of it. */
  lemma SortedHeadLeast(a: seq<int>, v: int)
    requires Sorted(a) && v in multiset(a)
    ensures a[0] <= v
  {
    var j :| 0 <= j < |a| && a[j] == v;
    assert a[0] <= a[j];
  }

  /** Two sorted sequences with the same elements are the same sequence. */
  lemma {:induction false} SortedUnique(a: seq<int>, b: seq<int>)
    requires Sorted(a) && Sorted(b)
    requires multiset(a) == multiset(b)
    ensures a == b
  {
    assert |a| == |multiset(a)| == |multiset(b)| == |b|;
    if a != [] {
      assert a[0] in multiset(a) && b[0] in multiset(b);
      SortedHeadLeast(a, b[0]);
      SortedHeadLeast(b, a[0]);
      assert a[0] == b[0];
      assert a == [a[0]] + a[1..];
      assert b == [b[0]] + b[1..];
      assert multiset(a) == multiset{a[0]} + multiset(a[1..]);
      assert multiset(b) == multiset{a[0]} + multiset(b[1..]);
      assert multiset(a) - multiset{a[0]} == multiset(a[1..]);
      assert multiset(b) - multiset{a[0]} == multiset(b[1..]);
      SortedUnique(a[1..], b[1..]);
    }
  }

  /** The splice of `x` into position `k` of `s`. */
  function Spliced(s: seq<int>, k: int, x: int): (r: seq<int>)
    requires 0 <= k <= |s|
    ensures |r| == |s| + 1 && r[k] == x
    ensures forall i :: 0 <= i < k ==> r[i] == s[i]
    ensures forall i :: k < i < |r| ==> r[i] == s[i - 1]
    ensures multiset(r) == multiset(s) + multiset{x}
  {
    assert s == s[..k] + s[k..];
    s[..k] + [x] + s[k..]
  }

  /** Splicing at either end is prepending or appending. */
  lemma SplicedEnds(s: seq<int>, x: int)
    ensures Spliced(s, 0, x) == [x] + s
    ensures Spliced(s, |s|, x) == s + [x]
  {
    assert s[..0] == [] && s[0..] == s;
    assert s[..|s|] == s && s[|s|..] == [];
  }

  /** Splicing `x` into a gap of a sorted sequence whose neighbours bracket
      it keeps the sequence sorted. */
  lemma SplicedSorted(s: seq<int>, k: int, x: int)
    requires Sorted(s) && 0 <= k <= |s|
    requires 0 < k ==> s[k - 1] <= x
    requires k < |s| ==> x <= s[k]
    ensures Sorted(Spliced(s, k, x))
  {
    var r := Spliced(s, k, x);
    forall i, j | 0 <= i < j < |r| ensures r[i] <= r[j] {
      if j < k {
        assert r[i] == s[i] && r[j] == s[j];
      } else if j == k {
        assert r[i] == s[i] <= s[k - 1];
      } else if i == k {
        assert r[j] == s[j - 1];
      } else if i < k {
        assert r[i] == s[i] && r[j] == s[j - 1];
      } else {
        assert r[i] == s[i - 1] && r[j] == s[j - 1];
      }
    }
  }

  /** Splicing `x` into any gap of a sorted sequence whose neighbours bracket
      it gives the same result as `SortedInsert`, wherever in a run of equal
      values the gap lies. */
  lemma InsertInGap(s: seq<int>, x: int, k: int)
    requires Sorted(s) && 0 <= k <= |s|
    requires 0 < k ==> s[k - 1] <= x
    requires k < |s| ==> x <= s[k]
    ensures Spliced(s, k, x) == SortedInsert(s, x)
  {
    SplicedSorted(s, k, x);
    SortedInsertSorted(s, x);
    SortedUnique(Spliced(s, k, x), SortedInsert(s, x));
  }

  /** A value occurs at least twice exactly when two distinct positions hold it. */
  lemma {:induction false} TwoOccurrences<T>(s: seq<T>, v: T)
    ensures multiset(s)[v] >= 2 <==>
      exists p, q :: 0 <= p < q < |s| && s[p] == v && s[q] == v
  {
    if s != [] {
      var init, last := s[..|s| - 1], s[|s| - 1];
      assert s == init + [last];
      TwoOccurrences(init, v);
      if multiset(s)[v] >= 2 {
        if last == v {
          assert v in multiset(init);
          var p :| 0 <= p < |init| && init[p] == v;
          assert s[p] == v && s[|s| - 1] == v;
        } else {
          var p, q :| 0 <= p < q < |init| && init[p] == v && init[q] == v;
          assert s[p] == v && s[q] == v;
        }
      }
      if exists p, q :: 0 <= p < q < |s| && s[p] == v && s[q] == v {
        var p, q :| 0 <= p < q < |s| && s[p] == v && s[q] == v;
        if q < |s| - 1 {
          assert init[p] == v && init[q] == v;
        } else {
          assert init[p] == v;
          assert v in multiset(init);
        }
      }
    }
  }
}
