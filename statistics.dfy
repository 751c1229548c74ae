/** Most-frequent values of an element sequence, and what can be read off a
    sorted list of the counts of a frequency table (the way `Mode` and
    `Modes` find the highest count). */
module Statistics {
  import opened Sequences

  /** `x` occurs in `s`, and no value occurs more often than `x`. */
  ghost predicate IsMostFrequent(s: seq<int>, x: int)
  {
    x in s && forall y :: multiset(s)[y] <= multiset(s)[x]
  }

  /** A frequency table of `s` laid out as two parallel lists: `keys` holds
      every distinct value of `s` once, and `counts[j]` is the number of
      occurrences of `keys[j]`. */
  ghost predicate FrequencyListing(s: seq<int>, keys: seq<int>, counts: seq<int>)
  {
    && |keys| == |counts|
    && NoDups(keys)
    && (forall j :: 0 <= j < |keys| ==> keys[j] in s && counts[j] == multiset(s)[keys[j]])
    && (forall i :: 0 <= i < |s| ==> s[i] in keys)
  }

  /** Every value of `s` has a position in the listing. */
  lemma ListingIndex(s: seq<int>, keys: seq<int>, counts: seq<int>, x: int) returns (j: int)
    requires FrequencyListing(s, keys, counts) && x in s
    ensures 0 <= j < |keys| && keys[j] == x && counts[j] == multiset(s)[x]
  {
    var i :| 0 <= i < |s| && s[i] == x;
    assert s[i] in keys;
    j :| 0 <= j < |keys| && keys[j] == x;
  }

  /** The last entry of the sorted counts is the highest count, and the most
      frequent values are exactly the values that reach it. */
  lemma ListingTop(s: seq<int>, keys: seq<int>, counts: seq<int>, t: seq<int>)
    requires FrequencyListing(s, keys, counts)
    requires Sorted(t) && multiset(t) == multiset(counts) && |s| > 0
    ensures |t| == |keys| > 0
    ensures forall x :: IsMostFrequent(s, x) <==> x in s && multiset(s)[x] == t[|t| - 1]
  {
    assert |t| == |multiset(t)| == |multiset(counts)| == |counts|;
    var j0 := ListingIndex(s, keys, counts, s[0]);
    var top := t[|t| - 1];
    assert top in multiset(counts);
    var jt :| 0 <= jt < |counts| && counts[jt] == top;
    forall y ensures multiset(s)[y] <= top {
      if y in s {
        var j := ListingIndex(s, keys, counts, y);
        assert counts[j] in multiset(t);
        var p :| 0 <= p < |t| && t[p] == counts[j];
        assert t[p] <= top;
      }
    }
    forall x ensures IsMostFrequent(s, x) <==> x in s && multiset(s)[x] == top {
      if IsMostFrequent(s, x) {
        var k := keys[jt];
        assert multiset(s)[k] == top;
        assert forall y :: multiset(s)[y] <= multiset(s)[x];
        assert multiset(s)[k] <= multiset(s)[x];
      }
    }
  }

  /** A sequence whose only value is `k` has `k` as its one most frequent
      value. */
  lemma SingleValue(s: seq<int>, k: int)
    requires k in s && forall i :: 0 <= i < |s| ==> s[i] == k
    ensures IsMostFrequent(s, k)
    ensures forall y :: IsMostFrequent(s, y) ==> y == k
  {
    forall y | y != k ensures multiset(s)[y] == 0 {
      assert y !in s;
    }
  }

  /** A one-element list of exactly the most frequent values names the one
      most frequent value. */
  lemma SoleMostFrequent(s: seq<int>, group: seq<int>)
    requires |group| == 1
    requires forall x :: x in group <==> IsMostFrequent(s, x)
    ensures IsMostFrequent(s, group[0])
    ensures forall y :: IsMostFrequent(s, y) ==> y == group[0]
  {
  }

  /** Equal last two entries of the sorted counts mean that two different
      values share the highest count. */
  lemma ListingTieShared(s: seq<int>, keys: seq<int>, counts: seq<int>, t: seq<int>)
    requires FrequencyListing(s, keys, counts)
    requires Sorted(t) && multiset(t) == multiset(counts) && |s| > 0
    requires |t| > 1 && t[|t| - 1] == t[|t| - 2]
    ensures exists x, y :: x != y && IsMostFrequent(s, x) && IsMostFrequent(s, y)
  {
    ListingTop(s, keys, counts, t);
    var top := t[|t| - 1];
    TwoOccurrences(t, top);
    assert multiset(counts)[top] >= 2;
    TwoOccurrences(counts, top);
    var p, q :| 0 <= p < q < |counts| && counts[p] == top && counts[q] == top;
    assert keys[p] != keys[q];
    assert IsMostFrequent(s, keys[p]) && IsMostFrequent(s, keys[q]);
  }

  /** Two different values sharing the highest count mean that the last two
      entries of the sorted counts are equal. */
  lemma ListingSharedTie(s: seq<int>, keys: seq<int>, counts: seq<int>, t: seq<int>, x: int, y: int)
    requires FrequencyListing(s, keys, counts)
    requires Sorted(t) && multiset(t) == multiset(counts) && |s| > 0
    requires x != y && IsMostFrequent(s, x) && IsMostFrequent(s, y)
    ensures |t| > 1 && t[|t| - 1] == t[|t| - 2]
  {
    ListingTop(s, keys, counts, t);
    var top := t[|t| - 1];
    var p := ListingIndex(s, keys, counts, x);
    var q := ListingIndex(s, keys, counts, y);
    assert counts[p] == top && counts[q] == top && p != q;
    TwoOccurrences(counts, top);
    if p < q {
      assert exists p', q' :: 0 <= p' < q' < |counts| && counts[p'] == top && counts[q'] == top;
    } else {
      assert exists p', q' :: 0 <= p' < q' < |counts| && counts[p'] == top && counts[q'] == top;
    }
    assert multiset(t)[top] >= 2;
    TwoOccurrences(t, top);
    var p', q' :| 0 <= p' < q' < |t| && t[p'] == top && t[q'] == top;
    assert t[p'] <= t[|t| - 2];
  }

  /** The two last entries of the sorted counts are equal exactly when two
      different values share the highest count. */
  lemma ListingTie(s: seq<int>, keys: seq<int>, counts: seq<int>, t: seq<int>)
    requires FrequencyListing(s, keys, counts)
    requires Sorted(t) && multiset(t) == multiset(counts) && |s| > 0
    ensures (|t| > 1 && t[|t| - 1] == t[|t| - 2]) <==>
      exists x, y :: x != y && IsMostFrequent(s, x) && IsMostFrequent(s, y)
  {
    if |t| > 1 && t[|t| - 1] == t[|t| - 2] {
      ListingTieShared(s, keys, counts, t);
    }
    if exists x, y :: x != y && IsMostFrequent(s, x) && IsMostFrequent(s, y) {
      var x, y :| x != y && IsMostFrequent(s, x) && IsMostFrequent(s, y);
      ListingSharedTie(s, keys, counts, t, x, y);
    }
  }
}
