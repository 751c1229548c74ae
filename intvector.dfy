/** The growable vector of Go `int`s: every method of `Intvector` that
    reads or updates its element slice in place. */
module Vector {
  import opened Machine
  import opened Sequences
  import opened Statistics
  import opened Codec

  /** The errors the methods report, one per distinct message of the
      source; the ones that print the vector's length carry it. */
  datatype Error =
    | EmptyVector              // no element to take or summarise
    | IndexOutOfBounds         // `RemoveAt` / `At` index outside the vector
    | SameIndices              // `Swap` asked to swap a position with itself
    | Idx1OutOfRange(len: int) // `Swap`'s first index outside the vector
    | Idx2OutOfRange(len: int) // `Swap`'s second index outside the vector
    | NegativeIndex            // `Set` with an index below zero
    | IdxOutOfRange(len: int)  // `Set` with an index at or past the end
    | NoUniqueMode             // `Mode`: the highest count is shared
    | UniqueMode               // `Modes`: fewer than two values share the highest count
    | InvalidLength            // `DeserializeFrom`: length not a multiple of eight
    | EmptyByteArray           // `DeserializeFrom`: no bytes

  /** Go's `error` result: `None` is `nil`. */
  datatype Option<T> = None | Some(value: T)

  /** Go's `sort.Ints`, applied to a slice the caller owns. */
  method SortInts(a: seq<int>) returns (r: seq<int>)
    ensures Sorted(r)
    ensures multiset(r) == multiset(a)
  {
    r := [];
    for i := 0 to |a|
      invariant Sorted(r)
      invariant multiset(r) == multiset(a[..i])
    {
      SortedInsertSorted(r, a[i]);
      r := SortedInsert(r, a[i]);
      assert a[..i + 1] == a[..i] + [a[i]];
    }
    assert a[..|a|] == a;
  }

  /** Where `RemoveAll`'s scan stands: `cur` is the vector being edited,
      `i` the cursor in it, `j` the number of original elements scanned;
      the part before the cursor is the scanned prefix without `num`, the
      rest is the unscanned suffix, and `count` counts the `num`s scanned. */
  ghost predicate RemoveAllProgress(orig: seq<Int64>, cur: seq<Int64>, i: int, j: int, count: int, num: Int64)
  {
    && 0 <= i <= |cur| && 0 <= j <= |orig| && |cur| - i == |orig| - j
    && cur[..i] == AllRemoved(orig[..j], num)
    && cur[i..] == orig[j..]
    && count == multiset(orig[..j])[num]
  }

  /** One step of the scan: dropping the `num` under the cursor, or moving
      past another value, keeps the scan's description true. */
  lemma RemoveAllStep(orig: seq<Int64>, cur: seq<Int64>, i: int, j: int, count: int, num: Int64)
    requires RemoveAllProgress(orig, cur, i, j, count, num) && i < |cur|
    ensures cur[i] == num ==> RemoveAllProgress(orig, cur[..i] + cur[i + 1..], i, j + 1, count + 1, num)
    ensures cur[i] != num ==> RemoveAllProgress(orig, cur, i + 1, j + 1, count, num)
  {
    assert cur[i] == cur[i..][0] == orig[j..][0] == orig[j];
    assert orig[..j + 1] == orig[..j] + [orig[j]];
    assert cur[i + 1..] == cur[i..][1..] == orig[j + 1..];
    assert cur[..i + 1] == cur[..i] + [cur[i]];
    var next := cur[..i] + cur[i + 1..];
    assert next[..i] == cur[..i] && next[i..] == cur[i + 1..];
  }

  /** A finished scan has removed every `num` and counted them all. */
  lemma RemoveAllDone(orig: seq<Int64>, cur: seq<Int64>, i: int, j: int, count: int, num: Int64)
    requires RemoveAllProgress(orig, cur, i, j, count, num) && i == |cur|
    ensures cur == AllRemoved(orig, num) && count == multiset(orig)[num]
  {
    assert orig[..j] == orig;
    assert cur[..i] == cur;
  }

  /** One step of `DeserializeFrom`'s loop: the next eight-byte block fits
      in the buffer and decoding it extends the decoded prefix. */
  lemma DeserializeStep(b: seq<Byte>, i: int)
    requires |b| % Width == 0 && 0 <= i < |b| && i % Width == 0
    ensures i + Width <= |b| && (i + Width) % Width == 0
    ensures Deserialize(b[..i + Width]) == Deserialize(b[..i]) + [DecodeInt(b[i..i + Width])]
  {
    assert i + Width <= |b|;
    assert b[..i + Width][..i] == b[..i];
    assert b[..i + Width][i..] == b[i..i + Width];
  }

  /** The table-walking loop of `Mode`: visits the keys of `frq` in any
      order, collecting their counts and remembering, for every count, the
      key last visited with it. `keys` is the visiting order. */
  method CountsAndOwners(frq: map<Int64, nat>)
    returns (counts: seq<int>, owner: map<int, Int64>, ghost keys: seq<Int64>)
    ensures |keys| == |counts| && NoDups(keys)
    ensures forall j :: 0 <= j < |keys| ==> keys[j] in frq && counts[j] == frq[keys[j]]
    ensures forall k :: k in frq ==> k in keys
    ensures forall j :: 0 <= j < |counts| ==> counts[j] in owner
    ensures forall c :: c in owner ==> owner[c] in frq && frq[owner[c]] == c
  {
    counts, owner, keys := [], map[], [];
    var remaining := frq.Keys;
    while remaining != {}
      invariant remaining <= frq.Keys
      invariant |keys| == |counts| && NoDups(keys)
      invariant forall j :: 0 <= j < |keys| ==>
        keys[j] in frq && keys[j] !in remaining && counts[j] == frq[keys[j]] && counts[j] in owner
      invariant forall k :: k in frq && k !in remaining ==> k in keys
      invariant forall c :: c in owner ==> owner[c] in frq && frq[owner[c]] == c
      decreases remaining
    {
      var k :| k in remaining;
      counts := counts + [frq[k]];
      owner := owner[frq[k] := k];
      keys := keys + [k];
      remaining := remaining - {k};
    }
  }

  /** The table-walking loop of `Modes`: visits the keys of `frq` in any
      order, collecting their counts and grouping the keys by count. */
  method CountsAndGroups(frq: map<Int64, nat>)
    returns (counts: seq<int>, groups: map<int, seq<Int64>>, ghost keys: seq<Int64>)
    ensures |keys| == |counts| && NoDups(keys)
    ensures forall j :: 0 <= j < |keys| ==> keys[j] in frq && counts[j] == frq[keys[j]]
    ensures forall k :: k in frq ==> k in keys
    ensures forall k :: k in frq ==> frq[k] in groups && k in groups[frq[k]]
    ensures forall c :: c in groups ==> NoDups(groups[c])
    ensures forall c, x :: c in groups && x in groups[c] ==> x in frq && frq[x] == c
  {
    counts, groups, keys := [], map[], [];
    var remaining := frq.Keys;
    while remaining != {}
      invariant remaining <= frq.Keys
      invariant |keys| == |counts| && NoDups(keys)
      invariant forall j :: 0 <= j < |keys| ==>
        keys[j] in frq && keys[j] !in remaining && counts[j] == frq[keys[j]]
      invariant forall k :: k in frq && k !in remaining ==> k in keys
      invariant forall k :: k in frq && k !in remaining ==> frq[k] in groups && k in groups[frq[k]]
      invariant forall c :: c in groups ==> NoDups(groups[c])
      invariant forall c, x :: c in groups && x in groups[c] ==>
        x in frq && x !in remaining && frq[x] == c
      decreases remaining
    {
      var k :| k in remaining;
      var c := frq[k];
      counts := counts + [c];
      if c in groups {
        groups := groups[c := groups[c] + [k]];
      } else {
        groups := groups[c := [k]];
      }
      keys := keys + [k];
      remaining := remaining - {k};
    }
  }

  /** A frequency table with one key describes a sequence holding only
      that key. */
  lemma OnlyKey(s: seq<Int64>, frq: map<Int64, nat>, k: Int64)
    requires forall x :: x in frq <==> x in s
    requires |frq| == 1 && k in frq
    ensures forall i :: 0 <= i < |s| ==> s[i] == k
  {
    assert frq.Keys - {k} == {} by {
      assert |frq.Keys - {k}| == 0;
    }
    forall i | 0 <= i < |s| ensures s[i] == k {
      assert s[i] in frq && s[i] !in frq.Keys - {k};
    }
  }

  /** After the counts are sorted, the group that the grouping by count
      holds under the last (highest) count is exactly the set of most
      frequent values. */
  lemma TopGroup(s: seq<Int64>, frq: map<Int64, nat>, keys: seq<Int64>, counts: seq<int>,
                 groups: map<int, seq<Int64>>, t: seq<int>)
    requires |s| > 0
    requires forall x :: x in frq <==> x in s
    requires forall x :: x in frq ==> frq[x] == multiset(s)[x]
    requires |keys| == |counts| && NoDups(keys)
    requires forall j :: 0 <= j < |keys| ==> keys[j] in frq && counts[j] == frq[keys[j]]
    requires forall k :: k in frq ==> k in keys
    requires forall k :: k in frq ==> frq[k] in groups && k in groups[frq[k]]
    requires forall c, x :: c in groups && x in groups[c] ==> x in frq && frq[x] == c
    requires Sorted(t) && multiset(t) == multiset(counts)
    ensures |t| > 0 && t[|t| - 1] in groups && |groups[t[|t| - 1]]| > 0
    ensures forall x :: x in groups[t[|t| - 1]] <==> IsMostFrequent(s, x)
  {
    assert FrequencyListing(s, keys, counts);
    ListingTop(s, keys, counts, t);
    var top := t[|t| - 1];
    assert top in multiset(counts);
    var j :| 0 <= j < |counts| && counts[j] == top;
    assert keys[j] in frq && keys[j] in groups[top];
    forall x ensures x in groups[top] <==> IsMostFrequent(s, x) {
      if x in groups[top] {
        assert x in frq && frq[x] == top;
      }
      if IsMostFrequent(s, x) {
        assert x in frq && frq[x] == top;
      }
    }
  }

  /** The binary search of `SortedPush`, run when `n` lies strictly between
      the first and the last element: it narrows `[l, r]` until
      `s[m] <= n <= s[m + 1]` and answers `m + 1`, the position after `m`.
      It stays in range on any input, because while the search goes on
      `s[l] < n < s[r + 1]`; only the upper bracket needs `s` sorted. */
  method InsertionPoint(s: seq<Int64>, n: Int64) returns (m: int)
    requires |s| >= 2 && s[0] < n < s[|s| - 1]
    ensures 1 <= m <= |s| - 1
    ensures s[m - 1] <= n
    ensures Sorted(s) ==> n <= s[m]
  {
    var l, r := 0, |s| - 2;
    m := 0;
    while !(s[m] <= n && s[m + 1] >= n)
      invariant 0 <= m <= |s| - 2
      invariant 0 <= l <= r + 1 <= |s| - 1
      invariant !(s[m] <= n && s[m + 1] >= n) ==> s[l] < n < s[r + 1]
      decreases r - l
    {
      m := (l + r) / 2;
      if s[m] > n {
        r := m - 1;
      } else if s[m] < n {
        l := m + 1;
      } else if s[m] == n {
        break;
      }
    }
    m := m + 1;
  }

  class Intvector {
    /** The elements, in order. */
    var vec: seq<Int64>

    /** The zero value `Intvector{}`: no elements. */
    constructor ()
      ensures vec == []
    {
      vec := [];
    }

    // ----- Basic mutators -----

    method Push(s: Int64)
      modifies this
      ensures vec == old(vec) + [s]
    {
      vec := vec + [s];
    }

    method Insert(s: seq<Int64>)
      modifies this
      ensures vec == old(vec) + s
    {
      vec := vec + s;
    }

    method Pop() returns (s: Int64, err: Option<Error>)
      modifies this
      ensures old(vec) == [] ==> s == 0 && err == Some(EmptyVector) && vec == old(vec)
      ensures old(vec) != [] ==> err == None && old(vec) == vec + [s]
    {
      if |vec| > 0 {
        s := vec[|vec| - 1];
        vec := vec[..|vec| - 1];
      } else {
        return 0, Some(EmptyVector);
      }
      err := None;
    }

    method Shift() returns (s: Int64, err: Option<Error>)
      modifies this
      ensures old(vec) == [] ==> s == 0 && err == Some(EmptyVector) && vec == old(vec)
      ensures old(vec) != [] ==> err == None && old(vec) == [s] + vec
    {
      if |vec| > 0 {
        s := vec[0];
        vec := vec[1..];
      } else {
        return 0, Some(EmptyVector);
      }
      err := None;
    }

    method Unshift(s: Int64)
      modifies this
      ensures vec == [s] + old(vec)
    {
      vec := [s] + vec;
    }

    method RemoveAt(idx: int) returns (err: Option<Error>)
      modifies this
      ensures !(0 <= idx < |old(vec)|) ==> err == Some(IndexOutOfBounds) && vec == old(vec)
      ensures 0 <= idx < |old(vec)| ==> err == None && vec == Removed(old(vec), idx)
    {
      if idx >= |vec| || idx < 0 {
        return Some(IndexOutOfBounds);
      }
      vec := vec[..idx] + vec[idx + 1..];
      err := None;
    }

    /** Removes the first occurrence of `num`, if any. */
    method RemoveFirstOf(num: Int64) returns (isFound: bool)
      modifies this
      ensures isFound == (num in old(vec))
      ensures isFound ==> vec == Removed(old(vec), FirstIndexOf(old(vec), num))
      ensures !isFound ==> vec == old(vec)
    {
      isFound := false;
      var idx := -1;
      for i := 0 to |vec|
        invariant !isFound && num !in vec[..i]
      {
        if vec[i] == num {
          isFound := true;
          idx := i;
          break;
        }
        assert vec[..i + 1] == vec[..i] + [vec[i]];
      }
      if isFound {
        FirstIndexOfUnique(vec, num, idx);
        vec := vec[..idx] + vec[idx + 1..];
      } else {
        assert vec[..|vec|] == vec;
      }
    }

    /** Removes every occurrence of `num` in one forward pass, stepping the
        index back after each removal; returns how many were removed. */
    method RemoveAll(num: Int64) returns (count: int)
      modifies this
      ensures count == multiset(old(vec))[num]
      ensures vec == AllRemoved(old(vec), num)
    {
      count := 0;
      var i := 0;
      ghost var j := 0;
      while i < |vec|
        invariant RemoveAllProgress(old(vec), vec, i, j, count, num)
        decreases |vec| - i
      {
        var val := vec[i];
        RemoveAllStep(old(vec), vec, i, j, count, num);
        if val == num {
          vec := vec[..i] + vec[i + 1..];
          i := i - 1;
          count := count + 1;
        }
        i := i + 1;
        j := j + 1;
      }
      RemoveAllDone(old(vec), vec, i, j, count, num);
    }

    /** Keeps the first occurrence of every value, in first-seen order. */
    method MakeUnique()
      modifies this
      ensures vec == Dedup(old(vec))
    {
      if |vec| < 2 {
        DedupNoDups(vec);
        return;
      }
      var m: set<Int64> := {};
      var tmpVec: seq<Int64> := [];
      for i := 0 to |vec|
        invariant tmpVec == Dedup(vec[..i])
        invariant forall x :: x in m <==> x in vec[..i]
      {
        var v := vec[i];
        assert vec[..i + 1] == vec[..i] + [v];
        if v !in m {
          tmpVec := tmpVec + [v];
          m := m + {v};
        }
      }
      assert vec[..|vec|] == vec;
      vec := tmpVec;
    }

    /** Drops all elements (the collector call that follows is not modelled). */
    method Clear()
      modifies this
      ensures vec == []
    {
      vec := [];
    }

    /** Reverses the elements by swapping mirrored pairs. */
    method Reverse()
      modifies this
      ensures vec == Reversed(old(vec))
    {
      var n := |vec|;
      for i := 0 to n / 2
        invariant |vec| == n
        invariant forall k :: 0 <= k < i ==> vec[k] == old(vec)[n - 1 - k] && vec[n - 1 - k] == old(vec)[k]
        invariant forall k :: i <= k < n - i ==> vec[k] == old(vec)[k]
      {
        vec := vec[i := vec[n - 1 - i]][n - 1 - i := vec[i]];
      }
    }

    method Swap(idx1: int, idx2: int) returns (err: Option<Error>)
      modifies this
      ensures idx1 == idx2 ==> err == Some(SameIndices) && vec == old(vec)
      ensures idx1 != idx2 && !(0 <= idx1 < |old(vec)|) ==>
        err == Some(Idx1OutOfRange(|old(vec)|)) && vec == old(vec)
      ensures idx1 != idx2 && 0 <= idx1 < |old(vec)| && !(0 <= idx2 < |old(vec)|) ==>
        err == Some(Idx2OutOfRange(|old(vec)|)) && vec == old(vec)
      ensures idx1 != idx2 && 0 <= idx1 < |old(vec)| && 0 <= idx2 < |old(vec)| ==>
        && err == None
        && |vec| == |old(vec)|
        && vec[idx1] == old(vec)[idx2] && vec[idx2] == old(vec)[idx1]
        && (forall k :: 0 <= k < |vec| && k != idx1 && k != idx2 ==> vec[k] == old(vec)[k])
        && multiset(vec) == multiset(old(vec))
    {
      if idx1 == idx2 {
        return Some(SameIndices);
      }
      if idx1 >= |vec| || idx1 < 0 {
        return Some(Idx1OutOfRange(|vec|));
      }
      if idx2 >= |vec| || idx2 < 0 {
        return Some(Idx2OutOfRange(|vec|));
      }
      vec := vec[idx1 := vec[idx2]][idx2 := vec[idx1]];
      err := None;
    }

    method Set(idx: int, value: Int64) returns (err: Option<Error>)
      modifies this
      ensures idx < 0 ==> err == Some(NegativeIndex) && vec == old(vec)
      ensures 0 <= idx && |old(vec)| <= idx ==> err == Some(IdxOutOfRange(|old(vec)|)) && vec == old(vec)
      ensures 0 <= idx < |old(vec)| ==>
        && err == None
        && |vec| == |old(vec)| && vec[idx] == value
        && (forall k :: 0 <= k < |vec| && k != idx ==> vec[k] == old(vec)[k])
    {
      if idx < 0 {
        return Some(NegativeIndex);
      }
      if idx >= |vec| {
        return Some(IdxOutOfRange(|vec|));
      }
      vec := vec[idx := value];
      err := None;
    }

    /** Multiplies every element by `s`, with Go's 64-bit wrap-around. */
    method ScaleBy(s: Int64)
      modifies this
      ensures |vec| == |old(vec)|
      ensures forall k :: 0 <= k < |vec| ==> vec[k] == Wrap(s * old(vec)[k])
    {
      for i := 0 to |vec|
        invariant |vec| == |old(vec)|
        invariant forall k :: 0 <= k < i ==> vec[k] == Wrap(s * old(vec)[k])
        invariant forall k :: i <= k < |vec| ==> vec[k] == old(vec)[k]
      {
        vec := vec[i := Wrap(s * vec[i])];
      }
    }

    // ----- Sorted and unique insertion -----

    /** Inserts `n` into a vector taken to be sorted ascending: the ends are
        handled directly, otherwise a binary search finds `m` with
        `vec[m] <= n <= vec[m + 1]` and `n` goes in after `m`. On any vector
        the search stays in range and `n` is spliced in at some position; on
        a sorted vector the result is the sorted insertion of `n`. */
    method SortedPush(n: Int64)
      modifies this
      ensures exists k :: 0 <= k <= |old(vec)| && vec == Spliced(old(vec), k, n)
      ensures Sorted(old(vec)) ==> vec == SortedInsert(old(vec), n)
    {
      ghost var k: int;
      SplicedEnds(vec, n);
      if |vec| == 0 {
        k := 0;
        vec := vec + [n];
      } else if |vec| == 1 {
        if vec[0] > n {
          k := 0;
          vec := [n] + vec;
        } else {
          k := 1;
          vec := vec + [n];
        }
      } else if n <= vec[0] {
        k := 0;
        vec := [n] + vec;
      } else if n >= vec[|vec| - 1] {
        k := |vec|;
        vec := vec + [n];
      } else {
        var m := InsertionPoint(vec, n);
        k := m;
        vec := vec[..m] + [n] + vec[m..];
      }
      assert 0 <= k <= |old(vec)| && vec == Spliced(old(vec), k, n);
      assert 0 < k ==> old(vec)[k - 1] <= n;
      assert Sorted(old(vec)) && k < |old(vec)| ==> n <= old(vec)[k];
      if Sorted(old(vec)) {
        InsertInGap(old(vec), n, k);
      }
    }

    /** Appends `n` only when it is not already present. */
    method UniquePush(n: Int64) returns (isPushed: bool)
      modifies this
      ensures isPushed == (n !in old(vec))
      ensures vec == if isPushed then old(vec) + [n] else old(vec)
    {
      for i := 0 to |vec|
        invariant n !in vec[..i]
      {
        if n == vec[i] {
          return false;
        }
        assert vec[..i + 1] == vec[..i] + [vec[i]];
      }
      assert vec[..|vec|] == vec;
      vec := vec + [n];
      isPushed := true;
    }

    method Sort()
      modifies this
      ensures Sorted(vec)
      ensures multiset(vec) == multiset(old(vec))
    {
      var sorted := SortInts(vec);
      forall i | 0 <= i < |sorted| ensures -Two63 <= sorted[i] < Two63 {
        assert sorted[i] in multiset(vec);
      }
      vec := sorted;
    }

    /** Checks every adjacent pair. */
    method IsSorted() returns (sorted: bool)
      ensures sorted == Sorted(vec)
    {
      if |vec| <= 1 {
        return true;
      }
      for i := 1 to |vec|
        invariant Sorted(vec[..i])
      {
        if vec[i] < vec[i - 1] {
          return false;
        }
        assert forall k :: 0 <= k < i ==> vec[k] <= vec[i - 1];
      }
      assert vec[..|vec|] == vec;
      return true;
    }

    // ----- Queries -----

    method Size() returns (n: int)
      ensures n == |vec|
    {
      return |vec|;
    }

    method IsEmpty() returns (empty: bool)
      ensures empty <==> vec == []
    {
      if |vec| == 0 {
        return true;
      }
      return false;
    }

    method At(i: int) returns (x: Int64, err: Option<Error>)
      ensures !(0 <= i < |vec|) ==> x == 0 && err == Some(IndexOutOfBounds)
      ensures 0 <= i < |vec| ==> x == vec[i] && err == None
    {
      if i >= |vec| || i < 0 {
        return 0, Some(IndexOutOfBounds);
      }
      return vec[i], None;
    }

    method First() returns (x: Int64, err: Option<Error>)
      ensures vec == [] ==> x == 0 && err == Some(EmptyVector)
      ensures vec != [] ==> x == vec[0] && err == None
    {
      if |vec| > 0 {
        return vec[0], None;
      }
      return 0, Some(EmptyVector);
    }

    method Last() returns (x: Int64, err: Option<Error>)
      ensures vec == [] ==> x == 0 && err == Some(EmptyVector)
      ensures vec != [] ==> x == vec[|vec| - 1] && err == None
    {
      if |vec| > 0 {
        return vec[|vec| - 1], None;
      }
      return 0, Some(EmptyVector);
    }

    /** Linear search for the first occurrence of `n`; -1 when absent. */
    method Search(n: Int64) returns (idx: int)
      ensures idx == FirstIndexOf(vec, n)
    {
      for i := 0 to |vec|
        invariant n !in vec[..i]
      {
        if vec[i] == n {
          FirstIndexOfUnique(vec, n, i);
          return i;
        }
        assert vec[..i + 1] == vec[..i] + [vec[i]];
      }
      assert vec[..|vec|] == vec;
      return -1;
    }

    /** Every index holding `n`, ascending. */
    method SearchAll(n: Int64) returns (s: seq<int>)
      ensures s == IndicesOf(vec, n)
      ensures forall k :: 0 <= k < |s| ==> 0 <= s[k] < |vec| && vec[s[k]] == n
      ensures forall i :: 0 <= i < |vec| && vec[i] == n ==> i in s
      ensures forall p, q :: 0 <= p < q < |s| ==> s[p] < s[q]
      ensures |s| == multiset(vec)[n]
    {
      s := [];
      for i := 0 to |vec|
        invariant s == IndicesOf(vec[..i], n)
      {
        assert vec[..i + 1][..i] == vec[..i];
        if vec[i] == n {
          s := s + [i];
        }
      }
      assert vec[..|vec|] == vec;
      IndicesOfComplete(vec, n);
      IndicesOfAscending(vec, n);
    }

    /** The least element and the index of its first occurrence; `(0, -1)`
        on an empty vector. */
    method Min() returns (min: Int64, idx: int)
      ensures vec == [] ==> min == 0 && idx == -1
      ensures vec != [] ==> 0 <= idx < |vec| && min == vec[idx]
      ensures forall k :: 0 <= k < |vec| ==> min <= vec[k]
      ensures forall k :: 0 <= k < idx ==> min < vec[k]
    {
      if |vec| == 0 {
        return 0, -1;
      }
      min, idx := vec[0], 0;
      for i := 0 to |vec|
        invariant 0 <= idx < |vec| && min == vec[idx]
        invariant forall k :: 0 <= k < i ==> min <= vec[k]
        invariant forall k :: 0 <= k < idx ==> min < vec[k]
      {
        if vec[i] < min {
          min, idx := vec[i], i;
        }
      }
    }

    /** The greatest element and the index of its first occurrence; `(0, -1)`
        on an empty vector. */
    method Max() returns (max: Int64, idx: int)
      ensures vec == [] ==> max == 0 && idx == -1
      ensures vec != [] ==> 0 <= idx < |vec| && max == vec[idx]
      ensures forall k :: 0 <= k < |vec| ==> vec[k] <= max
      ensures forall k :: 0 <= k < idx ==> vec[k] < max
    {
      if |vec| == 0 {
        return 0, -1;
      }
      max, idx := vec[0], 0;
      for i := 0 to |vec|
        invariant 0 <= idx < |vec| && max == vec[idx]
        invariant forall k :: 0 <= k < i ==> vec[k] <= max
        invariant forall k :: 0 <= k < idx ==> vec[k] < max
      {
        if vec[i] > max {
          max, idx := vec[i], i;
        }
      }
    }

    method CountInstancesOf(num: Int64) returns (count: int)
      ensures count == multiset(vec)[num]
    {
      count := 0;
      for i := 0 to |vec|
        invariant count == multiset(vec[..i])[num]
      {
        assert vec[..i + 1] == vec[..i] + [vec[i]];
        if vec[i] == num {
          count := count + 1;
        }
      }
      assert vec[..|vec|] == vec;
    }

    // ----- Statistics -----

    /** The number of occurrences of every distinct element. */
    method Frequency() returns (m: map<Int64, nat>)
      ensures forall x :: x in m <==> x in vec
      ensures forall x :: x in m ==> m[x] == multiset(vec)[x]
    {
      m := map[];
      for i := 0 to |vec|
        invariant forall x :: x in m <==> x in vec[..i]
        invariant forall x :: x in m ==> m[x] == multiset(vec[..i])[x]
      {
        var v := vec[i];
        assert vec[..i + 1] == vec[..i] + [v];
        if v in m {
          m := m[v := m[v] + 1];
        } else {
          m := m[v := 1];
        }
      }
      assert vec[..|vec|] == vec;
    }

    /** The single most frequent element; an error on an empty vector or
        when the highest count is shared. The counts are collected in map
        order (any order), sorted, and the two largest compared. */
    method Mode() returns (mode: Int64, err: Option<Error>)
      ensures err == None || err == Some(EmptyVector) || err == Some(NoUniqueMode)
      ensures err == Some(EmptyVector) <==> vec == []
      ensures err != None ==> mode == 0
      ensures err == None ==>
        IsMostFrequent(vec, mode) && forall y :: IsMostFrequent(vec, y) ==> y == mode
      ensures err == Some(NoUniqueMode) ==>
        exists x, y :: x != y && IsMostFrequent(vec, x) && IsMostFrequent(vec, y)
    {
      if |vec| == 0 {
        return 0, Some(EmptyVector);
      }
      var frq := Frequency();
      var tmpVec, reverseFrq, keys := CountsAndOwners(frq);
      ghost var counts := tmpVec;
      assert FrequencyListing(vec, keys, counts);
      tmpVec := SortInts(tmpVec);
      ListingTop(vec, keys, counts, tmpVec);
      ListingTie(vec, keys, counts, tmpVec);
      if |tmpVec| > 1 && tmpVec[|tmpVec| - 1] == tmpVec[|tmpVec| - 2] {
        return 0, Some(NoUniqueMode);
      }
      var top := tmpVec[|tmpVec| - 1];
      assert top in multiset(counts);
      mode := reverseFrq[top];
      err := None;
    }

    /** All elements sharing the highest count, in map order (any order);
        an error on an empty vector and whenever fewer than two values
        share the highest count. */
    method Modes() returns (modes: seq<Int64>, err: Option<Error>)
      ensures err == None || err == Some(EmptyVector) || err == Some(UniqueMode)
      ensures err == Some(EmptyVector) <==> vec == []
      ensures err != None ==> modes == []
      ensures err == None ==>
        && |modes| >= 2 && NoDups(modes)
        && forall x :: x in modes <==> IsMostFrequent(vec, x)
      ensures err == Some(UniqueMode) ==>
        exists x :: IsMostFrequent(vec, x) && forall y :: IsMostFrequent(vec, y) ==> y == x
    {
      if |vec| == 0 {
        return [], Some(EmptyVector);
      }
      if |vec| == 1 {
        SingleValue(vec, vec[0]);
        return [], Some(UniqueMode);
      }
      var frq := Frequency();
      if |frq| == 1 {
        var k :| k in frq;
        OnlyKey(vec, frq, k);
        SingleValue(vec, k);
        return [], Some(UniqueMode);
      }
      var tmpVec, reverseFrq, keys := CountsAndGroups(frq);
      ghost var counts := tmpVec;
      tmpVec := SortInts(tmpVec);
      TopGroup(vec, frq, keys, counts, reverseFrq, tmpVec);
      var top := tmpVec[|tmpVec| - 1];
      var group := reverseFrq[top];
      assert top in reverseFrq ==> NoDups(reverseFrq[top]);
      if |group| == 1 {
        SoleMostFrequent(vec, group);
        return [], Some(UniqueMode);
      }
      return group, None;
    }

    // ----- Serialisation -----

    /** Eight big-endian bytes per element, in order. */
    method Serialized() returns (b: seq<Byte>)
      ensures b == Serialize(vec)
      ensures |b| == Width * |vec|
      ensures forall k :: 0 <= k < |vec| ==> b[Width * k .. Width * k + Width] == EncodeInt(vec[k])
    {
      b := [];
      for i := 0 to |vec|
        invariant b == Serialize(vec[..i])
      {
        var bts := EncodeInt(vec[i]);
        assert vec[..i + 1][..i] == vec[..i];
        b := b + bts;
      }
      assert vec[..|vec|] == vec;
      forall k | 0 <= k < |vec| ensures b[Width * k .. Width * k + Width] == EncodeInt(vec[k]) {
        SerializeBlock(vec, k);
      }
    }

    /** Decodes eight-byte blocks and pushes them, after clearing the vector
        unless `append` is set. Fails, leaving the vector as it was, when the
        length is not a multiple of eight (checked first) or is zero. */
    method DeserializeFrom(b: seq<Byte>, append: bool) returns (err: Option<Error>)
      modifies this
      ensures |b| % Width != 0 ==> err == Some(InvalidLength) && vec == old(vec)
      ensures |b| % Width == 0 && |b| == 0 ==> err == Some(EmptyByteArray) && vec == old(vec)
      ensures |b| % Width == 0 && |b| > 0 ==>
        err == None && vec == (if append then old(vec) else []) + Deserialize(b)
    {
      if |b| % Width != 0 {
        return Some(InvalidLength);
      }
      if |b| == 0 {
        return Some(EmptyByteArray);
      }
      if !append {
        Clear();
      }
      ghost var base := vec;
      assert base == if append then old(vec) else [];
      var i := 0;
      while i < |b|
        invariant 0 <= i <= |b| && i % Width == 0
        invariant vec == base + Deserialize(b[..i])
      {
        DeserializeStep(b, i);
        Push(DecodeInt(b[i..i + Width]));
        i := i + Width;
      }
      assert b[..|b|] == b;
      err := None;
    }
  }

  /** `DeserializeFrom(Serialized(), false)` leaves the elements as they
      were; the call fails, with the empty-buffer error, only on an empty
      vector. */
  method SerializeRoundTrip(v: Intvector) returns (err: Option<Error>)
    modifies v
    ensures v.vec == old(v.vec)
    ensures err == None <==> old(v.vec) != []
    ensures err != None ==> err == Some(EmptyByteArray)
  {
    var b := v.Serialized();
    DeserializeSerialize(v.vec);
    err := v.DeserializeFrom(b, false);
  }
}
