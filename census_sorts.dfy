/** The in-place sorts of `CensusData` over its vector of record pointers:
    insertion sort, top-down merge sort and randomized quicksort with the
    Lomuto partition, all ordered by `isSmaller`. */
module CensusSorts {
  import opened Common

  /** A census record; the sorts only move pointers to records and read
      these two fields. */
  class Record {
    const city: string
    const population: int

    constructor (city: string, population: int)
      ensures this.city == city && this.population == population
    {
      this.city := city;
      this.population := population;
    }
  }

  /** `isSmaller`: type 0 orders by population, any other type by city
      name, both with the non-strict `<=`. */
  predicate IsSmaller(sortType: int, left: Record, right: Record) {
    if sortType == 0 then left.population <= right.population
    else StrLessEq(left.city, right.city)
  }

  /** `isSmaller` is a total preorder for either sort type. */
  lemma IsSmallerTotalPreorder(sortType: int, a: Record, b: Record, c: Record)
    ensures IsSmaller(sortType, a, a)
    ensures IsSmaller(sortType, a, b) || IsSmaller(sortType, b, a)
    ensures IsSmaller(sortType, a, b) && IsSmaller(sortType, b, c) ==> IsSmaller(sortType, a, c)
  {
    StrLessEqTotalOrder(a.city, b.city, c.city);
  }

  /** `s[lo..hi]` is in `isSmaller` order. */
  ghost predicate SortedBetween(sortType: int, s: seq<Record>, lo: int, hi: int)
    requires 0 <= lo <= hi <= |s|
  {
    forall i, j :: lo <= i < j < hi ==> IsSmaller(sortType, s[i], s[j])
  }

  ghost predicate Sorted(sortType: int, s: seq<Record>) {
    SortedBetween(sortType, s, 0, |s|)
  }

  /** One pass of `insertionSort`'s outer loop: `s1` is `s0` with the key
      `s0[j]` moved down to position `i + 1` and the records between shifted
      up. The prefix up to `j` is sorted when the key lands after the
      records not greater than it and before those that are. */
  lemma InsertionStep(sortType: int, s0: seq<Record>, s1: seq<Record>, i: int, j: int)
    requires 0 <= j < |s0| == |s1| && -1 <= i <= j - 1
    requires forall k :: 0 <= k <= i ==> s1[k] == s0[k]
    requires s1[i + 1] == s0[j]
    requires forall k :: i + 1 < k <= j ==> s1[k] == s0[k - 1]
    requires forall k :: j < k < |s0| ==> s1[k] == s0[k]
    requires SortedBetween(sortType, s0, 0, j)
    requires i >= 0 ==> IsSmaller(sortType, s0[i], s0[j])
    requires forall k :: i + 1 <= k < j ==> !IsSmaller(sortType, s0[k], s0[j])
    ensures SortedBetween(sortType, s1, 0, j + 1)
  {
    forall x, y | 0 <= x < y <= j
      ensures IsSmaller(sortType, s1[x], s1[y])
    {
      if y <= i {
      } else if y == i + 1 {
        IsSmallerTotalPreorder(sortType, s0[x], s0[i], s0[j]);
      } else if x <= i {
      } else if x == i + 1 {
        IsSmallerTotalPreorder(sortType, s0[y - 1], s0[j], s0[j]);
      }
    }
  }

  /** Exchanging two records permutes the sequence. */
  lemma SwapPermutes(s: seq<Record>, a: int, b: int)
    requires 0 <= a < |s| && 0 <= b < |s|
    ensures multiset(s[a := s[b]][b := s[a]]) == multiset(s)
  {
  }

  /** One shift of `insertionSort`'s inner loop, seen with the key written
      into the hole: the key and the shifted record trade places. */
  lemma ShiftPermutes(s: seq<Record>, i: int, key: Record)
    requires 0 <= i && i + 1 < |s|
    ensures multiset(s[i + 1 := s[i]][i := key]) == multiset(s[i + 1 := key])
  {
    var u := s[i + 1 := key];
    assert s[i + 1 := s[i]][i := key] == u[i := u[i + 1]][i + 1 := u[i]];
    SwapPermutes(u, i, i + 1);
  }

  /** `insertionSort`'s inner loop from index `i` on: while the record at
      `i` is not `isSmaller` than `key` it is copied one place right. The
      result is the array and the index at which the loop stops. */
  function ShiftDown(sortType: int, s: seq<Record>, key: Record, i: int): (res: (seq<Record>, int))
    requires -1 <= i && i + 1 < |s|
    ensures |res.0| == |s| && -1 <= res.1 <= i
    decreases i + 1
  {
    if i > -1 && !IsSmaller(sortType, s[i], key) then ShiftDown(sortType, s[i + 1 := s[i]], key, i - 1)
    else (s, i)
  }

  /** Where the inner loop leaves the records: those between its stopping
      index `res.1` and `i` have moved one place right, all others stay. */
  lemma {:induction false} ShiftDownMoves(sortType: int, s: seq<Record>, key: Record, i: int)
    requires -1 <= i && i + 1 < |s|
    ensures var res := ShiftDown(sortType, s, key, i);
      && (forall k :: 0 <= k <= res.1 ==> res.0[k] == s[k])
      && (forall k :: res.1 + 1 < k <= i + 1 ==> res.0[k] == s[k - 1])
      && (forall k :: i + 1 < k < |s| ==> res.0[k] == s[k])
    decreases i + 1
  {
    if i > -1 && !IsSmaller(sortType, s[i], key) {
      var s' := s[i + 1 := s[i]];
      ShiftDownMoves(sortType, s', key, i - 1);
      assert ShiftDown(sortType, s, key, i) == ShiftDown(sortType, s', key, i - 1);
    }
  }

  /** Why the inner loop stops where it does: the records it moved are
      greater than `key`, and the one it stopped at, if any, is not. */
  lemma {:induction false} ShiftDownStops(sortType: int, s: seq<Record>, key: Record, i: int)
    requires -1 <= i && i + 1 < |s|
    ensures var res := ShiftDown(sortType, s, key, i);
      && (res.1 >= 0 ==> IsSmaller(sortType, s[res.1], key))
      && (forall k :: res.1 + 1 <= k <= i ==> !IsSmaller(sortType, s[k], key))
    decreases i + 1
  {
    if i > -1 && !IsSmaller(sortType, s[i], key) {
      var s' := s[i + 1 := s[i]];
      ShiftDownStops(sortType, s', key, i - 1);
      var res := ShiftDown(sortType, s', key, i - 1);
      assert ShiftDown(sortType, s, key, i) == res;
      forall k | res.1 + 1 <= k <= i
        ensures !IsSmaller(sortType, s[k], key)
      {
        if k < i {
          assert s'[k] == s[k];
        }
      }
    }
  }

  /** Writing `key` into the hole the inner loop leaves gives a permutation
      of writing it where the loop started. */
  lemma {:induction false} ShiftDownPermutes(sortType: int, s: seq<Record>, key: Record, i: int)
    requires -1 <= i && i + 1 < |s|
    ensures var res := ShiftDown(sortType, s, key, i);
      multiset(res.0[res.1 + 1 := key]) == multiset(s[i + 1 := key])
    decreases i + 1
  {
    if i > -1 && !IsSmaller(sortType, s[i], key) {
      var s' := s[i + 1 := s[i]];
      ShiftDownPermutes(sortType, s', key, i - 1);
      assert ShiftDown(sortType, s, key, i) == ShiftDown(sortType, s', key, i - 1);
      ShiftPermutes(s, i, key);
    }
  }

  /** One pass of the outer loop: the record at `j` is the key, the inner
      loop makes room for it, and it is written into the hole. */
  function InsertPass(sortType: int, s: seq<Record>, j: int): (t: seq<Record>)
    requires 0 < j < |s|
    ensures |t| == |s|
  {
    var res := ShiftDown(sortType, s, s[j], j - 1);
    res.0[res.1 + 1 := s[j]]
  }

  /** A pass extends the sorted prefix by one record. */
  lemma InsertPassSorts(sortType: int, s: seq<Record>, j: int)
    requires 0 < j < |s|
    requires SortedBetween(sortType, s, 0, j)
    ensures SortedBetween(sortType, InsertPass(sortType, s, j), 0, j + 1)
  {
    var key := s[j];
    ShiftDownMoves(sortType, s, key, j - 1);
    ShiftDownStops(sortType, s, key, j - 1);
    var res := ShiftDown(sortType, s, key, j - 1);
    InsertionStep(sortType, s, res.0[res.1 + 1 := key], res.1, j);
  }

  /** A pass only rearranges the records. */
  lemma InsertPassPermutes(sortType: int, s: seq<Record>, j: int)
    requires 0 < j < |s|
    ensures multiset(InsertPass(sortType, s, j)) == multiset(s)
  {
    ShiftDownPermutes(sortType, s, s[j], j - 1);
    assert s[j := s[j]] == s;
  }

  /** The array after the outer loop has run for `j = 1 .. n - 1`. */
  function InsertionPasses(sortType: int, s: seq<Record>, n: nat): (t: seq<Record>)
    requires n <= |s|
    ensures |t| == |s|
  {
    if n <= 1 then s else InsertPass(sortType, InsertionPasses(sortType, s, n - 1), n - 1)
  }

  /** After `n` passes the first `n` records are sorted, and the array is a
      permutation of the input. */
  lemma {:induction false} InsertionPassesSort(sortType: int, s: seq<Record>, n: nat)
    requires n <= |s|
    ensures SortedBetween(sortType, InsertionPasses(sortType, s, n), 0, n)
    ensures multiset(InsertionPasses(sortType, s, n)) == multiset(s)
  {
    if n > 1 {
      InsertionPassesSort(sortType, s, n - 1);
      InsertPassSorts(sortType, InsertionPasses(sortType, s, n - 1), n - 1);
      InsertPassPermutes(sortType, InsertionPasses(sortType, s, n - 1), n - 1);
    }
  }

  /** What `insertionSort` leaves in the vector. */
  function InsertionSorted(sortType: int, s: seq<Record>): (t: seq<Record>)
    ensures |t| == |s|
  {
    InsertionPasses(sortType, s, |s|)
  }

  /** `insertionSort` sorts: its result is in `isSmaller` order and holds
      the same records. */
  lemma InsertionSortedSorts(sortType: int, s: seq<Record>)
    ensures Sorted(sortType, InsertionSorted(sortType, s))
    ensures multiset(InsertionSorted(sortType, s)) == multiset(s)
  {
    InsertionPassesSort(sortType, s, |s|);
  }

  /** `insertionSort`: take each record in turn and shift the greater
      records of the sorted prefix one place right to make room for it. */
  method InsertionSort(sortType: int, data: array<Record>)
    modifies data
    ensures data[..] == InsertionSorted(sortType, old(data[..]))
  {
    var vecSize := data.Length;
    var j := 1;
    while j < vecSize
      invariant 1 <= j && (j <= vecSize || vecSize == 0)
      invariant data[..] == InsertionPasses(sortType, old(data[..]), if vecSize == 0 then 0 else j)
    {
      ghost var s0 := data[..];
      var key := data[j];
      var i := j - 1;
      while i > -1 && !IsSmaller(sortType, data[i], key)
        invariant -1 <= i <= j - 1
        invariant ShiftDown(sortType, data[..], key, i) == ShiftDown(sortType, s0, key, j - 1)
      {
        data[i + 1] := data[i];
        i := i - 1;
      }
      assert ShiftDown(sortType, data[..], key, i) == (data[..], i);
      data[i + 1] := key;
      j := j + 1;
    }
  }

  /** What `merge`'s placement loops produce from the point where `i`
      records of the left run and `j` of the right have been placed: the
      smaller head next, the left head on a tie, and the rest of the other
      run once one is used up. */
  function MergeFrom(sortType: int, left: seq<Record>, right: seq<Record>, i: nat, j: nat): (m: seq<Record>)
    requires i <= |left| && j <= |right|
    ensures |m| == |left| - i + |right| - j
    decreases |left| - i + |right| - j
  {
    if i < |left| && (j == |right| || IsSmaller(sortType, left[i], right[j])) then
      [left[i]] + MergeFrom(sortType, left, right, i + 1, j)
    else if j < |right| then [right[j]] + MergeFrom(sortType, left, right, i, j + 1)
    else []
  }

  /** The merge of two whole runs. */
  function Merged(sortType: int, left: seq<Record>, right: seq<Record>): seq<Record> {
    MergeFrom(sortType, left, right, 0, 0)
  }

  lemma MultisetSuffix(s: seq<Record>, i: int)
    requires 0 <= i < |s|
    ensures multiset(s[i..]) == multiset{s[i]} + multiset(s[i + 1..])
  {
    assert s[i..] == [s[i]] + s[i + 1..];
  }

  /** The merge holds exactly the records left in the two runs. */
  lemma {:induction false} MergeFromPermutes(sortType: int, left: seq<Record>, right: seq<Record>, i: nat, j: nat)
    requires i <= |left| && j <= |right|
    ensures multiset(MergeFrom(sortType, left, right, i, j)) == multiset(left[i..]) + multiset(right[j..])
    decreases |left| - i + |right| - j
  {
    if i < |left| && (j == |right| || IsSmaller(sortType, left[i], right[j])) {
      MergeFromPermutes(sortType, left, right, i + 1, j);
      MultisetSuffix(left, i);
    } else if j < |right| {
      MergeFromPermutes(sortType, left, right, i, j + 1);
      MultisetSuffix(right, j);
    }
  }

  /** Merging two sorted runs gives a sorted run. */
  lemma {:induction false} MergeFromSorted(sortType: int, left: seq<Record>, right: seq<Record>, i: nat, j: nat)
    requires i <= |left| && j <= |right|
    requires Sorted(sortType, left) && Sorted(sortType, right)
    ensures Sorted(sortType, MergeFrom(sortType, left, right, i, j))
    decreases |left| - i + |right| - j
  {
    if i < |left| && (j == |right| || IsSmaller(sortType, left[i], right[j])) {
      MergeFromSorted(sortType, left, right, i + 1, j);
      SortedCons(sortType, left[i], MergeFrom(sortType, left, right, i + 1, j));
    } else if j < |right| {
      MergeFromSorted(sortType, left, right, i, j + 1);
      if i < |left| {
        IsSmallerTotalPreorder(sortType, right[j], left[i], left[i]);
      }
      SortedCons(sortType, right[j], MergeFrom(sortType, left, right, i, j + 1));
    }
  }

  /** The merge of two runs is a permutation of their concatenation. */
  lemma MergedPermutes(sortType: int, left: seq<Record>, right: seq<Record>)
    ensures multiset(Merged(sortType, left, right)) == multiset(left + right)
  {
    MergeFromPermutes(sortType, left, right, 0, 0);
    assert left[0..] == left && right[0..] == right;
  }

  /** The merge of two sorted runs is sorted. */
  lemma MergedSorted(sortType: int, left: seq<Record>, right: seq<Record>)
    requires Sorted(sortType, left) && Sorted(sortType, right)
    ensures Sorted(sortType, Merged(sortType, left, right))
  {
    MergeFromSorted(sortType, left, right, 0, 0);
  }

  lemma SortedCons(sortType: int, head: Record, rest: seq<Record>)
    requires Sorted(sortType, rest)
    requires |rest| > 0 ==> IsSmaller(sortType, head, rest[0])
    ensures Sorted(sortType, [head] + rest)
  {
    var s := [head] + rest;
    forall i, j | 0 <= i < j < |s|
      ensures IsSmaller(sortType, s[i], s[j])
    {
      if i == 0 && j > 1 {
        IsSmallerTotalPreorder(sortType, head, rest[0], s[j]);
      }
    }
  }

  /** Sortedness of a slice is sortedness of the range it was cut from. */
  lemma SortedSlice(sortType: int, s: seq<Record>, lo: int, hi: int)
    requires 0 <= lo <= hi <= |s|
    ensures Sorted(sortType, s[lo..hi]) <==> SortedBetween(sortType, s, lo, hi)
  {
    if Sorted(sortType, s[lo..hi]) {
      forall a, b | lo <= a < b < hi
        ensures IsSmaller(sortType, s[a], s[b])
      {
        assert s[a] == s[lo..hi][a - lo] && s[b] == s[lo..hi][b - lo];
      }
    }
  }

  /** `after` agrees with `before` everywhere outside `[lo, hi]`. */
  ghost predicate SameOutside(before: seq<Record>, after: seq<Record>, lo: int, hi: int) {
    && |after| == |before|
    && forall m :: 0 <= m < |before| && (m < lo || hi < m) ==> after[m] == before[m]
  }
  /** A range whose outside is unchanged is permuted exactly when the whole
      array is. */
  lemma RangePermutation(before: seq<Record>, after: seq<Record>, p: int, r: int)
    requires 0 <= p <= r + 1 <= |before|
    requires SameOutside(before, after, p, r)
    ensures multiset(after[p..r + 1]) == multiset(before[p..r + 1])
        <==> multiset(after) == multiset(before)
  {
    assert after[..p] == before[..p];
    assert after[r + 1..] == before[r + 1..];
    var outside := multiset(before[..p]) + multiset(before[r + 1..]);
    MultisetThree(before, p, r);
    MultisetThree(after, p, r);
    if multiset(after) == multiset(before) {
      MultisetCancel(multiset(after[p..r + 1]), multiset(before[p..r + 1]), outside);
    }
  }

  /** A sequence's records are those of its three pieces around `[p, r]`. */
  lemma MultisetThree(s: seq<Record>, p: int, r: int)
    requires 0 <= p <= r + 1 <= |s|
    ensures multiset(s) == multiset(s[p..r + 1]) + (multiset(s[..p]) + multiset(s[r + 1..]))
  {
    assert s == s[..p] + s[p..r + 1] + s[r + 1..];
  }

  lemma MultisetCancel(a: multiset<Record>, b: multiset<Record>, c: multiset<Record>)
    requires a + c == b + c
    ensures a == b
  {
    forall e
      ensures a[e] == b[e]
    {
      assert (a + c)[e] == (b + c)[e];
    }
  }

  /** `s` with the records from index `k` on replaced by `w`. */
  function Splice(s: seq<Record>, k: int, w: seq<Record>): (t: seq<Record>)
    requires 0 <= k && k + |w| <= |s|
    ensures |t| == |s|
  {
    s[..k] + w + s[k + |w|..]
  }

  /** A sequence that agrees with `Splice(s, k, w)` at every index is it. */
  lemma SpliceByIndex(s: seq<Record>, k: int, w: seq<Record>, t: seq<Record>)
    requires 0 <= k && k + |w| <= |s| && |t| == |s|
    requires forall m :: 0 <= m < |s| ==> t[m] == if k <= m < k + |w| then w[m - k] else s[m]
    ensures t == Splice(s, k, w)
  {
    var u := Splice(s, k, w);
    forall m | 0 <= m < |s|
      ensures t[m] == u[m]
    {
      if m < k {
        assert u[m] == s[..k][m];
      } else if m < k + |w| {
        assert u[m] == (s[..k] + w)[m];
      } else {
        assert u[m] == s[k + |w|..][m - k - |w|];
      }
    }
  }

  /** Writing `x` at `k` and then `w` after it writes `[x] + w` at `k`. */
  lemma SpliceCons(d: seq<Record>, k: int, x: Record, w: seq<Record>)
    requires 0 <= k && k + 1 + |w| <= |d|
    ensures Splice(d[k := x], k + 1, w) == Splice(d, k, [x] + w)
  {
    assert d[k := x][..k + 1] == d[..k] + [x];
    assert d[k := x][k + 1 + |w|..] == d[k + 1 + |w|..];
  }

  /** Two adjacent writes are one write of the concatenation. */
  lemma SpliceTwice(c: seq<Record>, k: int, a: seq<Record>, b: seq<Record>)
    requires 0 <= k && k + |a| + |b| <= |c|
    ensures Splice(Splice(c, k, a), k + |a|, b) == Splice(c, k, a + b)
  {
    var u := Splice(c, k, a);
    assert u[..k + |a|] == c[..k] + a;
    assert u[k + |a| + |b|..] == c[k + |a| + |b|..];
  }

  /** `merge`'s three placement loops, run from the state where `i` records
      of the left run and `j` of the right have been written and the next
      one goes to index `k` of `d`. */
  function MergeLoop(sortType: int, d: seq<Record>, left: seq<Record>, right: seq<Record>, i: nat, j: nat, k: nat): (t: seq<Record>)
    requires i <= |left| && j <= |right| && k + (|left| - i) + (|right| - j) <= |d|
    ensures |t| == |d|
    decreases |left| - i + |right| - j
  {
    if i < |left| && (j == |right| || IsSmaller(sortType, left[i], right[j])) then
      MergeLoop(sortType, d[k := left[i]], left, right, i + 1, j, k + 1)
    else if j < |right| then
      MergeLoop(sortType, d[k := right[j]], left, right, i, j + 1, k + 1)
    else d
  }

  /** One turn of the first placement loop, with both runs still holding
      records: the smaller head is written at `k`, the left one on a tie. */
  lemma MergeLoopStep(sortType: int, d: seq<Record>, left: seq<Record>, right: seq<Record>, i: nat, j: nat, k: nat)
    requires i < |left| && j < |right| && k + (|left| - i) + (|right| - j) <= |d|
    ensures MergeLoop(sortType, d, left, right, i, j, k)
      == if IsSmaller(sortType, left[i], right[j])
         then MergeLoop(sortType, d[k := left[i]], left, right, i + 1, j, k + 1)
         else MergeLoop(sortType, d[k := right[j]], left, right, i, j + 1, k + 1)
  {
  }

  /** The placement loops write the merge of what is left of the two runs
      from index `k` on and leave every other index alone. */
  lemma {:induction false} MergeLoopWrites(sortType: int, d: seq<Record>, left: seq<Record>, right: seq<Record>, i: nat, j: nat, k: nat)
    requires i <= |left| && j <= |right| && k + (|left| - i) + (|right| - j) <= |d|
    ensures MergeLoop(sortType, d, left, right, i, j, k) == Splice(d, k, MergeFrom(sortType, left, right, i, j))
    decreases |left| - i + |right| - j
  {
    if i < |left| && (j == |right| || IsSmaller(sortType, left[i], right[j])) {
      MergeLoopWrites(sortType, d[k := left[i]], left, right, i + 1, j, k + 1);
      SpliceCons(d, k, left[i], MergeFrom(sortType, left, right, i + 1, j));
    } else if j < |right| {
      MergeLoopWrites(sortType, d[k := right[j]], left, right, i, j + 1, k + 1);
      SpliceCons(d, k, right[j], MergeFrom(sortType, left, right, i, j + 1));
    } else {
      assert d[..k] + [] + d[k..] == d;
    }
  }

  /** Once the right run is used up, the merge is the rest of the left. */
  lemma {:induction false} MergeFromLeftRest(sortType: int, left: seq<Record>, right: seq<Record>, i: nat)
    requires i <= |left|
    ensures MergeFrom(sortType, left, right, i, |right|) == left[i..]
    decreases |left| - i
  {
    if i < |left| {
      MergeFromLeftRest(sortType, left, right, i + 1);
      assert left[i..] == [left[i]] + left[i + 1..];
    }
  }

  /** Once the left run is used up, the merge is the rest of the right. */
  lemma {:induction false} MergeFromRightRest(sortType: int, left: seq<Record>, right: seq<Record>, j: nat)
    requires j <= |right|
    ensures MergeFrom(sortType, left, right, |left|, j) == right[j..]
    decreases |right| - j
  {
    if j < |right| {
      MergeFromRightRest(sortType, left, right, j + 1);
      assert right[j..] == [right[j]] + right[j + 1..];
    }
  }

  /** The placement loops, once one run is used up, write the rest of the
      left run and then the rest of the right one. */
  lemma MergeFinish(sortType: int, d: seq<Record>, left: seq<Record>, right: seq<Record>, i: nat, j: nat, k: nat)
    requires i <= |left| && j <= |right| && (i == |left| || j == |right|)
    requires k + (|left| - i) + (|right| - j) <= |d|
    ensures MergeLoop(sortType, d, left, right, i, j, k)
      == Splice(Splice(d, k, left[i..]), k + (|left| - i), right[j..])
  {
    MergeLoopWrites(sortType, d, left, right, i, j, k);
    SpliceTwice(d, k, left[i..], right[j..]);
    if i == |left| {
      MergeFromRightRest(sortType, left, right, j);
      assert left[i..] + right[j..] == right[j..];
    } else {
      MergeFromLeftRest(sortType, left, right, i);
      assert left[i..] + right[j..] == left[i..];
    }
  }

  /** What `merge(p, q, r)` leaves: the merge of the runs `s[p..q]` and
      `s[q+1..r]` in their place. */
  function MergeStep(sortType: int, s: seq<Record>, p: int, q: int, r: int): (t: seq<Record>)
    requires 0 <= p <= q <= r < |s|
    ensures |t| == |s|
  {
    Splice(s, p, Merged(sortType, s[p..q + 1], s[q + 1..r + 1]))
  }

  /** `merge` only rearranges the records of `[p, r]`. */
  lemma MergeStepPermutes(sortType: int, s: seq<Record>, p: int, q: int, r: int)
    requires 0 <= p <= q <= r < |s|
    ensures SameOutside(s, MergeStep(sortType, s, p, q, r), p, r)
    ensures multiset(MergeStep(sortType, s, p, q, r)) == multiset(s)
  {
    var t := MergeStep(sortType, s, p, q, r);
    var m := Merged(sortType, s[p..q + 1], s[q + 1..r + 1]);
    assert t == s[..p] + m + s[r + 1..];
    assert t[p..r + 1] == m;
    forall k | 0 <= k < |s| && (k < p || r < k)
      ensures t[k] == s[k]
    {
      if r < k {
        assert t[k] == s[r + 1..][k - (r + 1)];
      }
    }
    MergedPermutes(sortType, s[p..q + 1], s[q + 1..r + 1]);
    assert s[p..q + 1] + s[q + 1..r + 1] == s[p..r + 1];
    RangePermutation(s, t, p, r);
  }

  /** `merge` of two sorted adjacent runs gives one sorted run. */
  lemma MergeStepSorts(sortType: int, s: seq<Record>, p: int, q: int, r: int)
    requires 0 <= p <= q <= r < |s|
    requires SortedBetween(sortType, s, p, q + 1) && SortedBetween(sortType, s, q + 1, r + 1)
    ensures SortedBetween(sortType, MergeStep(sortType, s, p, q, r), p, r + 1)
  {
    var t := MergeStep(sortType, s, p, q, r);
    var m := Merged(sortType, s[p..q + 1], s[q + 1..r + 1]);
    SortedSlice(sortType, s, p, q + 1);
    SortedSlice(sortType, s, q + 1, r + 1);
    MergedSorted(sortType, s[p..q + 1], s[q + 1..r + 1]);
    assert t == s[..p] + m + s[r + 1..];
    assert t[p..r + 1] == m;
    SortedSlice(sortType, t, p, r + 1);
  }

  /** `merge`'s two copy loops: `len` records from `start` pushed onto a
      fresh vector in order. */
  method CopyRun(data: array<Record>, start: int, len: int) returns (run: seq<Record>)
    requires 0 <= start && 0 <= len && start + len <= data.Length
    ensures run == data[start..start + len]
  {
    run := [];
    var i := 0;
    while i < len
      invariant 0 <= i <= len
      invariant run == data[start..start + i]
    {
      run := run + [data[start + i]];
      i := i + 1;
    }
  }

  /** `merge`'s last two loops: what is left of a run, from index `i` on,
      written back into `data` from index `k` on. */
  method CopyRest(data: array<Record>, run: seq<Record>, i: int, k: int)
    requires 0 <= i <= |run| && 0 <= k && k + (|run| - i) <= data.Length
    modifies data
    ensures data[..] == Splice(old(data[..]), k, run[i..])
  {
    var from, to := i, k;
    while from < |run|
      invariant i <= from <= |run| && to == k + (from - i)
      invariant forall m :: 0 <= m < data.Length ==>
        data[m] == if k <= m < to then run[m - k + i] else old(data[m])
    {
      data[to] := run[from];
      from := from + 1;
      to := to + 1;
    }
    SpliceByIndex(old(data[..]), k, run[i..], data[..]);
  }

  /** `merge(p, q, r)`: copies `data[p..q]` and `data[q+1..r]` aside and
      merges them back into `data[p..r]`. */
  method Merge(sortType: int, data: array<Record>, p: int, q: int, r: int)
    requires 0 <= p <= q <= r < data.Length
    modifies data
    ensures data[..] == MergeStep(sortType, old(data[..]), p, q, r)
  {
    ghost var s0 := data[..];
    var point1 := q - p + 1;
    var point2 := r - q;
    var leftSide := CopyRun(data, p, point1);
    var rightSide := CopyRun(data, q + 1, point2);
    assert leftSide == s0[p..q + 1] && rightSide == s0[q + 1..r + 1];
    var i, j, k := 0, 0, p;
    ghost var merged := MergeLoop(sortType, s0, leftSide, rightSide, 0, 0, p);
    while i < point1 && j < point2
      invariant 0 <= i <= point1 && 0 <= j <= point2 && k == p + i + j
      invariant MergeLoop(sortType, data[..], leftSide, rightSide, i, j, k) == merged
    {
      MergeLoopStep(sortType, data[..], leftSide, rightSide, i, j, k);
      if IsSmaller(sortType, leftSide[i], rightSide[j]) {
        data[k] := leftSide[i];
        i := i + 1;
      } else {
        data[k] := rightSide[j];
        j := j + 1;
      }
      k := k + 1;
    }
    ghost var placed := data[..];
    assert |placed| == |s0| && (i == point1 || j == point2);
    assert MergeLoop(sortType, placed, s0[p..q + 1], s0[q + 1..r + 1], i, j, p + i + j)
      == MergeLoop(sortType, s0, s0[p..q + 1], s0[q + 1..r + 1], 0, 0, p);
    CopyRest(data, leftSide, i, k);
    ghost var leftCopied := data[..];
    assert leftCopied == Splice(placed, p + i + j, s0[p..q + 1][i..]);
    CopyRest(data, rightSide, j, k + (point1 - i));
    assert data[..] == Splice(leftCopied, p + i + j + (q - p + 1 - i), s0[q + 1..r + 1][j..]);
    MergeDone(sortType, s0, placed, leftCopied, data[..], p, q, r, i, j);
  }

  /** The end of `merge`: the placement loop has reached `placed` with one
      run used up, and the rest of the left run and then of the right one
      are copied back. */
  lemma MergeDone(sortType: int, s0: seq<Record>, placed: seq<Record>, leftCopied: seq<Record>, final: seq<Record>, p: int, q: int, r: int, i: nat, j: nat)
    requires 0 <= p <= q <= r < |s0| && |placed| == |s0|
    requires i <= q - p + 1 && j <= r - q && (i == q - p + 1 || j == r - q)
    requires MergeLoop(sortType, placed, s0[p..q + 1], s0[q + 1..r + 1], i, j, p + i + j)
      == MergeLoop(sortType, s0, s0[p..q + 1], s0[q + 1..r + 1], 0, 0, p)
    requires leftCopied == Splice(placed, p + i + j, s0[p..q + 1][i..])
    requires final == Splice(leftCopied, p + i + j + (q - p + 1 - i), s0[q + 1..r + 1][j..])
    ensures final == MergeStep(sortType, s0, p, q, r)
  {
    var left, right := s0[p..q + 1], s0[q + 1..r + 1];
    MergeFinish(sortType, placed, left, right, i, j, p + i + j);
    MergeLoopWrites(sortType, s0, left, right, 0, 0, p);
  }

  /** One level of `merge_sort`: with the left half sorted into `s1` and
      then the right half into `s2`, `merge` sorts the whole range. */
  lemma MergeHalves(sortType: int, s: seq<Record>, s1: seq<Record>, s2: seq<Record>, p: int, q: int, r: int)
    requires 0 <= p <= q < r < |s| && |s1| == |s| && |s2| == |s|
    requires SortedBetween(sortType, s1, p, q + 1) && SameOutside(s, s1, p, q)
    requires multiset(s1) == multiset(s)
    requires SortedBetween(sortType, s2, q + 1, r + 1) && SameOutside(s1, s2, q + 1, r)
    requires multiset(s2) == multiset(s1)
    ensures SortedBetween(sortType, MergeStep(sortType, s2, p, q, r), p, r + 1)
    ensures multiset(MergeStep(sortType, s2, p, q, r)) == multiset(s)
    ensures SameOutside(s, MergeStep(sortType, s2, p, q, r), p, r)
  {
    SortedUntouched(sortType, s1, s2, p, q + 1, r);
    MergeStepSorts(sortType, s2, p, q, r);
    MergeStepPermutes(sortType, s2, p, q, r);
    SameOutsideTransitive(s, s1, s2, p, r);
    SameOutsideTransitive(s, s2, MergeStep(sortType, s2, p, q, r), p, r);
  }

  /** A sorted range that an update of `[lo, hi]` does not reach stays
      sorted. */
  lemma SortedUntouched(sortType: int, a: seq<Record>, b: seq<Record>, p: int, lo: int, hi: int)
    requires 0 <= p <= lo <= |a|
    requires SortedBetween(sortType, a, p, lo) && SameOutside(a, b, lo, hi)
    ensures SortedBetween(sortType, b, p, lo)
  {
  }

  lemma SameOutsideTransitive(a: seq<Record>, b: seq<Record>, c: seq<Record>, lo: int, hi: int)
    requires SameOutside(a, b, lo, hi) && SameOutside(b, c, lo, hi)
    ensures SameOutside(a, c, lo, hi)
  {
  }

  /** `merge_sort(p, r)`: sorts `data[p..r]`, keeping the records and
      leaving the rest of the vector alone. */
  method MergeSortRange(sortType: int, data: array<Record>, p: int, r: int)
    requires 0 <= p <= r + 1 <= data.Length
    modifies data
    ensures SortedBetween(sortType, data[..], p, r + 1)
    ensures multiset(data[..]) == multiset(old(data[..]))
    ensures SameOutside(old(data[..]), data[..], p, r)
    decreases r - p
  {
    if p < r {
      var q := (p + r) / 2;
      MergeSortRange(sortType, data, p, q);
      ghost var s1 := data[..];
      MergeSortRange(sortType, data, q + 1, r);
      ghost var s2 := data[..];
      Merge(sortType, data, p, q, r);
      MergeHalves(sortType, old(data[..]), s1, s2, p, q, r);
    }
  }

  /** `mergeSort`: the whole vector, `merge_sort(0, size - 1)`. */
  method MergeSort(sortType: int, data: array<Record>)
    modifies data
    ensures Sorted(sortType, data[..]) && multiset(data[..]) == multiset(old(data[..]))
  {
    MergeSortRange(sortType, data, 0, data.Length - 1);
  }

  /** `t` is `s` with the records at `a` and `b` exchanged. */
  ghost predicate Exchanged(s: seq<Record>, t: seq<Record>, a: int, b: int)
    requires 0 <= a < |s| && 0 <= b < |s|
  {
    && |t| == |s| && t[a] == s[b] && t[b] == s[a]
    && forall k :: 0 <= k < |s| && k != a && k != b ==> t[k] == s[k]
  }

  /** The last step of `partition`: with the records `isSmaller` than the
      pivot `s[r]` in `[p, q)` and the others in `[q, r)`, exchanging `s[q]`
      and `s[r]` puts the pivot between the two groups. */
  lemma PivotPlaced(sortType: int, s: seq<Record>, t: seq<Record>, p: int, q: int, r: int)
    requires 0 <= p <= q <= r < |s|
    requires Exchanged(s, t, q, r)
    requires forall k :: p <= k < q ==> IsSmaller(sortType, s[k], s[r])
    requires forall k :: q <= k < r ==> !IsSmaller(sortType, s[k], s[r])
    ensures t[q] == s[r]
    ensures forall k :: p <= k < q ==> IsSmaller(sortType, t[k], t[q])
    ensures forall k :: q < k <= r ==> !IsSmaller(sortType, t[k], t[q])
  {
  }

  /** `partition`'s loop after it has compared `s[p..j-1]` with the pivot
      `s[r]`: the array and the last index `i` of the group of records
      `isSmaller` than the pivot. */
  function PartitionScan(sortType: int, s: seq<Record>, p: int, r: int, j: int): (res: (seq<Record>, int))
    requires 0 <= p <= j <= r < |s|
    ensures |res.0| == |s| && p - 1 <= res.1 < j
    decreases j - p
  {
    if j == p then (s, p - 1)
    else
      var prev := PartitionScan(sortType, s, p, r, j - 1);
      var t, i := prev.0, prev.1;
      if IsSmaller(sortType, t[j - 1], s[r]) then (t[i + 1 := t[j - 1]][j - 1 := t[i + 1]], i + 1)
      else (t, i)
  }

  /** `[p, i]` holds records `isSmaller` than `pivot`, `(i, j)` the others. */
  ghost predicate Grouped(sortType: int, t: seq<Record>, pivot: Record, p: int, i: int, j: int)
    requires 0 <= p && j <= |t|
  {
    && (forall k :: p <= k <= i && k < j ==> IsSmaller(sortType, t[k], pivot))
    && (forall k :: i < k < j && p <= k ==> !IsSmaller(sortType, t[k], pivot))
  }

  /** One step of `partition`'s loop keeps the two groups apart: a record
      smaller than the pivot is exchanged with `t[i+1]`, any other one
      stays. */
  lemma ScanSwapOrders(sortType: int, t: seq<Record>, u: seq<Record>, pivot: Record, p: int, i: int, j: int)
    requires 0 <= p <= i + 1 <= j - 1 < |t|
    requires Grouped(sortType, t, pivot, p, i, j - 1)
    requires IsSmaller(sortType, t[j - 1], pivot)
    requires u == t[i + 1 := t[j - 1]][j - 1 := t[i + 1]]
    ensures Grouped(sortType, u, pivot, p, i + 1, j)
  {
  }

  /** The loop invariant of `partition`, ordering half: `[p, i]` holds
      records `isSmaller` than the pivot `s[r]`, `(i, j)` the others. */
  lemma {:induction false} PartitionScanOrders(sortType: int, s: seq<Record>, p: int, r: int, j: int)
    requires 0 <= p <= j <= r < |s|
    ensures Grouped(sortType, PartitionScan(sortType, s, p, r, j).0, s[r], p, PartitionScan(sortType, s, p, r, j).1, j)
    decreases j - p
  {
    if j > p {
      PartitionScanOrders(sortType, s, p, r, j - 1);
      var prev := PartitionScan(sortType, s, p, r, j - 1);
      var t, i := prev.0, prev.1;
      if IsSmaller(sortType, t[j - 1], s[r]) {
        var u := t[i + 1 := t[j - 1]][j - 1 := t[i + 1]];
        assert PartitionScan(sortType, s, p, r, j) == (u, i + 1);
        ScanSwapOrders(sortType, t, u, s[r], p, i, j);
      } else {
        assert PartitionScan(sortType, s, p, r, j) == (t, i);
      }
    }
  }

  /** Exchanging two indices of `[p, j)` keeps everything outside it. */
  lemma ScanSwapOutside(s: seq<Record>, t: seq<Record>, u: seq<Record>, p: int, a: int, j: int)
    requires 0 <= p <= a <= j - 1 < |t|
    requires SameOutside(s, t, p, j - 2)
    requires u == t[a := t[j - 1]][j - 1 := t[a]]
    ensures SameOutside(s, u, p, j - 1)
  {
  }

  /** The loop invariant of `partition`, permutation half: the records are
      only rearranged, and nothing at or after `j` (the pivot included) has
      moved. */
  lemma {:induction false} PartitionScanPermutes(sortType: int, s: seq<Record>, p: int, r: int, j: int)
    requires 0 <= p <= j <= r < |s|
    ensures var t := PartitionScan(sortType, s, p, r, j).0;
      multiset(t) == multiset(s) && SameOutside(s, t, p, j - 1)
    decreases j - p
  {
    if j > p {
      PartitionScanPermutes(sortType, s, p, r, j - 1);
      var prev := PartitionScan(sortType, s, p, r, j - 1);
      var t, i := prev.0, prev.1;
      if IsSmaller(sortType, t[j - 1], s[r]) {
        var u := t[i + 1 := t[j - 1]][j - 1 := t[i + 1]];
        assert PartitionScan(sortType, s, p, r, j).0 == u;
        SwapPermutes(t, i + 1, j - 1);
        ScanSwapOutside(s, t, u, p, i + 1, j);
      } else {
        assert PartitionScan(sortType, s, p, r, j).0 == t;
      }
    }
  }

  /** What `partition(p, r)` leaves and returns: the scan of `[p, r)`, then
      the pivot exchanged into place just after the smaller group. */
  function PartitionResult(sortType: int, s: seq<Record>, p: int, r: int): (res: (seq<Record>, int))
    requires 0 <= p <= r < |s|
    ensures |res.0| == |s| && p <= res.1 <= r
  {
    var scan := PartitionScan(sortType, s, p, r, r);
    var t, i := scan.0, scan.1;
    (t[i + 1 := t[r]][r := t[i + 1]], i + 1)
  }

  /** `partition(p, r)` puts the pivot `s[r]` at the returned index with the
      records `isSmaller` than it before and the others after, permuting
      only `[p, r]`. */
  lemma PartitionResultSplits(sortType: int, s: seq<Record>, p: int, r: int)
    requires 0 <= p <= r < |s|
    ensures var res := PartitionResult(sortType, s, p, r);
      var t, q := res.0, res.1;
      && t[q] == s[r]
      && (forall k :: p <= k < q ==> IsSmaller(sortType, t[k], t[q]))
      && (forall k :: q < k <= r ==> !IsSmaller(sortType, t[k], t[q]))
      && multiset(t) == multiset(s)
      && SameOutside(s, t, p, r)
  {
    PartitionScanOrders(sortType, s, p, r, r);
    PartitionScanPermutes(sortType, s, p, r, r);
    var scan := PartitionScan(sortType, s, p, r, r);
    var t := PartitionResult(sortType, s, p, r).0;
    SwapPermutes(scan.0, scan.1 + 1, r);
    PivotPlaced(sortType, scan.0, t, p, scan.1 + 1, r);
  }

  /** `partition(p, r)` (Lomuto) with pivot `data[r]`. */
  method Partition(sortType: int, data: array<Record>, p: int, r: int) returns (q: int)
    requires 0 <= p <= r < data.Length
    modifies data
    ensures (data[..], q) == PartitionResult(sortType, old(data[..]), p, r)
  {
    var x := data[r];
    var i := p - 1;
    var j := p;
    while j < r
      invariant p <= j <= r
      invariant (data[..], i) == PartitionScan(sortType, old(data[..]), p, r, j)
    {
      if IsSmaller(sortType, data[j], x) {
        i := i + 1;
        data[i], data[j] := data[j], data[i];
      }
      j := j + 1;
    }
    data[i + 1], data[r] := data[r], data[i + 1];
    q := i + 1;
  }

  /** `q` lies in `[p, r]`, the records of `[p, q)` are `isSmaller` than
      `t[q]` and those of `(q, r]` are not. */
  ghost predicate PartitionedAt(sortType: int, t: seq<Record>, p: int, q: int, r: int) {
    && 0 <= p <= q <= r < |t|
    && (forall k :: p <= k < q ==> IsSmaller(sortType, t[k], t[q]))
    && (forall k :: q < k <= r ==> !IsSmaller(sortType, t[k], t[q]))
  }

  /** `randomized_partition`'s result: partitioning after the drawn index
      `i` has been exchanged with `r` splits `[p, r]` around the drawn
      record and only rearranges `[p, r]`. */
  lemma DrawnPartitionSplits(sortType: int, s: seq<Record>, p: int, r: int, i: int)
    requires 0 <= p <= i <= r < |s|
    ensures var res := PartitionResult(sortType, s[r := s[i]][i := s[r]], p, r);
      && res.0[res.1] == s[i]
      && PartitionedAt(sortType, res.0, p, res.1, r)
      && multiset(res.0) == multiset(s)
      && SameOutside(s, res.0, p, r)
  {
    var drawn := s[r := s[i]][i := s[r]];
    SwapPermutes(s, r, i);
    PartitionResultSplits(sortType, drawn, p, r);
    SameOutsideTransitive(s, drawn, PartitionResult(sortType, drawn, p, r).0, p, r);
  }

  /** `randomized_partition`: some index of `[p, r]` (drawn at random in the
      source) is swapped with `r` before partitioning. */
  method RandomizedPartition(sortType: int, data: array<Record>, p: int, r: int) returns (q: int)
    requires 0 <= p <= r < data.Length
    modifies data
    ensures PartitionedAt(sortType, data[..], p, q, r)
    ensures multiset(data[..]) == multiset(old(data[..]))
    ensures SameOutside(old(data[..]), data[..], p, r)
  {
    var i :| p <= i <= r;
    ghost var s0 := data[..];
    data[r], data[i] := data[i], data[r];
    assert data[..] == s0[r := s0[i]][i := s0[r]];
    q := Partition(sortType, data, p, r);
    DrawnPartitionSplits(sortType, s0, p, r, i);
  }

  /** What a permutation of a range keeps: every record it holds was already
      in the range. */
  lemma RangeMembers(before: seq<Record>, after: seq<Record>, p: int, r: int, k: int)
    requires 0 <= p <= k <= r < |before|
    requires SameOutside(before, after, p, r)
    requires multiset(after) == multiset(before)
    ensures exists m :: p <= m <= r && before[m] == after[k]
  {
    RangePermutation(before, after, p, r);
    assert after[k] == after[p..r + 1][k - p];
    assert after[k] in multiset(before[p..r + 1]);
    var m' :| 0 <= m' < r + 1 - p && before[p..r + 1][m'] == after[k];
    assert before[p + m'] == after[k];
  }

  /** A sorted run of records not greater than a pivot, the pivot, and a
      sorted run of records greater than it, form a sorted run. */
  lemma SortedAroundPivot(sortType: int, s: seq<Record>, p: int, q: int, r: int)
    requires 0 <= p <= q <= r < |s|
    requires SortedBetween(sortType, s, p, q) && SortedBetween(sortType, s, q + 1, r + 1)
    requires forall k :: p <= k < q ==> IsSmaller(sortType, s[k], s[q])
    requires forall k :: q < k <= r ==> !IsSmaller(sortType, s[k], s[q])
    ensures SortedBetween(sortType, s, p, r + 1)
  {
    forall i, j | p <= i < j <= r
      ensures IsSmaller(sortType, s[i], s[j])
    {
      if j > q {
        IsSmallerTotalPreorder(sortType, s[j], s[q], s[q]);
      }
      if i < q && j > q {
        IsSmallerTotalPreorder(sortType, s[i], s[q], s[j]);
      }
    }
  }

  /** `randomized_quickSort(p, r)`: sorts `data[p..r]` whatever pivots are
      drawn. */
  method RandomizedQuickSort(sortType: int, data: array<Record>, p: int, r: int)
    requires 0 <= p <= r + 1 <= data.Length
    modifies data
    ensures SortedBetween(sortType, data[..], p, r + 1)
    ensures multiset(data[..]) == multiset(old(data[..]))
    ensures SameOutside(old(data[..]), data[..], p, r)
    decreases r - p
  {
    if p < r {
      var q := RandomizedPartition(sortType, data, p, r);
      ghost var parted := data[..];
      var pivot := data[q];
      RandomizedQuickSort(sortType, data, p, q - 1);
      ghost var leftDone := data[..];
      RandomizedQuickSort(sortType, data, q + 1, r);
      forall k | p <= k < q
        ensures IsSmaller(sortType, data[k], pivot)
      {
        RangeMembers(parted, leftDone, p, q - 1, k);
      }
      forall k | q < k <= r
        ensures !IsSmaller(sortType, data[k], pivot)
      {
        RangeMembers(leftDone, data[..], q + 1, r, k);
      }
      assert SortedBetween(sortType, data[..], p, q) by {
        assert forall m :: p <= m < q ==> data[m] == leftDone[m];
      }
      SortedAroundPivot(sortType, data[..], p, q, r);
    }
  }

  /** `quickSort`: the whole vector, `randomized_quickSort(0, size - 1)`. */
  method QuickSort(sortType: int, data: array<Record>)
    modifies data
    ensures Sorted(sortType, data[..])
    ensures multiset(data[..]) == multiset(old(data[..]))
  {
    RandomizedQuickSort(sortType, data, 0, data.Length - 1);
  }
}
