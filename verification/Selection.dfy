/** In-place quickselect, and the sorted order it selects from. */
module Selection {

  // ---- the reference: sorting -----------------------------------------------------------------

  ghost predicate Sorted(s: seq<int>) {
    forall i, j :: 0 <= i < j < |s| ==> s[i] <= s[j]
  }

  function Insert(x: int, s: seq<int>): (r: seq<int>)
    ensures |r| == |s| + 1
  {
    if s == [] || x <= s[0] then [x] + s else [s[0]] + Insert(x, s[1..])
  }

  /** The elements in ascending order. */
  function Sort(s: seq<int>): (r: seq<int>)
    ensures |r| == |s|
  {
    if s == [] then [] else Insert(s[0], Sort(s[1..]))
  }

  lemma {:induction false} InsertMembers(x: int, s: seq<int>)
    ensures multiset(Insert(x, s)) == multiset{x} + multiset(s)
    ensures forall v :: v in Insert(x, s) <==> v == x || v in s
  {
    if s != [] && x > s[0] {
      InsertMembers(x, s[1..]);
      assert s == [s[0]] + s[1..];
    }
  }

  lemma {:induction false} InsertSorted(x: int, s: seq<int>)
    requires Sorted(s)
    ensures Sorted(Insert(x, s))
  {
    if s != [] && x > s[0] {
      InsertSorted(x, s[1..]);
      InsertMembers(x, s[1..]);
      var r := Insert(x, s[1..]);
      forall i | 0 <= i < |r|
        ensures s[0] <= r[i]
      {
        assert r[i] in r;
      }
    }
  }

  lemma {:induction false} SortSorts(s: seq<int>)
    ensures Sorted(Sort(s)) && multiset(Sort(s)) == multiset(s)
    ensures forall v :: v in Sort(s) <==> v in s
  {
    if s != [] {
      SortSorts(s[1..]);
      InsertSorted(s[0], Sort(s[1..]));
      InsertMembers(s[0], Sort(s[1..]));
      assert s == [s[0]] + s[1..];
    }
  }

  lemma LeastFirst(a: seq<int>, b: seq<int>)
    requires Sorted(a) && Sorted(b) && multiset(a) == multiset(b) && a != [] && b != []
    ensures a[0] <= b[0]
  {
    assert b[0] in multiset(a);
    assert b[0] in a;
  }

  /** There is only one way to sort. */
  lemma {:induction false} SortedUnique(a: seq<int>, b: seq<int>)
    requires Sorted(a) && Sorted(b) && multiset(a) == multiset(b)
    ensures a == b
  {
    assert |a| == |multiset(a)| == |multiset(b)| == |b|;
    if a != [] {
      LeastFirst(a, b);
      LeastFirst(b, a);
      TailMultiset(a);
      TailMultiset(b);
      SortedUnique(a[1..], b[1..]);
    }
  }

  lemma TailMultiset(a: seq<int>)
    requires a != []
    ensures multiset(a[1..]) == multiset(a) - multiset{a[0]} && a == [a[0]] + a[1..]
  {
    assert a == [a[0]] + a[1..];
  }

  /** Within [s, e), nothing before position s + k exceeds the element there and nothing after it is smaller. */
  ghost predicate SplitAt(t: seq<int>, s: int, e: int, k: int) {
    0 <= s <= s + k < e <= |t|
    && (forall i :: s <= i < s + k ==> t[i] <= t[s + k])
    && (forall i :: s + k <= i < e ==> t[s + k] <= t[i])
  }

  lemma SortedJoin(low: seq<int>, v: int, high: seq<int>)
    requires Sorted(low) && Sorted(high)
    requires (forall i :: 0 <= i < |low| ==> low[i] <= v) && (forall i :: 0 <= i < |high| ==> v <= high[i])
    ensures Sorted(low + [v] + high)
  {
  }

  /** Every sorted element is one of the original elements. */
  lemma SortedFrom(t: seq<int>, i: int) returns (j: int)
    requires 0 <= i < |t|
    ensures 0 <= j < |t| && Sort(t)[i] == t[j]
  {
    SortSorts(t);
    var r := Sort(t);
    assert r[i] in r;
    j :| 0 <= j < |t| && t[j] == r[i];
  }

  lemma SortAtMost(t: seq<int>, v: int)
    requires forall i :: 0 <= i < |t| ==> t[i] <= v
    ensures forall i :: 0 <= i < |t| ==> Sort(t)[i] <= v
  {
    forall i | 0 <= i < |t|
      ensures Sort(t)[i] <= v
    {
      var j := SortedFrom(t, i);
    }
  }

  lemma SortAtLeast(t: seq<int>, v: int)
    requires forall i :: 0 <= i < |t| ==> v <= t[i]
    ensures forall i :: 0 <= i < |t| ==> v <= Sort(t)[i]
  {
    forall i | 0 <= i < |t|
      ensures v <= Sort(t)[i]
    {
      var j := SortedFrom(t, i);
    }
  }

  lemma MultisetAround(t: seq<int>, k: int)
    requires 0 <= k < |t|
    ensures multiset(t) == multiset(t[..k]) + multiset{t[k]} + multiset(t[k + 1..])
  {
    assert t == t[..k] + [t[k]] + t[k + 1..];
  }

  /** A rearrangement split at k has the k-th smallest element at k. */
  lemma SplitSelects(s: seq<int>, t: seq<int>, k: int)
    requires multiset(t) == multiset(s) && SplitAt(t, 0, |t|, k)
    ensures |s| == |t| && t[k] == Sort(s)[k]
  {
    SortAtMost(t[..k], t[k]);
    SortAtLeast(t[k + 1..], t[k]);
    SortSorts(t[..k]);
    SortSorts(t[k + 1..]);
    var low, high := Sort(t[..k]), Sort(t[k + 1..]);
    SortedJoin(low, t[k], high);
    MultisetAround(t, k);
    assert |s| == |multiset(s)| == |multiset(t)| == |t|;
    SortSorts(s);
    SortedUnique(low + [t[k]] + high, Sort(s));
  }

  // ---- the in-place algorithm -----------------------------------------------------------------

  /** Within [s, e) the array is a rearrangement of what it was; outside it is what it was. */
  ghost predicate RearrangedWithin(was: seq<int>, now: seq<int>, s: int, e: int) {
    |was| == |now| && 0 <= s <= e <= |now|
    && multiset(now[s..e]) == multiset(was[s..e])
    && was[..s] == now[..s] && was[e..] == now[e..]
  }

  /** Every element of a range satisfies a bound that every element of its rearrangement satisfied. */
  lemma RearrangedMembers(was: seq<int>, now: seq<int>, s: int, e: int, i: int) returns (j: int)
    requires RearrangedWithin(was, now, s, e) && s <= i < e
    ensures s <= j < e && now[i] == was[j]
  {
    assert now[s..e][i - s] in multiset(now[s..e]);
    assert now[i] in was[s..e];
    j :| s <= j < e && was[j] == now[i];
  }

  lemma RearrangedTwice(a: seq<int>, b: seq<int>, c: seq<int>, s: int, e: int, s1: int, e1: int)
    requires RearrangedWithin(a, b, s, e) && s <= s1 <= e1 <= e && RearrangedWithin(b, c, s1, e1)
    ensures RearrangedWithin(a, c, s, e)
  {
    assert b[s..e] == b[s..s1] + b[s1..e1] + b[e1..e];
    assert c[s..e] == c[s..s1] + c[s1..e1] + c[e1..e];
    assert b[s..s1] == b[..s1][s..] == c[..s1][s..] == c[s..s1];
    assert b[e1..e] == b[e1..][..e - e1] == c[e1..][..e - e1] == c[e1..e];
    assert c[..s] == c[..s1][..s] == b[..s1][..s] == b[..s];
    assert c[e..] == c[e1..][e - e1..] == b[e1..][e - e1..] == b[e..];
  }

  /** What exchanging two elements inside [s, e) does to the whole array. */
  lemma SwapRearranges(was: seq<int>, now: seq<int>, s: int, e: int, i: int, j: int)
    requires 0 <= s <= i < e <= |was| && s <= j < e
    requires now == was[i := was[j]][j := was[i]]
    ensures RearrangedWithin(was, now, s, e)
  {
    assert now[s..e] == was[s..e][i - s := was[j]][j - s := was[i]];
  }

  method Swap(data: array<int>, i: nat, j: nat)
    requires i < data.Length && j < data.Length
    modifies data
    ensures data[..] == old(data[..])[i := old(data[j])][j := old(data[i])]
  {
    var temp := data[i];
    data[i] := data[j];
    data[j] := temp;
  }

  /** An exchange inside [s, e) of an array already rearranged there. */
  method SwapWithin(data: array<int>, i: nat, j: nat, s: nat, e: nat, ghost was: seq<int>)
    requires RearrangedWithin(was, data[..], s, e) && s <= i < e && s <= j < e
    modifies data
    ensures RearrangedWithin(was, data[..], s, e)
    ensures data[i] == old(data[j]) && data[j] == old(data[i])
    ensures forall a :: 0 <= a < data.Length && a != i && a != j ==> data[a] == old(data[a])
  {
    ghost var before := data[..];
    Swap(data, i, j);
    ghost var after := data[..];
    SwapRearranges(before, after, s, e, i, j);
    RearrangedTwice(was, before, after, s, e, s, e);
    assert forall a :: 0 <= a < data.Length ==> data[a] == after[a];
    assert forall a :: 0 <= a < data.Length ==> old(data[a]) == before[a];
  }

  /** One pass of the insertion sort: sinks the element at i into the sorted elements before it. */
  method Sink(data: array<int>, s: nat, e: nat, i: nat, ghost was: seq<int>)
    requires RearrangedWithin(was, data[..], s, e) && s < i < e
    requires forall a, b :: s <= a < b < i ==> data[a] <= data[b]
    modifies data
    ensures RearrangedWithin(was, data[..], s, e)
    ensures forall a, b :: s <= a < b <= i ==> data[a] <= data[b]
  {
    var j := i;
    while j > s && data[j - 1] > data[j]
      invariant s <= j <= i
      invariant RearrangedWithin(was, data[..], s, e)
      invariant forall a, b :: s <= a < b <= i && b != j ==> data[a] <= data[b]
    {
      SwapWithin(data, j, j - 1, s, e, was);
      j := j - 1;
    }
  }

  /** The insertion sort used on at most five elements. */
  method SortShortRange(data: array<int>, s: nat, e: nat)
    requires s <= e <= data.Length
    modifies data
    ensures RearrangedWithin(old(data[..]), data[..], s, e)
    ensures forall a, b :: s <= a < b < e ==> data[a] <= data[b]
  {
    var i := s + 1;
    while i < e
      invariant s + 1 <= i && (i <= e || e == s)
      invariant RearrangedWithin(old(data[..]), data[..], s, e)
      invariant forall a, b :: s <= a < b < i && b < e ==> data[a] <= data[b]
    {
      Sink(data, s, e, i, old(data[..]));
      i := i + 1;
    }
  }

  /**
   * The partition step: moves the middle element to its place j, smaller elements before it and the
   * others after it.
   */
  method Partition(data: array<int>, s: nat, e: nat) returns (j: nat)
    requires s < e <= data.Length
    modifies data
    ensures s <= j < e
    ensures RearrangedWithin(old(data[..]), data[..], s, e)
    ensures forall i :: s <= i < j ==> data[i] < data[j]
    ensures forall i :: j <= i < e ==> data[j] <= data[i]
  {
    var p := (s + e) / 2;
    ghost var was := data[..];
    SwapWithin(data, p, e - 1, s, e, was);
    ghost var pivot := data[e - 1];

    j := s;
    for i := s to e - 1
      invariant s <= j <= i
      invariant RearrangedWithin(was, data[..], s, e)
      invariant data[e - 1] == pivot
      invariant forall a :: s <= a < j ==> data[a] < pivot
      invariant forall a :: j <= a < i ==> pivot <= data[a]
    {
      if data[i] < data[e - 1] {
        SwapWithin(data, i, j, s, e, was);
        j := j + 1;
      }
    }
    SwapWithin(data, j, e - 1, s, e, was);
  }

  /** Below j everything is smaller than the element there, above it nothing is. */
  ghost predicate PartitionedAt(t: seq<int>, s: int, e: int, j: int) {
    0 <= s <= j < e <= |t| && (forall i :: s <= i < j ==> t[i] < t[j]) && (forall i :: j <= i < e ==> t[j] <= t[i])
  }

  lemma LeftSplit(split: seq<int>, now: seq<int>, s: int, e: int, j: int, k: int)
    requires PartitionedAt(split, s, e, j) && 0 <= k < j - s
    requires RearrangedWithin(split, now, s, j) && SplitAt(now, s, j, k)
    ensures SplitAt(now, s, e, k)
  {
    var below := RearrangedMembers(split, now, s, j, s + k);
    forall i | j <= i < e
      ensures now[i] == split[i]
    {
      assert now[i] == now[j..][i - j] && split[i] == split[j..][i - j];
    }
  }

  lemma RightSplit(split: seq<int>, now: seq<int>, s: int, e: int, j: int, k: int)
    requires PartitionedAt(split, s, e, j) && j - s < k < e - s
    requires RearrangedWithin(split, now, j + 1, e) && SplitAt(now, j + 1, e, k - (j - s + 1))
    ensures SplitAt(now, s, e, k)
  {
    var above := RearrangedMembers(split, now, j + 1, e, s + k);
    forall i | s <= i <= j
      ensures now[i] == split[i]
    {
      assert now[i] == now[..j + 1][i] && split[i] == split[..j + 1][i];
    }
  }

  /** The short case: a sorted range is split everywhere. */
  method SplitShort(data: array<int>, s: nat, e: nat, k: nat) returns (value: int)
    requires s <= e <= data.Length && k < e - s
    modifies data
    ensures RearrangedWithin(old(data[..]), data[..], s, e)
    ensures SplitAt(data[..], s, e, k) && value == data[s + k]
  {
    SortShortRange(data, s, e);
    value := data[s + k];
  }

  /** The step of the long case. */
  method PartitionStep(data: array<int>, s: nat, e: nat) returns (j: nat)
    requires s < e <= data.Length
    modifies data
    ensures RearrangedWithin(old(data[..]), data[..], s, e) && PartitionedAt(data[..], s, e, j)
  {
    j := Partition(data, s, e);
  }

  /** `selectKth`, with the rearrangement it leaves behind: the range is split at the selected position. */
  method SplitRange(data: array<int>, s: nat, e: nat, k: nat) returns (value: int)
    requires s <= e <= data.Length && k < e - s
    modifies data
    ensures RearrangedWithin(old(data[..]), data[..], s, e)
    ensures SplitAt(data[..], s, e, k) && value == data[s + k]
    decreases e - s
  {
    if e - s <= 5 {
      value := SplitShort(data, s, e, k);
      return;
    }
    ghost var was := data[..];
    var j := PartitionStep(data, s, e);
    ghost var split := data[..];
    if k == j - s {
      return data[j];
    } else if k < j - s {
      value := SplitRange(data, s, j, k);
      ghost var now := data[..];
      LeftSplit(split, now, s, e, j, k);
      RearrangedTwice(was, split, now, s, e, s, j);
    } else {
      value := SplitRange(data, j + 1, e, k - (j - s + 1));
      ghost var now := data[..];
      RightSplit(split, now, s, e, j, k);
      RearrangedTwice(was, split, now, s, e, j + 1, e);
    }
  }

  /**
   * `selectKth`: returns the k-th smallest element of the range, leaves the range a rearrangement of
   * itself and touches nothing outside it.
   */
  method SelectKth(data: array<int>, s: nat, e: nat, k: nat) returns (value: int)
    requires s <= e <= data.Length && k < e - s
    modifies data
    ensures value == Sort(old(data[s..e]))[k]
    ensures multiset(data[s..e]) == multiset(old(data[s..e]))
    ensures data[..s] == old(data[..s]) && data[e..] == old(data[e..])
  {
    ghost var was := data[..];
    value := SplitRange(data, s, e, k);
    ghost var now := data[..];
    assert was[s..e] == old(data[s..e]) && now[s..e] == data[s..e];
    assert was[..s] == old(data[..s]) && was[e..] == old(data[e..]) && now[..s] == data[..s] && now[e..] == data[e..];
    SplitSelects(was[s..e], now[s..e], k);
  }
}
