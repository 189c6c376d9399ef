/** quickSort / quickSortPart / partition: Lomuto quicksort with the last
    item of the range as pivot. */
module QuickSort {
  import opened SortSpec

  /** A sorted run below the pivot, the pivot, and a sorted run of keys at
      least the pivot's, form a sorted run. */
  lemma JoinAroundPivot<T>(lo: seq<T>, x: T, hi: seq<T>, key: T -> int)
    requires SortedBy(lo, key) && SortedBy(hi, key)
    requires AllBelow(lo, key, key(x)) && AllAtLeast(hi, key, key(x))
    ensures SortedBy(lo + [x] + hi, key)
  {
    var r := lo + [x] + hi;
    forall i, j | 0 <= i < j < |r|
      ensures key(r[i]) <= key(r[j])
    {
      if j < |lo| {
        assert r[i] == lo[i] && r[j] == lo[j];
      } else if i < |lo| {
        assert r[i] == lo[i];
        if j > |lo| { assert r[j] == hi[j - |lo| - 1]; }
      } else if i > |lo| {
        assert r[i] == hi[i - |lo| - 1] && r[j] == hi[j - |lo| - 1];
      } else {
        assert r[j] == hi[j - |lo| - 1];
      }
    }
  }

  method Partition<T>(items: array<T>, low: int, high: int, key: T -> int) returns (p: int)
    requires 0 <= low <= high < items.Length
    modifies items
    ensures low <= p <= high
    ensures items[p] == old(items[high])
    ensures AllBelow(items[low..p], key, key(items[p]))
    ensures AllAtLeast(items[p + 1..high + 1], key, key(items[p]))
    ensures items[..low] == old(items[..low]) && items[high + 1..] == old(items[high + 1..])
    ensures multiset(items[low..high + 1]) == multiset(old(items[low..high + 1]))
  {
    ghost var orig := items[..];
    var index := PartitionScan(items, low, high, key);
    ghost var cur := items[..];
    Swap(items, index + 1, high);
    SwapInRange(cur, items[..], low, high, index + 1, high);
    p := index + 1;
    PivotPlaced(orig, cur, items[..], low, high, p, key);
  }

  /** The loop of partition: every item with a key below the pivot's (the
      item at high) is swapped to the front of [low, high). The result is the
      last position of that front run. */
  method PartitionScan<T>(items: array<T>, low: int, high: int, key: T -> int) returns (index: int)
    requires 0 <= low <= high < items.Length
    modifies items
    ensures low - 1 <= index < high
    ensures items[high] == old(items[high])
    ensures forall k :: low <= k <= index ==> key(items[k]) < key(items[high])
    ensures forall k :: index < k < high ==> key(items[k]) >= key(items[high])
    ensures items[..low] == old(items[..low]) && items[high + 1..] == old(items[high + 1..])
    ensures multiset(items[low..high + 1]) == multiset(old(items[low..high + 1]))
  {
    ghost var orig := items[..];
    index := low - 1;
    var i := low;
    while i <= high - 1
      invariant low <= i <= high
      invariant Partitioning(items[..], orig, low, high, index, i, key)
    {
      index := PartitionRound(items, orig, low, high, index, i, key);
      i := i + 1;
    }
  }

  /** One round of the loop of movePivotSmaller: an item ranking below the
      pivot is swapped forward, behind the others that do. */
  method PartitionRound<T>(items: array<T>, ghost orig: seq<T>, low: int, high: int, index: int, i: int, key: T -> int)
    returns (index': int)
    requires i < high && Partitioning(items[..], orig, low, high, index, i, key)
    modifies items
    ensures Partitioning(items[..], orig, low, high, index', i + 1, key)
  {
    ghost var cur := items[..];
    index' := index;
    if key(items[i]) < key(items[high]) {
      ghost var next := cur[index + 1 := cur[i]][i := cur[index + 1]];
      PartitionSwap(cur, next, orig, low, high, index, i, key);
      index' := index + 1;
      Swap(items, index', i);
      assert items[..] == next;
    } else {
      PartitionKeep(cur, orig, low, high, index, i, key);
    }
  }

  /** The loop invariant of the partition: before `i`, the items up to
      `index` rank below the pivot at `high` and the others do not; outside
      [low, high] nothing moved, and inside it the items were only exchanged. */
  ghost predicate Partitioning<T>(s: seq<T>, orig: seq<T>, low: int, high: int, index: int, i: int, key: T -> int)
  {
    |s| == |orig| && 0 <= low <= i <= high < |s| && low - 1 <= index < i &&
    s[high] == orig[high] &&
    (forall k :: low <= k <= index ==> key(s[k]) < key(orig[high])) &&
    (forall k :: index < k < i ==> key(s[k]) >= key(orig[high])) &&
    s[..low] == orig[..low] && s[high + 1..] == orig[high + 1..] &&
    multiset(s[low..high + 1]) == multiset(orig[low..high + 1])
  }

  /** A round of the partition loop that swaps the item at `i` forward,
      behind the items that rank below the pivot, keeps the invariant. */
  lemma PartitionSwap<T>(s: seq<T>, t: seq<T>, orig: seq<T>, low: int, high: int, index: int, i: int, key: T -> int)
    requires Partitioning(s, orig, low, high, index, i, key) && i < high
    requires key(s[i]) < key(s[high]) && t == s[index + 1 := s[i]][i := s[index + 1]]
    ensures Partitioning(t, orig, low, high, index + 1, i + 1, key)
  {
    var j := index + 1;
    SwapInRange(s, t, low, high, j, i);
    forall k | low <= k <= j
      ensures key(t[k]) < key(orig[high])
    {
      assert t[k] == if k == j then s[i] else s[k];
    }
    forall k | j < k <= i
      ensures key(t[k]) >= key(orig[high])
    {
      assert t[k] == if k == i then s[j] else s[k];
    }
  }

  /** A round that leaves the item at `i` where it is keeps the invariant. */
  lemma PartitionKeep<T>(s: seq<T>, orig: seq<T>, low: int, high: int, index: int, i: int, key: T -> int)
    requires Partitioning(s, orig, low, high, index, i, key) && i < high
    requires key(s[i]) >= key(s[high])
    ensures Partitioning(s, orig, low, high, index, i + 1, key)
  {
  }



  /** The final swap of partition puts the pivot between the two runs. */
  lemma PivotPlaced<T>(orig: seq<T>, cur: seq<T>, after: seq<T>, low: int, high: int, p: int, key: T -> int)
    requires 0 <= low <= p <= high < |cur| == |orig|
    requires forall k :: low <= k < p ==> key(cur[k]) < key(cur[high])
    requires forall k :: p <= k < high ==> key(cur[k]) >= key(cur[high])
    requires cur[high] == orig[high]
    requires after == cur[p := cur[high]][high := cur[p]]
    ensures after[p] == orig[high]
    ensures AllBelow(after[low..p], key, key(after[p]))
    ensures AllAtLeast(after[p + 1..high + 1], key, key(after[p]))
  {
    var below, atLeast := after[low..p], after[p + 1..high + 1];
    forall k | 0 <= k < |below| ensures key(below[k]) < key(after[p]) {
      assert below[k] == cur[low + k];
    }
    forall k | 0 <= k < |atLeast| ensures key(atLeast[k]) >= key(after[p]) {
      assert atLeast[k] == after[p + 1 + k];
    }
  }

  method QuickSortPart<T>(items: array<T>, low: int, high: int, key: T -> int)
    requires 0 <= low <= high + 1 <= items.Length
    modifies items
    ensures SortedBy(items[low..high + 1], key)
    ensures multiset(items[low..high + 1]) == multiset(old(items[low..high + 1]))
    ensures items[..low] == old(items[..low]) && items[high + 1..] == old(items[high + 1..])
    decreases high - low
  {
    if high < low {
      return;
    }
    var pivot := Partition(items, low, high, key);
    ghost var afterPartition := items[..];
    QuickSortPart(items, low, pivot - 1, key);
    ghost var afterLeft := items[..];
    QuickSortPart(items, pivot + 1, high, key);
    SortedAfterBothHalves(old(items[..]), afterPartition, afterLeft, items[..], low, pivot, high, key);
  }

  /** Reasoning about the three states of QuickSortPart, on sequences. */
  lemma SortedAfterBothHalves<T>(s0: seq<T>, s1: seq<T>, s2: seq<T>, s3: seq<T>,
                                 low: int, p: int, high: int, key: T -> int)
    requires 0 <= low <= p <= high < |s0| == |s1| == |s2| == |s3|
    // after partition
    requires AllBelow(s1[low..p], key, key(s1[p]))
    requires AllAtLeast(s1[p + 1..high + 1], key, key(s1[p]))
    requires s1[..low] == s0[..low] && s1[high + 1..] == s0[high + 1..]
    requires multiset(s1[low..high + 1]) == multiset(s0[low..high + 1])
    // after sorting the left part
    requires SortedBy(s2[low..p], key)
    requires multiset(s2[low..p]) == multiset(s1[low..p])
    requires s2[..low] == s1[..low] && s2[p..] == s1[p..]
    // after sorting the right part
    requires SortedBy(s3[p + 1..high + 1], key)
    requires multiset(s3[p + 1..high + 1]) == multiset(s2[p + 1..high + 1])
    requires s3[..p + 1] == s2[..p + 1] && s3[high + 1..] == s2[high + 1..]
    ensures SortedBy(s3[low..high + 1], key)
    ensures multiset(s3[low..high + 1]) == multiset(s0[low..high + 1])
    ensures s3[..low] == s0[..low] && s3[high + 1..] == s0[high + 1..]
  {
    var x := s1[p];
    assert s2[p] == x && s3[p] == x by {
      assert s2[p..][0] == s1[p..][0];
      assert s3[..p + 1][p] == s2[..p + 1][p];
    }
    var lo, hi := s3[low..p], s3[p + 1..high + 1];
    assert lo == s2[low..p] by {
      assert s3[..p + 1][low..p] == s2[..p + 1][low..p];
    }
    assert s2[p + 1..high + 1] == s1[p + 1..high + 1] by {
      assert s2[p..][1..high + 1 - p] == s1[p..][1..high + 1 - p];
    }
    PermutationKeepsBounds(lo, s1[low..p], key, key(x));
    PermutationKeepsBounds(hi, s1[p + 1..high + 1], key, key(x));
    JoinAroundPivot(lo, x, hi, key);
    assert s3[low..high + 1] == lo + [x] + hi;
    assert s1[low..high + 1] == s1[low..p] + [x] + s1[p + 1..high + 1];
    assert s3[..low] == s2[..low] by {
      assert s3[..p + 1][..low] == s2[..p + 1][..low];
    }
    assert s3[high + 1..] == s1[high + 1..] by {
      assert s2[p..][high + 1 - p..] == s1[p..][high + 1 - p..];
    }
  }

  method QuickSort<T>(items: array<T>, key: T -> int)
    modifies items
    ensures SortedBy(items[..], key)
    ensures multiset(items[..]) == multiset(old(items[..]))
  {
    QuickSortPart(items, 0, items.Length - 1, key);
    assert items[0..items.Length] == items[..];
    assert old(items[0..items.Length]) == old(items[..]);
  }
}
