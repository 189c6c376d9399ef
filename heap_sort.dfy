/**
 * topsHeapSort: finds the numTops items with the lowest keys and sorts them
 * into the front of the list, using a zero-based heap built with the
 * reversed comparator. Under the reversed order the heap root is the item
 * with the HIGHEST key of the lead collection, so the heap condition reads
 * "no child has a higher key than its parent".
 */
module TopsHeapSort {
  import opened SortSpec
  import QuickSort

  /** getParentIndex: (childIndex - 1) / 2, on non-negative operands. */
  function Parent(i: int): (r: int)
    requires 0 < i
    ensures 0 <= r < i
    ensures i == LeftChild(r) || i == RightChild(r)
  {
    (i - 1) / 2
  }

  /** getLeftChildIndex: a child lies after its parent, and getParentIndex
      leads back to it. */
  function LeftChild(i: int): (r: int)
    ensures 0 <= i ==> i < r && (r - 1) / 2 == i
  {
    2 * i + 1
  }

  /** getRightChildIndex: the slot just after the left child, with the same
      parent. */
  function RightChild(i: int): (r: int)
    ensures r == LeftChild(i) + 1
    ensures 0 <= i ==> i < r && (r - 1) / 2 == i
  {
    2 * i + 2
  }

  /** The first `size` items form a heap under the reversed comparator. */
  ghost predicate IsHeap<T>(s: seq<T>, size: int, key: T -> int)
  {
    0 <= size <= |s| &&
    forall i :: 0 < i < size ==> key(s[Parent(i)]) >= key(s[i])
  }

  /** A heap except possibly for the edge into `x` (while `x` swims up). */
  ghost predicate HeapExceptInto<T>(s: seq<T>, size: int, x: int, key: T -> int)
  {
    0 <= x < size <= |s| &&
    (forall i :: 0 < i < size && i != x ==> key(s[Parent(i)]) >= key(s[i])) &&
    (0 < x ==> forall c :: 0 < c < size && Parent(c) == x ==> key(s[Parent(x)]) >= key(s[c]))
  }

  /** A heap except possibly for the edges out of `x` (while `x` sinks down). */
  ghost predicate HeapExceptBelow<T>(s: seq<T>, size: int, x: int, key: T -> int)
  {
    0 <= x && size <= |s| && (x < size || size == 0) &&
    (forall i :: 0 < i < size && Parent(i) != x ==> key(s[Parent(i)]) >= key(s[i])) &&
    (0 < x ==> forall c :: 0 < c < size && Parent(c) == x ==> key(s[Parent(x)]) >= key(s[c]))
  }

  /** Every item of a heap is bounded by its ancestors, in particular by the root. */
  lemma {:induction false} AncestorBound<T>(s: seq<T>, size: int, i: int, key: T -> int)
    requires IsHeap(s, size, key) && 0 <= i < size
    ensures key(s[i]) <= key(s[0])
    decreases i
  {
    if i > 0 {
      AncestorBound(s, size, Parent(i), key);
    }
  }

  /** The root of a heap holds the highest key: the worst item of the lead collection. */
  lemma RootIsMax<T>(s: seq<T>, size: int, key: T -> int)
    requires IsHeap(s, size, key) && 0 < size
    ensures AllAtMost(s[..size], key, key(s[0]))
  {
    forall k | 0 <= k < size
      ensures key(s[..size][k]) <= key(s[0])
    {
      AncestorBound(s, size, k, key);
    }
  }

  /** One swap of heapSwim moves the exception one level up. */
  lemma SwimStep<T>(s: seq<T>, t: seq<T>, size: int, x: int, key: T -> int)
    requires HeapExceptInto(s, size, x, key) && 0 < x
    requires key(s[Parent(x)]) < key(s[x])
    requires t == s[x := s[Parent(x)]][Parent(x) := s[x]]
    ensures HeapExceptInto(t, size, Parent(x), key)
  {
    var p := Parent(x);
    forall i | 0 < i < size && i != p
      ensures key(t[Parent(i)]) >= key(t[i])
    {
      if i == x {
      } else if Parent(i) == x {
      } else if Parent(i) == p {
        assert t[i] == s[i];
      } else if i != x {
      }
    }
  }

  /** heapSwim stops when the edge into `x` holds as well. */
  lemma SwimDone<T>(s: seq<T>, size: int, x: int, key: T -> int)
    requires HeapExceptInto(s, size, x, key)
    requires x == 0 || key(s[Parent(x)]) >= key(s[x])
    ensures IsHeap(s, size, key)
  {
  }

  /**
   * heapSwim: repairs the heap condition of the first heapSize items when
   * only the last of them may violate it.
   */
  method HeapSwim<T>(items: array<T>, heapSize: int, key: T -> int)
    requires 1 <= heapSize <= items.Length
    requires IsHeap(items[..], heapSize - 1, key)
    modifies items
    ensures IsHeap(items[..], heapSize, key)
    ensures multiset(items[..heapSize]) == multiset(old(items[..heapSize]))
    ensures items[heapSize..] == old(items[heapSize..])
  {
    ghost var orig := items[..];
    ghost var cur := orig;
    var index := heapSize - 1;
    while index > 0 && key(items[Parent(index)]) < key(items[index])
      invariant cur == items[..] && |cur| == |orig|
      invariant HeapExceptInto(cur, heapSize, index, key)
      invariant multiset(cur[..heapSize]) == multiset(orig[..heapSize])
      invariant cur[heapSize..] == orig[heapSize..]
    {
      Swap(items, index, Parent(index));
      SwimStep(cur, items[..], heapSize, index, key);
      SwapInHeap(cur, items[..], heapSize, index, Parent(index));
      cur := items[..];
      index := Parent(index);
    }
    SwimDone(cur, heapSize, index, key);
  }

  /** A swap inside the heap keeps the heap's multiset and everything after it. */
  lemma SwapInHeap<T>(before: seq<T>, after: seq<T>, size: int, i: int, j: int)
    requires 0 <= i < size <= |before| && 0 <= j < size
    requires after == before[i := before[j]][j := before[i]]
    ensures multiset(after[..size]) == multiset(before[..size]) && after[size..] == before[size..]
  {
    assert after[..size] == before[..size][i := before[j]][j := before[i]];
  }

  /** The child of `x` that heapSink compares against: the right one only
      when it exists and has a strictly higher key. */
  function SinkChild<T>(s: seq<T>, size: int, x: int, key: T -> int): (c: int)
    requires 0 <= x && LeftChild(x) < size <= |s|
    ensures c == LeftChild(x) || (c == RightChild(x) && c < size)
    ensures 0 < c < size && Parent(c) == x
    ensures forall d :: 0 < d < size && Parent(d) == x ==> key(s[d]) <= key(s[c])
  {
    if RightChild(x) < size && key(s[LeftChild(x)]) < key(s[RightChild(x)]) then RightChild(x)
    else LeftChild(x)
  }

  /** One swap of heapSink moves the exception one level down. */
  lemma SinkStep<T>(s: seq<T>, t: seq<T>, size: int, x: int, key: T -> int)
    requires HeapExceptBelow(s, size, x, key) && LeftChild(x) < size
    requires key(s[x]) <= key(s[SinkChild(s, size, x, key)])
    requires t == s[x := s[SinkChild(s, size, x, key)]][SinkChild(s, size, x, key) := s[x]]
    ensures HeapExceptBelow(t, size, SinkChild(s, size, x, key), key)
  {
    var c := SinkChild(s, size, x, key);
    forall i | 0 < i < size && Parent(i) != c
      ensures key(t[Parent(i)]) >= key(t[i])
    {
      if i == c {
      } else if i == x {
      } else if Parent(i) == x {
      } else {
        assert t[i] == s[i];
      }
    }
    forall d | 0 < d < size && Parent(d) == c
      ensures key(t[Parent(c)]) >= key(t[d])
    {
      assert t[d] == s[d];
    }
  }

  /** heapSink stops at a leaf, or where `x` already outranks its children. */
  lemma SinkDone<T>(s: seq<T>, size: int, x: int, key: T -> int)
    requires HeapExceptBelow(s, size, x, key)
    requires LeftChild(x) >= size || key(s[x]) > key(s[SinkChild(s, size, x, key)])
    ensures IsHeap(s, size, key)
  {
    forall i | 0 < i < size
      ensures key(s[Parent(i)]) >= key(s[i])
    {
      if Parent(i) == x {
        assert LeftChild(x) <= i;
      }
    }
  }

  /**
   * heapSink: repairs the heap condition of the first heapSize items when
   * only the root may violate it.
   */
  method HeapSink<T>(items: array<T>, heapSize: int, key: T -> int)
    requires 0 <= heapSize <= items.Length
    requires HeapExceptBelow(items[..], heapSize, 0, key)
    modifies items
    ensures IsHeap(items[..], heapSize, key)
    ensures multiset(items[..heapSize]) == multiset(old(items[..heapSize]))
    ensures items[heapSize..] == old(items[heapSize..])
  {
    ghost var orig := items[..];
    ghost var cur := orig;
    var index := 0;
    while LeftChild(index) < heapSize
      invariant cur == items[..] && |cur| == |orig|
      invariant HeapExceptBelow(cur, heapSize, index, key)
      invariant multiset(cur[..heapSize]) == multiset(orig[..heapSize])
      invariant cur[heapSize..] == orig[heapSize..]
      decreases heapSize - index
    {
      var smallChildIndex := LeftChild(index);
      if RightChild(index) < heapSize && key(items[LeftChild(index)]) < key(items[RightChild(index)]) {
        smallChildIndex := RightChild(index);
      }
      assert smallChildIndex == SinkChild(cur, heapSize, index, key);
      if key(items[index]) > key(items[smallChildIndex]) {
        SinkDone(cur, heapSize, index, key);
        break;
      }
      Swap(items, index, smallChildIndex);
      SinkStep(cur, items[..], heapSize, index, key);
      SwapInHeap(cur, items[..], heapSize, index, smallChildIndex);
      cur := items[..];
      index := smallChildIndex;
    }
    if LeftChild(index) >= heapSize {
      SinkDone(cur, heapSize, index, key);
    }
  }

  /** First loop of topsHeapSort: grows the heap one item at a time over
      the first numTops items. */
  method BuildLeadHeap<T>(items: array<T>, numTops: int, key: T -> int)
    requires 1 <= numTops <= items.Length
    modifies items
    ensures IsHeap(items[..], numTops, key)
    ensures multiset(items[..]) == multiset(old(items[..]))
  {
    var heapSize := 2;
    while heapSize <= numTops
      invariant 2 <= heapSize <= numTops + 1
      invariant IsHeap(items[..], heapSize - 1, key)
      invariant multiset(items[..]) == multiset(old(items[..]))
    {
      ghost var before := items[..];
      HeapSwim(items, heapSize, key);
      PrefixChangeKeepsMultiset(before, items[..], heapSize);
      heapSize := heapSize + 1;
    }
  }

  /** Rearranging a prefix keeps the multiset of the whole. */
  lemma PrefixChangeKeepsMultiset<T>(before: seq<T>, after: seq<T>, n: int)
    requires 0 <= n <= |before| == |after|
    requires multiset(after[..n]) == multiset(before[..n]) && after[n..] == before[n..]
    ensures multiset(after) == multiset(before)
  {
    assert before == before[..n] + before[n..];
    assert after == after[..n] + after[n..];
  }

  /** A demotion of the worst lead item: `item` (position i, outside the
      heap) has a lower key than the root and replaces it. */
  lemma ReplaceRoot<T>(s: seq<T>, t: seq<T>, numTops: int, i: int, key: T -> int)
    requires IsHeap(s, numTops, key) && 0 < numTops <= i < |s|
    requires key(s[i]) < key(s[0])
    requires t == s[0 := s[i]][i := s[0]]
    ensures HeapExceptBelow(t, numTops, 0, key)
    ensures AllAtMost(t[..numTops], key, key(s[0]))
    ensures t[numTops..] == s[numTops..][i - numTops := s[0]]
    ensures multiset(t) == multiset(s)
  {
    RootIsMax(s, numTops, key);
    forall k | 0 <= k < numTops
      ensures key(t[..numTops][k]) <= key(s[0])
    {
      assert k > 0 ==> t[k] == s[..numTops][k];
    }
    SwapInRange(s, t, 0, i, 0, i);
  }

  /** Second loop of topsHeapSort: every later item that beats the worst
      lead item takes its place. Afterwards no item outside the lead has a
      lower key than the heap root. */
  method SelectLead<T>(items: array<T>, numTops: int, key: T -> int)
    requires 1 <= numTops <= items.Length
    requires IsHeap(items[..], numTops, key)
    modifies items
    ensures IsHeap(items[..], numTops, key)
    ensures AllAtLeast(items[numTops..], key, key(items[0]))
    ensures multiset(items[..]) == multiset(old(items[..]))
  {
    ghost var orig := items[..];
    var i := numTops;
    while i < items.Length
      invariant numTops <= i <= items.Length
      invariant IsHeap(items[..], numTops, key)
      invariant AllAtLeast(items[numTops..i], key, key(items[0]))
      invariant multiset(items[..]) == multiset(orig)
    {
      SelectPass(items, numTops, i, key);
      i := i + 1;
    }
    assert items[numTops..i] == items[numTops..];
  }

  /** One pass of the second loop: the item at i replaces the root and sinks
      when it has a lower key than the root. */
  method SelectPass<T>(items: array<T>, numTops: int, i: int, key: T -> int)
    requires 1 <= numTops <= i < items.Length
    requires IsHeap(items[..], numTops, key)
    requires AllAtLeast(items[numTops..i], key, key(items[0]))
    modifies items
    ensures IsHeap(items[..], numTops, key)
    ensures AllAtLeast(items[numTops..i + 1], key, key(items[0]))
    ensures multiset(items[..]) == multiset(old(items[..]))
  {
    ghost var cur := items[..];
    var item := items[i];
    var worstLeadItem := items[0];
    if key(item) < key(worstLeadItem) {
      items[0] := item;
      items[i] := worstLeadItem;
      assert items[..] == cur[0 := cur[i]][i := cur[0]];
      ReplaceRoot(cur, items[..], numTops, i, key);
      ghost var demoted := items[..];
      HeapSink(items, numTops, key);
      SelectStep(cur, demoted, items[..], numTops, i, key);
    } else {
      assert items[numTops..i + 1] == items[numTops..i] + [item];
    }
  }

  lemma SelectStep<T>(s: seq<T>, t: seq<T>, u: seq<T>, numTops: int, i: int, key: T -> int)
    requires 0 < numTops <= i < |s| == |t| == |u|
    requires AllAtLeast(s[numTops..i], key, key(s[0]))
    requires AllAtMost(t[..numTops], key, key(s[0]))
    requires t[numTops..] == s[numTops..][i - numTops := s[0]]
    requires multiset(t) == multiset(s)
    requires multiset(u[..numTops]) == multiset(t[..numTops]) && u[numTops..] == t[numTops..]
    ensures AllAtLeast(u[numTops..i + 1], key, key(u[0]))
    ensures multiset(u) == multiset(s)
  {
    PermutationKeepsBounds(u[..numTops], t[..numTops], key, key(s[0]));
    assert key(u[..numTops][0]) <= key(s[0]);
    forall j | numTops <= j <= i
      ensures key(u[j]) >= key(s[0])
    {
      assert u[j] == u[numTops..][j - numTops];
      if j < i {
        assert s[j] == s[numTops..i][j - numTops];
      }
    }
    var w := u[numTops..i + 1];
    forall j | 0 <= j < |w|
      ensures key(w[j]) >= key(u[0])
    {
      assert w[j] == u[numTops + j];
    }
    PrefixChangeKeepsMultiset(t, u, numTops);
  }

  /** Third loop of topsHeapSort: heap sort of the lead collection, moving
      the root to the back of the shrinking heap. */
  method SortLead<T>(items: array<T>, numTops: int, key: T -> int)
    requires 1 <= numTops <= items.Length
    requires IsHeap(items[..], numTops, key)
    modifies items
    ensures SortedBy(items[..numTops], key)
    ensures multiset(items[..numTops]) == multiset(old(items[..numTops]))
    ensures items[numTops..] == old(items[numTops..])
  {
    ghost var orig := items[..];
    ghost var cur := orig;
    var i := numTops - 1;
    while i > 0
      invariant 0 <= i < numTops
      invariant cur == items[..] && |cur| == |orig|
      invariant IsHeap(cur, i + 1, key)
      invariant SortedBy(cur[i + 1..numTops], key)
      invariant i + 1 < numTops ==> AllAtMost(cur[..i + 1], key, key(cur[i + 1]))
      invariant multiset(cur[..numTops]) == multiset(orig[..numTops])
      invariant cur[numTops..] == orig[numTops..]
    {
      Swap(items, 0, i);
      ghost var swapped := items[..];
      RootToBack(cur, swapped, numTops, i, key);
      HeapSink(items, i, key);
      SortStep(swapped, items[..], numTops, i, key);
      cur := items[..];
      i := i - 1;
    }
    SortedFront(cur, numTops, key);
  }

  /** Swapping the root to position i extends the sorted back part. */
  lemma RootToBack<T>(s: seq<T>, t: seq<T>, numTops: int, i: int, key: T -> int)
    requires 0 < i < numTops <= |s|
    requires IsHeap(s, i + 1, key)
    requires SortedBy(s[i + 1..numTops], key)
    requires i + 1 < numTops ==> AllAtMost(s[..i + 1], key, key(s[i + 1]))
    requires t == s[0 := s[i]][i := s[0]]
    ensures HeapExceptBelow(t, i, 0, key)
    ensures AllAtMost(t[..i], key, key(t[i]))
    ensures SortedBy(t[i..numTops], key)
    ensures multiset(t[..numTops]) == multiset(s[..numTops]) && t[numTops..] == s[numTops..]
  {
    RootIsMax(s, i + 1, key);
    forall k | 0 <= k < i
      ensures key(t[..i][k]) <= key(t[i])
    {
      assert k > 0 ==> t[k] == s[..i + 1][k];
      assert s[i] == s[..i + 1][i];
    }
    forall a, b | 0 <= a < b < numTops - i
      ensures key(t[i..numTops][a]) <= key(t[i..numTops][b])
    {
      if a == 0 {
        if i + 1 < numTops {
          assert s[i + 1] == s[..i + 1 + 1][i + 1];
          assert key(s[0]) <= key(s[i + 1]) by {
            assert s[0] == s[..i + 1][0];
          }
          assert t[i..numTops][b] == s[i + 1..numTops][b - 1];
          assert key(s[i + 1]) <= key(s[i + 1..numTops][b - 1]) by {
            assert s[i + 1] == s[i + 1..numTops][0];
          }
        }
      } else {
        assert t[i..numTops][a] == s[i + 1..numTops][a - 1];
        assert t[i..numTops][b] == s[i + 1..numTops][b - 1];
      }
    }
    SwapInRange(s, t, 0, numTops - 1, 0, i);
    assert s[..numTops] == s[0..numTops] && t[..numTops] == t[0..numTops];
  }

  /** heapSink over the first i items keeps the sorted back part and its bound. */
  lemma SortStep<T>(t: seq<T>, u: seq<T>, numTops: int, i: int, key: T -> int)
    requires 0 < i < numTops <= |t| == |u|
    requires AllAtMost(t[..i], key, key(t[i]))
    requires SortedBy(t[i..numTops], key)
    requires multiset(u[..i]) == multiset(t[..i]) && u[i..] == t[i..]
    ensures AllAtMost(u[..i], key, key(u[i]))
    ensures SortedBy(u[i..numTops], key)
    ensures multiset(u[..numTops]) == multiset(t[..numTops]) && u[numTops..] == t[numTops..]
  {
    assert u[i] == u[i..][0] && t[i] == t[i..][0];
    PermutationKeepsBounds(u[..i], t[..i], key, key(t[i]));
    assert u[i..numTops] == u[i..][..numTops - i] && t[i..numTops] == t[i..][..numTops - i];
    assert u[numTops..] == u[i..][numTops - i..] && t[numTops..] == t[i..][numTops - i..];
    assert u[..numTops] == u[..i] + u[i..numTops];
    assert t[..numTops] == t[..i] + t[i..numTops];
  }

  /** When the heap is down to its root, the whole lead is sorted. */
  lemma SortedFront<T>(s: seq<T>, numTops: int, key: T -> int)
    requires 1 <= numTops <= |s|
    requires SortedBy(s[1..numTops], key)
    requires 1 < numTops ==> AllAtMost(s[..1], key, key(s[1]))
    ensures SortedBy(s[..numTops], key)
  {
    forall a, b | 0 <= a < b < numTops
      ensures key(s[..numTops][a]) <= key(s[..numTops][b])
    {
      assert s[..numTops][b] == s[1..numTops][b - 1];
      if a > 0 {
        assert s[..numTops][a] == s[1..numTops][a - 1];
      } else {
        assert s[0] == s[..1][0];
        assert s[1] == s[1..numTops][0];
      }
    }
  }

  /**
   * topsHeapSort: for 0 < numTops <= items.Length, the first numTops items
   * end up sorted and no later item has a lower key than any of them; a
   * non-positive numTops changes nothing; a numTops beyond the length sorts
   * the whole list with quickSort.
   */
  method TopsHeapSort<T>(numTops: int, items: array<T>, key: T -> int)
    modifies items
    ensures numTops <= 0 ==> items[..] == old(items[..])
    ensures numTops > items.Length ==> SortedBy(items[..], key)
    ensures 0 < numTops <= items.Length ==> SortedBy(items[..numTops], key)
    ensures 0 < numTops <= items.Length ==>
      forall i, j :: 0 <= i < numTops <= j < items.Length ==> key(items[i]) <= key(items[j])
    ensures multiset(items[..]) == multiset(old(items[..]))
  {
    if numTops <= 0 {
      return;
    } else if numTops > items.Length {
      QuickSort.QuickSort(items, key);
      return;
    }
    BuildLeadHeap(items, numTops, key);
    SelectLead(items, numTops, key);
    ghost var selected := items[..];
    RootIsMax(selected, numTops, key);
    SortLead(items, numTops, key);
    PrefixChangeKeepsMultiset(selected, items[..], numTops);
    LeadBeforeTail(selected, items[..], numTops, key);
  }

  /** Sorting the lead in place keeps it separated from the tail. */
  lemma LeadBeforeTail<T>(s: seq<T>, t: seq<T>, numTops: int, key: T -> int)
    requires 0 < numTops <= |s| == |t|
    requires AllAtMost(s[..numTops], key, key(s[0]))
    requires AllAtLeast(s[numTops..], key, key(s[0]))
    requires multiset(t[..numTops]) == multiset(s[..numTops]) && t[numTops..] == s[numTops..]
    ensures forall i, j :: 0 <= i < numTops <= j < |t| ==> key(t[i]) <= key(t[j])
  {
    PermutationKeepsBounds(t[..numTops], s[..numTops], key, key(s[0]));
    forall i, j | 0 <= i < numTops <= j < |t|
      ensures key(t[i]) <= key(t[j])
    {
      assert t[i] == t[..numTops][i];
      assert t[j] == s[numTops..][j - numTops];
    }
  }
}
