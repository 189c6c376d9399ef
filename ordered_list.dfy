/**
 * OrderedArrayList: an array list whose first nSorted items are ordered by
 * the comparator `ordening`; items beyond nSorted may be in any order.
 * Searching uses binary search on the ordered front and falls back to a
 * linear scan of the rest. The comparator is modelled by the sort key it
 * compares (compare(a, b) == 0 exactly when the keys are equal).
 */
module OrderedLists {
  import opened Wrappers
  import opened SortSpec
  import InsertionSort

  /** The representation invariant: the first n items are ordered by key. */
  ghost predicate SortedPrefix<T>(s: seq<T>, n: int, key: T -> int)
  {
    0 <= n <= |s| && SortedBy(s[..n], key)
  }

  /** Position of the first item at or after `from` whose key is k, or -1. */
  function FirstMatchFrom<T>(s: seq<T>, key: T -> int, k: int, from: nat): (r: int)
    ensures r == -1 || (from <= r < |s| && key(s[r]) == k)
    ensures r == -1 ==> forall j :: from <= j < |s| ==> key(s[j]) != k
    ensures r != -1 ==> forall j :: from <= j < r ==> key(s[j]) != k
    decreases |s| - from
  {
    if from >= |s| then -1
    else if key(s[from]) == k then from
    else FirstMatchFrom(s, key, k, from + 1)
  }

  /** linearSearch: gives up at once on an empty ordered front; otherwise
      scans from position nSorted - 1 to the end. */
  function LinearSearchIn<T>(s: seq<T>, n: int, key: T -> int, k: int): (r: int)
    requires 0 <= n
    ensures n == 0 ==> r == -1
    ensures r == -1 || (n - 1 <= r < |s| && key(s[r]) == k)
    ensures n > 0 && r == -1 ==> forall j :: n - 1 <= j < |s| ==> key(s[j]) != k
  {
    if n == 0 then -1 else FirstMatchFrom(s, key, k, n - 1)
  }

  /** The recursive binary search helper over [left, right] of the ordered front. */
  function BinarySearchIn<T>(s: seq<T>, n: int, key: T -> int, k: int, left: int, right: int): (r: int)
    requires 0 <= left <= right + 1 <= n <= |s|
    ensures r == -1 || (0 <= r < |s| && key(s[r]) == k)
    decreases right - left
  {
    if left > right then LinearSearchIn(s, n, key, k)
    else
      var middle := (left + right) / 2;
      if key(s[middle]) > k then BinarySearchIn(s, n, key, k, left, middle - 1)
      else if key(s[middle]) < k then BinarySearchIn(s, n, key, k, middle + 1, right)
      else middle
  }

  /** On an ordered front, a match inside [left, right] is never missed. */
  lemma {:induction false} BinarySearchFindsInRange<T>(s: seq<T>, n: int, key: T -> int, k: int,
                                                        left: int, right: int, j: int)
    requires SortedPrefix(s, n, key) && 0 <= left <= right + 1 <= n
    requires left <= j <= right && key(s[j]) == k
    ensures left <= BinarySearchIn(s, n, key, k, left, right) <= right
    decreases right - left
  {
    var middle := (left + right) / 2;
    assert s[..n][middle] == s[middle] && s[..n][j] == s[j];
    if key(s[middle]) > k {
      BinarySearchFindsInRange(s, n, key, k, left, middle - 1, j);
    } else if key(s[middle]) < k {
      BinarySearchFindsInRange(s, n, key, k, middle + 1, right, j);
    }
  }

  /** The search from the full front, given no match inside [left, right]
      remains possible, still ends in the linear fallback or a match. */
  lemma {:induction false} BinarySearchFallsBack<T>(s: seq<T>, n: int, key: T -> int, k: int,
                                                     left: int, right: int)
    requires 0 <= left <= right + 1 <= n <= |s|
    requires forall j :: left <= j <= right ==> key(s[j]) != k
    ensures BinarySearchIn(s, n, key, k, left, right) == LinearSearchIn(s, n, key, k)
    decreases right - left
  {
    if left <= right {
      var middle := (left + right) / 2;
      if key(s[middle]) > k {
        BinarySearchFallsBack(s, n, key, k, left, middle - 1);
      } else {
        BinarySearchFallsBack(s, n, key, k, middle + 1, right);
      }
    }
  }

  /** indexOfByRecursiveBinarySearch on a list with its invariant and a
      non-empty ordered front finds an item exactly when one with the same
      key is present. */
  lemma SearchComplete<T>(s: seq<T>, n: int, key: T -> int, k: int)
    ensures SortedPrefix(s, n, key) && 0 < n ==>
      (BinarySearchIn(s, n, key, k, 0, n - 1) >= 0 <==> exists j :: 0 <= j < |s| && key(s[j]) == k)
  {
    if !(SortedPrefix(s, n, key) && 0 < n) {
      return;
    }
    if j :| 0 <= j < |s| && key(s[j]) == k {
      if j < n {
        BinarySearchFindsInRange(s, n, key, k, 0, n - 1, j);
      } else {
        if exists i :: 0 <= i <= n - 1 && key(s[i]) == k {
          var i :| 0 <= i <= n - 1 && key(s[i]) == k;
          BinarySearchFindsInRange(s, n, key, k, 0, n - 1, i);
        } else {
          BinarySearchFallsBack(s, n, key, k, 0, n - 1);
        }
      }
    }
  }

  /** With nothing marked as ordered the search never finds anything, even
      an item that is in the list. */
  lemma EmptyFrontFindsNothing()
    ensures BinarySearchIn([7], 0, (x: int) => x, 7, 0, -1) == -1
  {
  }

  /** ArrayList.remove(Object): drops the first occurrence of o, if any. */
  function RemoveFirst<T(==)>(s: seq<T>, o: T): (r: seq<T>)
    ensures o in s ==> |r| == |s| - 1 && multiset(r) == multiset(s) - multiset{o}
    ensures o !in s ==> r == s
  {
    if s == [] then []
    else if s[0] == o then
      assert s == [s[0]] + s[1..];
      s[1..]
    else
      assert s == [s[0]] + s[1..];
      [s[0]] + RemoveFirst(s[1..], o)
  }

  class OrderedArrayList<T(==)> {
    var items: seq<T>
    /** The number of items at the front that are ordered by `ordening`. */
    var nSorted: int
    /** The comparator used by the latest sort, as the key it compares. */
    var ordening: T -> int

    ghost predicate Valid()
      reads this
    {
      SortedPrefix(items, nSorted, ordening)
    }

    constructor (ordening: T -> int)
      ensures items == [] && nSorted == 0 && this.ordening == ordening
      ensures Valid()
    {
      items := [];
      nSorted := 0;
      this.ordening := ordening;
    }

    method Clear()
      modifies this
      ensures items == [] && nSorted == 0 && ordening == old(ordening)
      ensures Valid()
    {
      items := [];
      nSorted := 0;
    }

    /** sort(c): a stable sort by c, after which the whole list is ordered by c. */
    method SortWith(c: T -> int)
      modifies this
      ensures SortedBy(items, c) && multiset(items) == multiset(old(items))
      ensures SameOrderPerKey(items, old(items), c)
      ensures ordening == c && nSorted == |items|
      ensures Valid()
    {
      var s := items;
      var a := new T[|s|](i requires 0 <= i < |s| => s[i]);
      assert a[..] == s;
      InsertionSort.SelInsSort(a, c);
      items := a[..];
      ordening := c;
      nSorted := |items|;
      assert items[..nSorted] == items;
    }

    /** sort(): re-sorts with the current comparator unless the whole list is
        already marked as ordered. */
    method Sort()
      modifies this
      ensures old(nSorted) < |old(items)| ==>
        SortedBy(items, ordening) && multiset(items) == multiset(old(items)) && nSorted == |items|
      ensures old(nSorted) >= |old(items)| ==> items == old(items) && nSorted == old(nSorted)
      ensures ordening == old(ordening)
      ensures old(Valid()) ==> Valid()
    {
      if nSorted < |items| {
        SortWith(ordening);
      }
    }

    /** add(index, element): inserts and marks only the items before index as ordered. */
    method Add(index: int, element: T)
      requires 0 <= index <= |items|
      modifies this
      ensures items == old(items[..index]) + [element] + old(items[index..])
      ensures nSorted == index && ordening == old(ordening)
    {
      nSorted := index;
      items := items[..index] + [element] + items[index..];
    }

    /** remove(index): removes and marks only the items before index as ordered. */
    method RemoveAt(index: int) returns (removed: T)
      requires 0 <= index < |items|
      modifies this
      ensures removed == old(items[index])
      ensures items == old(items[..index]) + old(items[index + 1..])
      ensures nSorted == index && ordening == old(ordening)
    {
      nSorted := index;
      removed := items[index];
      items := items[..index] + items[index + 1..];
    }

    /** remove(Object): removes the first equal item, leaving nSorted alone. */
    method Remove(o: T) returns (found: bool)
      modifies this
      ensures found <==> o in old(items)
      ensures items == RemoveFirst(old(items), o)
      ensures nSorted == old(nSorted) && ordening == old(ordening)
    {
      found := o in items;
      items := RemoveFirst(items, o);
    }

    function IndexOfByRecursiveBinarySearch(x: T): (r: int)
      reads this
      requires 0 <= nSorted <= |items|
      ensures r == -1 || (0 <= r < |items| && ordening(items[r]) == ordening(x))
      ensures Valid() && nSorted > 0 ==> (r >= 0 <==> exists j :: 0 <= j < |items| && ordening(items[j]) == ordening(x))
      ensures nSorted == 0 ==> r == -1
    {
      SearchComplete(items, nSorted, ordening, ordening(x));
      BinarySearchIn(items, nSorted, ordening, ordening(x), 0, nSorted - 1)
    }

    /** linearSearch, as the loop the source runs. */
    method LinearSearch(x: T) returns (r: int)
      requires 0 <= nSorted
      ensures r == LinearSearchIn(items, nSorted, ordening, ordening(x))
    {
      if nSorted == 0 {
        return -1;
      }
      var i := nSorted - 1;
      while i < |items|
        invariant nSorted - 1 <= i
        invariant FirstMatchFrom(items, ordening, ordening(x), nSorted - 1)
               == FirstMatchFrom(items, ordening, ordening(x), i)
        decreases |items| - i
      {
        if ordening(items[i]) == ordening(x) {
          return i;
        }
        i := i + 1;
      }
      return -1;
    }

    /** indexOfByIterativeBinarySearch: the same probes as the recursive
        version, in a loop. */
    method IndexOfByIterativeBinarySearch(x: T) returns (r: int)
      requires 0 <= nSorted <= |items|
      ensures r == IndexOfByRecursiveBinarySearch(x)
    {
      var leftIndex := 0;
      var rightIndex := nSorted - 1;
      while leftIndex <= rightIndex
        invariant 0 <= leftIndex <= rightIndex + 1 <= nSorted
        invariant BinarySearchIn(items, nSorted, ordening, ordening(x), leftIndex, rightIndex)
               == BinarySearchIn(items, nSorted, ordening, ordening(x), 0, nSorted - 1)
        decreases rightIndex - leftIndex
      {
        var middleIndex := (leftIndex + rightIndex) / 2;
        if ordening(items[middleIndex]) > ordening(x) {
          rightIndex := middleIndex - 1;
        } else if ordening(items[middleIndex]) < ordening(x) {
          leftIndex := middleIndex + 1;
        } else {
          return middleIndex;
        }
      }
      r := LinearSearch(x);
    }

    /** indexOf and indexOfByBinarySearch: -1 for null, else the recursive search. */
    function IndexOf(item: Option<T>): (r: int)
      reads this
      requires 0 <= nSorted <= |items|
      ensures item.None? ==> r == -1
      ensures r == -1 || (0 <= r < |items| && ordening(items[r]) == ordening(item.value))
    {
      match item
      case None => -1
      case Some(x) => IndexOfByRecursiveBinarySearch(x)
    }

    /**
     * merge: appends an item that has no match; for an item that has one the
     * merger is applied to the two items and the list itself stays as it is.
     */
    method Merge(newItem: Option<T>) returns (merged: bool)
      requires 0 <= nSorted <= |items|
      modifies this
      ensures newItem.None? ==> !merged
      ensures newItem.Some? ==> merged
      ensures newItem.Some? && old(IndexOf(newItem)) < 0 ==> items == old(items) + [newItem.value]
      ensures newItem.None? || old(IndexOf(newItem)) >= 0 ==> items == old(items)
      ensures nSorted == old(nSorted) && ordening == old(ordening)
    {
      if newItem.None? {
        return false;
      }
      var matchedItemIndex := IndexOfByRecursiveBinarySearch(newItem.value);
      if matchedItemIndex < 0 {
        items := items + [newItem.value];
        return true;
      }
      // the comparator check on the match always holds: the search only
      // returns positions whose key equals the item's
      assert ordening(newItem.value) == ordening(items[matchedItemIndex]);
      return true;
    }
  }

  /** add(index) keeps the invariant when index is within the ordered front. */
  lemma AddWithinFrontKeepsOrder<T>(s: seq<T>, n: int, index: int, e: T, key: T -> int)
    requires SortedPrefix(s, n, key) && 0 <= index <= n
    ensures SortedPrefix(s[..index] + [e] + s[index..], index, key)
  {
    assert (s[..index] + [e] + s[index..])[..index] == s[..n][..index];
  }

  /** add(index) beyond the ordered front marks unordered items as ordered. */
  lemma AddBeyondFrontBreaksOrder()
    ensures var s := [2, 1];
            SortedPrefix(s, 0, (x: int) => x) &&
            !SortedPrefix(s[..2] + [0] + s[2..], 2, (x: int) => x)
  {
    var s := [2, 1];
    var t := s[..2] + [0] + s[2..];
    assert t[..2][0] == 2 && t[..2][1] == 1;
  }

  /** remove(index) keeps the invariant when index is within the ordered front. */
  lemma RemoveWithinFrontKeepsOrder<T>(s: seq<T>, n: int, index: int, key: T -> int)
    requires SortedPrefix(s, n, key) && 0 <= index < |s| && index <= n
    ensures SortedPrefix(s[..index] + s[index + 1..], index, key)
  {
    assert (s[..index] + s[index + 1..])[..index] == s[..n][..index];
  }

  /** remove(Object) keeps nSorted, so it can pull an unordered item into
      the ordered front, or leave nSorted beyond the size. */
  lemma RemoveObjectBreaksOrder()
    ensures SortedPrefix([1, 3, 2], 2, (x: int) => x)
    ensures !SortedPrefix(RemoveFirst([1, 3, 2], 1), 2, (x: int) => x)
    ensures SortedPrefix([1], 1, (x: int) => x)
    ensures !SortedPrefix(RemoveFirst([1], 1), 1, (x: int) => x)
  {
    assert [1, 3, 2][..2] == [1, 3];
    assert RemoveFirst([1, 3, 2], 1) == [3, 2];
    assert RemoveFirst([3, 2], 1)[..2] == [3, 2];
  }

  /** merge keeps the invariant: it only appends past the ordered front. */
  lemma AppendKeepsOrder<T>(s: seq<T>, n: int, e: T, key: T -> int)
    requires SortedPrefix(s, n, key)
    ensures SortedPrefix(s + [e], n, key)
  {
    assert (s + [e])[..n] == s[..n];
  }

  /** With an ordered front, merge appends exactly when no item with the same
      key is present; with nothing marked ordered it always appends. */
  lemma MergeAppendsOnlyNewKeys<T>(s: seq<T>, n: int, key: T -> int, x: T)
    requires SortedPrefix(s, n, key)
    ensures n > 0 ==> (BinarySearchIn(s, n, key, key(x), 0, n - 1) < 0 <==> forall j :: 0 <= j < |s| ==> key(s[j]) != key(x))
    ensures n == 0 ==> BinarySearchIn(s, n, key, key(x), 0, n - 1) < 0
  {
    if n > 0 {
      SearchComplete(s, n, key, key(x));
    }
  }
}
