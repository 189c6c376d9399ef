/** selInsSort: insertion sort that shifts larger items right and drops the
    picked item into the hole. */
module InsertionSort {
  import opened SortSpec

  /** Putting `x` between a sorted `lo` whose keys are at most key(x) and a
      sorted `hi` whose keys all exceed key(x) gives a sorted sequence. */
  lemma InsertKeepsSorted<T>(lo: seq<T>, x: T, hi: seq<T>, key: T -> int)
    requires SortedBy(lo + hi, key)
    requires lo != [] ==> key(lo[|lo| - 1]) <= key(x)
    requires forall i :: 0 <= i < |hi| ==> key(hi[i]) > key(x)
    ensures SortedBy(lo + [x] + hi, key)
  {
    var r := lo + [x] + hi;
    var s := lo + hi;
    assert forall i :: 0 <= i < |lo| ==> r[i] == s[i];
    assert forall i :: |lo| < i < |r| ==> r[i] == s[i - 1] == hi[i - |lo| - 1];
    assert r[|lo|] == x;
    forall i, j | 0 <= i < j < |r|
      ensures key(r[i]) <= key(r[j])
    {
      if j < |lo| {
      } else if j == |lo| {
        assert key(s[i]) <= key(s[|lo| - 1]);
      } else if i == |lo| {
      } else {
        assert key(s[if i < |lo| then i else i - 1]) <= key(s[j - 1]);
      }
    }
  }

  /** Moving `x` in front of items whose keys all differ from key(x) keeps
      the order among items of equal key. */
  lemma InsertKeepsOrderPerKey<T>(lo: seq<T>, x: T, hi: seq<T>, key: T -> int)
    requires forall i :: 0 <= i < |hi| ==> key(hi[i]) > key(x)
    ensures SameOrderPerKey(lo + [x] + hi, lo + hi + [x], key)
  {
    forall k
      ensures WithKey(lo + [x] + hi, key, k) == WithKey(lo + hi + [x], key, k)
    {
      WithKeyConcat(lo + [x], hi, key, k);
      WithKeyConcat(lo, [x], key, k);
      WithKeyConcat(lo + hi, [x], key, k);
      WithKeyConcat(lo, hi, key, k);
      if k == key(x) {
        WithKeyAbsent(hi, key, k);
      }
    }
  }

  /** One pass of the outer loop, on sequences: `whole` is the list before the
      pass, `after` the list once `whole[i]` has been dropped into position `j`. */
  lemma InsertionPass<T>(orig: seq<T>, whole: seq<T>, after: seq<T>, i: nat, j: nat, key: T -> int)
    requires |orig| == |whole| && j <= i < |whole|
    requires SortedBy(whole[..i], key) && SameOrderPerKey(whole[..i], orig[..i], key)
    requires whole[i..] == orig[i..]
    requires multiset(whole) == multiset(orig)
    requires after == whole[..j] + [whole[i]] + whole[j..i] + whole[i + 1..]
    requires j > 0 ==> key(whole[j - 1]) <= key(whole[i])
    requires forall k :: j <= k < i ==> key(whole[k]) > key(whole[i])
    ensures |after| == |orig|
    ensures SortedBy(after[..i + 1], key) && SameOrderPerKey(after[..i + 1], orig[..i + 1], key)
    ensures after[i + 1..] == orig[i + 1..]
    ensures multiset(after) == multiset(orig)
  {
    var pre, x := whole[..i], whole[i];
    var lo, hi := pre[..j], pre[j..];
    PassShape(whole, after, i, j);
    PassPermutes(whole, after, i, j);
    assert pre == lo + hi;
    InsertKeepsSorted(lo, x, hi, key);
    InsertKeepsOrderPerKey(lo, x, hi, key);
    PassKeepsOrderPerKey(pre, orig[..i], x, key);
    assert orig[..i + 1] == orig[..i] + [x];
    assert whole[i..] == [x] + whole[i + 1..];
  }

  lemma PassShape<T>(whole: seq<T>, after: seq<T>, i: nat, j: nat)
    requires j <= i < |whole|
    requires after == whole[..j] + [whole[i]] + whole[j..i] + whole[i + 1..]
    ensures after[..i + 1] == whole[..i][..j] + [whole[i]] + whole[..i][j..]
    ensures after[i + 1..] == whole[i + 1..]
  {
    var pre, x, rest := whole[..i], whole[i], whole[i + 1..];
    var lo, hi := pre[..j], pre[j..];
    assert after == (lo + [x] + hi) + rest;
    assert |lo + [x] + hi| == i + 1;
  }

  lemma PassPermutes<T>(whole: seq<T>, after: seq<T>, i: nat, j: nat)
    requires j <= i < |whole|
    requires after == whole[..j] + [whole[i]] + whole[j..i] + whole[i + 1..]
    ensures multiset(after) == multiset(whole)
  {
    var pre, x, rest := whole[..i], whole[i], whole[i + 1..];
    var lo, hi := pre[..j], pre[j..];
    assert pre == lo + hi;
    assert whole == pre + [x] + rest;
    assert after == (lo + [x] + hi) + rest;
    calc {
      multiset(after);
      multiset(lo) + multiset([x]) + multiset(hi) + multiset(rest);
      multiset(lo + hi) + multiset([x]) + multiset(rest);
      multiset(whole);
    }
  }

  /** The array after the inner loop, read as a sequence. */
  lemma HoleFilled<T>(whole: seq<T>, after: seq<T>, i: nat, j: nat)
    requires j <= i < |whole| == |after|
    requires forall k :: 0 <= k < j ==> after[k] == whole[k]
    requires after[j] == whole[i]
    requires forall k :: j < k <= i ==> after[k] == whole[k - 1]
    requires forall k :: i < k < |after| ==> after[k] == whole[k]
    ensures after == whole[..j] + [whole[i]] + whole[j..i] + whole[i + 1..]
  {
  }

  lemma PassKeepsOrderPerKey<T>(pre: seq<T>, wasPre: seq<T>, x: T, key: T -> int)
    requires SameOrderPerKey(pre, wasPre, key)
    ensures SameOrderPerKey(pre + [x], wasPre + [x], key)
  {
    forall k
      ensures WithKey(pre + [x], key, k) == WithKey(wasPre + [x], key, k)
    {
      WithKeyConcat(pre, [x], key, k);
      WithKeyConcat(wasPre, [x], key, k);
    }
  }

  /** The body of one outer pass: shift the items before `i` whose key exceeds
      key(items[i]) one place right and drop items[i] into the hole at `j`. */
  method DropIn<T>(items: array<T>, i: int, key: T -> int) returns (j: int)
    requires 0 < i < items.Length
    modifies items
    ensures 0 <= j <= i
    ensures items[..] == old(items[..])[..j] + [old(items[i])] + old(items[..])[j..i] + old(items[..])[i + 1..]
    ensures j > 0 ==> key(old(items[j - 1])) <= key(old(items[i]))
    ensures forall k :: j <= k < i ==> key(old(items[k])) > key(old(items[i]))
  {
    ghost var cur := items[..];
    var nextItem := items[i];
    var currentPositionIndex := i;
    while currentPositionIndex > 0 && key(items[currentPositionIndex - 1]) > key(nextItem)
      invariant 0 <= currentPositionIndex <= i
      invariant forall k :: 0 <= k < currentPositionIndex ==> items[k] == cur[k]
      invariant forall k :: currentPositionIndex < k <= i ==> items[k] == cur[k - 1]
      invariant forall k :: i < k < items.Length ==> items[k] == cur[k]
      invariant forall k :: currentPositionIndex <= k < i ==> key(cur[k]) > key(nextItem)
    {
      items[currentPositionIndex] := items[currentPositionIndex - 1];
      currentPositionIndex := currentPositionIndex - 1;
    }
    items[currentPositionIndex] := nextItem;
    HoleFilled(cur, items[..], i, currentPositionIndex);
    j := currentPositionIndex;
  }

  /** What the outer loop keeps: `s` is a rearrangement of `orig` whose first
      `i` items are `orig[..i]` sorted stably and whose rest is untouched. */
  ghost predicate SortedUpTo<T>(s: seq<T>, orig: seq<T>, i: nat, key: T -> int)
  {
    |s| == |orig| && i <= |s| && SortedBy(s[..i], key) && SameOrderPerKey(s[..i], orig[..i], key)
    && multiset(s) == multiset(orig) && s[i..] == orig[i..]
  }

  lemma PassKeepsSortedUpTo<T>(orig: seq<T>, whole: seq<T>, after: seq<T>, i: nat, j: nat, key: T -> int)
    requires SortedUpTo(whole, orig, i, key) && j <= i < |whole|
    requires after == whole[..j] + [whole[i]] + whole[j..i] + whole[i + 1..]
    requires j > 0 ==> key(whole[j - 1]) <= key(whole[i])
    requires forall k :: j <= k < i ==> key(whole[k]) > key(whole[i])
    ensures SortedUpTo(after, orig, i + 1, key)
  {
    InsertionPass(orig, whole, after, i, j, key);
  }

  lemma SortedUpToEnd<T>(s: seq<T>, orig: seq<T>, key: T -> int)
    requires SortedUpTo(s, orig, |s|, key)
    ensures SortedBy(s, key) && multiset(s) == multiset(orig) && SameOrderPerKey(s, orig, key)
  {
    assert s[..|s|] == s;
    assert orig[..|s|] == orig;
  }

  lemma SortedUpToStart<T>(s: seq<T>, key: T -> int)
    requires |s| > 0
    ensures SortedUpTo(s, s, 1, key)
  {
  }

  method SelInsSort<T>(items: array<T>, key: T -> int)
    modifies items
    ensures SortedBy(items[..], key)
    ensures multiset(items[..]) == multiset(old(items[..]))
    ensures SameOrderPerKey(items[..], old(items[..]), key)
  {
    if items.Length == 0 {
      return;
    }
    ghost var orig := items[..];
    SortedUpToStart(orig, key);
    var i := 1;
    while i < items.Length
      invariant 1 <= i <= items.Length
      invariant SortedUpTo(items[..], orig, i, key)
    {
      ghost var cur := items[..];
      var j := DropIn(items, i, key);
      PassKeepsSortedUpTo(orig, cur, items[..], i, j, key);
      i := i + 1;
    }
    SortedUpToEnd(items[..], orig, key);
  }
}
