/**
 * What the in-place sorts promise, stated on sequences. Items are ordered by an
 * integer sort key, which is how a comparator built from a key (as the
 * source's callers build theirs) orders them: a total preorder in which
 * items with the same key compare equal.
 */
module SortSpec {

  /** Keys never decrease from left to right. */
  ghost predicate SortedBy<T>(s: seq<T>, key: T -> int)
  {
    forall i, j :: 0 <= i < j < |s| ==> key(s[i]) <= key(s[j])
  }

  /** The items of `s` whose key is `k`, in their original order. */
  function WithKey<T>(s: seq<T>, key: T -> int, k: int): seq<T>
  {
    if s == [] then []
    else WithKey(s[..|s| - 1], key, k) + (if key(s[|s| - 1]) == k then [s[|s| - 1]] else [])
  }

  /** Stability: for every key, the items carrying it appear in the same relative order. */
  ghost predicate SameOrderPerKey<T>(s: seq<T>, t: seq<T>, key: T -> int)
  {
    forall k :: WithKey(s, key, k) == WithKey(t, key, k)
  }

  lemma {:induction false} WithKeyConcat<T>(a: seq<T>, b: seq<T>, key: T -> int, k: int)
    ensures WithKey(a + b, key, k) == WithKey(a, key, k) + WithKey(b, key, k)
  {
    if b == [] {
      assert a + b == a;
    } else {
      assert (a + b)[..|a + b| - 1] == a + b[..|b| - 1];
      WithKeyConcat(a, b[..|b| - 1], key, k);
    }
  }

  /** No item of `s` carries key `k`. */
  lemma {:induction false} WithKeyAbsent<T>(s: seq<T>, key: T -> int, k: int)
    requires forall i :: 0 <= i < |s| ==> key(s[i]) != k
    ensures WithKey(s, key, k) == []
  {
    if s != [] {
      WithKeyAbsent(s[..|s| - 1], key, k);
    }
  }

  /** Every key in `s` is below `bound`. */
  ghost predicate AllBelow<T>(s: seq<T>, key: T -> int, bound: int)
  {
    forall i :: 0 <= i < |s| ==> key(s[i]) < bound
  }

  /** Every key in `s` is at least `bound`. */
  ghost predicate AllAtLeast<T>(s: seq<T>, key: T -> int, bound: int)
  {
    forall i :: 0 <= i < |s| ==> key(s[i]) >= bound
  }

  /** Every key in `s` is at most `bound`. */
  ghost predicate AllAtMost<T>(s: seq<T>, key: T -> int, bound: int)
  {
    forall i :: 0 <= i < |s| ==> key(s[i]) <= bound
  }

  /** A bound on every key survives any permutation. */
  lemma PermutationKeepsBounds<T>(s: seq<T>, t: seq<T>, key: T -> int, bound: int)
    requires multiset(s) == multiset(t)
    ensures AllBelow(t, key, bound) ==> AllBelow(s, key, bound)
    ensures AllAtLeast(t, key, bound) ==> AllAtLeast(s, key, bound)
    ensures AllAtMost(t, key, bound) ==> AllAtMost(s, key, bound)
  {
    forall i | 0 <= i < |s|
      ensures s[i] in t
    {
      assert s[i] in multiset(s);
    }
  }

  /** Exchanging two positions inside [low, high] keeps the rest of the list,
      the multiset of the range and the multiset of the whole. */
  lemma SwapInRange<T>(before: seq<T>, after: seq<T>, low: int, high: int, i: int, j: int)
    requires 0 <= low <= i <= high < |before| && low <= j <= high
    requires after == before[i := before[j]][j := before[i]]
    ensures after[..low] == before[..low] && after[high + 1..] == before[high + 1..]
    ensures multiset(after[low..high + 1]) == multiset(before[low..high + 1])
    ensures multiset(after) == multiset(before)
  {
    assert after[low..high + 1] == before[low..high + 1][i - low := before[j]][j - low := before[i]];
  }

  /** Collections.swap on an array. */
  method Swap<T>(a: array<T>, i: int, j: int)
    requires 0 <= i < a.Length && 0 <= j < a.Length
    modifies a
    ensures a[..] == old(a[..])[i := old(a[j])][j := old(a[i])]
    ensures multiset(a[..]) == multiset(old(a[..]))
  {
    a[i], a[j] := a[j], a[i];
  }
}
