/**
 * Wagons linked into sequences by a successor (next) and a predecessor
 * (prev) reference. A chain is described by a ghost sequence of the wagons
 * from its head to the wagon without successor; the representation
 * invariant of a wagon (its successor points back at it, its predecessor
 * points forward at it) holds along the chain.
 */
module Wagons {

  /** PassengerWagon and FreightWagon, the two concrete wagon classes. */
  datatype Kind = Passenger | Freight

  class Wagon {
    const id: int
    const kind: Kind
    var next: Wagon?
    var prev: Wagon?

    constructor (id: int, kind: Kind)
      ensures this.id == id && this.kind == kind && next == null && prev == null
    {
      this.id := id;
      this.kind := kind;
      next := null;
      prev := null;
    }

    /** getLastWagonAttached: follows the successors to the end. */
    method GetLastWagonAttached(ghost s: seq<Wagon>) returns (r: Wagon)
      requires Chain(s) && s[0] == this
      ensures r == s[|s| - 1] && r.next == null
    {
      var current := this;
      ghost var i := 0;
      while current.next != null
        invariant 0 <= i < |s| && current == s[i]
        invariant i < |s| - 1 ==> current.next == s[i + 1]
        decreases |s| - i
      {
        current := current.next;
        i := i + 1;
      }
      return current;
    }

    /** getFirstWagonAttached: follows the predecessors to the start. */
    method GetFirstWagonAttached(ghost s: seq<Wagon>, ghost k: nat) returns (r: Wagon)
      requires Chain(s) && s[0].prev == null && k < |s| && s[k] == this
      ensures r == s[0] && r.prev == null
    {
      var current := this;
      ghost var i := k;
      while current.prev != null
        invariant 0 <= i < |s| && current == s[i]
        invariant 0 < i ==> current.prev == s[i - 1]
        decreases i
      {
        current := current.prev;
        i := i - 1;
      }
      return current;
    }

    /** getTailLength: the number of successors. */
    method GetTailLength(ghost s: seq<Wagon>) returns (n: nat)
      requires Chain(s) && s[0] == this
      ensures n == |s| - 1
    {
      n := 0;
      var current := this;
      while current.next != null
        invariant 0 <= n < |s| && current == s[n]
        invariant n < |s| - 1 ==> current.next == s[n + 1]
        decreases |s| - n
      {
        current := current.next;
        n := n + 1;
      }
    }

    /** The wagon is linked to no other. */
    ghost predicate Detached()
      reads this
    {
      prev == null && next == null
    }

    /**
     * attachTail: refused (the source throws IllegalStateException, here
     * `ok` is false and nothing changes) when this wagon already has a
     * successor or `tail` already has a predecessor; otherwise `tail` is
     * linked behind this wagon in both directions.
     */
    method AttachTail(tail: Wagon) returns (ok: bool)
      modifies this, tail
      ensures ok <==> old(next) == null && old(tail.prev) == null
      ensures ok ==> next == tail && tail.prev == this
      ensures ok && tail != this ==> prev == old(prev) && tail.next == old(tail.next)
      ensures !ok ==> unchanged(this, tail)
    {
      if next != null {
        return false;
      }
      if tail.prev != null {
        return false;
      }
      var last := GetLastWagonAttached([this]);
      tail.prev := last;
      last := GetLastWagonAttached([this]);
      last.next := tail;
      return true;
    }

    /**
     * attachFront: refused when this wagon already has a predecessor;
     * otherwise the last wagon of the sequence headed by `front` (described
     * by `f`) is linked in front of this wagon in both directions.
     */
    method AttachFront(front: Wagon, ghost f: seq<Wagon>) returns (ok: bool)
      requires Chain(f) && f[0] == front
      modifies this, f[|f| - 1]
      ensures ok <==> old(prev) == null
      ensures ok ==> prev == f[|f| - 1] && f[|f| - 1].next == this
      ensures ok && f[|f| - 1] != this ==> next == old(next) && f[|f| - 1].prev == old(f[|f| - 1].prev)
      ensures !ok ==> unchanged(this, f[|f| - 1])
    {
      if prev != null {
        return false;
      }
      var last := front.GetLastWagonAttached(f);
      prev := last;
      last.next := this;
      return true;
    }

    /**
     * attachInMiddle: links the sequence headed by `wagon` (described by
     * `s`) between `previousInTrain` and `nextInTrain`. The receiver takes
     * no part. Where the arguments overlap, the later link overwrites the
     * earlier one, as the ensures clauses spell out.
     */
    method AttachInMiddle(wagon: Wagon, previousInTrain: Wagon, nextInTrain: Wagon, ghost s: seq<Wagon>)
      requires Chain(s) && s[0] == wagon
      modifies wagon, previousInTrain, nextInTrain, s[|s| - 1]
      ensures s[|s| - 1].next == nextInTrain && nextInTrain.prev == s[|s| - 1]
      ensures previousInTrain != s[|s| - 1] ==> previousInTrain.next == wagon
      ensures wagon != nextInTrain ==> wagon.prev == previousInTrain
      ensures wagon != s[|s| - 1] && wagon != previousInTrain ==> wagon.next == old(wagon.next)
      ensures nextInTrain != s[|s| - 1] && nextInTrain != previousInTrain ==> nextInTrain.next == old(nextInTrain.next)
      ensures previousInTrain != wagon && previousInTrain != nextInTrain ==> previousInTrain.prev == old(previousInTrain.prev)
      ensures s[|s| - 1] != wagon && s[|s| - 1] != nextInTrain ==> s[|s| - 1].prev == old(s[|s| - 1].prev)
    {
      var possibleSequenceLast := wagon.GetLastWagonAttached(s);
      if wagon == possibleSequenceLast {
        previousInTrain.next := wagon;
        wagon.prev := previousInTrain;
        nextInTrain.prev := wagon;
        wagon.next := nextInTrain;
      } else {
        previousInTrain.next := wagon;
        wagon.prev := previousInTrain;
        nextInTrain.prev := possibleSequenceLast;
        possibleSequenceLast.next := nextInTrain;
      }
    }

    /** detachTail: unlinks the successor, if any, in both directions and returns it. */
    method DetachTail() returns (r: Wagon?)
      modifies this, next
      ensures r == old(next)
      ensures r != null ==> next == null && r.prev == null
      ensures r != null && r != this ==> prev == old(prev) && r.next == old(r.next)
      ensures r == null ==> unchanged(this)
    {
      r := next;
      if r != null {
        next := null;
        r.prev := null;
      }
    }

    /** detachFront: unlinks the predecessor, if any, in both directions and returns it. */
    method DetachFront() returns (r: Wagon?)
      modifies this, prev
      ensures r == old(prev)
      ensures r != null ==> prev == null && r.next == null
      ensures r != null && r != this ==> next == old(next) && r.prev == old(r.prev)
      ensures r == null ==> unchanged(this)
    {
      r := prev;
      if r != null {
        r.next := null;
        prev := null;
      }
    }

    /**
     * reAttachTo: clears the successor link of `front` when it has one and
     * otherwise the forward link of this wagon's predecessor, then links this
     * wagon behind `front`. Only one of the two old links is cleared on each
     * side, so the wagon that followed `front` keeps pointing back at it and
     * the former predecessor of this wagon can keep pointing at it.
     */
    method ReAttachTo(front: Wagon)
      modifies this, front, prev
      ensures this != front ==> front.next == this && prev == front
      ensures old(front.next) == null && old(prev) != null && old(prev) != front && old(prev) != this ==>
                old(prev).next == null
      ensures old(front.next) != null && old(prev) != null && old(prev) != front && old(prev) != this ==>
                old(prev).next == old(prev.next)
      ensures this == front && old(front.next) != null ==> next == null
      ensures this != front && old(prev) != this ==> next == old(next)
      ensures front != this ==> front.prev == old(front.prev)
      ensures old(prev) != null && old(prev) != this ==> old(prev).prev == old(prev.prev)
    {
      if front.next != null {
        front.next := null;
      } else if prev != null {
        prev.next := null;
      }
      if this != front {
        front.next := this;
        prev := front;
      }
    }

    /**
     * removeFromSequence: links the predecessor and the successor to each
     * other and isolates this wagon. A wagon with neither dereferences its
     * missing predecessor in the source, so one neighbour is required.
     */
    method RemoveFromSequence()
      requires prev != null || next != null
      modifies this, prev, next
      ensures next == null && prev == null
      ensures old(prev) != null && old(next) != null && old(prev) != this && old(next) != this ==>
                old(prev).next == old(next) && old(next).prev == old(prev)
      ensures old(prev) != null && old(next) == null && old(prev) != this ==> old(prev).next == null
      ensures old(prev) == null && old(next) != null && old(next) != this ==> old(next).prev == null
      ensures old(prev) != null && old(prev) != this && old(prev) != old(next) ==> old(prev).prev == old(prev.prev)
      ensures old(next) != null && old(next) != this && old(next) != old(prev) ==> old(next).next == old(next.next)
    {
      if prev != null && next != null {
        prev.next := next;
        next.prev := prev;
        next := null;
        prev := null;
      } else if next == null {
        prev.next := null;
        prev := null;
      } else if prev == null {
        next.prev := null;
        next := null;
      }
    }

    /**
     * reverseSequence: reverses the sequence from this wagon to its last
     * successor (described by s) and links the reversed sequence behind this
     * wagon's former predecessor, if any. Returns the new head, the former
     * last wagon. A lone wagon has no predecessor of its last wagon to
     * detach from, so a successor is required.
     */
    method ReverseSequence(ghost s: seq<Wagon>) returns (r: Wagon)
      requires Chain(s) && s[0] == this && |s| >= 2
      requires prev != null ==> prev.next == this
      modifies s, prev
      ensures r == s[|s| - 1] && Chain(Reversed(s))
      ensures r.prev == old(prev)
      ensures old(prev) != null ==> old(prev).next == r && old(prev).prev == old(prev.prev)
    {
      var currentWagon := this;
      var lastWagon := GetLastWagonAttached(s);
      var wagonToReturn := lastWagon;
      var before: Wagon? := null;
      if prev != null {
        PointsAtHeadNotInChain(s, prev);
        before := prev;
        var _ := DetachFront();
        assert Chain(s) by {
          assert forall j :: 0 < j < |s| ==> s[j] != s[0];
        }
      }
      var amount := GetTailLength(s);
      currentWagon, lastWagon := ReverseBegin(currentWagon, lastWagon, s);
      currentWagon := ReverseLoop(currentWagon, lastWagon, s, amount);
      if before != null {
        ReverseFinish(currentWagon, before, Reversed(s));
      }
      return wagonToReturn;
    }
  }

  /** The successor links along s mirror the predecessor links. */
  ghost predicate Linked(s: seq<Wagon>)
    reads s
  {
    (forall i :: 0 <= i < |s| - 1 ==> s[i].next == s[i + 1]) &&
    (forall i :: 0 < i < |s| ==> s[i].prev == s[i - 1])
  }

  ghost predicate Distinct(s: seq<Wagon>)
  {
    forall i, j :: 0 <= i < j < |s| ==> s[i] != s[j]
  }

  /** s is the sequence headed by s[0]: linked both ways, without repeats,
      and ending at a wagon without successor. */
  ghost predicate Chain(s: seq<Wagon>)
    reads s
  {
    |s| > 0 && Linked(s) && Distinct(s) && s[|s| - 1].next == null
  }

  function Reversed<T>(s: seq<T>): (r: seq<T>)
    ensures |r| == |s| && forall i :: 0 <= i < |s| ==> r[i] == s[|s| - 1 - i]
  {
    if s == [] then [] else Reversed(s[1..]) + [s[0]]
  }

  /** Reversing keeps every element with its multiplicity. */
  lemma {:induction false} ReversedKeepsWagons<T>(s: seq<T>)
    ensures multiset(Reversed(s)) == multiset(s)
  {
    if s != [] {
      ReversedKeepsWagons(s[1..]);
      assert s == [s[0]] + s[1..];
    }
  }

  /** Reversing all but the first element and appending the first reverses the whole. */
  lemma ReversedUnfolds<T>(s: seq<T>)
    requires |s| > 0
    ensures Reversed(s[1..]) + s[..1] == Reversed(s)
  {
    assert s[..1] == [s[0]];
  }

  /** Reversing a suffix that starts one position earlier appends that element. */
  lemma ReversedSuffixGrows<T>(s: seq<T>, k: nat)
    requires 0 < k <= |s|
    ensures Reversed(s[k - 1..]) == Reversed(s[k..]) + [s[k - 1]]
  {
    var a := Reversed(s[k - 1..]);
    var b := Reversed(s[k..]) + [s[k - 1]];
    assert |a| == |b|;
    forall j | 0 <= j < |a|
      ensures a[j] == b[j]
    {
      if j < |a| - 1 {
        assert a[j] == s[k - 1..][|s| - k - j];
      }
    }
  }

  /**
   * One pass of the loop of reverseSequence. The wagons are those of s; the
   * reversed part Reversed(s[k..]) ends at `current`, the part not yet
   * reversed is s[..k] and ends at `last`. The predecessor of `last` lets go
   * of it, and `last` is linked between `current` and the head of the part
   * not yet reversed.
   */
  method ReverseStep(current: Wagon, last: Wagon, ghost s: seq<Wagon>, ghost k: nat)
    requires 0 < k < |s| && Chain(Reversed(s[k..]) + s[..k])
    requires current == s[k] && last == s[k - 1]
    modifies s
    ensures Chain(Reversed(s[k - 1..]) + s[..k - 1])
    ensures s[|s| - 1].prev == old(s[|s| - 1].prev)
  {
    ghost var R := Reversed(s[k..]);
    ghost var F := s[..k];
    ghost var P := R + F;
    assert P[|R| - 1] == current && P[|R|] == s[0] && P[|P| - 1] == last && P[0] == s[|s| - 1];
    assert last.prev == P[|P| - 2];
    var pv := last.prev;
    var _ := pv.DetachTail();
    if current.next != null {
      current.next.prev := last;
      last.next := current.next;
    }
    current.next := last;
    last.prev := current;
    forall i | 0 <= i < |P| - 1 && i != |R| - 1 && i != |P| - 2
      ensures P[i].next == P[i + 1]
    {
      assert P[i] != P[|R| - 1] && P[i] != P[|P| - 1] && P[i] != P[|P| - 2];
      assert old(P[i].next) == P[i + 1];
    }
    forall i | 0 < i < |P| && i != |R| && i != |P| - 1
      ensures P[i].prev == P[i - 1]
    {
      assert P[i] != P[|R|] && P[i] != P[|P| - 1];
      assert old(P[i].prev) == P[i - 1];
    }
    assert P[0] != P[|R|] && P[0] != P[|P| - 1];
    MoveLastKeepsChain(R, F);
    MoveLastShape(s, k);
  }

  /** Moving the last element of s[..k] behind Reversed(s[k..]) gives the
      order for k - 1. */
  lemma MoveLastShape<T>(s: seq<T>, k: nat)
    requires 0 < k < |s|
    ensures Reversed(s[k - 1..]) + s[..k - 1] == Reversed(s[k..]) + [s[..k][k - 1]] + s[..k][..k - 1]
  {
    ReversedSuffixGrows(s, k);
    assert s[..k][..k - 1] == s[..k - 1];
  }

  /**
   * The links one pass of the loop of reverseSequence leaves in R + F: the
   * last wagon of F follows the last wagon of R and precedes the head of F,
   * the wagon before it in F ends the chain, and every other link still
   * joins neighbours of R + F. Then R, that wagon and the rest of F form a
   * chain.
   */
  lemma MoveLastKeepsChain(R: seq<Wagon>, F: seq<Wagon>)
    requires |R| > 0 && |F| > 0 && Distinct(R + F)
    requires forall i :: 0 <= i < |R| + |F| - 1 && i != |R| - 1 && i != |R| + |F| - 2 ==>
               (R + F)[i].next == (R + F)[i + 1]
    requires forall i :: 0 < i < |R| + |F| && i != |R| && i != |R| + |F| - 1 ==> (R + F)[i].prev == (R + F)[i - 1]
    requires R[|R| - 1].next == F[|F| - 1] && F[|F| - 1].prev == R[|R| - 1]
    requires |F| >= 2 ==> F[|F| - 1].next == F[0] && F[0].prev == F[|F| - 1] && F[|F| - 2].next == null
    requires |F| == 1 ==> F[0].next == null
    ensures Chain(R + [F[|F| - 1]] + F[..|F| - 1])
  {
    var P := R + F;
    var last := F[|F| - 1];
    var Q := R + [last] + F[..|F| - 1];
    forall j | 0 <= j < |Q| - 1
      ensures Q[j].next == Q[j + 1]
    {
      if j < |R| - 1 {
        assert Q[j] == P[j] && Q[j + 1] == P[j + 1];
      } else if j == |R| - 1 {
        assert Q[j] == R[|R| - 1] && Q[j + 1] == last;
      } else if j == |R| {
        assert Q[j] == last && Q[j + 1] == F[0];
      } else {
        assert Q[j] == P[j - 1] && Q[j + 1] == P[j];
      }
    }
    forall j | 0 < j < |Q|
      ensures Q[j].prev == Q[j - 1]
    {
      if j < |R| {
        assert Q[j] == P[j] && Q[j - 1] == P[j - 1];
      } else if j == |R| {
        assert Q[j] == last && Q[j - 1] == R[|R| - 1];
      } else if j == |R| + 1 {
        assert Q[j] == F[0] && Q[j - 1] == last;
      } else {
        assert Q[j] == P[j - 1] && Q[j - 1] == P[j - 2];
      }
    }
    DistinctMoveLast(R, F);
    if |F| >= 2 {
      assert Q[|Q| - 1] == P[|P| - 2];
    }
  }

  /** Moving the last element of F in front of F keeps R + F free of repeats. */
  lemma DistinctMoveLast(R: seq<Wagon>, F: seq<Wagon>)
    requires Distinct(R + F) && |F| > 0
    ensures Distinct(R + [F[|F| - 1]] + F[..|F| - 1])
  {
    var P := R + F;
    var Q := R + [F[|F| - 1]] + F[..|F| - 1];
    forall i, j | 0 <= i < j < |Q|
      ensures Q[i] != Q[j]
    {
      var pi := if i < |R| then i else if i == |R| then |P| - 1 else i - 1;
      var pj := if j < |R| then j else if j == |R| then |P| - 1 else j - 1;
      assert Q[i] == P[pi] && Q[j] == P[pj] && pi != pj;
    }
  }

  /** A wagon whose successor heads a chain is not in the chain. */
  lemma PointsAtHeadNotInChain(s: seq<Wagon>, w: Wagon)
    requires Chain(s) && w.next == s[0]
    ensures w !in s
  {
    forall j | 0 <= j < |s|
      ensures s[j] != w
    {
      if j < |s| - 1 {
        assert s[j].next == s[j + 1] && s[j + 1] != s[0];
      }
    }
  }

  /** Every non-empty suffix of a chain is a chain. */
  lemma ChainSuffix(s: seq<Wagon>, h: nat)
    requires Chain(s) && h < |s|
    ensures Chain(s[h..])
  {
    var t := s[h..];
    forall j | 0 <= j < |t| - 1
      ensures t[j].next == t[j + 1]
    {
      assert t[j] == s[h + j] && t[j + 1] == s[h + j + 1];
    }
    forall j | 0 < j < |t|
      ensures t[j].prev == t[j - 1]
    {
      assert t[j] == s[h + j] && t[j - 1] == s[h + j - 1];
    }
  }

  /**
   * The first moves of reverseSequence: the predecessor of the last wagon
   * lets go of it and the last wagon is attached in front of the head.
   */
  method ReverseStart(first: Wagon, last: Wagon, ghost s: seq<Wagon>)
    requires Chain(s) && |s| >= 2 && first == s[0] && last == s[|s| - 1] && first.prev == null
    modifies s
    ensures Chain(Reversed(s[|s| - 1..]) + s[..|s| - 1]) && last.prev == null
  {
    assert last.prev == s[|s| - 2];
    var _ := last.prev.DetachTail();
    var ok := first.AttachFront(last, [last]);
    ghost var F := s[..|s| - 1];
    ghost var Q := Reversed(s[|s| - 1..]) + F;
    assert Q == [last] + F;
    forall j | 0 <= j < |Q| - 1
      ensures Q[j].next == Q[j + 1]
    {
      if j > 0 {
        assert Q[j] == s[j - 1] && Q[j + 1] == s[j];
        assert old(s[j - 1].next) == s[j];
      }
    }
    forall j | 0 < j < |Q|
      ensures Q[j].prev == Q[j - 1]
    {
      if j > 1 {
        assert Q[j] == s[j - 1] && Q[j - 1] == s[j - 2];
        assert old(s[j - 1].prev) == s[j - 2];
      }
    }
    DistinctMoveLast([], s);
    assert [] + [s[|s| - 1]] + s[..|s| - 1] == Q;
    assert Q[|Q| - 1] == s[|s| - 2];
  }

  /** The first moves of reverseSequence followed by the walk to the last
      wagon of the part not yet reversed. */
  method ReverseBegin(first: Wagon, last: Wagon, ghost s: seq<Wagon>) returns (current: Wagon, last': Wagon)
    requires Chain(s) && |s| >= 2 && first == s[0] && last == s[|s| - 1] && first.prev == null
    modifies s
    ensures Chain(Reversed(s[|s| - 1..]) + s[..|s| - 1]) && s[|s| - 1].prev == null
    ensures current == s[|s| - 1] && last' == s[|s| - 2]
  {
    ReverseStart(first, last, s);
    current := last;
    ghost var Q := Reversed(s[|s| - 1..]) + s[..|s| - 1];
    assert Q[0] == current && Q[|Q| - 1] == s[|s| - 2];
    last' := current.GetLastWagonAttached(Q);
    assert Chain(Q);
  }

  /**
   * The last moves of reverseSequence: the head of the reversed chain r,
   * found from its last wagon, is linked behind the former predecessor.
   */
  method ReverseFinish(last: Wagon, before: Wagon, ghost r: seq<Wagon>)
    requires Chain(r) && r[0].prev == null && last == r[|r| - 1] && before !in r
    modifies r[0], before
    ensures Chain(r) && r[0].prev == before && before.next == r[0]
    ensures before.prev == old(before.prev)
  {
    var wagonToReAttach := last.GetFirstWagonAttached(r, |r| - 1);
    wagonToReAttach.prev := before;
    before.next := wagonToReAttach;
    assert forall j :: 0 < j < |r| ==> r[j] != r[0];
  }

  /**
   * The loop of reverseSequence: `amount` times, the last wagon of the part
   * not yet reversed moves behind the last wagon of the reversed part.
   * Returns the wagon the walk ends at, the former head.
   */
  method ReverseLoop(current: Wagon, last: Wagon, ghost s: seq<Wagon>, amount: nat) returns (r: Wagon)
    requires |s| >= 2 && amount == |s| - 1
    requires Chain(Reversed(s[|s| - 1..]) + s[..|s| - 1]) && s[|s| - 1].prev == null
    requires current == s[|s| - 1] && last == s[|s| - 2]
    modifies s
    ensures Chain(Reversed(s)) && s[|s| - 1].prev == null && r == s[0]
  {
    var currentWagon := current;
    var lastWagon := last;
    var i := 0;
    ghost var k := |s| - 1;
    while i < amount
      invariant 0 <= i <= amount && k == |s| - 1 - i
      invariant Chain(Reversed(s[k..]) + s[..k]) && s[|s| - 1].prev == null
      invariant currentWagon == s[k]
      invariant lastWagon == if k > 0 then s[k - 1] else currentWagon
    {
      currentWagon, lastWagon := ReversePass(currentWagon, lastWagon, s, k);
      i := i + 1;
      k := k - 1;
    }
    assert Reversed(s[k..]) + s[..k] == Reversed(s) by {
      assert s[0..] == s && s[..0] == [];
    }
    return currentWagon;
  }

  /** The body of the loop of reverseSequence: one step, then the walk to
      the last wagon of the part not yet reversed. */
  method ReversePass(current: Wagon, last: Wagon, ghost s: seq<Wagon>, ghost k: nat)
    returns (current': Wagon, last': Wagon)
    requires 0 < k < |s| && Chain(Reversed(s[k..]) + s[..k])
    requires current == s[k] && last == s[k - 1]
    modifies s
    ensures Chain(Reversed(s[k - 1..]) + s[..k - 1])
    ensures s[|s| - 1].prev == old(s[|s| - 1].prev)
    ensures current' == s[k - 1] && last' == if k > 1 then s[k - 2] else current'
  {
    ReverseStep(current, last, s, k);
    current' := last;
    ghost var tail := UnreversedPart(s, k);
    ghost var Q := Reversed(s[k - 1..]) + s[..k - 1];
    assert Chain(Q);
    last' := current'.GetLastWagonAttached(tail);
    assert Chain(Q);
  }

  /** After step k of the loop of reverseSequence, the wagons from s[k - 1]
      to the end of the chain are s[k - 1] followed by the part not yet
      reversed; they form a chain whose last wagon is s[k - 2] (or s[0]). */
  ghost function UnreversedPart(s: seq<Wagon>, k: nat): (tail: seq<Wagon>)
    reads s
    requires 0 < k < |s| && Chain(Reversed(s[k - 1..]) + s[..k - 1])
    ensures Chain(tail) && tail[0] == s[k - 1]
    ensures tail[|tail| - 1] == if k >= 2 then s[k - 2] else s[k - 1]
  {
    var Q := Reversed(s[k - 1..]) + s[..k - 1];
    ReversedJoinEnds(s, k);
    ChainSuffix(Q, |s| - k);
    Q[|s| - k..]
  }

  /** Where s[k - 1] and the last element sit in Reversed(s[k - 1..]) + s[..k - 1]. */
  lemma ReversedJoinEnds<T>(s: seq<T>, k: nat)
    requires 0 < k < |s|
    ensures var Q := Reversed(s[k - 1..]) + s[..k - 1];
            |Q| == |s| && Q[|s| - k] == s[k - 1] && Q[|Q| - 1] == if k >= 2 then s[k - 2] else s[k - 1]
  {
  }

  /** No wagon occurs in both a and b. */
  ghost predicate Disjoint(a: seq<Wagon>, b: seq<Wagon>)
  {
    forall i, j :: 0 <= i < |a| && 0 <= j < |b| ==> a[i] != b[j]
  }

  /** Two sequences linked at their junction, sharing no wagon, form one chain. */
  lemma ChainJoin(a: seq<Wagon>, b: seq<Wagon>)
    requires |a| > 0 && Linked(a) && Distinct(a) && Chain(b) && Disjoint(a, b)
    requires a[|a| - 1].next == b[0] && b[0].prev == a[|a| - 1]
    ensures Chain(a + b)
  {
    var c := a + b;
    forall i | 0 <= i < |c| - 1
      ensures c[i].next == c[i + 1]
    {
      if i < |a| - 1 {
        assert c[i] == a[i] && c[i + 1] == a[i + 1];
      } else if i >= |a| {
        assert c[i] == b[i - |a|] && c[i + 1] == b[i + 1 - |a|];
      }
    }
    forall i | 0 < i < |c|
      ensures c[i].prev == c[i - 1]
    {
      if i < |a| {
        assert c[i] == a[i] && c[i - 1] == a[i - 1];
      } else if i > |a| {
        assert c[i] == b[i - |a|] && c[i - 1] == b[i - 1 - |a|];
      }
    }
    forall i, j | 0 <= i < j < |c|
      ensures c[i] != c[j]
    {
      if j < |a| {
        assert c[i] == a[i] && c[j] == a[j];
      } else if i >= |a| {
        assert c[i] == b[i - |a|] && c[j] == b[j - |a|];
      } else {
        assert c[i] == a[i] && c[j] == b[j - |a|];
      }
    }
  }

  /**
   * A chain whose head is not in a chain t headed by a wagon without
   * predecessor shares no wagon with t: walking back from a shared wagon
   * would reach the head of t or put the head of the chain into t.
   */
  lemma {:induction false} ChainsDisjoint(t: seq<Wagon>, ws: seq<Wagon>, k: nat)
    requires Chain(t) && t[0].prev == null && Chain(ws) && ws[0] !in t && k < |ws|
    ensures forall i :: 0 <= i < |t| ==> t[i] != ws[k]
  {
    if k > 0 {
      ChainsDisjoint(t, ws, k - 1);
      forall i | 0 <= i < |t|
        ensures t[i] != ws[k]
      {
        if i > 0 {
          assert t[i].prev == t[i - 1] && ws[k].prev == ws[k - 1];
        } else {
          assert ws[k].prev == ws[k - 1];
        }
      }
    }
  }

  lemma ChainsDisjointAll(t: seq<Wagon>, ws: seq<Wagon>)
    requires Chain(t) && t[0].prev == null && Chain(ws) && ws[0] !in t
    ensures Disjoint(t, ws) && Disjoint(ws, t)
  {
    forall k | 0 <= k < |ws|
      ensures forall i :: 0 <= i < |t| ==> t[i] != ws[k]
    {
      ChainsDisjoint(t, ws, k);
    }
  }

  /** A wagon whose successor lies outside a chain is not in the chain. */
  lemma PointsOutsideNotInChain(s: seq<Wagon>, w: Wagon)
    requires Chain(s) && w.next != null && w.next !in s
    ensures w !in s
  {
    forall j | 0 <= j < |s|
      ensures s[j] != w
    {
      if j < |s| - 1 {
        assert s[j].next == s[j + 1];
      }
    }
  }

  /**
   * reAttachTo on two linked pairs a-b and c-d: b is re-attached behind c.
   * Because c had a successor, only the link from c to d is cleared, so a
   * keeps pointing at b while b points back at c, and d keeps pointing
   * back at c while c points at b: the two-sided link invariant fails at a
   * and at d.
   */
  method ReAttachToLeavesStaleLinks() returns (staleAtFront: bool, staleAtTail: bool)
    ensures staleAtFront && staleAtTail
  {
    var a := new Wagon(1, Passenger);
    var b := new Wagon(2, Passenger);
    var c := new Wagon(3, Passenger);
    var d := new Wagon(4, Passenger);
    var linked := a.AttachTail(b);
    linked := c.AttachTail(d);
    b.ReAttachTo(c);
    staleAtFront := a.next == b && b.prev != a;
    staleAtTail := d.prev == c && c.next != d;
  }

  /**
   * The head of the sequence ws lets go of its predecessor, if any, through
   * the predecessor's detachTail, as attachToRear and insertAtFront do.
   */
  method LetGoOfPredecessor(wagon: Wagon, ghost ws: seq<Wagon>)
    requires Chain(ws) && ws[0] == wagon
    requires wagon.prev != null ==> wagon.prev.next == wagon && wagon.prev !in ws
    modifies wagon, wagon.prev
    ensures Chain(ws) && wagon.prev == null
    ensures old(wagon.prev) != null ==> old(wagon.prev).next == null && old(wagon.prev).prev == old(wagon.prev.prev)
  {
    if wagon.prev != null {
      var _ := wagon.prev.DetachTail();
      assert forall j :: 0 < j < |ws| ==> ws[j] != ws[0];
    }
  }

  /** The head of the sequence ws lets go of its predecessor through its own
      detachFront, as insertAtPosition does. */
  method DetachFromPredecessor(wagon: Wagon, ghost ws: seq<Wagon>)
    requires Chain(ws) && ws[0] == wagon
    requires wagon.prev != null ==> wagon.prev.next == wagon && wagon.prev !in ws
    modifies wagon, wagon.prev
    ensures Chain(ws) && wagon.prev == null
    ensures old(wagon.prev) != null ==> old(wagon.prev).next == null && old(wagon.prev).prev == old(wagon.prev.prev)
  {
    var _ := wagon.DetachFront();
    assert forall j :: 0 < j < |ws| ==> ws[j] != ws[0];
  }
}
