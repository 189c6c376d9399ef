/**
 * A train: a locomotive pulling the chain of wagons headed by firstWagon.
 * The ghost field `wagons` is that chain, from the first wagon to the last.
 * Every operation that relinks wagons keeps the chain well formed and
 * states the new chain in terms of the old one.
 */
module Trains {
  import opened Wagons

  /** The locomotive, reduced to the number of wagons it can pull. */
  datatype Locomotive = Locomotive(maxWagons: int)

  /** Position of the first wagon of ws carrying the id, |ws| when none does. */
  ghost function IdIndex(ws: seq<Wagon>, id: int): (k: nat)
    ensures k <= |ws| && (k < |ws| ==> ws[k].id == id)
    ensures forall j :: 0 <= j < k ==> ws[j].id != id
  {
    if ws == [] then 0
    else if ws[0].id == id then 0
    else 1 + IdIndex(ws[1..], id)
  }

  class Train {
    const engine: Locomotive
    var firstWagon: Wagon?
    ghost var wagons: seq<Wagon>

    /** firstWagon heads the chain `wagons` and has no predecessor. */
    ghost predicate Valid()
      reads this, wagons
    {
      (firstWagon == null <==> wagons == []) &&
      (wagons != [] ==> Chain(wagons) && wagons[0] == firstWagon && firstWagon.prev == null)
    }

    constructor (engine: Locomotive)
      ensures this.engine == engine && wagons == [] && Valid()
    {
      this.engine := engine;
      firstWagon := null;
      wagons := [];
    }

    /** True when both trains have wagons and their first wagons differ in kind. */
    predicate KindsClash(other: Train)
      reads this, other
    {
      firstWagon != null && other.firstWagon != null && firstWagon.kind != other.firstWagon.kind
    }

    /**
     * What canAttach decides for a sequence headed by `wagon` with
     * `tailLength` successors: an empty train takes anything; otherwise the
     * kind must match that of the first wagon, the locomotive must be able
     * to pull all wagons, and no wagon of the train may carry the id.
     */
    ghost predicate Accepts(wagon: Wagon, tailLength: nat)
      reads this
    {
      wagons == [] ||
      (wagon.kind == wagons[0].kind && engine.maxWagons > |wagons| + tailLength &&
       IdIndex(wagons, wagon.id) == |wagons|)
    }

    /** getNumberOfWagons: the length of the chain. */
    method GetNumberOfWagons() returns (n: nat)
      requires Valid()
      ensures n == |wagons|
    {
      var wagon := firstWagon;
      n := 0;
      if wagon == null {
        return;
      }
      while wagon != null
        invariant n <= |wagons|
        invariant wagon == if n < |wagons| then wagons[n] else null
        decreases |wagons| - n
      {
        n := n + 1;
        wagon := wagon.next;
      }
    }

    /** getLastWagonAttached: the last wagon of the chain, null for an empty train. */
    method GetLastWagonAttached() returns (r: Wagon?)
      requires Valid()
      ensures wagons == [] ==> r == null
      ensures wagons != [] ==> r == wagons[|wagons| - 1] && r.next == null
    {
      var wagon := firstWagon;
      ghost var i := 0;
      while wagon != null
        invariant i < |wagons| ==> wagon == wagons[i]
        invariant i <= |wagons| && (i == |wagons| <==> wagon == null)
        invariant wagons != [] ==> i < |wagons|
        invariant i < |wagons| - 1 ==> wagon.next == wagons[i + 1]
        decreases |wagons| - i
      {
        if wagon.next == null {
          return wagon;
        }
        wagon := wagon.next;
        i := i + 1;
      }
      return null;
    }

    /** findWagonAtPosition: the wagon at a 1-based position, null outside 1..n. */
    method FindWagonAtPosition(position: int) returns (r: Wagon?)
      requires Valid()
      ensures 1 <= position <= |wagons| ==> r == wagons[position - 1]
      ensures !(1 <= position <= |wagons|) ==> r == null
    {
      var wagon := firstWagon;
      if wagon == null {
        return null;
      }
      var tail := wagon.GetTailLength(wagons);
      var length := tail + 1;
      if position < 1 || position > length {
        return null;
      }
      var i := 0;
      while i < length
        invariant 0 <= i < position && wagon == wagons[i]
        decreases length - i
      {
        if position - 1 == i {
          return wagon;
        }
        wagon := wagon.next;
        i := i + 1;
      }
      return null;
    }

    /** findWagonById: the first wagon carrying the id, null when none does. */
    method FindWagonById(wagonId: int) returns (r: Wagon?)
      requires Valid()
      ensures IdIndex(wagons, wagonId) == |wagons| ==> r == null
      ensures IdIndex(wagons, wagonId) < |wagons| ==> r == wagons[IdIndex(wagons, wagonId)]
    {
      var wagon := firstWagon;
      if wagon == null {
        return null;
      }
      ghost var i := 0;
      while wagonId != wagon.id
        invariant i < |wagons| && wagon == wagons[i]
        invariant forall j :: 0 <= j < i ==> wagons[j].id != wagonId
        invariant i < |wagons| - 1 ==> wagon.next == wagons[i + 1]
        decreases |wagons| - i
      {
        if wagon.next == null {
          assert i == |wagons| - 1;
          return null;
        }
        wagon := wagon.next;
        i := i + 1;
      }
      IdIndexFirst(wagons, wagonId, i);
      return wagon;
    }

    /** canAttach for the sequence headed by `wagon`, described by ws. */
    method CanAttach(wagon: Wagon, ghost ws: seq<Wagon>) returns (b: bool)
      requires Valid() && Chain(ws) && ws[0] == wagon
      ensures b == Accepts(wagon, |ws| - 1)
    {
      if firstWagon == null {
        return true;
      }
      var n := GetNumberOfWagons();
      var tail := wagon.GetTailLength(ws);
      var found := FindWagonById(wagon.id);
      if firstWagon.kind == Passenger && wagon.kind == Passenger && engine.maxWagons > n + tail && found == null {
        return true;
      }
      return firstWagon.kind == Freight && wagon.kind == Freight && engine.maxWagons > n + tail && found == null;
    }
    /**
     * attachToRear: when canAttach accepts, the head of the sequence lets go
     * of its predecessor and the sequence follows the last wagon (or becomes
     * the train when it is empty); otherwise nothing changes.
     */
    method AttachToRear(wagon: Wagon, ghost ws: seq<Wagon>) returns (ok: bool)
      requires Valid() && Chain(ws) && ws[0] == wagon
      requires wagon.prev != null ==> wagon.prev.next == wagon
      modifies this, wagons, wagon, wagon.prev
      ensures ok == old(Accepts(wagon, |ws| - 1))
      ensures ok ==> Valid() && wagons == old(wagons) + ws
      ensures ok && old(wagon.prev) != null ==> old(wagon.prev).next == null
      ensures !ok ==> unchanged(this, wagon) && unchanged(wagons)
      ensures !ok && old(wagon.prev) != null ==> unchanged(old(wagon.prev))
    {
      var accepted := CanAttach(wagon, ws);
      if !accepted {
        return false;
      }
      HeadOutside(wagons, ws);
      var last := GetLastWagonAttached();
      if last == null {
        LetGoOfPredecessor(wagon, ws);
        firstWagon := wagon;
        wagons := ws;
      } else {
        LetGoOfPredecessor(wagon, ws);
        last := GetLastWagonAttached();
        LinkBehind(last, wagon, ws);
      }
      return true;
    }

    /** The last step of attachToRear on a train with wagons: the last wagon
        attaches the detached sequence as its tail. */
    method LinkBehind(last: Wagon, wagon: Wagon, ghost ws: seq<Wagon>)
      requires Valid() && wagons != [] && last == wagons[|wagons| - 1]
      requires Chain(ws) && ws[0] == wagon && wagon.prev == null && Disjoint(wagons, ws)
      modifies this, last, wagon
      ensures Valid() && wagons == old(wagons) + ws
    {
      ghost var a := wagons;
      var _ := last.AttachTail(wagon);
      assert forall j :: 0 <= j < |a| - 1 ==> a[j] != last;
      assert forall j :: 0 < j < |ws| ==> ws[j] != wagon;
      ChainJoin(a, ws);
      wagons := a + ws;
    }

    /**
     * insertAtFront: when canAttach accepts, the head of the sequence lets go
     * of its predecessor and the sequence is placed before the first wagon;
     * otherwise nothing changes.
     */
    method InsertAtFront(wagon: Wagon, ghost ws: seq<Wagon>) returns (ok: bool)
      requires Valid() && Chain(ws) && ws[0] == wagon
      requires wagon.prev != null ==> wagon.prev.next == wagon
      modifies this, wagons, ws, wagon.prev
      ensures ok == old(Accepts(wagon, |ws| - 1))
      ensures ok ==> Valid() && wagons == ws + old(wagons)
      ensures ok && old(wagon.prev) != null ==> old(wagon.prev).next == null
      ensures !ok ==> unchanged(this) && unchanged(wagons) && unchanged(ws)
      ensures !ok && old(wagon.prev) != null ==> unchanged(old(wagon.prev))
    {
      var accepted := CanAttach(wagon, ws);
      if !accepted {
        return false;
      }
      HeadOutside(wagons, ws);
      if firstWagon == null {
        LetGoOfPredecessor(wagon, ws);
        firstWagon := wagon;
        wagons := ws;
      } else {
        LetGoOfPredecessor(wagon, ws);
        LinkBefore(wagon, ws);
      }
      return true;
    }

    /** The last step of insertAtFront on a train with wagons: the detached
        sequence is attached in front of the first wagon and heads the train. */
    method LinkBefore(wagon: Wagon, ghost ws: seq<Wagon>)
      requires Valid() && wagons != []
      requires Chain(ws) && ws[0] == wagon && wagon.prev == null && Disjoint(ws, wagons)
      modifies this, firstWagon, ws[|ws| - 1]
      ensures Valid() && wagons == ws + old(wagons)
    {
      ghost var a := wagons;
      var _ := firstWagon.AttachFront(wagon, ws);
      firstWagon := wagon;
      assert forall j :: 0 <= j < |ws| - 1 ==> ws[j] != ws[|ws| - 1];
      assert forall j :: 0 < j < |a| ==> a[j] != a[0];
      ChainJoin(ws, a);
      wagons := ws + a;
    }

    /**
     * insertAtPosition: refused when the id is already in the train, when
     * canAttach refuses, or when the position lies outside 1..n+1 (any
     * position from 1 on is accepted by an empty train); otherwise the head
     * lets go of its predecessor and the sequence is placed before the wagon
     * at the position, or behind the last wagon at position n+1.
     */
    method InsertAtPosition(position: int, wagon: Wagon, ghost ws: seq<Wagon>) returns (ok: bool)
      requires Valid() && Chain(ws) && ws[0] == wagon
      requires wagon.prev != null ==> wagon.prev.next == wagon
      modifies this, wagons, ws, wagon.prev
      ensures ok == old(Accepts(wagon, |ws| - 1) && 1 <= position && (wagons != [] ==> position <= |wagons| + 1))
      ensures ok ==> Valid()
      ensures ok && old(wagons) == [] ==> wagons == ws
      ensures ok && old(wagons) != [] ==>
                wagons == old(wagons)[..position - 1] + ws + old(wagons)[position - 1..]
      ensures ok && old(wagon.prev) != null ==> old(wagon.prev).next == null
      ensures !ok ==> unchanged(this) && unchanged(wagons) && unchanged(ws)
      ensures !ok && old(wagon.prev) != null ==> unchanged(old(wagon.prev))
    {
      var found := FindWagonById(wagon.id);
      var accepted := CanAttach(wagon, ws);
      var beyondLast := false;
      if firstWagon != null {
        var tail := firstWagon.GetTailLength(wagons);
        beyondLast := position > tail + 2;
      }
      if found != null || !accepted || position < 1 || beyondLast {
        return false;
      }
      HeadOutside(wagons, ws);
      if wagon.prev != null {
        DetachFromPredecessor(wagon, ws);
      }
      if firstWagon == null {
        firstWagon := wagon;
        wagons := ws;
        return true;
      }
      InsertDetached(position, wagon, ws);
      return true;
    }

    /** insertAtPosition on a train with wagons, once the checks passed and
        the head of the sequence has no predecessor. */
    method InsertDetached(position: int, wagon: Wagon, ghost ws: seq<Wagon>)
      requires Valid() && wagons != [] && 1 <= position <= |wagons| + 1
      requires Chain(ws) && ws[0] == wagon && wagon.prev == null && Disjoint(wagons, ws) && Disjoint(ws, wagons)
      requires Accepts(wagon, |ws| - 1)
      modifies this, wagons, ws
      ensures Valid() && wagons == old(wagons)[..position - 1] + ws + old(wagons)[position - 1..]
    {
      if position == 1 {
        var ok := InsertAtFront(wagon, ws);
        assert wagons == old(wagons)[..0] + ws + old(wagons)[0..];
        return;
      }
      var tail := firstWagon.GetTailLength(wagons);
      if position == tail + 2 {
        var last := firstWagon.GetLastWagonAttached(wagons);
        LinkBehind(last, wagon, ws);
        assert old(wagons)[..position - 1] == old(wagons) && old(wagons)[position - 1..] == [];
        return;
      }
      // Here 1 < position < n + 1, the only case left.
      var wagonAtPosition := FindWagonAtPosition(position);
      var wagonAtPreviousPosition := FindWagonAtPosition(position - 1);
      LinkBetween(wagonAtPreviousPosition, wagonAtPosition, wagon, ws, position);
    }

    /** The middle case of insertAtPosition: attachInMiddle splices the
        detached sequence between the wagons at positions p - 1 and p. */
    method LinkBetween(before: Wagon, at: Wagon, wagon: Wagon, ghost ws: seq<Wagon>, ghost p: nat)
      requires Valid() && 2 <= p <= |wagons| && before == wagons[p - 2] && at == wagons[p - 1]
      requires Chain(ws) && ws[0] == wagon && wagon.prev == null && Disjoint(wagons, ws)
      modifies this, before, at, wagon, ws[|ws| - 1]
      ensures Valid() && wagons == old(wagons)[..p - 1] + ws + old(wagons)[p - 1..]
    {
      ghost var a := wagons;
      ghost var m := |ws|;
      ghost var Q := a[..p - 1] + ws + a[p - 1..];
      DistinctSplice(a, ws, p - 1);
      assert before != ws[m - 1] && before != wagon && at != ws[m - 1] && at != wagon && before != at;
      firstWagon.AttachInMiddle(wagon, before, at, ws);
      forall j | 0 <= j < |Q| - 1
        ensures Q[j].next == Q[j + 1]
      {
        if j < p - 2 {
          assert Q[j] == a[j] && Q[j + 1] == a[j + 1] && old(a[j].next) == a[j + 1];
        } else if j == p - 2 {
          assert Q[j] == before && Q[j + 1] == wagon;
        } else if j < p - 2 + m {
          assert Q[j] == ws[j - p + 1] && Q[j + 1] == ws[j - p + 2] && old(ws[j - p + 1].next) == ws[j - p + 2];
        } else if j == p - 2 + m {
          assert Q[j] == ws[m - 1] && Q[j + 1] == at;
        } else {
          assert Q[j] == a[j - m] && Q[j + 1] == a[j - m + 1] && old(a[j - m].next) == a[j - m + 1];
        }
      }
      forall j | 0 < j < |Q|
        ensures Q[j].prev == Q[j - 1]
      {
        if j < p - 1 {
          assert Q[j] == a[j] && Q[j - 1] == a[j - 1] && old(a[j].prev) == a[j - 1];
        } else if j == p - 1 {
          assert Q[j] == wagon && Q[j - 1] == before;
        } else if j < p - 1 + m {
          assert Q[j] == ws[j - p + 1] && Q[j - 1] == ws[j - p] && old(ws[j - p + 1].prev) == ws[j - p];
        } else if j == p - 1 + m {
          assert Q[j] == at && Q[j - 1] == ws[m - 1];
        } else {
          assert Q[j] == a[j - m] && Q[j - 1] == a[j - m - 1] && old(a[j - m].prev) == a[j - m - 1];
        }
      }
      assert Q[|Q| - 1] == a[|a| - 1] && old(a[|a| - 1].next) == null;
      assert Q[0] == a[0] && old(a[0].prev) == null;
      wagons := Q;
    }

    /**
     * Appends the sequence ws, whose head has no predecessor, to the rear:
     * it becomes the train when the train is empty (getLastWagonAttached is
     * null exactly then), otherwise the last wagon attaches it as its tail.
     */
    method Append(wagon: Wagon, ghost ws: seq<Wagon>)
      requires Valid() && Chain(ws) && ws[0] == wagon && wagon.prev == null && Disjoint(wagons, ws)
      modifies this, wagons, wagon
      ensures Valid() && wagons == old(wagons) + ws
    {
      if firstWagon == null {
        firstWagon := wagon;
        wagons := ws;
      } else {
        var last := GetLastWagonAttached();
        LinkBehind(last, wagon, ws);
      }
    }

    /** removeFromSequence on a wagon with a predecessor: the train loses it. */
    method TakeOut(wagon: Wagon, ghost k: nat)
      requires Valid() && 0 < k < |wagons| && wagons[k] == wagon
      modifies this, wagons
      ensures Valid() && wagons == old(wagons)[..k] + old(wagons)[k + 1..]
      ensures wagon.prev == null && wagon.next == null
    {
      ghost var a := wagons;
      ghost var Q := a[..k] + a[k + 1..];
      assert wagon.prev == a[k - 1] && (k < |a| - 1 ==> wagon.next == a[k + 1]);
      wagon.RemoveFromSequence();
      forall j | 0 <= j < |Q| - 1
        ensures Q[j].next == Q[j + 1]
      {
        if j < k - 1 {
          assert Q[j] == a[j] && Q[j + 1] == a[j + 1] && old(a[j].next) == a[j + 1];
        } else if j == k - 1 {
          assert Q[j] == a[k - 1] && Q[j + 1] == a[k + 1];
        } else {
          assert Q[j] == a[j + 1] && Q[j + 1] == a[j + 2] && old(a[j + 1].next) == a[j + 2];
        }
      }
      forall j | 0 < j < |Q|
        ensures Q[j].prev == Q[j - 1]
      {
        if j < k {
          assert Q[j] == a[j] && Q[j - 1] == a[j - 1] && old(a[j].prev) == a[j - 1];
        } else if j == k {
          assert Q[j] == a[k + 1] && Q[j - 1] == a[k - 1];
        } else {
          assert Q[j] == a[j + 1] && Q[j - 1] == a[j] && old(a[j + 1].prev) == a[j];
        }
      }
      forall i, j | 0 <= i < j < |Q|
        ensures Q[i] != Q[j]
      {
        var ai := if i < k then i else i + 1;
        var aj := if j < k then j else j + 1;
        assert Q[i] == a[ai] && Q[j] == a[aj];
      }
      if k == |a| - 1 {
        assert Q[|Q| - 1] == a[k - 1];
      } else {
        assert Q[|Q| - 1] == a[|a| - 1] && old(a[|a| - 1].next) == null;
      }
      assert Q[0] == a[0];
      wagons := Q;
    }

    /** The first-wagon case of moveOneWagon: the successor becomes the
        first wagon, then removeFromSequence isolates the wagon. */
    method TakeOutFirst(wagon: Wagon)
      requires Valid() && |wagons| >= 2 && wagons[0] == wagon
      modifies this, wagons
      ensures Valid() && wagons == old(wagons)[1..]
      ensures wagon.prev == null && wagon.next == null
    {
      ghost var a := wagons;
      assert wagon.next == a[1];
      firstWagon := wagon.next;
      wagon.RemoveFromSequence();
      ghost var Q := a[1..];
      forall j | 0 <= j < |Q| - 1
        ensures Q[j].next == Q[j + 1]
      {
        assert Q[j] == a[j + 1] && Q[j + 1] == a[j + 2] && old(a[j + 1].next) == a[j + 2];
      }
      forall j | 0 < j < |Q|
        ensures Q[j].prev == Q[j - 1]
      {
        assert Q[j] == a[j + 1] && Q[j - 1] == a[j] && old(a[j + 1].prev) == a[j];
      }
      assert Q[|Q| - 1] == a[|a| - 1] && old(a[|a| - 1].next) == null;
      wagons := Q;
    }

    /**
     * moveOneWagon: refused when no wagon carries the id, when both trains
     * have wagons of different kinds, or when toTrain's locomotive cannot
     * pull one more wagon; otherwise the first wagon with the id leaves this
     * train and is appended to toTrain. Moving the only wagon of a train
     * dereferences null in the source and is excluded.
     */
    method MoveOneWagon(wagonId: int, toTrain: Train) returns (ok: bool)
      requires Valid() && toTrain.Valid() && this != toTrain && Disjoint(wagons, toTrain.wagons)
      requires |wagons| == 1 && wagons[0].id == wagonId ==>
                 KindsClash(toTrain) || toTrain.engine.maxWagons < |toTrain.wagons| + 1
      modifies this, wagons, toTrain, toTrain.wagons
      ensures ok == old(IdIndex(wagons, wagonId) < |wagons| && !KindsClash(toTrain) &&
                        toTrain.engine.maxWagons >= |toTrain.wagons| + 1)
      ensures ok ==> Valid() && toTrain.Valid()
      ensures ok ==> var k := old(IdIndex(wagons, wagonId));
                     wagons == old(wagons)[..k] + old(wagons)[k + 1..] &&
                     toTrain.wagons == old(toTrain.wagons) + [old(wagons)[k]]
      ensures |wagons| + |toTrain.wagons| == old(|wagons| + |toTrain.wagons|)
      ensures !ok ==> unchanged(this, toTrain) && unchanged(wagons) && unchanged(toTrain.wagons)
    {
      var wagon := FindWagonById(wagonId);
      if wagon == null {
        return false;
      }
      var toCount := toTrain.GetNumberOfWagons();
      if KindsClash(toTrain) || toTrain.engine.maxWagons < toCount + 1 {
        return false;
      }
      Transfer(wagon, IdIndex(wagons, wagonId), toTrain);
      return true;
    }

    /** The relinking part of moveOneWagon, once the checks passed: the
        wagon at index k leaves this train and is appended to toTrain. */
    method Transfer(wagon: Wagon, ghost k: nat, toTrain: Train)
      requires Valid() && toTrain.Valid() && this != toTrain && Disjoint(wagons, toTrain.wagons)
      requires |wagons| >= 2 && k < |wagons| && wagons[k] == wagon
      modifies this, wagons, toTrain, toTrain.wagons
      ensures Valid() && toTrain.Valid()
      ensures wagons == old(wagons)[..k] + old(wagons)[k + 1..]
      ensures toTrain.wagons == old(toTrain.wagons) + [wagon]
    {
      assert forall j :: 0 <= j < |toTrain.wagons| ==> toTrain.wagons[j] != wagon;
      assert k == 0 <==> firstWagon == wagon;
      if wagon.prev != null && wagon.next != null {
        TakeOut(wagon, k);
        Handover(wagon, toTrain);
        return;
      }
      if firstWagon == wagon {
        TakeOutFirst(wagon);
        Handover(wagon, toTrain);
        return;
      }
      // Otherwise the wagon has a predecessor and no successor: it is the last one.
      TakeOut(wagon, k);
      Handover(wagon, toTrain);
    }

    /** Attaches a wagon that was just taken out of this train to the rear of toTrain. */
    method Handover(wagon: Wagon, toTrain: Train)
      requires Valid() && toTrain.Valid() && this != toTrain && Disjoint(wagons, toTrain.wagons)
      requires wagon !in wagons && wagon !in toTrain.wagons && wagon.prev == null && wagon.next == null
      modifies toTrain, toTrain.wagons, wagon
      ensures Valid() && toTrain.Valid() && wagons == old(wagons)
      ensures toTrain.wagons == old(toTrain.wagons) + [wagon]
    {
      toTrain.Append(wagon, [wagon]);
    }

    /**
     * Cuts the train before the wagon at position p: the wagon lets go of
     * its predecessor, or the train becomes empty when it is the first one.
     */
    method CutBefore(wagon: Wagon, ghost p: nat)
      requires Valid() && 1 <= p <= |wagons| && wagons[p - 1] == wagon
      modifies this, wagons
      ensures Valid() && wagons == old(wagons)[..p - 1]
      ensures Chain(old(wagons)[p - 1..]) && wagon.prev == null
    {
      ghost var a := wagons;
      ChainSuffix(a, p - 1);
      ghost var post := a[p - 1..];
      if firstWagon != wagon {
        assert wagon.prev == a[p - 2] && a[p - 2] !in post;
        DetachFromPredecessor(wagon, post);
        ghost var pre := a[..p - 1];
        forall j | 0 <= j < |pre| - 1
          ensures pre[j].next == pre[j + 1]
        {
          assert pre[j] == a[j] && pre[j + 1] == a[j + 1] && old(a[j].next) == a[j + 1];
        }
        forall j | 0 < j < |pre|
          ensures pre[j].prev == pre[j - 1]
        {
          assert pre[j] == a[j] && pre[j - 1] == a[j - 1] && old(a[j].prev) == a[j - 1];
        }
        wagons := pre;
      } else {
        firstWagon := null;
        wagons := [];
      }
    }

    /**
     * splitAtPosition: refused for a position outside 1..n, when toTrain's
     * locomotive cannot pull the wagons from the position on in addition to
     * its own, or when both trains have wagons of different kinds; otherwise
     * the wagons from the position on move to the rear of toTrain.
     */
    method SplitAtPosition(position: int, toTrain: Train) returns (ok: bool)
      requires Valid() && toTrain.Valid() && this != toTrain && Disjoint(wagons, toTrain.wagons)
      modifies this, wagons, toTrain, toTrain.wagons
      ensures ok == old(1 <= position <= |wagons| && !KindsClash(toTrain) &&
                        toTrain.engine.maxWagons >= |toTrain.wagons| + |wagons| - position + 1)
      ensures ok ==> Valid() && toTrain.Valid()
      ensures ok ==> wagons == old(wagons)[..position - 1] &&
                     toTrain.wagons == old(toTrain.wagons) + old(wagons)[position - 1..]
      ensures !ok ==> unchanged(this, toTrain) && unchanged(wagons) && unchanged(toTrain.wagons)
    {
      var wagon := FindWagonAtPosition(position);
      if wagon == null {
        return false;
      }
      var toCount := toTrain.GetNumberOfWagons();
      var tail := wagon.GetTailLength(wagons[position - 1..]) by {
        ChainSuffix(wagons, position - 1);
      }
      if toTrain.engine.maxWagons < toCount + tail + 1 || KindsClash(toTrain) {
        return false;
      }
      SplitOff(wagon, position, toTrain);
      return true;
    }

    /** The relinking part of splitAtPosition, once the checks passed. */
    method SplitOff(wagon: Wagon, ghost p: nat, toTrain: Train)
      requires Valid() && toTrain.Valid() && this != toTrain && Disjoint(wagons, toTrain.wagons)
      requires 1 <= p <= |wagons| && wagons[p - 1] == wagon
      modifies this, wagons, toTrain, toTrain.wagons
      ensures Valid() && toTrain.Valid()
      ensures wagons == old(wagons)[..p - 1] && toTrain.wagons == old(toTrain.wagons) + old(wagons)[p - 1..]
    {
      ghost var a := wagons;
      ghost var post := a[p - 1..];
      assert Disjoint(toTrain.wagons, post) by {
        assert forall j :: 0 <= j < |post| ==> post[j] == a[p - 1 + j];
      }
      CutBefore(wagon, p);
      toTrain.Append(wagon, post);
    }

    /**
     * Every pass of reverse that moves one of s[from], ..., s[|s| - 1] is
     * accepted by insertAtPosition: the locomotive pulls all of s, and each
     * of those wagons has the kind of s[0] and an id no other wagon carries.
     */
    ghost predicate PassesAccepted(s: seq<Wagon>, from: nat)
    {
      engine.maxWagons >= |s| && forall k :: from <= k < |s| ==> Reinsertable(s, k)
    }

    /**
     * reverse: a train with fewer than two wagons is left alone. Otherwise
     * each pass detaches the last wagon, s[n - 1] down to s[1], and inserts
     * it through insertAtPosition behind the wagons already reversed. A pass
     * refused before the last one leaves the next pass without a predecessor
     * to detach from, so those passes must be accepted. The last pass may be
     * refused: s[1] then stays detached, outside the train, and the train
     * holds the other wagons, reversed except for s[0] at the end.
     */
    method Reverse()
      requires Valid()
      requires |wagons| >= 3 ==> PassesAccepted(wagons, 2)
      modifies this, wagons
      ensures Valid()
      ensures |old(wagons)| < 2 || PassesAccepted(old(wagons), 1) ==>
                wagons == Reversed(old(wagons)) && multiset(wagons) == multiset(old(wagons))
      ensures |old(wagons)| >= 2 && !PassesAccepted(old(wagons), 1) ==>
                wagons == Reversed(old(wagons)[2..]) + old(wagons)[..1] &&
                multiset(wagons) + multiset{old(wagons)[1]} == multiset(old(wagons)) &&
                old(wagons)[1].prev == null && old(wagons)[1].next == null
    {
      ghost var s := wagons;
      assert |s| >= 2 ==> firstWagon.next == s[1];
      if firstWagon != null && firstWagon.next != null {
        var wagonLength := firstWagon.GetTailLength(wagons);
        var lastWagon := firstWagon.GetLastWagonAttached(wagons);
        ReverseLoop(lastWagon, wagonLength, s);
        ReversedKeepsWagons(s);
        LastPassLoses(s);
      } else {
        assert |s| <= 1;
        assert Reversed(s) == s;
      }
    }

    /** Reverse has moved s[m..] to the front, reversed; lastWagon ends the
        rest. */
    ghost predicate Reversing(s: seq<Wagon>, m: nat, lastWagon: Wagon)
      reads this
    {
      1 <= m <= |s| && wagons == Reversed(s[m..]) + s[..m] && lastWagon == s[m - 1] &&
      multiset(wagons) == multiset(s)
    }

    /** What a refused last pass of reverse leaves: every wagon but s[1],
        s[0] last. */
    ghost predicate LeftOut(s: seq<Wagon>)
      reads this
    {
      |s| >= 2 && wagons == Reversed(s[2..]) + s[..1]
    }

    /** The state of reverse after the passes down to s[m]: either every
        pass was accepted, or m == 1 and the last pass left s[1] out. */
    ghost predicate ReverseState(s: seq<Wagon>, m: nat, lastWagon: Wagon, lost: bool)
      reads this, wagons
    {
      Valid() && 1 <= m <= |s| && (|s| >= 3 ==> PassesAccepted(s, 2)) &&
      if lost then m == 1 && !PassesAccepted(s, 1) && LeftOut(s)
      else Reversing(s, m, lastWagon) && (m == 1 ==> PassesAccepted(s, 1))
    }

    /** The loop of reverse: wagonLength passes, each moving the last wagon
        behind the wagons already reversed; only the last may be refused. */
    method ReverseLoop(last: Wagon, wagonLength: nat, ghost s: seq<Wagon>)
      requires Valid() && wagons == s && |s| >= 2 && wagonLength == |s| - 1 && last == s[|s| - 1]
      requires |s| >= 3 ==> PassesAccepted(s, 2)
      modifies this, s
      ensures Valid()
      ensures PassesAccepted(s, 1) ==> wagons == Reversed(s)
      ensures !PassesAccepted(s, 1) ==> LeftOut(s) && s[1].Detached()
    {
      var lastWagon := last;
      var i := 0;
      ghost var m := |s|;
      ghost var lost := false;
      StateBeforePasses(s, last);
      while i < wagonLength
        invariant 0 <= i <= wagonLength && m == |s| - i
        invariant ReverseState(s, m, lastWagon, lost)
        invariant lost ==> s[1].Detached()
      {
        var accepted;
        lastWagon, accepted := ReversePass(lastWagon, i, s, m);
        lost := !accepted;
        i := i + 1;
        m := m - 1;
      }
      StateAfterPasses(s, lastWagon, lost);
    }

    /** Before the first pass nothing is reversed yet. */
    lemma StateBeforePasses(s: seq<Wagon>, last: Wagon)
      requires Valid() && wagons == s && |s| >= 2 && last == s[|s| - 1]
      requires |s| >= 3 ==> PassesAccepted(s, 2)
      ensures ReverseState(s, |s|, last, false)
    {
      assert s[|s|..] == [] && s[..|s|] == s;
    }

    /** After the last pass the wagons are reversed, or s[1] was left out. */
    lemma StateAfterPasses(s: seq<Wagon>, lastWagon: Wagon, lost: bool)
      requires ReverseState(s, 1, lastWagon, lost)
      ensures Valid()
      ensures PassesAccepted(s, 1) ==> wagons == Reversed(s)
      ensures !PassesAccepted(s, 1) ==> LeftOut(s)
    {
      if !lost {
        ReversedUnfolds(s);
      }
    }

    /**
     * One pass of the loop of reverse, with wagons == Reversed(s[m..]) +
     * s[..m] for m = |s| - i: the last wagon s[m - 1] lets go of its
     * predecessor and is inserted at position i + 1, behind the reversed
     * part. Returns the new last wagon, which is s[m - 1] itself when the
     * insertion was refused.
     */
    method ReversePass(lastWagon: Wagon, i: nat, ghost s: seq<Wagon>, ghost m: nat) returns (next: Wagon, ok: bool)
      requires 2 <= m == |s| - i && ReverseState(s, m, lastWagon, false)
      modifies this, s
      ensures ok <==> m > 2 || PassesAccepted(s, 1)
      ensures ReverseState(s, m - 1, next, !ok)
      ensures !ok ==> s[1].Detached()
    {
      DropLastShape(s, m);
      assert lastWagon.prev == wagons[|wagons| - 2];
      DetachLast(lastWagon.prev);
      ok := Reinsert(lastWagon, i, s, m);
      if ok {
        ghost var w := wagons;
        ReversedSuffixStart(s, m, w, i);
        ChainSuffix(w, i);
        next := lastWagon.GetLastWagonAttached(w[i..]);
        assert Valid();
      } else {
        next := lastWagon.GetLastWagonAttached([lastWagon]);
      }
      StateAfterPass(s, m, next, ok);
    }

    /** The state after a pass, from what the pass did to the wagons. */
    lemma StateAfterPass(s: seq<Wagon>, m: nat, next: Wagon, ok: bool)
      requires Valid() && 2 <= m <= |s| && (|s| >= 3 ==> PassesAccepted(s, 2))
      requires ok <==> m > 2 || PassesAccepted(s, 1)
      requires ok ==> wagons == Reversed(s[m - 1..]) + s[..m - 1] && next == s[m - 2] &&
                      multiset(wagons) == multiset(s)
      requires !ok ==> wagons == Reversed(s[2..]) + s[..1]
      ensures ReverseState(s, m - 1, next, !ok)
    {
    }

    /** The detached wagon s[m - 1] goes back in at position i + 1 through
        insertAtPosition, which accepts it unless this is the last pass and
        s[1] does not fit. */
    method Reinsert(lastWagon: Wagon, i: nat, ghost s: seq<Wagon>, ghost m: nat) returns (ok: bool)
      requires Valid() && 2 <= m == |s| - i && wagons == Reversed(s[m..]) + s[..m - 1]
      requires lastWagon == s[m - 1] && lastWagon.prev == null && lastWagon.next == null
      requires |s| >= 3 ==> PassesAccepted(s, 2)
      requires multiset(wagons + [lastWagon]) == multiset(s)
      modifies this, s
      ensures Valid()
      ensures ok <==> m > 2 || PassesAccepted(s, 1)
      ensures ok ==> wagons == Reversed(s[m - 1..]) + s[..m - 1] && multiset(wagons) == multiset(s)
      ensures !ok ==> wagons == old(wagons) && lastWagon.prev == null && lastWagon.next == null
    {
      ghost var pre := wagons;
      PassDecision(s, m);
      ok := InsertAtPosition(i + 1, lastWagon, [lastWagon]);
      if ok {
        assert wagons == pre[..i] + [lastWagon] + pre[i..];
        PassResult(s, m, pre);
      }
    }

    /** insertAtPosition accepts s[m - 1] back into the other wagons exactly
        when this is not the last pass or s[1] fits. */
    lemma PassDecision(s: seq<Wagon>, m: nat)
      requires 2 <= m <= |s| && wagons == Reversed(s[m..]) + s[..m - 1]
      requires |s| >= 3 ==> PassesAccepted(s, 2)
      ensures Accepts(s[m - 1], 0) <==> m > 2 || PassesAccepted(s, 1)
    {
      if m > 2 || PassesAccepted(s, 1) {
        assert Reinsertable(s, m - 1);
        assert m < |s| ==> Reinsertable(s, |s| - 1);
        PassOthers(s, m, wagons);
        IdIndexNone(wagons, s[m - 1].id);
      } else if !Reinsertable(s, 1) {
        assert |s| >= 3 ==> Reinsertable(s, |s| - 1);
        LastPassRefused(s, wagons);
      }
    }

    /** The last wagon lets go of its predecessor pv through pv's detachTail. */
    method DetachLast(pv: Wagon)
      requires Valid() && |wagons| >= 2 && pv == wagons[|wagons| - 2]
      modifies this, pv, pv.next
      ensures Valid() && wagons == old(wagons)[..|old(wagons)| - 1]
      ensures old(wagons)[|old(wagons)| - 1].prev == null && old(wagons)[|old(wagons)| - 1].next == null
    {
      ghost var a := wagons;
      assert pv.next == a[|a| - 1];
      var _ := pv.DetachTail();
      ghost var pre := a[..|a| - 1];
      forall j | 0 <= j < |pre| - 1
        ensures pre[j].next == pre[j + 1]
      {
        assert pre[j] == a[j] && pre[j + 1] == a[j + 1] && old(a[j].next) == a[j + 1];
      }
      forall j | 0 < j < |pre|
        ensures pre[j].prev == pre[j - 1]
      {
        assert pre[j] == a[j] && pre[j - 1] == a[j - 1] && old(a[j].prev) == a[j - 1];
      }
      wagons := pre;
    }
  }

  /** Splicing ws into a at position q keeps the wagons free of repeats. */
  lemma DistinctSplice(a: seq<Wagon>, ws: seq<Wagon>, q: nat)
    requires q <= |a| && Distinct(a) && Distinct(ws) && Disjoint(a, ws)
    ensures Distinct(a[..q] + ws + a[q..])
  {
    var Q := a[..q] + ws + a[q..];
    var m := |ws|;
    forall i, j | 0 <= i < j < |Q|
      ensures Q[i] != Q[j]
    {
      var ai := if i < q then i else i - m;
      var aj := if j < q then j else j - m;
      if i < q || i >= q + m {
        if j < q || j >= q + m {
          assert Q[i] == a[ai] && Q[j] == a[aj];
        } else {
          assert Q[i] == a[ai] && Q[j] == ws[j - q];
        }
      } else if j < q || j >= q + m {
        assert Q[i] == ws[i - q] && Q[j] == a[aj];
      } else {
        assert Q[i] == ws[i - q] && Q[j] == ws[j - q];
      }
    }
  }

  /** During reverse, insertAtPosition takes the detached wagon s[k] back
      when it has the kind of s[0] and no other wagon of s carries its id. */
  ghost predicate Reinsertable(s: seq<Wagon>, k: nat)
  {
    k < |s| && s[k].kind == s[0].kind &&
    forall j :: 0 <= j < |s| && j != k ==> s[j].id != s[k].id
  }

  /** No wagon carrying the id: IdIndex names the end. */
  lemma IdIndexNone(ws: seq<Wagon>, id: int)
    requires forall j :: 0 <= j < |ws| ==> ws[j].id != id
    ensures IdIndex(ws, id) == |ws|
  {
  }

  /** The first position carrying the id is the one IdIndex names. */
  lemma {:induction false} IdIndexFirst(ws: seq<Wagon>, id: int, i: nat)
    requires i < |ws| && ws[i].id == id && forall j :: 0 <= j < i ==> ws[j].id != id
    ensures IdIndex(ws, id) == i
  {
    if i > 0 {
      IdIndexFirst(ws[1..], id, i - 1);
    }
  }

  /**
   * A sequence accepted by a non-empty train starts outside it, so it shares
   * no wagon with the train, and the predecessor of its head lies in
   * neither.
   */
  lemma HeadOutside(t: seq<Wagon>, ws: seq<Wagon>)
    requires Chain(ws) && (ws[0].prev != null ==> ws[0].prev.next == ws[0])
    requires t != [] ==> Chain(t) && t[0].prev == null && IdIndex(t, ws[0].id) == |t|
    ensures Disjoint(t, ws) && Disjoint(ws, t)
    ensures ws[0].prev != null ==> ws[0].prev !in t && ws[0].prev !in ws
  {
    if t != [] {
      assert ws[0] !in t by {
        forall j | 0 <= j < |t|
          ensures t[j] != ws[0]
        {
          assert t[j].id != ws[0].id;
        }
      }
      ChainsDisjointAll(t, ws);
      if ws[0].prev != null {
        PointsOutsideNotInChain(t, ws[0].prev);
      }
    }
    if ws[0].prev != null {
      PointsAtHeadNotInChain(ws, ws[0].prev);
    }
  }

  /** During a pass of reverse, the wagons left in the train besides the
      detached s[m - 1] carry other ids, and the first of them has its kind. */
  lemma PassOthers(s: seq<Wagon>, m: nat, pre: seq<Wagon>)
    requires 2 <= m <= |s| && pre == Reversed(s[m..]) + s[..m - 1]
    requires Reinsertable(s, m - 1) && (m < |s| ==> Reinsertable(s, |s| - 1))
    ensures pre[0].kind == s[m - 1].kind
    ensures forall j :: 0 <= j < |pre| ==> pre[j].id != s[m - 1].id
  {
    var R := Reversed(s[m..]);
    if m < |s| {
      assert pre[0] == s[|s| - 1];
    } else {
      assert pre[0] == s[0];
    }
    forall j | 0 <= j < |pre|
      ensures pre[j].id != s[m - 1].id
    {
      if j < |R| {
        assert pre[j] == s[|s| - 1 - j];
      } else {
        assert pre[j] == s[j - |R|];
      }
    }
  }

  /** In the last pass of reverse, a wagon s[1] that is not reinsertable
      differs in kind from the head of the train or shares its id with a
      wagon still in it. */
  lemma LastPassRefused(s: seq<Wagon>, pre: seq<Wagon>)
    requires |s| >= 2 && pre == Reversed(s[2..]) + s[..1]
    requires |s| >= 3 ==> Reinsertable(s, |s| - 1)
    requires !Reinsertable(s, 1)
    ensures pre[0].kind != s[1].kind || exists j :: 0 <= j < |pre| && pre[j].id == s[1].id
  {
    if s[1].kind == s[0].kind {
      var k :| 0 <= k < |s| && k != 1 && s[k].id == s[1].id;
      if k == 0 {
        assert pre[|pre| - 1] == s[0];
      } else {
        assert pre[|s| - 1 - k] == s[k];
      }
    } else if |s| >= 3 {
      assert pre[0] == s[|s| - 1];
    } else {
      assert pre[0] == s[0];
    }
  }

  /** The train a refused last pass leaves holds every wagon but s[1]. */
  lemma LastPassLoses(s: seq<Wagon>)
    requires |s| >= 2
    ensures multiset(Reversed(s[2..]) + s[..1]) + multiset{s[1]} == multiset(s)
  {
    ReversedKeepsWagons(s[2..]);
    assert s == s[..1] + [s[1]] + s[2..];
  }

  /** Inserting s[m - 1] at position |s| - m + 1 of Reversed(s[m..]) +
      s[..m - 1] extends the reversed part by one and keeps the wagons. */
  lemma PassResult(s: seq<Wagon>, m: nat, pre: seq<Wagon>)
    requires 2 <= m <= |s| && pre == Reversed(s[m..]) + s[..m - 1]
    ensures pre[..|s| - m] + [s[m - 1]] + pre[|s| - m..] == Reversed(s[m - 1..]) + s[..m - 1]
    ensures multiset(pre[..|s| - m] + [s[m - 1]] + pre[|s| - m..]) == multiset(pre + [s[m - 1]])
  {
    ReversedSuffixGrows(s, m);
    assert pre[..|s| - m] == Reversed(s[m..]) && pre[|s| - m..] == s[..m - 1];
    assert pre == pre[..|s| - m] + pre[|s| - m..];
  }

  /** Reversed(s[m..]) + s[..m] ends with s[m - 2], s[m - 1]; without its
      last element it is Reversed(s[m..]) + s[..m - 1]. */
  lemma DropLastShape<T>(s: seq<T>, m: nat)
    requires 2 <= m <= |s|
    ensures var w := Reversed(s[m..]) + s[..m];
            |w| == |s| && w[|w| - 1] == s[m - 1] && w[|w| - 2] == s[m - 2] &&
            w[..|w| - 1] == Reversed(s[m..]) + s[..m - 1] && w == w[..|w| - 1] + [s[m - 1]]
  {
    var w := Reversed(s[m..]) + s[..m];
    assert w[..|w| - 1] == Reversed(s[m..]) + s[..m - 1];
  }

  /** After a pass, the wagons from position i = |s| - m on are s[m - 1]
      followed by the part not yet reversed, ending at s[m - 2]. */
  lemma ReversedSuffixStart(s: seq<Wagon>, m: nat, w: seq<Wagon>, i: nat)
    requires 2 <= m == |s| - i && w == Reversed(s[m - 1..]) + s[..m - 1]
    ensures |w| == |s| && w[i] == s[m - 1] && w[|w| - 1] == s[m - 2]
  {
  }

  /** Of two wagons with one id, the second is not reinsertable, and what
      the refused pass leaves is the first alone. */
  lemma SameIdPair(s: seq<Wagon>)
    requires |s| == 2 && s[0].id == s[1].id
    ensures !Reinsertable(s, 1)
    ensures Reversed(s[2..]) + s[..1] == [s[0]]
  {
    assert s[2..] == [];
  }

  /**
   * reverse on a train of two wagons with the same id: the second wagon is
   * detached, and insertAtPosition refuses it because the first one carries
   * its id. Nothing is thrown; the train ends with the first wagon alone and
   * the second is linked to nothing.
   */
  method ReverseLosesWagon() returns (before: nat, after: nat, lostDetached: bool)
    ensures before == 2 && after == 1 && lostDetached
  {
    var a := new Wagon(1, Passenger);
    var b := new Wagon(1, Passenger);
    var linked := a.AttachTail(b);
    assert Chain([a, b]);
    var train := new Train(Locomotive(5));
    var attached := train.AttachToRear(a, [a, b]);
    before := train.GetNumberOfWagons();
    SameIdPair(train.wagons);
    train.Reverse();
    after := train.GetNumberOfWagons();
    lostDetached := b.prev == null && b.next == null;
  }
}
