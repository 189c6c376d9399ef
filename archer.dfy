/**
 * Archer registration and scoring: a fixed board of 3 arrows per round over
 * 10 rounds, the running totals read off that board, and the ranking
 * comparator (highest total first, then fewest misses, then earliest
 * registration, i.e. lowest id).
 */
module Archery {

  const MaxArrows: nat := 3
  const MaxRounds: nat := 10
  /** Number of slots on an archer's score board. */
  const ArrowCount: nat := MaxArrows * MaxRounds
  /** The id handed to the first archer ever constructed. */
  const FirstId: int := 135788

  /** Sum of all slots. */
  function Sum(s: seq<int>): int
  {
    if s == [] then 0 else Sum(s[..|s| - 1]) + s[|s| - 1]
  }

  /** Number of slots that hold 0, i.e. missed arrows. */
  function Misses(s: seq<int>): (r: nat)
    ensures r <= |s|
    ensures r == 0 <==> forall i :: 0 <= i < |s| ==> s[i] != 0
    ensures r == |s| <==> forall i :: 0 <= i < |s| ==> s[i] == 0
  {
    if s == [] then 0
    else Misses(s[..|s| - 1]) + (if s[|s| - 1] == 0 then 1 else 0)
  }

  /** Only zeros sum to 0; only non-negative points sum to at least 0. */
  lemma {:induction false} SumSigns(s: seq<int>)
    ensures Misses(s) == |s| ==> Sum(s) == 0
    ensures (forall i :: 0 <= i < |s| ==> s[i] >= 0) ==> Sum(s) >= 0
  {
    if s != [] {
      var init := s[..|s| - 1];
      SumSigns(init);
      if Misses(s) == |s| {
        assert forall i :: 0 <= i < |init| ==> init[i] == s[i];
      }
    }
  }

  /** Overwriting one slot changes the sum by exactly the difference. */
  lemma {:induction false} SumUpdate(s: seq<int>, k: nat, v: int)
    requires k < |s|
    ensures Sum(s[k := v]) == Sum(s) - s[k] + v
  {
    if k < |s| - 1 {
      assert s[k := v][..|s| - 1] == s[..|s| - 1][k := v];
      SumUpdate(s[..|s| - 1], k, v);
    } else {
      assert s[k := v][..|s| - 1] == s[..|s| - 1];
    }
  }

  /** The board after writing `points` into the slots of `round` (1-based). */
  ghost predicate RoundRegistered(before: seq<int>, after: seq<int>, round: int, points: seq<int>)
  {
    && |after| == |before|
    && forall k :: 0 <= k < |after| ==>
         after[k] == if (round - 1) * MaxArrows <= k < (round - 1) * MaxArrows + |points|
                     then points[k - (round - 1) * MaxArrows] else before[k]
  }

  lemma {:induction false} SumConcat(a: seq<int>, b: seq<int>)
    ensures Sum(a + b) == Sum(a) + Sum(b)
  {
    if b != [] {
      assert (a + b)[..|a + b| - 1] == a + b[..|b| - 1];
      SumConcat(a, b[..|b| - 1]);
    } else {
      assert a + b == a;
    }
  }

  /** Registering a round replaces that round's contribution to the total by the sum of the new points. */
  lemma RegisterRoundTotal(before: seq<int>, after: seq<int>, round: int, points: seq<int>)
    requires 1 <= round && (round - 1) * MaxArrows + |points| <= |before|
    requires RoundRegistered(before, after, round, points)
    ensures var lo := (round - 1) * MaxArrows;
            Sum(after) == Sum(before) - Sum(before[lo..lo + |points|]) + Sum(points)
  {
    var lo := (round - 1) * MaxArrows;
    var hi := lo + |points|;
    assert after == before[..lo] + points + before[hi..];
    assert before == before[..lo] + before[lo..hi] + before[hi..];
    SumConcat(before[..lo] + points, before[hi..]);
    SumConcat(before[..lo], points);
    SumConcat(before[..lo] + before[lo..hi], before[hi..]);
    SumConcat(before[..lo], before[lo..hi]);
  }

  /** What a ranking looks at: total score, misses and id. */
  datatype Standing = Standing(total: int, misses: nat, id: int)

  /** Integer.compare: the sign of x - y. */
  function IntCompare(x: int, y: int): (r: int)
    ensures r == -1 || r == 0 || r == 1
    ensures r < 0 <==> x < y
    ensures r == 0 <==> x == y
  {
    if x < y then -1 else if x == y then 0 else 1
  }

  /** `a` ranks strictly before `b`: more points, or as many points and fewer misses,
      or both equal and registered earlier. */
  ghost predicate RanksBefore(a: Standing, b: Standing)
  {
    || a.total > b.total
    || (a.total == b.total && a.misses < b.misses)
    || (a.total == b.total && a.misses == b.misses && a.id < b.id)
  }

  /** Score reversed, then misses, then id, each by Integer.compare. */
  function CompareStandings(a: Standing, b: Standing): (r: int)
    ensures r == -1 || r == 0 || r == 1
    ensures r < 0 <==> RanksBefore(a, b)
    ensures r > 0 <==> RanksBefore(b, a)
    ensures r == 0 <==> a == b
  {
    var byScore := IntCompare(b.total, a.total);
    if byScore != 0 then byScore
    else
      var byMisses := IntCompare(a.misses, b.misses);
      if byMisses != 0 then byMisses else IntCompare(a.id, b.id)
  }

  /** The ranking is a strict total order on standings: transitive. */
  lemma RanksBeforeTransitive(a: Standing, b: Standing, c: Standing)
    requires RanksBefore(a, b) && RanksBefore(b, c)
    ensures RanksBefore(a, c)
  {
  }

  /** The static counter of the source: every construction takes the next id. */
  class IdCounter {
    var count: int
    /** Every id handed out so far, in order. */
    ghost var issued: seq<int>

    ghost predicate Valid()
      reads this
    {
      && count == FirstId - 1 + |issued|
      && forall i :: 0 <= i < |issued| ==> issued[i] == FirstId + i
    }

    constructor ()
      ensures Valid() && issued == []
    {
      count := FirstId - 1;
      issued := [];
    }

    method IncrementAndGet() returns (id: int)
      requires Valid()
      modifies this
      ensures Valid()
      ensures id == old(count) + 1 && issued == old(issued) + [id]
    {
      count := count + 1;
      id := count;
      issued := issued + [id];
    }
  }

  /** Ids issued by a valid counter start at 135788, rise by one per archer and never repeat. */
  lemma IssuedIdsIncrease(issued: seq<int>, i: nat, j: nat)
    requires forall k :: 0 <= k < |issued| ==> issued[k] == FirstId + k
    requires i < j < |issued|
    ensures FirstId <= issued[i] < issued[j]
  {
  }

  class Archer {
    const id: int
    const firstName: string
    const lastName: string
    /** One slot per arrow, round by round; 0 is a miss. */
    const arrows: array<int>

    constructor (firstName: string, lastName: string, counter: IdCounter)
      requires counter.Valid()
      modifies counter
      ensures counter.Valid()
      ensures id == old(counter.count) + 1 && counter.issued == old(counter.issued) + [id]
      ensures this.firstName == firstName && this.lastName == lastName
      ensures fresh(arrows) && arrows.Length == ArrowCount
      ensures forall k :: 0 <= k < arrows.Length ==> arrows[k] == 0
    {
      this.firstName := firstName;
      this.lastName := lastName;
      arrows := new int[ArrowCount](_ => 0);
      var nextId := counter.IncrementAndGet();
      id := nextId;
    }

    /** Writes the points of one round; the source indexes the board without checks,
        so a round or arrow count that falls off the board is the caller's error. */
    method RegisterScoreForRound(round: int, points: seq<int>)
      requires points == [] || (1 <= round && (round - 1) * MaxArrows + |points| <= arrows.Length)
      modifies arrows
      ensures RoundRegistered(old(arrows[..]), arrows[..], round, points)
    {
      var i := 0;
      while i < |points|
        invariant 0 <= i <= |points|
        invariant forall k :: 0 <= k < arrows.Length ==>
          arrows[k] == if (round - 1) * MaxArrows <= k < (round - 1) * MaxArrows + i
                       then points[k - (round - 1) * MaxArrows] else old(arrows[k])
      {
        arrows[(round - 1) * MaxArrows + i] := points[i];
        i := i + 1;
      }
    }

    /** getTotalScore: the sum over the whole board. A board of misses only
        totals 0, and a board without negative points never totals below 0. */
    function TotalScore(): (r: int)
      reads arrows
      ensures Misses(arrows[..]) == arrows.Length ==> r == 0
      ensures (forall k :: 0 <= k < arrows.Length ==> arrows[k] >= 0) ==> r >= 0
    {
      SumSigns(arrows[..]);
      Sum(arrows[..])
    }

    /** Counting loop over the board. */
    method TotalMisses() returns (misses: int)
      ensures misses == Misses(arrows[..])
      ensures 0 <= misses <= arrows.Length
    {
      misses := 0;
      var i := 0;
      while i < arrows.Length
        invariant 0 <= i <= arrows.Length
        invariant misses == Misses(arrows[..i])
      {
        assert arrows[..i + 1][..i] == arrows[..i];
        if arrows[i] == 0 {
          misses := misses + 1;
        }
        i := i + 1;
      }
      assert arrows[..i] == arrows[..];
    }

    function GetStanding(): Standing
      reads this, arrows
    {
      Standing(TotalScore(), Misses(arrows[..]), id)
    }

    function CompareByHighestTotalScoreWithLeastMissesAndLowestId(other: Archer): (r: int)
      reads this, arrows, other, other.arrows
      ensures r == -1 || r == 0 || r == 1
      ensures r < 0 <==> RanksBefore(GetStanding(), other.GetStanding())
      ensures other == this ==> r == 0
      ensures id != other.id ==> r != 0
    {
      CompareStandings(GetStanding(), other.GetStanding())
    }
  }
}
