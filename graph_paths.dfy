/**
 * Paths in a directed graph whose vertices are identified by their ids and
 * whose edges are stored as a map from the id of the from-vertex to a map
 * from the id of the to-vertex to the edge information.
 */
module DirectedPaths {

  type EdgeMap<E> = map<string, map<string, E>>

  predicate HasEdge<E>(edges: EdgeMap<E>, a: string, b: string)
  {
    a in edges && b in edges[a]
  }

  /** The ids reached by one outgoing edge (getNeighbours). */
  function Successors<E>(edges: EdgeMap<E>, a: string): (r: set<string>)
    ensures forall b :: b in r <==> HasEdge(edges, a, b)
  {
    if a in edges then edges[a].Keys else {}
  }

  /** Every id that occurs in the edge map, as a from- or to-vertex. */
  function EdgeIds<E>(edges: EdgeMap<E>): (r: set<string>)
    ensures forall a, b :: HasEdge(edges, a, b) ==> a in r && b in r
  {
    edges.Keys + set a, b | a in edges && b in edges[a] :: b
  }

  /** A non-empty sequence of ids with an edge between each consecutive pair. */
  ghost predicate IsPath<E>(edges: EdgeMap<E>, p: seq<string>)
  {
    |p| > 0 && forall i :: 0 < i < |p| ==> HasEdge(edges, p[i - 1], p[i])
  }

  ghost predicate PathFromTo<E>(edges: EdgeMap<E>, p: seq<string>, a: string, b: string)
  {
    IsPath(edges, p) && p[0] == a && p[|p| - 1] == b
  }

  ghost predicate Reachable<E>(edges: EdgeMap<E>, a: string, b: string)
  {
    exists p :: PathFromTo(edges, p, a, b)
  }

  ghost predicate NoRepeats(p: seq<string>)
  {
    forall i, j :: 0 <= i < j < |p| ==> p[i] != p[j]
  }

  /** No edge leaves S. */
  ghost predicate ClosedUnder<E>(edges: EdgeMap<E>, S: set<string>)
  {
    forall a, b :: a in S && HasEdge(edges, a, b) ==> b in S
  }

  /** A path that starts inside a set no edge leaves never leaves it. */
  lemma {:induction false} PathStaysInClosed<E>(edges: EdgeMap<E>, S: set<string>, p: seq<string>)
    requires ClosedUnder(edges, S) && IsPath(edges, p) && p[0] in S
    ensures forall i :: 0 <= i < |p| ==> p[i] in S
  {
    if |p| > 1 {
      PathStaysInClosed(edges, S, p[..|p| - 1]);
      assert HasEdge(edges, p[|p| - 2], p[|p| - 1]);
    }
  }

  /** The completeness argument of the searches: if the explored set is
      closed, contains the start and not the target, the target is unreachable. */
  lemma ClosedSetBlocksReach<E>(edges: EdgeMap<E>, S: set<string>, a: string, b: string)
    requires ClosedUnder(edges, S) && a in S && b !in S
    ensures !Reachable(edges, a, b)
  {
    if p :| PathFromTo(edges, p, a, b) {
      PathStaysInClosed(edges, S, p);
    }
  }

  /** Prepending a vertex with an edge into a path gives a path. */
  lemma PrependEdge<E>(edges: EdgeMap<E>, a: string, p: seq<string>)
    requires IsPath(edges, p) && HasEdge(edges, a, p[0])
    ensures IsPath(edges, [a] + p)
  {
    var q := [a] + p;
    forall i | 0 < i < |q|
      ensures HasEdge(edges, q[i - 1], q[i])
    {
      if i > 1 {
        assert q[i - 1] == p[i - 2] && q[i] == p[i - 1];
      }
    }
  }

  /** A repeat-free path p from n to b found beyond `before`, preceded by
      an edge from a vertex a of `before` that `visited` lacks, is a
      repeat-free path from a whose vertices are new since `visited`. */
  lemma PrependStep<E>(edges: EdgeMap<E>, a: string, n: string, b: string, p: seq<string>,
                       visited: set<string>, before: set<string>, after: set<string>)
    requires PathFromTo(edges, p, n, b) && NoRepeats(p) && HasEdge(edges, a, n)
    requires a in before && a !in visited && visited <= before <= after
    requires forall v :: v in p ==> v in after - before
    ensures PathFromTo(edges, [a] + p, a, b) && NoRepeats([a] + p)
    ensures forall v :: v in [a] + p ==> v in after - visited
    ensures (set v | v in [a] + p) == (set v | v in p) + {a}
  {
    PrependEdge(edges, a, p);
    assert a !in p by {
      assert forall v :: v in p ==> v !in before;
    }
    PrependNoRepeats(a, p);
  }

  lemma PrependNoRepeats(a: string, p: seq<string>)
    requires NoRepeats(p) && a !in p
    ensures NoRepeats([a] + p)
  {
    var q := [a] + p;
    forall i, j | 0 <= i < j < |q|
      ensures q[i] != q[j]
    {
      if i > 0 {
        assert q[i] == p[i - 1] && q[j] == p[j - 1];
      } else {
        assert q[j] == p[j - 1];
      }
    }
  }

  /** Sum of the weights of the edges along a path. */
  ghost function PathWeight<E>(edges: EdgeMap<E>, p: seq<string>, weight: E -> nat): nat
    requires IsPath(edges, p)
  {
    if |p| == 1 then 0
    else
      assert HasEdge(edges, p[0], p[1]);
      TailIsPath(edges, p);
      weight(edges[p[0]][p[1]]) + PathWeight(edges, p[1..], weight)
  }

  lemma TailIsPath<E>(edges: EdgeMap<E>, p: seq<string>)
    requires IsPath(edges, p) && |p| > 1
    ensures IsPath(edges, p[1..])
  {
    forall i | 0 < i < |p| - 1
      ensures HasEdge(edges, p[1..][i - 1], p[1..][i])
    {
      assert HasEdge(edges, p[i], p[i + 1]);
    }
  }
}
