/**
 * The invariants of breadth-first search, stated over the predecessor map
 * (visitedFrom), a ghost map of discovery depths, the FIFO queue and the
 * set of vertices whose neighbours have all been examined.
 */
module BreadthFirst {
  import opened Wrappers
  import opened DirectedPaths

  /** visitedFrom is a tree of edges rooted at s, and dist counts its levels. */
  ghost predicate PredecessorTree<E>(edges: EdgeMap<E>, s: string,
                                     visitedFrom: map<string, Option<string>>, dist: map<string, nat>)
  {
    visitedFrom.Keys == dist.Keys && s in dist && dist[s] == 0 && visitedFrom[s] == None &&
    forall v {:trigger visitedFrom[v]} :: v in visitedFrom && v != s ==>
      visitedFrom[v].Some? && visitedFrom[v].value in dist &&
      HasEdge(edges, visitedFrom[v].value, v) && dist[v] == dist[visitedFrom[v].value] + 1
  }

  /** Everything discovered below depth d is processed, and processing a
      vertex discovers all its neighbours at most one level deeper. */
  ghost predicate ExploredUpTo<E>(edges: EdgeMap<E>, dist: map<string, nat>, processed: set<string>, d: nat)
  {
    processed <= dist.Keys &&
    (forall v :: v in dist && dist[v] < d ==> v in processed) &&
    (forall u, w :: u in processed && HasEdge(edges, u, w) ==> w in dist && dist[w] <= dist[u] + 1)
  }

  /** The queue holds discovered vertices of depth d or d + 1, shallower first. */
  ghost predicate QueueOrdered(queue: seq<string>, dist: map<string, nat>, d: nat)
  {
    (forall i :: 0 <= i < |queue| ==> queue[i] in dist && d <= dist[queue[i]] <= d + 1) &&
    (forall i, j :: 0 <= i < j < |queue| ==> dist[queue[i]] <= dist[queue[j]] && queue[i] != queue[j])
  }

  /** Every path from s of at most d edges ends at a discovered vertex no
      deeper than the path is long. */
  lemma {:induction false} ShortPathsDiscovered<E>(edges: EdgeMap<E>, s: string, dist: map<string, nat>,
                                                   processed: set<string>, d: nat, q: seq<string>)
    requires s in dist && dist[s] == 0 && ExploredUpTo(edges, dist, processed, d)
    requires IsPath(edges, q) && q[0] == s && |q| - 1 <= d
    ensures q[|q| - 1] in dist && dist[q[|q| - 1]] <= |q| - 1
  {
    if |q| > 1 {
      var prefix := q[..|q| - 1];
      assert IsPath(edges, prefix) by {
        forall i | 0 < i < |prefix|
          ensures HasEdge(edges, prefix[i - 1], prefix[i])
        {
          assert prefix[i - 1] == q[i - 1] && prefix[i] == q[i];
        }
      }
      ShortPathsDiscovered(edges, s, dist, processed, d, prefix);
      var u := q[|q| - 2];
      assert u == prefix[|prefix| - 1];
      assert u in processed;
      assert HasEdge(edges, u, q[|q| - 1]);
    }
  }

  /** An undiscovered target is more than d edges away. */
  lemma NoPathWithin<E>(edges: EdgeMap<E>, s: string, t: string, dist: map<string, nat>,
                        processed: set<string>, d: nat)
    requires s in dist && dist[s] == 0 && ExploredUpTo(edges, dist, processed, d) && t !in dist
    ensures forall q :: PathFromTo(edges, q, s, t) ==> |q| >= d + 2
  {
    forall q | PathFromTo(edges, q, s, t)
      ensures |q| >= d + 2
    {
      if |q| - 1 <= d {
        ShortPathsDiscovered(edges, s, dist, processed, d, q);
      }
    }
  }

  /** Taking the head off the queue moves the frontier to its depth. */
  lemma PollKeepsOrder<E>(edges: EdgeMap<E>, dist: map<string, nat>, processed: set<string>,
                          c: string, queue: seq<string>, d: nat)
    requires |queue| > 0 && c in dist && dist[c] == d
    requires QueueOrdered(queue, dist, d)
    requires ExploredUpTo(edges, dist, processed + {c}, d)
    requires dist.Keys == processed + {c} + (set x | x in queue)
    requires forall u :: u in processed ==> dist[u] <= d
    ensures QueueOrdered(queue[1..], dist, dist[queue[0]])
    ensures ExploredUpTo(edges, dist, processed + {c}, dist[queue[0]])
    ensures forall u :: u in processed + {c} ==> dist[u] <= dist[queue[0]]
  {
    var d' := dist[queue[0]];
    forall i | 0 <= i < |queue|
      ensures d' <= dist[queue[i]]
    {
      if i > 0 {
        assert dist[queue[0]] <= dist[queue[i]];
      }
    }
    var rest := queue[1..];
    forall i | 0 <= i < |rest|
      ensures rest[i] in dist && d' <= dist[rest[i]] <= d' + 1
    {
      assert rest[i] == queue[i + 1];
    }
    forall i, j | 0 <= i < j < |rest|
      ensures dist[rest[i]] <= dist[rest[j]] && rest[i] != rest[j]
    {
      assert rest[i] == queue[i + 1] && rest[j] == queue[j + 1];
    }
  }
  /** The state at the head of an iteration of the outer loop: c has just
      been polled, the discovered vertices are exactly the processed ones, c
      and the queue, and the queue is ordered by depth from that of c. */
  ghost predicate Frontier<E>(edges: EdgeMap<E>, dist: map<string, nat>, processed: set<string>,
                              c: string, queue: seq<string>)
  {
    c in dist && c !in processed &&
    (forall i :: 0 <= i < |queue| ==> queue[i] !in processed && queue[i] != c) &&
    dist.Keys == processed + {c} + (set x | x in queue) &&
    QueueOrdered(queue, dist, dist[c]) &&
    ExploredUpTo(edges, dist, processed, dist[c]) &&
    (forall u :: u in processed ==> dist[u] <= dist[c])
  }

  /** Recording an undiscovered neighbour n of c one level below c keeps the tree. */
  lemma DiscoverKeepsTree<E>(edges: EdgeMap<E>, s: string, visitedFrom: map<string, Option<string>>,
                             dist: map<string, nat>, c: string, d: nat, n: string)
    requires PredecessorTree(edges, s, visitedFrom, dist) && c in dist && dist[c] == d
    requires n !in dist && HasEdge(edges, c, n)
    ensures PredecessorTree(edges, s, visitedFrom[n := Some(c)], dist[n := d + 1])
  {
  }

  /** Appending a vertex one level below the frontier keeps the queue ordered. */
  lemma EnqueueKeepsOrder(queue: seq<string>, dist: map<string, nat>, d: nat, n: string)
    requires QueueOrdered(queue, dist, d) && n !in dist
    ensures QueueOrdered(queue + [n], dist[n := d + 1], d)
  {
    var dist' := dist[n := d + 1];
    var queue' := queue + [n];
    forall i | 0 <= i < |queue'|
      ensures queue'[i] in dist' && d <= dist'[queue'[i]] <= d + 1
    {
      if i < |queue| {
        assert queue'[i] == queue[i];
      }
    }
    forall i, j | 0 <= i < j < |queue'|
      ensures dist'[queue'[i]] <= dist'[queue'[j]] && queue'[i] != queue'[j]
    {
      assert queue'[i] == queue[i];
      if j < |queue| {
        assert queue'[j] == queue[j];
      }
    }
  }

  /** Enqueueing an undiscovered neighbour n of c one level below c keeps the frontier. */
  lemma DiscoverKeepsFrontier<E>(edges: EdgeMap<E>, dist: map<string, nat>, processed: set<string>,
                                 c: string, d: nat, queue: seq<string>, n: string)
    requires Frontier(edges, dist, processed, c, queue) && dist[c] == d
    requires n !in dist
    ensures Frontier(edges, dist[n := d + 1], processed, c, queue + [n])
  {
    var dist' := dist[n := d + 1];
    var queue' := queue + [n];
    assert (set x | x in queue') == (set x | x in queue) + {n};
    EnqueueKeepsOrder(queue, dist, dist[c], n);
    forall i | 0 <= i < |queue'|
      ensures queue'[i] !in processed && queue'[i] != c
    {
      if i < |queue| {
        assert queue'[i] == queue[i];
      }
    }
  }

  /** Once all neighbours of c are discovered, c joins the processed set and
      the head of the queue, if any, becomes the next frontier vertex; with an
      empty queue the processed set is closed under the edges. */
  lemma Advance<E>(edges: EdgeMap<E>, dist: map<string, nat>, processed: set<string>,
                   c: string, queue: seq<string>)
    requires Frontier(edges, dist, processed, c, queue)
    requires forall w :: HasEdge(edges, c, w) ==> w in dist && dist[w] <= dist[c] + 1
    ensures |queue| == 0 ==> dist.Keys == processed + {c} && ClosedUnder(edges, processed + {c})
    ensures |queue| > 0 ==> Frontier(edges, dist, processed + {c}, queue[0], queue[1..])
  {
    if |queue| > 0 {
      PollKeepsOrder(edges, dist, processed, c, queue, dist[c]);
      var rest := queue[1..];
      forall i | 0 <= i < |rest|
        ensures rest[i] !in processed + {c} && rest[i] != queue[0]
      {
        assert rest[i] == queue[i + 1];
      }
      assert (set x | x in queue) == {queue[0]} + (set x | x in rest);
    }
  }

  /** The invariant of the scan over the neighbours of c in breadthFirstSearch;
      `known` is every id the graph mentions. */
  ghost predicate Scanning<E>(edges: EdgeMap<E>, known: set<string>, s: string, t: string, c: string, d: nat,
                              visitedFrom: map<string, Option<string>>, visited: set<string>, queue: seq<string>,
                              dist: map<string, nat>, processed: set<string>, remaining: set<string>)
  {
    PredecessorTree(edges, s, visitedFrom, dist) &&
    t !in dist && visited == dist.Keys && dist.Keys <= known &&
    c in dist && dist[c] == d && Frontier(edges, dist, processed, c, queue) &&
    remaining <= Successors(edges, c) &&
    Covered(Successors(edges, c), remaining, dist, d)
  }

  /** Every neighbour already scanned has been seen at depth at most d + 1. */
  ghost predicate Covered(succ: set<string>, remaining: set<string>, dist: map<string, nat>, d: nat)
  {
    forall w :: w in succ - remaining ==> w in dist && dist[w] <= d + 1
  }

  /** A neighbour not seen before is recorded, registered and enqueued. */
  lemma DiscoverStep<E>(edges: EdgeMap<E>, known: set<string>, s: string, t: string, c: string, d: nat,
                        visitedFrom: map<string, Option<string>>, visited: set<string>, queue: seq<string>,
                        dist: map<string, nat>, processed: set<string>, remaining: set<string>, n: string)
    requires Scanning(edges, known, s, t, c, d, visitedFrom, visited, queue, dist, processed, remaining)
    requires Successors(edges, c) <= known
    requires n in remaining && n != t && n !in visitedFrom
    ensures Scanning(edges, known, s, t, c, d, visitedFrom[n := Some(c)], visited + {n}, queue + [n],
                     dist[n := d + 1], processed, remaining - {n})
  {
    assert HasEdge(edges, c, n) && n !in dist;
    DiscoverKeepsTree(edges, s, visitedFrom, dist, c, d, n);
    DiscoverKeepsFrontier(edges, dist, processed, c, d, queue, n);
    DiscoverCovers(Successors(edges, c), remaining, dist, d, n);
  }

  /** A neighbour given depth d + 1 joins the neighbours already seen at
      depth at most d + 1. */
  lemma DiscoverCovers(succ: set<string>, remaining: set<string>, dist: map<string, nat>, d: nat, n: string)
    requires n in remaining
    requires Covered(succ, remaining, dist, d)
    ensures Covered(succ, remaining - {n}, dist[n := d + 1], d)
  {
    forall w | w in succ - (remaining - {n})
      ensures w in dist[n := d + 1] && dist[n := d + 1][w] <= d + 1
    {
      if w != n {
        assert w in succ - remaining;
      }
    }
  }

  /** A neighbour seen before changes nothing. */
  lemma SkipStep<E>(edges: EdgeMap<E>, known: set<string>, s: string, t: string, c: string, d: nat,
                    visitedFrom: map<string, Option<string>>, visited: set<string>, queue: seq<string>,
                    dist: map<string, nat>, processed: set<string>, remaining: set<string>, n: string)
    requires Scanning(edges, known, s, t, c, d, visitedFrom, visited, queue, dist, processed, remaining)
    requires n in remaining && n in visitedFrom
    ensures Scanning(edges, known, s, t, c, d, visitedFrom, visited, queue, dist, processed, remaining - {n})
  {
    assert n in dist && dist[n] <= d + 1;
  }
}
