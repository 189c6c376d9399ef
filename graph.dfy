/**
 * DirectedGraph: vertices stored by their id, and the outgoing edges of
 * each vertex stored in a nested map from the to-vertex to the edge
 * information. Vertices are identified by id throughout: the edge maps are
 * keyed by the ids of their vertices.
 */
module Graphs {
  import opened Wrappers
  import opened DirectedPaths
  import opened BreadthFirst

  /** DGPath: the vertex ids of a path, the weight found by the search, and
      the ids the search registered as visited. */
  datatype Path = Path(vertices: seq<string>, totalWeight: nat, visited: set<string>)

  /** DSPNode as a value: the vertex, the vertex it was last reached from,
      whether its processing is complete, and the weight of the path by which
      it was last reached. */
  datatype DspNode = DspNode(vertex: string, fromVertex: Option<string>, marked: bool, weightSumTo: nat)

  /** The outcome of dijkstraShortestPath: a path, null (NoPath), or the
      step budget of the model used up before the source would return. */
  datatype DspOutcome = Found(path: Path) | NoPath | OutOfFuel

  /** The (from, to) pairs of all edges that leave one of the ids in `from`. */
  function EdgePairs<E>(from: set<string>, edges: EdgeMap<E>): set<(string, string)>
  {
    set a, b | a in from && a in edges && b in edges[a] :: (a, b)
  }

  lemma {:induction false} TaggedCount(x: string, K: set<string>)
    ensures |set b | b in K :: (x, b)| == |K|
    decreases |K|
  {
    if K != {} {
      var k :| k in K;
      var rest := K - {k};
      TaggedCount(x, rest);
      assert (set b | b in K :: (x, b)) == (set b | b in rest :: (x, b)) + {(x, k)};
    }
  }

  /** The edges of x, as pairs. */
  function EdgesOf<E>(x: string, edges: EdgeMap<E>): set<(string, string)>
  {
    set b | b in Successors(edges, x) :: (x, b)
  }

  lemma EdgePairsSplit<E>(done: set<string>, x: string, edges: EdgeMap<E>)
    ensures EdgePairs(done + {x}, edges) == EdgePairs(done, edges) + EdgesOf(x, edges)
  {
    forall pair | pair in EdgePairs(done + {x}, edges)
      ensures pair in EdgePairs(done, edges) + EdgesOf(x, edges)
    {
      if pair.0 != x {
        assert pair in EdgePairs(done, edges);
      }
    }
  }

  lemma EdgePairsDisjoint<E>(done: set<string>, x: string, edges: EdgeMap<E>)
    requires x !in done
    ensures EdgePairs(done, edges) * EdgesOf(x, edges) == {}
  {
    forall pair | pair in EdgesOf(x, edges)
      ensures pair !in EdgePairs(done, edges)
    {
    }
  }

  /** Counting the edges of one more from-vertex adds the size of its neighbour set. */
  lemma EdgePairsAddOne<E>(done: set<string>, x: string, edges: EdgeMap<E>)
    requires x !in done
    ensures |EdgePairs(done + {x}, edges)| == |EdgePairs(done, edges)| + |Successors(edges, x)|
  {
    EdgePairsSplit(done, x, edges);
    EdgePairsDisjoint(done, x, edges);
    TaggedCount(x, Successors(edges, x));
  }

  /** removeIf(size == 0) on the edge map. */
  function NonEmptyEdges<E>(edges: EdgeMap<E>): (r: EdgeMap<E>)
    ensures r.Keys <= edges.Keys
    ensures forall a :: a in r ==> r[a] == edges[a] && |r[a]| > 0
    ensures forall a :: a in edges && |edges[a]| > 0 ==> a in r
  {
    map a | a in edges && |edges[a]| > 0 :: edges[a]
  }

  /** removeIf on the vertex map: keeps the vertices that are keys of `edges`. */
  function VerticesWithEdges<V, E>(vertices: map<string, V>, edges: EdgeMap<E>, idOf: V -> string): (r: map<string, V>)
    ensures r.Keys <= vertices.Keys
    ensures forall k :: k in r <==> k in vertices && idOf(vertices[k]) in edges
    ensures forall k :: k in r ==> r[k] == vertices[k]
  {
    map k | k in vertices && idOf(vertices[k]) in edges :: vertices[k]
  }

  /** The edge map after putting edge e from f to t (the neighbour map of f is
      created when missing). */
  function WithEdge<E>(edges: EdgeMap<E>, f: string, t: string, e: E): (r: EdgeMap<E>)
    ensures r.Keys == edges.Keys + {f}
    ensures forall a, b :: HasEdge(r, a, b) <==> HasEdge(edges, a, b) || (a == f && b == t)
    ensures HasEdge(r, f, t) && r[f][t] == e
    ensures forall a, b :: HasEdge(edges, a, b) && (a != f || b != t) ==> HasEdge(r, a, b) && r[a][b] == edges[a][b]
  {
    edges[f := (if f in edges then edges[f] else map[])[t := e]]
  }

  /** A new edge between two stored vertices adds exactly one counted edge. */
  lemma WithEdgeCount<E>(ids: set<string>, edges: EdgeMap<E>, f: string, t: string, e: E)
    requires edges.Keys <= ids && f in ids && !HasEdge(edges, f, t)
    ensures |EdgePairs(ids, WithEdge(edges, f, t, e))| == |EdgePairs(ids, edges)| + 1
  {
    var after := EdgePairs(ids, WithEdge(edges, f, t, e));
    var before := EdgePairs(ids, edges);
    forall pair | pair in after
      ensures pair in before + {(f, t)}
    {
      if pair != (f, t) {
        assert HasEdge(edges, pair.0, pair.1);
      }
    }
    forall pair | pair in before + {(f, t)}
      ensures pair in after
    {
      if pair != (f, t) {
        assert HasEdge(WithEdge(edges, f, t, e), pair.0, pair.1);
      }
    }
    assert after == before + {(f, t)};
  }

  /** Storing the same two entries again leaves a map unchanged. */
  lemma UpdateAgain<K, W>(m: map<K, W>, a: K, x: W, b: K, y: W)
    requires a != b
    ensures m[a := x][b := y][b := y][a := x] == m[a := x][b := y]
  {
  }

  class DirectedGraph<V, E> {
    var vertices: map<string, V>
    var edges: EdgeMap<E>
    /** Identifiable.getId() */
    const idOf: V -> string

    /** Invariants 1 and 4 (from-vertex direction) of the representation:
        every vertex is stored under its own id, and every vertex with an
        edge map is stored. */
    ghost predicate Valid()
      reads this
    {
      (forall id :: id in vertices ==> idOf(vertices[id]) == id) &&
      edges.Keys <= vertices.Keys
    }

    /** Invariant 4 for the to-vertices: every edge ends at a stored vertex. */
    ghost predicate TargetsStored()
      reads this
    {
      forall a, b :: HasEdge(edges, a, b) ==> b in vertices
    }

    constructor (idOf: V -> string)
      ensures this.idOf == idOf && vertices == map[] && edges == map[]
      ensures Valid() && TargetsStored()
    {
      this.idOf := idOf;
      vertices := map[];
      edges := map[];
    }

    function GetVertexById(id: string): (r: Option<V>)
      reads this
      ensures r.Some? <==> id in vertices
      ensures r.Some? ==> r.value == vertices[id]
    {
      if id in vertices then Some(vertices[id]) else None
    }

    /** getNeighbours(V): null for a null vertex, else the ids its edges lead to. */
    function GetNeighbours(v: Option<V>): (r: Option<set<string>>)
      reads this
      ensures v.None? <==> r.None?
      ensures r.Some? ==> forall b :: b in r.value <==> HasEdge(edges, idOf(v.value), b)
    {
      match v
      case None => None
      case Some(x) => Some(Successors(edges, idOf(x)))
    }

    /** getEdges(V): null for a null vertex, else its outgoing edges, here
        kept with the ids they lead to; their ids are the neighbours. */
    function GetEdges(v: Option<V>): (r: Option<map<string, E>>)
      reads this
      ensures v.None? <==> r.None?
      ensures r.Some? ==> r.value.Keys == GetNeighbours(v).value
      ensures r.Some? ==> forall b :: b in r.value ==> r.value[b] == edges[idOf(v.value)][b]
    {
      match v
      case None => None
      case Some(x) => Some(if idOf(x) in edges then edges[idOf(x)] else map[])
    }

    function GetNumVertices(): (r: nat)
      reads this
      ensures r == |vertices.Keys|
    {
      |vertices|
    }

    /** addOrGetVertex: stores v unless a vertex with its id is already stored. */
    method AddOrGetVertex(v: V) returns (r: V)
      modifies this
      ensures idOf(v) in old(vertices) ==> r == old(vertices[idOf(v)]) && vertices == old(vertices)
      ensures idOf(v) !in old(vertices) ==> r == v && vertices == old(vertices)[idOf(v) := v]
      ensures edges == old(edges)
      ensures vertices[idOf(v)] == r
      ensures old(Valid()) ==> idOf(r) == idOf(v)
      ensures old(Valid()) ==> Valid()
      ensures old(TargetsStored()) ==> TargetsStored()
    {
      if idOf(v) !in vertices {
        vertices := vertices[idOf(v) := v];
        return v;
      }
      assert old(Valid()) ==> idOf(vertices[idOf(v)]) == idOf(v);
      r := vertices[idOf(v)];
    }

    /** addEdge(V, V, E): adds an edge between two (possibly new) vertices;
        false with no change for a null endpoint or an existing edge. */
    method AddEdge(from: Option<V>, to: Option<V>, newEdge: E) returns (added: bool)
      requires Valid()
      modifies this
      ensures added <==> from.Some? && to.Some? && !HasEdge(old(edges), idOf(from.value), idOf(to.value))
      ensures !added ==> vertices == old(vertices) && edges == old(edges)
      ensures added ==> edges == WithEdge(old(edges), idOf(from.value), idOf(to.value), newEdge)
      ensures added ==> vertices == old(vertices)[idOf(from.value) := from.value][idOf(to.value) := to.value]
      ensures added ==> |EdgePairs(vertices.Keys, edges)| == |EdgePairs(old(vertices).Keys, old(edges))| + 1
      ensures Valid()
      ensures old(TargetsStored()) ==> TargetsStored()
    {
      if to.None? || from.None? || idOf(to.value) in GetNeighbours(from).value {
        return false;
      }
      var f, t := idOf(from.value), idOf(to.value);
      var neighbourVertexMap: map<string, E> := map[];
      if f in edges {
        neighbourVertexMap := edges[f];
      }
      neighbourVertexMap := neighbourVertexMap[t := newEdge];
      WithEdgeCount(vertices.Keys + {f, t}, edges, f, t, newEdge);
      assert EdgePairs(vertices.Keys + {f, t}, edges) == EdgePairs(vertices.Keys, edges);
      vertices := vertices[f := from.value];
      vertices := vertices[t := to.value];
      edges := edges[f := neighbourVertexMap];
      assert vertices.Keys == old(vertices).Keys + {f, t};
      return true;
    }

    /** addEdge(String, String, E): adds an edge between two stored vertices;
        false with no change for an unknown id or an existing edge. */
    method AddEdgeById(fromId: string, toId: string, newEdge: E) returns (added: bool)
      requires Valid()
      modifies this
      ensures added <==> fromId in vertices && toId in vertices && !HasEdge(old(edges), fromId, toId)
      ensures vertices == old(vertices)
      ensures !added ==> edges == old(edges)
      ensures added ==> edges == WithEdge(old(edges), fromId, toId, newEdge)
      ensures added ==> |EdgePairs(vertices.Keys, edges)| == |EdgePairs(vertices.Keys, old(edges))| + 1
      ensures Valid()
      ensures old(TargetsStored()) ==> TargetsStored()
    {
      if GetVertexById(toId).None? || GetVertexById(fromId).None? ||
         idOf(GetVertexById(toId).value) in GetNeighbours(GetVertexById(fromId)).value {
        return false;
      }
      var neighbourVertexMap: map<string, E> := map[];
      if idOf(vertices[fromId]) in edges {
        neighbourVertexMap := edges[idOf(vertices[fromId])];
      }
      neighbourVertexMap := neighbourVertexMap[idOf(vertices[toId]) := newEdge];
      WithEdgeCount(vertices.Keys, edges, fromId, toId, newEdge);
      edges := edges[idOf(vertices[fromId]) := neighbourVertexMap];
      return true;
    }

    /** addConnection(V, V, E): the edge v1 -> v2, and only if that succeeded, v2 -> v1. */
    method AddConnection(v1: Option<V>, v2: Option<V>, newEdge: E) returns (added: bool)
      requires Valid()
      modifies this
      ensures added <==> v1.Some? && v2.Some? && idOf(v1.value) != idOf(v2.value) &&
                         !HasEdge(old(edges), idOf(v1.value), idOf(v2.value)) &&
                         !HasEdge(old(edges), idOf(v2.value), idOf(v1.value))
      ensures added ==> HasEdge(edges, idOf(v1.value), idOf(v2.value)) && HasEdge(edges, idOf(v2.value), idOf(v1.value))
      ensures v1.Some? && v2.Some? && !HasEdge(old(edges), idOf(v1.value), idOf(v2.value)) ==>
                HasEdge(edges, idOf(v1.value), idOf(v2.value))
      ensures added ==> edges == WithEdge(WithEdge(old(edges), idOf(v1.value), idOf(v2.value), newEdge),
                                          idOf(v2.value), idOf(v1.value), newEdge)
      ensures v1.Some? && v2.Some? && !HasEdge(old(edges), idOf(v1.value), idOf(v2.value)) && !added ==>
                edges == WithEdge(old(edges), idOf(v1.value), idOf(v2.value), newEdge)
      ensures v1.Some? && v2.Some? && !HasEdge(old(edges), idOf(v1.value), idOf(v2.value)) ==>
                vertices == old(vertices)[idOf(v1.value) := v1.value][idOf(v2.value) := v2.value]
      ensures v1.None? || v2.None? || HasEdge(old(edges), idOf(v1.value), idOf(v2.value)) ==>
                edges == old(edges) && vertices == old(vertices)
      ensures Valid()
      ensures old(TargetsStored()) ==> TargetsStored()
    {
      added := AddEdge(v1, v2, newEdge);
      if added {
        ghost var a, b := idOf(v1.value), idOf(v2.value);
        if a != b {
          UpdateAgain(old(vertices), a, v1.value, b, v2.value);
        }
        added := AddEdge(v2, v1, newEdge);
      }
    }

    /** addConnection(String, String, E) */
    method AddConnectionById(id1: string, id2: string, newEdge: E) returns (added: bool)
      requires Valid()
      modifies this
      ensures added <==> id1 in vertices && id2 in vertices && id1 != id2 &&
                         !HasEdge(old(edges), id1, id2) && !HasEdge(old(edges), id2, id1)
      ensures added ==> HasEdge(edges, id1, id2) && HasEdge(edges, id2, id1)
      ensures added ==> edges == WithEdge(WithEdge(old(edges), id1, id2, newEdge), id2, id1, newEdge)
      ensures id1 in vertices && id2 in vertices && !HasEdge(old(edges), id1, id2) && !added ==>
                edges == WithEdge(old(edges), id1, id2, newEdge)
      ensures !(id1 in vertices && id2 in vertices && !HasEdge(old(edges), id1, id2)) ==> edges == old(edges)
      ensures id1 in vertices && id2 in vertices && !HasEdge(old(edges), id1, id2) ==> HasEdge(edges, id1, id2)
      ensures vertices == old(vertices)
      ensures Valid()
      ensures old(TargetsStored()) ==> TargetsStored()
    {
      added := AddEdgeById(id1, id2, newEdge);
      if added {
        added := AddEdgeById(id2, id1, newEdge);
      }
    }

    /** getEdge(V, V): null for a null vertex; the source dereferences the
        neighbour map of `from` without checking that it exists. */
    function GetEdge(from: Option<V>, to: Option<V>): (r: Option<E>)
      reads this
      requires from.None? || to.None? || idOf(from.value) in edges
      ensures r.Some? <==> from.Some? && to.Some? && HasEdge(edges, idOf(from.value), idOf(to.value))
      ensures r.Some? ==> r.value == edges[idOf(from.value)][idOf(to.value)]
    {
      if from.None? || to.None? then None
      else if idOf(to.value) in edges[idOf(from.value)] then Some(edges[idOf(from.value)][idOf(to.value)])
      else None
    }

    /** getEdge(String, String) */
    function GetEdgeById(fromId: string, toId: string): (r: Option<E>)
      reads this
      requires Valid()
      requires fromId !in vertices || toId !in vertices || fromId in edges
      ensures r.Some? <==> fromId in vertices && toId in vertices && HasEdge(edges, fromId, toId)
      ensures r.Some? ==> r.value == edges[fromId][toId]
    {
      GetEdge(GetVertexById(fromId), GetVertexById(toId))
    }

    /** getNumEdges: sums the neighbour counts of all stored vertices. */
    method GetNumEdges() returns (counter: nat)
      requires Valid()
      ensures counter == |EdgePairs(vertices.Keys, edges)|
    {
      counter := 0;
      var remaining := vertices.Keys;
      ghost var done: set<string> := {};
      while remaining != {}
        invariant remaining + done == vertices.Keys && remaining * done == {}
        invariant counter == |EdgePairs(done, edges)|
        decreases remaining
      {
        var id :| id in remaining;
        counter := counter + |GetNeighbours(GetVertexById(id)).value|;
        EdgePairsAddOne(done, id, edges);
        done := done + {id};
        remaining := remaining - {id};
      }
    }

    /** removeUnconnectedVertices: drops empty neighbour maps, then every
        vertex without a neighbour map. */
    method RemoveUnconnectedVertices()
      requires Valid()
      modifies this
      ensures edges == NonEmptyEdges(old(edges))
      ensures vertices == VerticesWithEdges(old(vertices), edges, idOf)
      ensures Valid()
      ensures forall id :: id in vertices ==> Successors(edges, id) != {}
      ensures forall id :: id in vertices ==> Successors(edges, id) == Successors(old(edges), id)
      ensures forall id :: id in old(vertices) ==> (id in vertices <==> Successors(old(edges), id) != {})
    {
      edges := NonEmptyEdges(edges);
      vertices := VerticesWithEdges(vertices, edges, idOf);
      forall id | id in old(vertices) && Successors(old(edges), id) != {}
        ensures id in vertices
      {
        var b :| b in Successors(old(edges), id);
        assert |old(edges)[id]| > 0;
      }
    }

    /** Every id the graph mentions, as a stored vertex or as an edge end. */
    function Known(): (r: set<string>)
      reads this
      ensures vertices.Keys <= r
      ensures forall a, b :: HasEdge(edges, a, b) ==> b in r
    {
      vertices.Keys + EdgeIds(edges)
    }

    /** depthFirstSearch: null for an unknown id, otherwise the outcome of
        the recursion from the start vertex with an empty visited set. */
    method DepthFirstSearch(startId: string, targetId: string) returns (r: Option<Path>)
      requires Valid()
      ensures startId !in vertices || targetId !in vertices ==> r.None?
      ensures startId == targetId && startId in vertices ==> r == Some(Path([startId], 0, {startId}))
      ensures r.Some? ==> PathFromTo(edges, r.value.vertices, startId, targetId) && NoRepeats(r.value.vertices)
      ensures r.Some? ==> r.value.visited == (set v | v in r.value.vertices) && r.value.totalWeight == 0
      ensures startId in vertices && targetId in vertices ==> (r.Some? <==> Reachable(edges, startId, targetId))
    {
      var start := GetVertexById(startId);
      var target := GetVertexById(targetId);
      if start.None? || target.None? {
        return None;
      }
      var visited;
      r, visited := DepthFirstSearchRecursion(idOf(start.value), idOf(target.value), {});
      if r.None? {
        ClosedSetBlocksReach(edges, visited, startId, targetId);
      }
    }

    /**
     * depthFirstSearchRecursion: the shared visited set is threaded through
     * as an argument and a result. A vertex already visited yields null; the
     * target yields a one-vertex path; otherwise the neighbours are tried in
     * an unspecified order and the first path found is extended at the front.
     * Only the vertices of the returned path are registered in its visited set.
     */
    method DepthFirstSearchRecursion(current: string, target: string, visited: set<string>)
      returns (r: Option<Path>, visitedOut: set<string>)
      requires current in Known()
      ensures visited + {current} <= visitedOut
      ensures current in visited ==> r.None? && visitedOut == visited
      ensures current == target && current !in visited ==> r == Some(Path([current], 0, {current}))
      ensures r.Some? ==> PathFromTo(edges, r.value.vertices, current, target) && NoRepeats(r.value.vertices)
      ensures r.Some? ==> forall v :: v in r.value.vertices ==> v in visitedOut - visited
      ensures r.Some? ==> r.value.visited == (set v | v in r.value.vertices) && r.value.totalWeight == 0
      ensures r.None? ==> target !in visitedOut - visited
      ensures r.None? ==> forall a, b :: a in visitedOut - visited && HasEdge(edges, a, b) ==> b in visitedOut
      decreases Known() - visited
    {
      if current in visited {
        return None, visited;
      }
      visitedOut := visited + {current};
      if current == target {
        return Some(Path([current], 0, {current})), visitedOut;
      }
      var remaining := Successors(edges, current);
      while remaining != {}
        invariant remaining <= Successors(edges, current)
        invariant visited + {current} <= visitedOut
        invariant forall b :: b in Successors(edges, current) - remaining ==> b in visitedOut
        invariant target !in visitedOut - visited
        invariant forall a, b :: a in visitedOut - visited && a != current && HasEdge(edges, a, b) ==> b in visitedOut
        decreases remaining
      {
        var neighbour :| neighbour in remaining;
        assert current in Known() - visited && current !in Known() - visitedOut;
        ghost var before := visitedOut;
        var path;
        path, visitedOut := DepthFirstSearchRecursion(neighbour, target, visitedOut);
        if path.Some? {
          PrependStep(edges, current, neighbour, target, path.value.vertices, visited, before, visitedOut);
          return Some(Path([current] + path.value.vertices, 0, path.value.visited + {current})), visitedOut;
        }
        remaining := remaining - {neighbour};
      }
      return None, visitedOut;
    }

    /**
     * breadthFirstSearch: null for an unknown id, a one-vertex path when
     * start and target coincide; otherwise a FIFO search that records for
     * each discovered vertex the vertex it was discovered from, and stops as
     * soon as the target is seen as a neighbour, walking the recorded
     * predecessors back to the start. The target itself is never registered
     * as visited.
     */
    method BreadthFirstSearch(startId: string, targetId: string) returns (r: Option<Path>)
      requires Valid()
      ensures startId !in vertices || targetId !in vertices ==> r.None?
      ensures startId == targetId && startId in vertices ==> r == Some(Path([startId], 0, {startId}))
      ensures r.Some? ==> PathFromTo(edges, r.value.vertices, startId, targetId) && r.value.totalWeight == 0
      ensures r.Some? ==> forall q :: PathFromTo(edges, q, startId, targetId) ==> |r.value.vertices| <= |q|
      ensures r.Some? ==> startId in r.value.visited &&
                          forall i :: 0 <= i < |r.value.vertices| - 1 ==> r.value.vertices[i] in r.value.visited
      ensures r.Some? && startId != targetId ==> targetId !in r.value.visited
      ensures startId in vertices && targetId in vertices ==> (r.Some? <==> Reachable(edges, startId, targetId))
    {
      var start := GetVertexById(startId);
      var target := GetVertexById(targetId);
      if start.None? || target.None? {
        return None;
      }
      var s := idOf(start.value);
      var t := idOf(target.value);
      var visited := {s};
      if s == t {
        assert PathFromTo(edges, [t], s, t);
        return Some(Path([t], 0, visited));
      }
      var visitedFrom: map<string, Option<string>> := map[s := None];
      var queue: seq<string> := [];
      var current: Option<string> := Some(s);
      ghost var dist: map<string, nat> := map[s := 0];
      ghost var processed: set<string> := {};
      while current.Some?
        invariant PredecessorTree(edges, s, visitedFrom, dist)
        invariant t !in dist && visited == dist.Keys && dist.Keys <= Known()
        invariant current.Some? ==> Frontier(edges, dist, processed, current.value, queue)
        invariant current.None? ==> dist.Keys == processed && ClosedUnder(edges, processed)
        decreases Known() - processed
      {
        var c := current.value;
        r, visitedFrom, visited, queue, dist := VisitNeighbours(s, t, c, visitedFrom, visited, queue, dist, processed);
        if r.Some? {
          return r;
        }
        Advance(edges, dist, processed, c, queue);
        processed := processed + {c};
        if |queue| == 0 {
          current := None;
        } else {
          current := Some(queue[0]);
          queue := queue[1..];
        }
      }
      ClosedSetBlocksReach(edges, processed, s, t);
      return None;
    }

    /** The body of the outer loop of breadthFirstSearch for the polled
        vertex c: its neighbours in an unspecified order, returning the path
        as soon as one of them is the target, and otherwise discovering each
        one not seen before. */
    method VisitNeighbours(s: string, t: string, c: string, visitedFrom: map<string, Option<string>>,
                           visited: set<string>, queue: seq<string>,
                           ghost dist: map<string, nat>, ghost processed: set<string>)
      returns (r: Option<Path>, visitedFrom': map<string, Option<string>>, visited': set<string>,
               queue': seq<string>, ghost dist': map<string, nat>)
      requires PredecessorTree(edges, s, visitedFrom, dist)
      requires t !in dist && visited == dist.Keys && dist.Keys <= Known()
      requires Frontier(edges, dist, processed, c, queue)
      ensures r.Some? ==> PathFromTo(edges, r.value.vertices, s, t) && r.value.totalWeight == 0
      ensures r.Some? ==> forall q :: PathFromTo(edges, q, s, t) ==> |r.value.vertices| <= |q|
      ensures r.Some? ==> s in r.value.visited && t !in r.value.visited &&
                          forall i :: 0 <= i < |r.value.vertices| - 1 ==> r.value.vertices[i] in r.value.visited
      ensures r.None? ==> PredecessorTree(edges, s, visitedFrom', dist') && Frontier(edges, dist', processed, c, queue')
      ensures r.None? ==> t !in dist' && visited' == dist'.Keys && dist'.Keys <= Known()
      ensures r.None? ==> forall w :: HasEdge(edges, c, w) ==> w in dist' && dist'[w] <= dist'[c] + 1
    {
      visitedFrom', visited', queue', dist' := visitedFrom, visited, queue, dist;
      ghost var d := dist[c];
      var remaining := Successors(edges, c);
      while remaining != {}
        invariant Scanning(edges, Known(), s, t, c, d, visitedFrom', visited', queue', dist', processed, remaining)
        decreases remaining
      {
        var neighbour :| neighbour in remaining;
        if neighbour == t {
          r := ReportPath(s, t, c, visitedFrom', visited', dist', processed);
          return;
        } else if neighbour !in visitedFrom' {
          DiscoverStep(edges, Known(), s, t, c, d, visitedFrom', visited', queue', dist', processed, remaining, neighbour);
          visitedFrom' := visitedFrom'[neighbour := Some(c)];
          dist' := dist'[neighbour := d + 1];
          visited' := visited' + {neighbour};
          queue' := queue' + [neighbour];
        } else {
          SkipStep(edges, Known(), s, t, c, d, visitedFrom', visited', queue', dist', processed, remaining, neighbour);
        }
        remaining := remaining - {neighbour};
      }
      r := None;
    }

    /** The target seen from c: the path walked back from c is a shortest
        one, since no path of fewer edges reaches the undiscovered target. */
    method ReportPath(s: string, t: string, c: string, visitedFrom: map<string, Option<string>>,
                      visited: set<string>, ghost dist: map<string, nat>, ghost processed: set<string>)
      returns (r: Option<Path>)
      requires PredecessorTree(edges, s, visitedFrom, dist) && visited == dist.Keys
      requires c in dist && ExploredUpTo(edges, dist, processed, dist[c])
      requires HasEdge(edges, c, t) && t !in dist
      ensures r.Some? && PathFromTo(edges, r.value.vertices, s, t) && r.value.totalWeight == 0
      ensures forall q :: PathFromTo(edges, q, s, t) ==> |r.value.vertices| <= |q|
      ensures s in r.value.visited && t !in r.value.visited &&
              forall i :: 0 <= i < |r.value.vertices| - 1 ==> r.value.vertices[i] in r.value.visited
    {
      r := BackWalk(s, t, c, visitedFrom, visited, dist);
      NoPathWithin(edges, s, t, dist, processed, dist[c]);
    }

    /** The final loop of breadthFirstSearch: the path is the target preceded
        by the predecessors recorded from c back to the start; each vertex on
        the way is (again) added to the visited set. */
    method BackWalk(s: string, t: string, c: string, visitedFrom: map<string, Option<string>>,
                    visited: set<string>, ghost dist: map<string, nat>)
      returns (r: Option<Path>)
      requires PredecessorTree(edges, s, visitedFrom, dist) && visited == dist.Keys
      requires c in dist && HasEdge(edges, c, t) && t !in dist
      ensures r.Some? && PathFromTo(edges, r.value.vertices, s, t) && r.value.totalWeight == 0
      ensures |r.value.vertices| == dist[c] + 2 && r.value.visited == visited
      ensures forall i :: 0 <= i < |r.value.vertices| - 1 ==> r.value.vertices[i] in visited
    {
      var verts := [t];
      var seen := visited;
      var cur: Option<string> := Some(c);
      while cur.Some?
        invariant IsPath(edges, verts) && verts[|verts| - 1] == t && seen == visited
        invariant forall i :: 0 <= i < |verts| - 1 ==> verts[i] in dist
        invariant cur.Some? ==> cur.value in dist && HasEdge(edges, cur.value, verts[0]) &&
                                |verts| + dist[cur.value] == dist[c] + 1
        invariant cur.None? ==> verts[0] == s && |verts| == dist[c] + 2
        decreases if cur.Some? then dist[cur.value] + 1 else 0
      {
        var u := cur.value;
        PrependEdge(edges, u, verts);
        verts := [u] + verts;
        seen := seen + {u};
        cur := visitedFrom[u];
      }
      return Some(Path(verts, 0, seen));
    }

    /** The progress map of dijkstraShortestPath is a tree of edges rooted at
        s: each node is stored under its vertex, only the start has no
        from-vertex, and a node's weight is at least its from-vertex's weight
        plus the weight of the edge between them. */
    ghost predicate DspTree(s: string, pd: map<string, DspNode>, weight: E -> nat)
      reads this
    {
      s in pd &&
      (forall v :: v in pd ==> pd[v].vertex == v) &&
      (forall v :: v in pd && pd[v].fromVertex.None? ==> v == s) &&
      (forall v, u :: v in pd && pd[v].fromVertex == Some(u) ==>
         u in pd && HasEdge(edges, u, v) && pd[u].weightSumTo + weight(edges[u][v]) <= pd[v].weightSumTo)
    }

    /** The invariant of the outer loop of dijkstraShortestPath: the visited
        ids are those with a node, every marked node has had all its
        neighbours given a node, and the target is never marked. */
    ghost predicate DspSearching(s: string, t: string, pd: map<string, DspNode>, visited: set<string>,
                                 weight: E -> nat)
      reads this
    {
      DspTree(s, pd, weight) && visited == pd.Keys && pd.Keys <= vertices.Keys &&
      (forall v :: v in pd && pd[v].marked ==> Successors(edges, v) <= pd.Keys) &&
      (t in pd ==> !pd[t].marked)
    }

    /** Marking a node changes no vertex, link or weight. */
    lemma MarkKeepsTree(s: string, pd: map<string, DspNode>, weight: E -> nat, c: string)
      requires DspTree(s, pd, weight) && c in pd
      ensures DspTree(s, pd[c := pd[c].(marked := true)], weight)
    {
      var pd' := pd[c := pd[c].(marked := true)];
      forall v, u | v in pd' && pd'[v].fromVertex == Some(u)
        ensures u in pd' && HasEdge(edges, u, v) && pd'[u].weightSumTo + weight(edges[u][v]) <= pd'[v].weightSumTo
      {
        assert pd[v].fromVertex == Some(u);
      }
    }

    /** With every node marked and the target never marked, the ids with a
        node are closed under the edges and exclude the target. */
    lemma AllMarkedBlocksReach(s: string, t: string, pd: map<string, DspNode>, weight: E -> nat)
      requires DspTree(s, pd, weight)
      requires forall v :: v in pd && pd[v].marked ==> Successors(edges, v) <= pd.Keys
      requires t in pd ==> !pd[t].marked
      requires !exists v :: v in pd && !pd[v].marked
      ensures !Reachable(edges, s, t)
    {
      assert ClosedUnder(edges, pd.Keys) by {
        forall a, b | a in pd.Keys && HasEdge(edges, a, b)
          ensures b in pd.Keys
        {
          assert b in Successors(edges, a);
        }
      }
      ClosedSetBlocksReach(edges, pd.Keys, s, t);
    }

    /**
     * dijkstraShortestPath: null for an unknown id, a one-vertex path when
     * start and target coincide; otherwise nodes are marked one at a time,
     * stopping at the target, and each marked node relaxes the nodes of its
     * neighbours. The next node to mark is any unmarked node: the source's
     * selection loop never lowers its bound, so it does not pick the lightest
     * one. When no unmarked node is left the result is null. `weight` is the
     * weight mapper; `fuel` bounds the number of nodes marked and the length
     * of the walk back, since with zero-weight cycles the source need not stop.
     */
    method DijkstraShortestPath(startId: string, targetId: string, weight: E -> nat, fuel: nat)
      returns (r: DspOutcome)
      requires Valid() && TargetsStored()
      ensures startId !in vertices || targetId !in vertices ==> r == NoPath
      ensures startId == targetId && startId in vertices ==> r == Found(Path([startId], 0, {startId}))
      ensures r.Found? ==> PathFromTo(edges, r.path.vertices, startId, targetId) &&
                           PathWeight(edges, r.path.vertices, weight) <= r.path.totalWeight
      ensures r.Found? ==> startId in r.path.visited && r.path.visited <= vertices.Keys &&
                           forall v :: v in r.path.vertices ==> v in r.path.visited
      ensures r.NoPath? && startId in vertices && targetId in vertices ==> !Reachable(edges, startId, targetId)
    {
      var start := GetVertexById(startId);
      var target := GetVertexById(targetId);
      if start.None? || target.None? {
        return NoPath;
      }
      var s := idOf(start.value);
      var t := idOf(target.value);
      var visited := {s};
      if s == t {
        assert PathFromTo(edges, [s], s, t);
        return Found(Path([s], 0, visited));
      }
      var node := DspNode(s, None, false, 0);
      var progressData := map[s := node];
      var steps := fuel;
      while steps > 0
        invariant DspSearching(s, t, progressData, visited, weight)
        invariant node.vertex in progressData && progressData[node.vertex] == node && !node.marked
        decreases steps
      {
        MarkKeepsTree(s, progressData, weight, node.vertex);
        node := node.(marked := true);
        progressData := progressData[node.vertex := node];
        if node.vertex == t {
          r := DspBackWalk(s, t, progressData, node.weightSumTo, visited, weight, fuel);
          return;
        }
        progressData, visited := Relax(s, t, node, progressData, visited, weight);
        if exists v :: v in progressData && !progressData[v].marked {
          var v :| v in progressData && !progressData[v].marked;
          node := progressData[v];
        } else {
          AllMarkedBlocksReach(s, t, progressData, weight);
          return NoPath;
        }
        steps := steps - 1;
      }
      return OutOfFuel;
    }

    /** The neighbour loop of dijkstraShortestPath for the marked node: each
        neighbour is registered as visited, and its node is replaced by one
        reached from the marked vertex unless it already has a strictly
        lighter one. */
    method Relax(s: string, t: string, node: DspNode, pd: map<string, DspNode>, visited: set<string>,
                 weight: E -> nat)
      returns (pd': map<string, DspNode>, visited': set<string>)
      requires Valid() && TargetsStored()
      requires DspTree(s, pd, weight) && visited == pd.Keys && pd.Keys <= vertices.Keys
      requires node.vertex in pd && pd[node.vertex] == node && node.marked && node.vertex != t
      requires forall v :: v in pd && pd[v].marked && v != node.vertex ==> Successors(edges, v) <= pd.Keys
      requires t in pd ==> !pd[t].marked
      ensures DspTree(s, pd', weight) && visited' == pd'.Keys && pd.Keys <= pd'.Keys <= vertices.Keys
      ensures forall v :: v in pd' && pd'[v].marked ==> Successors(edges, v) <= pd'.Keys
      ensures t in pd' ==> !pd'[t].marked
    {
      pd', visited' := pd, visited;
      var c := node.vertex;
      var remaining := Successors(edges, c);
      while remaining != {}
        invariant Relaxing(s, t, node, pd, pd', visited', remaining, weight)
        decreases remaining
      {
        var n :| n in remaining;
        ghost var before := visited';
        visited' := visited' + {n};
        var e := GetEdgeById(c, n);
        var candidate := DspNode(n, Some(c), false, node.weightSumTo + weight(e.value));
        RelaxStep(s, t, node, pd, pd', before, remaining, weight, n, candidate);
        if (if n in pd' then pd'[n] else candidate).weightSumTo >= candidate.weightSumTo {
          pd' := pd'[n := candidate];
        }
        remaining := remaining - {n};
      }
    }

    /** The invariant of the neighbour loop of dijkstraShortestPath, with the
        neighbours in `remaining` still to be relaxed. */
    ghost predicate Relaxing(s: string, t: string, node: DspNode, pd: map<string, DspNode>, pd': map<string, DspNode>,
                             visited': set<string>, remaining: set<string>, weight: E -> nat)
      reads this
    {
      DspTree(s, pd', weight) && visited' == pd'.Keys && pd.Keys <= pd'.Keys <= vertices.Keys &&
      node.vertex in pd' && pd'[node.vertex].weightSumTo <= node.weightSumTo &&
      remaining <= Successors(edges, node.vertex) && Successors(edges, node.vertex) - remaining <= pd'.Keys &&
      (forall v :: v in pd' && pd'[v].marked && v != node.vertex ==> Successors(edges, v) <= pd'.Keys) &&
      (t in pd' ==> !pd'[t].marked)
    }

    /** Relaxing one neighbour n keeps the invariant whether or not its node
        is replaced by `candidate`, the node reached from the marked vertex. */
    lemma RelaxStep(s: string, t: string, node: DspNode, pd: map<string, DspNode>, pd': map<string, DspNode>,
                    visited: set<string>, remaining: set<string>, weight: E -> nat, n: string, candidate: DspNode)
      requires TargetsStored() && Relaxing(s, t, node, pd, pd', visited, remaining, weight)
      requires node.vertex != t && n in remaining
      requires candidate == DspNode(n, Some(node.vertex), false, node.weightSumTo + weight(edges[node.vertex][n]))
      ensures (if n in pd' then pd'[n] else candidate).weightSumTo >= candidate.weightSumTo ==>
                Relaxing(s, t, node, pd, pd'[n := candidate], visited + {n}, remaining - {n}, weight)
      ensures (if n in pd' then pd'[n] else candidate).weightSumTo < candidate.weightSumTo ==>
                Relaxing(s, t, node, pd, pd', visited + {n}, remaining - {n}, weight)
    {
      var c := node.vertex;
      assert HasEdge(edges, c, n);
      if (if n in pd' then pd'[n] else candidate).weightSumTo >= candidate.weightSumTo {
        ReplaceKeepsTree(s, pd', weight, c, candidate);
      } else {
        assert n in pd';
      }
    }

    /** Storing a node reached from c by an edge keeps the tree, provided it
        is no heavier than the node it replaces and, on a loop at c, that the
        edge is weightless. */
    lemma ReplaceKeepsTree(s: string, pd: map<string, DspNode>, weight: E -> nat, c: string, candidate: DspNode)
      requires DspTree(s, pd, weight) && c in pd && HasEdge(edges, c, candidate.vertex)
      requires candidate.fromVertex == Some(c)
      requires candidate.vertex in pd ==> candidate.weightSumTo <= pd[candidate.vertex].weightSumTo
      requires (if candidate.vertex == c then candidate else pd[c]).weightSumTo + weight(edges[c][candidate.vertex])
               <= candidate.weightSumTo
      ensures DspTree(s, pd[candidate.vertex := candidate], weight)
    {
      var pd' := pd[candidate.vertex := candidate];
      forall v, u | v in pd' && pd'[v].fromVertex == Some(u)
        ensures u in pd' && HasEdge(edges, u, v) && pd'[u].weightSumTo + weight(edges[u][v]) <= pd'[v].weightSumTo
      {
        if v != candidate.vertex {
          assert pd[v].fromVertex == Some(u);
        }
      }
    }

    /** The walk back of dijkstraShortestPath from the marked target along
        the recorded from-vertices; the reported weight is the target's. */
    method DspBackWalk(s: string, t: string, pd: map<string, DspNode>, total: nat, visited: set<string>,
                       weight: E -> nat, fuel: nat)
      returns (r: DspOutcome)
      requires DspTree(s, pd, weight) && t in pd && pd[t].weightSumTo <= total && visited == pd.Keys
      ensures r.Found? || r.OutOfFuel?
      ensures r.Found? ==> PathFromTo(edges, r.path.vertices, s, t) &&
                           PathWeight(edges, r.path.vertices, weight) <= r.path.totalWeight
      ensures r.Found? ==> r.path.totalWeight == total && r.path.visited == visited &&
                           forall v :: v in r.path.vertices ==> v in visited
    {
      var verts: seq<string> := [];
      var cur: Option<string> := Some(t);
      var budget := fuel;
      while cur.Some?
        invariant cur.Some? ==> cur.value in pd
        invariant verts == [] ==> cur == Some(t)
        invariant verts != [] ==> IsPath(edges, verts) && verts[|verts| - 1] == t &&
                                  (forall i :: 0 <= i < |verts| ==> verts[i] in pd) &&
                                  cur == pd[verts[0]].fromVertex &&
                                  PathWeight(edges, verts, weight) + pd[verts[0]].weightSumTo <= total
        decreases budget
      {
        if budget == 0 {
          return OutOfFuel;
        }
        budget := budget - 1;
        var u := cur.value;
        if verts != [] {
          PrependEdge(edges, u, verts);
          assert ([u] + verts)[1..] == verts;
        }
        verts := [u] + verts;
        cur := pd[u].fromVertex;
      }
      return Found(Path(verts, total, visited));
    }
  }

  /** removeUnconnectedVertices drops vertices that only have incoming edges,
      so the edges into them are left pointing at no stored vertex. */
  lemma RemovalLeavesDanglingEdges()
    ensures var edges := NonEmptyEdges(map["a" := map["b" := 1]]);
            var vertices := VerticesWithEdges(map["a" := "a", "b" := "b"], edges, (v: string) => v);
            HasEdge(edges, "a", "b") && "b" !in vertices
  {
    var edges := NonEmptyEdges(map["a" := map["b" := 1]]);
    assert "a" in edges && "b" !in edges;
  }
}
