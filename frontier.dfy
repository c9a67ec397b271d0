/** The invariant shared by the breadth-first and the depth-first traversal
    (projects/graph/graph.py, bft and dft): both keep a frontier of vertices
    still to look at, a visited set and the sequence of printed vertices, and
    differ only in which end of the frontier they take the next vertex from. */
module Frontier {
  import opened Paths

  /** The vertex printed at position i is an out-neighbour of a vertex printed before it. */
  ghost predicate HasEarlierParent<V(!new)>(g: map<V, set<V>>, order: seq<V>, i: int)
    requires 0 <= i < |order|
  {
    exists j :: 0 <= j < i && Edge(g, order[j], order[i])
  }

  /** Every printed vertex after the first has an in-neighbour printed before it. */
  ghost predicate HasEarlierParents<V(!new)>(g: map<V, set<V>>, order: seq<V>)
  {
    forall i :: 0 < i < |order| ==> HasEarlierParent(g, order, i)
  }

  /** The printed sequence: start first, each vertex once, exactly the
      visited set, all reachable, each printed after one of its in-neighbours. */
  ghost predicate PrintedOk<V(!new)>(g: map<V, set<V>>, start: V, visited: set<V>, order: seq<V>)
  {
    && visited <= g.Keys
    && (forall v :: v in visited <==> v in order)
    && Distinct(order)
    && (order != [] ==> order[0] == start)
    && (forall v :: v in order ==> Reachable(g, start, v))
    && HasEarlierParents(g, order)
  }

  /** Every frontier vertex is a reachable vertex and, once something has been
      printed, an out-neighbour of a printed vertex. */
  ghost predicate FrontierOk<V(!new)>(g: map<V, set<V>>, start: V, frontier: seq<V>, order: seq<V>)
  {
    && (forall v :: v in frontier ==> v in g && Reachable(g, start, v))
    && (forall v :: v in frontier && order != [] ==> exists j :: 0 <= j < |order| && Edge(g, order[j], v))
  }

  /** Every out-neighbour of a visited vertex is visited, on the frontier, or
      still pending. */
  ghost predicate NeighboursCovered<V(!new)>(g: map<V, set<V>>, frontier: seq<V>, visited: set<V>,
                                              from: V, pending: set<V>)
  {
    forall u, v :: u in visited && Edge(g, u, v) ==> v in visited || v in frontier || (u == from && v in pending)
  }

  /** The state of a traversal from start.  While the neighbours of the vertex
      `from` are being pushed, `pending` holds those not yet pushed; between
      vertices it is empty. */
  ghost predicate TraversalState<V(!new)>(g: map<V, set<V>>, start: V, frontier: seq<V>,
                                          visited: set<V>, order: seq<V>, from: V, pending: set<V>)
  {
    && PrintedOk(g, start, visited, order)
    && FrontierOk(g, start, frontier, order)
    && NeighboursCovered(g, frontier, visited, from, pending)
    && (order == [] ==> frontier == [start] && pending == {})
    && (order != [] ==> from == Last(order))
    && (forall v :: v in pending ==> Edge(g, from, v))
  }

  lemma Start<V(!new)>(g: map<V, set<V>>, start: V)
    requires start in g
    ensures TraversalState(g, start, [start], {}, [], start, {})
  {
    assert IsPathFromTo(g, [start], start, start);
  }

  /** Removing the element at k leaves every other element in place. */
  lemma RemoveAt<V>(s: seq<V>, k: nat)
    requires k < |s|
    ensures forall v :: v in s[..k] + s[k + 1..] ==> v in s
    ensures forall v :: v in s ==> v in s[..k] + s[k + 1..] || v == s[k]
  {
    var rest := s[..k] + s[k + 1..];
    forall v | v in s && v != s[k]
      ensures v in rest
    {
      var i :| 0 <= i < |s| && s[i] == v;
      if i < k {
        assert rest[i] == v;
      } else {
        assert rest[i - 1] == v;
      }
    }
    forall v | v in rest
      ensures v in s
    {
      var i :| 0 <= i < |rest| && rest[i] == v;
      if i < k {
        assert s[i] == v;
      } else {
        assert s[i + 1] == v;
      }
    }
  }

  /** Taking an already visited vertex cur off the frontier keeps the state. */
  lemma DropVisited<V(!new)>(g: map<V, set<V>>, start: V, frontier: seq<V>, rest: seq<V>,
                             visited: set<V>, order: seq<V>, from: V, cur: V)
    requires TraversalState(g, start, frontier, visited, order, from, {})
    requires cur in visited && cur in frontier
    requires forall v :: v in rest ==> v in frontier
    requires forall v :: v in frontier ==> v in rest || v == cur
    ensures TraversalState(g, start, rest, visited, order, from, {})
  {
  }

  /** Taking an unvisited vertex cur off the frontier marks it visited and
      prints it; all its neighbours become pending. */
  lemma VisitNew<V(!new)>(g: map<V, set<V>>, start: V, frontier: seq<V>, rest: seq<V>,
                          visited: set<V>, order: seq<V>, from: V, cur: V)
    requires TraversalState(g, start, frontier, visited, order, from, {})
    requires cur !in visited && cur in frontier && |rest| + 1 == |frontier|
    requires forall v :: v in rest ==> v in frontier
    requires forall v :: v in frontier ==> v in rest || v == cur
    ensures TraversalState(g, start, rest, visited + {cur}, order + [cur], cur, g[cur])
  {
    var order' := order + [cur];
    assert PrintedOk(g, start, visited + {cur}, order') by {
      forall i | 0 < i < |order'|
        ensures HasEarlierParent(g, order', i)
      {
        if i < |order| {
          assert HasEarlierParent(g, order, i);
          var j :| 0 <= j < i && Edge(g, order[j], order[i]);
          assert order'[j] == order[j];
        } else {
          var j :| 0 <= j < |order| && Edge(g, order[j], cur);
          assert order'[j] == order[j];
        }
      }
      assert Distinct(order') by {
        assert Distinct([cur]);
        DistinctConcat(order, [cur]);
      }
    }
    assert FrontierOk(g, start, rest, order') by {
      assert order == [] ==> rest == [];
      forall v | v in rest && order != []
        ensures exists j :: 0 <= j < |order'| && Edge(g, order'[j], v)
      {
        var j :| 0 <= j < |order| && Edge(g, order[j], v);
        assert order'[j] == order[j];
      }
    }
    assert NeighboursCovered(g, rest, visited + {cur}, cur, g[cur]);
  }

  /** Pushing one pending neighbour onto the frontier keeps the state. */
  lemma PushPending<V(!new)>(g: map<V, set<V>>, start: V, frontier: seq<V>, visited: set<V>,
                             order: seq<V>, from: V, pending: set<V>, n: V)
    requires TraversalState(g, start, frontier, visited, order, from, pending)
    requires NeighboursAreVertices(g) && n in pending
    ensures TraversalState(g, start, frontier + [n], visited, order, from, pending - {n})
  {
    assert from in order;
    ReachableStep(g, start, from, n);
    var j :| 0 <= j < |order| && order[j] == from;
  }

  /** With nothing left on the frontier, the printed vertices are exactly
      those reachable from start, each once, start first. */
  lemma Finish<V(!new)>(g: map<V, set<V>>, start: V, visited: set<V>, order: seq<V>, from: V)
    requires TraversalState(g, start, [], visited, order, from, {})
    ensures |order| > 0 && order[0] == start
    ensures forall v :: v in order <==> Reachable(g, start, v)
  {
    forall v | Reachable(g, start, v)
      ensures v in order
    {
      ClosedContainsReachable(g, start, visited, v);
    }
  }

  /** Appending the printed sequence of a traversal started at an out-neighbour
      of an already printed vertex keeps every vertex after an in-neighbour. */
  lemma EarlierParentsConcat<V(!new)>(g: map<V, set<V>>, a: seq<V>, b: seq<V>)
    requires HasEarlierParents(g, a) && HasEarlierParents(g, b)
    requires |b| > 0 ==> exists j :: 0 <= j < |a| && Edge(g, a[j], b[0])
    ensures HasEarlierParents(g, a + b)
  {
    var c := a + b;
    forall i | 0 < i < |c|
      ensures HasEarlierParent(g, c, i)
    {
      if i < |a| {
        assert HasEarlierParent(g, a, i);
        var j :| 0 <= j < i && Edge(g, a[j], a[i]);
        assert c[j] == a[j] && c[i] == a[i];
      } else if i == |a| {
        var j :| 0 <= j < |a| && Edge(g, a[j], b[0]);
        assert c[j] == a[j] && c[i] == b[0];
      } else {
        assert HasEarlierParent(g, b, i - |a|);
        var j :| 0 <= j < i - |a| && Edge(g, b[j], b[i - |a|]);
        assert c[j + |a|] == b[j] && c[i] == b[i - |a|];
      }
    }
  }
}
