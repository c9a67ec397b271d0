/** Invariants of the recursive traversal and path search
    (projects/graph/graph.py, dft_recursive and dfs_recursive).  Both thread
    one visited set through all recursive calls; a call on `start` with the
    set `visited` it was given works on a growing set `marked`. */
module Recursion {
  import opened Paths
  import opened Frontier
  import opened DftOrder

  /** What a finished dft_recursive(start, visited) has done: it printed
      `order`, and `marked` is the visited set afterwards. */
  ghost predicate DftOutcome<V(!new)>(g: map<V, set<V>>, start: V, visited: set<V>,
                                      marked: set<V>, order: seq<V>)
  {
    && |order| > 0 && order[0] == start && Distinct(order) && Avoids(order, visited)
    && (forall v :: v in marked <==> v in visited || v in order)
    && (forall v :: v in order <==> ReachableAvoiding(g, start, v, visited))
    && ClosedUnder(g, (marked - visited) + {start}, marked)
    && HasEarlierParents(g, order)
    && DepthFirstOrder(g, order, visited)
  }

  /** The state of dft_recursive(start, visited) while it loops over the
      out-neighbours of start; `pending` holds those not yet looked at. */
  ghost predicate DftState<V(!new)>(g: map<V, set<V>>, start: V, visited: set<V>,
                                    marked: set<V>, order: seq<V>, pending: set<V>)
  {
    && start in g && pending <= g[start]
    && |order| > 0 && order[0] == start && Distinct(order) && Avoids(order, visited)
    && (forall v :: v in marked <==> v in visited || v in order)
    && (forall v :: v in order ==> ReachableAvoiding(g, start, v, visited))
    && (forall u, v :: u in (marked - visited) + {start} && Edge(g, u, v) ==>
          v in marked || (u == start && v in pending))
    && HasEarlierParents(g, order)
    && DepthFirstOrder(g, order, visited)
  }

  lemma DftStart<V(!new)>(g: map<V, set<V>>, start: V, visited: set<V>)
    requires start in g
    ensures DftState(g, start, visited, visited + {start}, [start], g[start])
  {
    assert IsPathFromTo(g, [start], start, start) && Avoids([start], visited);
  }

  /** A neighbour already visited is skipped. */
  lemma DftSkip<V(!new)>(g: map<V, set<V>>, start: V, visited: set<V>, marked: set<V>,
                         order: seq<V>, pending: set<V>, n: V)
    requires DftState(g, start, visited, marked, order, pending)
    requires n in pending && n in marked
    ensures DftState(g, start, visited, marked, order, pending - {n})
  {
  }

  /** Appending what the recursive call on an unvisited neighbour n printed
      keeps the state. */
  lemma DftDescend<V(!new)>(g: map<V, set<V>>, start: V, visited: set<V>, marked: set<V>,
                            order: seq<V>, pending: set<V>, n: V, marked': set<V>, t: seq<V>)
    requires DftState(g, start, visited, marked, order, pending)
    requires n in pending && n !in marked
    requires DftOutcome(g, n, marked, marked', t)
    ensures DftState(g, start, visited, marked', order + t, pending - {n})
  {
    assert Edge(g, start, n);
    forall x | x in t
      ensures x !in marked
    {
      var i :| 0 <= i < |t| && t[i] == x;
    }
    DistinctConcat(order, t);
    var o := order + t;
    forall i | 1 <= i < |o|
      ensures o[i] !in visited
    {
      if i >= |order| {
        assert o[i] == t[i - |order|] && t[i - |order|] in t;
      }
    }
    forall v | v in t
      ensures ReachableAvoiding(g, start, v, visited)
    {
      ReachableAvoidingPrepend(g, start, n, v, marked, visited);
    }
    assert o[0] == start;
    EarlierParentsConcat(g, order, t);
    forall k, w | 0 < k < |order| && Edge(g, order[k], w)
      ensures w in marked
    {
      assert order[k] != start && order[k] !in visited;
    }
    DepthFirstConcat(g, order, t, visited, marked);
  }

  /** When every neighbour has been looked at, the call's outcome is complete. */
  lemma DftDone<V(!new)>(g: map<V, set<V>>, start: V, visited: set<V>, marked: set<V>, order: seq<V>)
    requires DftState(g, start, visited, marked, order, {})
    ensures DftOutcome(g, start, visited, marked, order)
  {
    forall v | ReachableAvoiding(g, start, v, visited)
      ensures v in order
    {
      ClosedContainsReachableAvoiding(g, start, visited, marked, v);
    }
  }

  /** Every vertex newly put into `marked` by a call on start is reachable
      from start without re-entering `visited`. */
  ghost predicate MarksReached<V(!new)>(g: map<V, set<V>>, start: V, visited: set<V>, marked: set<V>)
  {
    forall v :: v in marked - visited ==> ReachableAvoiding(g, start, v, visited)
  }

  /** What a dfs_recursive(start, dest, visited, path) that found nothing has
      done: start and everything it reaches without re-entering `visited` is
      now in `marked`, nothing else was added, and dest is not there. */
  ghost predicate DfsMissed<V(!new)>(g: map<V, set<V>>, start: V, dest: V, visited: set<V>, marked: set<V>)
  {
    && visited + {start} <= marked
    && dest !in marked - visited
    && ClosedUnder(g, (marked - visited) + {start}, marked)
    && MarksReached(g, start, visited, marked)
  }

  /** What a dfs_recursive(start, dest, visited, path) that returned r has
      done: r is path followed by a walk from start to dest that does not
      re-enter `visited` and repeats no vertex, every vertex of that walk
      before dest is now in `marked`, and nothing unreached was added. */
  ghost predicate DfsFound<V(!new)>(g: map<V, set<V>>, start: V, dest: V, visited: set<V>,
                                    path: seq<V>, marked: set<V>, r: seq<V>)
  {
    && |r| > |path| && r[..|path|] == path
    && IsPathFromTo(g, r[|path|..], start, dest) && Avoids(r[|path|..], visited)
    && Distinct(r[|path|..])
    && (forall i :: |path| <= i < |r| - 1 ==> r[i] in marked)
    && MarksReached(g, start, visited, marked)
  }

  /** The state of dfs_recursive(start, dest, visited, path) while it loops
      over the out-neighbours of start, none of which has led to dest yet. */
  ghost predicate DfsState<V(!new)>(g: map<V, set<V>>, start: V, dest: V, visited: set<V>,
                                    marked: set<V>, pending: set<V>)
  {
    && start in g && start != dest && pending <= g[start]
    && visited + {start} <= marked
    && dest !in marked - visited
    && (forall u, v :: u in (marked - visited) + {start} && Edge(g, u, v) ==>
          v in marked || (u == start && v in pending))
    && MarksReached(g, start, visited, marked)
  }

  lemma DfsStart<V(!new)>(g: map<V, set<V>>, start: V, dest: V, visited: set<V>)
    requires start in g && start != dest
    ensures DfsState(g, start, dest, visited, visited + {start}, g[start])
  {
    assert IsPathFromTo(g, [start], start, start) && Avoids([start], visited);
  }

  /** A recursive call that found nothing keeps the state. */
  lemma DfsMiss<V(!new)>(g: map<V, set<V>>, start: V, dest: V, visited: set<V>, marked: set<V>,
                         pending: set<V>, n: V, marked': set<V>)
    requires DfsState(g, start, dest, visited, marked, pending)
    requires n in pending && n !in marked
    requires DfsMissed(g, n, dest, marked, marked')
    ensures DfsState(g, start, dest, visited, marked', pending - {n})
  {
    MarksReachedVia(g, start, visited, marked, n, marked');
  }

  /** What a recursive call on an unvisited neighbour n marks is reachable
      from start too. */
  lemma MarksReachedVia<V(!new)>(g: map<V, set<V>>, start: V, visited: set<V>, marked: set<V>,
                                 n: V, marked': set<V>)
    requires Edge(g, start, n) && n !in marked && visited <= marked
    requires MarksReached(g, start, visited, marked) && MarksReached(g, n, marked, marked')
    ensures MarksReached(g, start, visited, marked')
  {
    forall v | v in marked' - visited
      ensures ReachableAvoiding(g, start, v, visited)
    {
      if v !in marked {
        ReachableAvoidingPrepend(g, start, n, v, marked, visited);
      }
    }
  }

  /** The walk a recursive call on neighbour n found, with path + [start] in
      front, is the walk this call returns. */
  lemma DfsFoundVia<V(!new)>(g: map<V, set<V>>, start: V, dest: V, visited: set<V>, marked: set<V>,
                             pending: set<V>, n: V, path: seq<V>, marked': set<V>, r: seq<V>)
    requires DfsState(g, start, dest, visited, marked, pending)
    requires n in pending && n !in marked && marked <= marked'
    requires DfsFound(g, n, dest, marked, path + [start], marked', r)
    ensures DfsFound(g, start, dest, visited, path, marked', r)
  {
    var k := |path|;
    var q := r[k + 1..];
    assert r[..k + 1] == path + [start];
    assert r[..k] == path by {
      assert r[..k] == r[..k + 1][..k];
    }
    assert r[k] == start by {
      assert r[k] == r[..k + 1][k];
    }
    assert r[k..] == [start] + q;
    PrependAvoiding(g, start, q, marked, visited);
    assert Distinct([start] + q) by {
      assert forall i :: 0 <= i < |q| ==> q[i] != start by {
        assert start in marked && q[0] == n;
      }
      DistinctConcat([start], q);
    }
    MarksReachedVia(g, start, visited, marked, n, marked');
    forall i | k <= i < |r| - 1
      ensures r[i] in marked'
    {
      if i > k {
        assert r[i] == q[i - k - 1];
      }
    }
  }

  /** With every neighbour looked at and nothing found, the search has
      missed: it has marked exactly what start reaches without re-entering
      `visited`, and dest is not among it. */
  lemma DfsDone<V(!new)>(g: map<V, set<V>>, start: V, dest: V, visited: set<V>, marked: set<V>)
    requires DfsState(g, start, dest, visited, marked, {})
    ensures DfsMissed(g, start, dest, visited, marked)
    ensures !ReachableAvoiding(g, start, dest, visited)
    ensures forall v :: v in (marked - visited) + {start} <==> ReachableAvoiding(g, start, v, visited)
  {
    forall v | ReachableAvoiding(g, start, v, visited)
      ensures v in (marked - visited) + {start}
    {
      ClosedContainsReachableAvoiding(g, start, visited, marked, v);
    }
    assert IsPathFromTo(g, [start], start, start) && Avoids([start], visited);
  }
}
