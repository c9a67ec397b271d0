/** The invariant of the breadth-first path search (projects/graph/graph.py,
    bfs): a FIFO queue of walks from the start, a visited set, and, as ghost
    bookkeeping, the length of the walk on which each vertex was visited.
    The lemmas here show that the first walk dequeued to an unvisited vertex
    is a shortest walk to it. */
module BreadthFirst {
  import opened Paths
  import opened Frontier

  /** Every queued walk starts at start and ends at a vertex (or at a stop
      vertex: bfs stops at its destination, bft at nothing). */
  ghost predicate WalksFromStart<V(!new)>(g: map<V, set<V>>, start: V, stop: set<V>, queue: seq<seq<V>>)
  {
    forall p :: p in queue ==> IsPathFrom(g, p, start) && (Last(p) in g || Last(p) in stop)
  }

  /** Queued walks are in non-decreasing length order and differ in length by at most one. */
  ghost predicate Layered<V>(queue: seq<seq<V>>)
  {
    forall i, j :: 0 <= i < j < |queue| ==> |queue[i]| <= |queue[j]| <= |queue[i]| + 1
  }

  /** Each visited vertex was visited on a walk of level[v] vertices, and no
      walk from start to it is shorter. */
  ghost predicate LevelsShortest<V(!new)>(g: map<V, set<V>>, start: V, visited: set<V>, level: map<V, nat>)
  {
    && level.Keys == visited
    && (forall v :: v in visited ==> exists q :: IsPathFromTo(g, q, start, v) && |q| == level[v])
    && (forall v, r :: v in visited && IsPathFromTo(g, r, start, v) ==> level[v] <= |r|)
  }

  /** Each unvisited out-neighbour u of a visited vertex v ends a queued walk at
      most one longer than v's level, unless it is still pending for from. */
  ghost predicate Covered<V(!new)>(g: map<V, set<V>>, queue: seq<seq<V>>, visited: set<V>,
                                    level: map<V, nat>, from: V, pending: set<V>)
    requires level.Keys == visited
  {
    forall v, u :: v in visited && Edge(g, v, u) && u !in visited ==>
      (v == from && u in pending) || exists p :: p in queue && |p| > 0 && Last(p) == u && |p| <= level[v] + 1
  }

  /** The state of a breadth-first search from start that never visits a
      vertex of `stop`. */
  ghost predicate SearchState<V(!new)>(g: map<V, set<V>>, start: V, stop: set<V>, queue: seq<seq<V>>,
                                       visited: set<V>, level: map<V, nat>, from: V, pending: set<V>)
  {
    && visited <= g.Keys
    && (forall v :: v in stop ==> v !in visited)
    && (start !in visited ==> queue == [[start]] && pending == {} && visited == {})
    && WalksFromStart(g, start, stop, queue)
    && Layered(queue)
    && LevelsShortest(g, start, visited, level)
    && Covered(g, queue, visited, level, from, pending)
    && (pending != {} ==> from in visited)
    && (forall u :: u in pending ==> Edge(g, from, u))
  }

  lemma Start<V(!new)>(g: map<V, set<V>>, start: V, stop: set<V>)
    requires start in g || start in stop
    ensures SearchState(g, start, stop, [[start]], {}, map[], start, {})
  {
  }

  /** Some step of a walk leaves S. */
  lemma Crossing<V>(r: seq<V>, s: set<V>) returns (j: nat)
    requires |r| > 0 && r[0] in s && Last(r) !in s
    ensures j + 1 < |r| && r[j] in s && r[j + 1] !in s
  {
    if r[|r| - 2] in s {
      j := |r| - 2;
    } else {
      j := Crossing(r[..|r| - 1], s);
    }
  }

  /** The walk at the head of the queue, when it ends at an unvisited vertex,
      is no longer than any walk from start to that vertex. */
  lemma HeadIsShortest<V(!new)>(g: map<V, set<V>>, start: V, stop: set<V>, queue: seq<seq<V>>,
                                visited: set<V>, level: map<V, nat>, from: V, r: seq<V>)
    requires SearchState(g, start, stop, queue, visited, level, from, {})
    requires |queue| > 0 && |queue[0]| > 0 && Last(queue[0]) !in visited
    requires IsPathFromTo(g, r, start, Last(queue[0]))
    ensures |queue[0]| <= |r|
  {
    if start in visited {
      var j := Crossing(r, visited);
      var v, u := r[j], r[j + 1];
      assert Edge(g, v, u);
      PathPrefix(g, r, j + 1);
      assert level[v] <= j + 1;
      var p :| p in queue && Last(p) == u && |p| <= level[v] + 1;
      var i :| 0 <= i < |queue| && queue[i] == p;
      assert |queue[0]| <= |p|;
    }
  }

  /** Dequeuing a walk whose end is already visited keeps the state. */
  lemma DropVisited<V(!new)>(g: map<V, set<V>>, start: V, stop: set<V>, queue: seq<seq<V>>,
                             visited: set<V>, level: map<V, nat>, from: V)
    requires SearchState(g, start, stop, queue, visited, level, from, {})
    requires |queue| > 0 && |queue[0]| > 0 && Last(queue[0]) in visited
    ensures SearchState(g, start, stop, queue[1..], visited, level, from, {})
  {
    var rest := queue[1..];
    forall v, u | v in visited && Edge(g, v, u) && u !in visited
      ensures exists p :: p in rest && Last(p) == u && |p| <= level[v] + 1
    {
      var p :| p in queue && Last(p) == u && |p| <= level[v] + 1;
      var i :| 0 <= i < |queue| && queue[i] == p;
      assert rest[i - 1] == p;
    }
  }

  /** Dequeuing a walk to an unvisited vertex outside `stop` visits that
      vertex at the walk's length; its out-neighbours become pending. */
  lemma Visit<V(!new)>(g: map<V, set<V>>, start: V, stop: set<V>, queue: seq<seq<V>>,
                       visited: set<V>, level: map<V, nat>, from: V)
    requires SearchState(g, start, stop, queue, visited, level, from, {})
    requires |queue| > 0 && |queue[0]| > 0
    requires Last(queue[0]) !in visited && Last(queue[0]) !in stop
    ensures var p, cur := queue[0], Last(queue[0]);
            && cur in g
            && SearchState(g, start, stop, queue[1..], visited + {cur}, level[cur := |p|], cur, g[cur])
            && forall q :: q in queue[1..] ==> |p| <= |q| <= |p| + 1
  {
    var p, cur := queue[0], Last(queue[0]);
    var rest := queue[1..];
    var visited', level' := visited + {cur}, level[cur := |p|];
    forall q | q in rest
      ensures |p| <= |q| <= |p| + 1
    {
      var i :| 0 <= i < |rest| && rest[i] == q;
      assert queue[i + 1] == q;
    }
    forall r | IsPathFromTo(g, r, start, cur)
      ensures |p| <= |r|
    {
      HeadIsShortest(g, start, stop, queue, visited, level, from, r);
    }
    assert LevelsShortest(g, start, visited', level') by {
      assert p in queue;
      assert IsPathFromTo(g, p, start, cur);
    }
    forall v, u | v in visited' && Edge(g, v, u) && u !in visited'
      ensures (v == cur && u in g[cur]) || exists q :: q in rest && Last(q) == u && |q| <= level'[v] + 1
    {
      if v != cur {
        var q :| q in queue && Last(q) == u && |q| <= level[v] + 1;
        var i :| 0 <= i < |queue| && queue[i] == q;
        assert rest[i - 1] == q;
      }
    }
  }

  /** Enqueuing the walk to one pending out-neighbour keeps the state. */
  lemma Push<V(!new)>(g: map<V, set<V>>, start: V, stop: set<V>, queue: seq<seq<V>>, visited: set<V>,
                      level: map<V, nat>, p: seq<V>, pending: set<V>, n: V)
    requires NeighboursAreVertices(g) && |p| > 0
    requires SearchState(g, start, stop, queue, visited, level, Last(p), pending)
    requires Last(p) in visited && level[Last(p)] == |p| && IsPathFrom(g, p, start)
    requires forall q :: q in queue ==> |p| <= |q| <= |p| + 1
    requires n in pending
    ensures SearchState(g, start, stop, queue + [p + [n]], visited, level, Last(p), pending - {n})
    ensures forall q :: q in queue + [p + [n]] ==> |p| <= |q| <= |p| + 1
  {
    var queue' := queue + [p + [n]];
    PathExtend(g, p, start, n);
    assert Layered(queue') by {
      forall i, j | 0 <= i < j < |queue'|
        ensures |queue'[i]| <= |queue'[j]| <= |queue'[i]| + 1
      {
        if j < |queue| {
          assert queue'[i] == queue[i] && queue'[j] == queue[j];
        } else {
          assert queue[i] in queue;
        }
      }
    }
    assert p + [n] in queue';
  }

  /** When the queue runs empty, dest is unreachable. */
  lemma Exhausted<V(!new)>(g: map<V, set<V>>, start: V, dest: V, visited: set<V>,
                           level: map<V, nat>, from: V)
    requires SearchState(g, start, {dest}, [], visited, level, from, {})
    ensures !Reachable(g, start, dest)
  {
    if Reachable(g, start, dest) {
      ClosedContainsReachable(g, start, visited, dest);
    }
  }

  /** bft keeps a queue of vertices; `walks` holds, in the same order, the
      walks from start by which they were enqueued. */
  ghost predicate EndsOf<V>(queue: seq<V>, walks: seq<seq<V>>)
  {
    |queue| == |walks| && forall k :: 0 <= k < |walks| ==> |walks[k]| > 0 && Last(walks[k]) == queue[k]
  }

  /** The printed vertices come in non-decreasing level, and no queued walk
      is shorter than the level of the last vertex printed. */
  ghost predicate PrintedByLevel<V>(order: seq<V>, level: map<V, nat>, walks: seq<seq<V>>)
  {
    && (forall v :: v in order ==> v in level)
    && (forall i, j :: 0 <= i < j < |order| ==> level[order[i]] <= level[order[j]])
    && (order != [] ==> forall p :: p in walks ==> level[Last(order)] <= |p|)
  }

  /** The state of bft: the traversal invariant it shares with dft, together
      with the breadth-first bookkeeping of the walks behind the queued
      vertices and the level at which each printed vertex was dequeued. */
  ghost predicate LayeredTraversal<V(!new)>(g: map<V, set<V>>, start: V, queue: seq<V>, walks: seq<seq<V>>,
                                            visited: set<V>, level: map<V, nat>, order: seq<V>,
                                            from: V, pending: set<V>)
  {
    && TraversalState(g, start, queue, visited, order, from, pending)
    && SearchState(g, start, {}, walks, visited, level, from, pending)
    && EndsOf(queue, walks)
    && PrintedByLevel(order, level, walks)
  }

  lemma TraversalStart<V(!new)>(g: map<V, set<V>>, start: V)
    requires start in g
    ensures LayeredTraversal(g, start, [start], [[start]], {}, map[], [], start, {})
  {
    Frontier.Start(g, start);
    Start(g, start, {});
  }

  /** Dequeuing an already printed vertex keeps the state. */
  lemma TraversalDrop<V(!new)>(g: map<V, set<V>>, start: V, queue: seq<V>, walks: seq<seq<V>>,
                               visited: set<V>, level: map<V, nat>, order: seq<V>, from: V)
    requires LayeredTraversal(g, start, queue, walks, visited, level, order, from, {})
    requires |queue| > 0 && queue[0] in visited
    ensures LayeredTraversal(g, start, queue[1..], walks[1..], visited, level, order, from, {})
  {
    assert queue[1..] == queue[..0] + queue[1..];
    RemoveAt(queue, 0);
    Frontier.DropVisited(g, start, queue, queue[1..], visited, order, from, queue[0]);
    DropVisited(g, start, {}, walks, visited, level, from);
    LevelDrop(queue, walks, order, level);
  }

  /** Dequeuing an unprinted vertex prints it at the length of its walk; its
      out-neighbours become pending, and every walk still queued is at most
      one longer. */
  lemma TraversalVisit<V(!new)>(g: map<V, set<V>>, start: V, queue: seq<V>, walks: seq<seq<V>>,
                                visited: set<V>, level: map<V, nat>, order: seq<V>, from: V)
    requires LayeredTraversal(g, start, queue, walks, visited, level, order, from, {})
    requires |queue| > 0 && queue[0] !in visited
    ensures var cur, p := queue[0], walks[0];
            && cur in g && |p| > 0 && Last(p) == cur && IsPathFrom(g, p, start)
            && LayeredTraversal(g, start, queue[1..], walks[1..], visited + {cur}, level[cur := |p|],
                                order + [cur], cur, g[cur])
            && forall q :: q in walks[1..] ==> |p| <= |q| <= |p| + 1
  {
    var cur := queue[0];
    assert queue[1..] == queue[..0] + queue[1..];
    RemoveAt(queue, 0);
    VisitNew(g, start, queue, queue[1..], visited, order, from, cur);
    Visit(g, start, {}, walks, visited, level, from);
    LevelDrop(queue, walks, order, level);
    LevelVisit(order, level, walks);
    assert walks[0] in walks;
  }

  /** Enqueuing one pending out-neighbour n of the vertex just printed, with
      its walk p + [n], keeps the state. */
  lemma TraversalPush<V(!new)>(g: map<V, set<V>>, start: V, queue: seq<V>, walks: seq<seq<V>>,
                               visited: set<V>, level: map<V, nat>, order: seq<V>,
                               p: seq<V>, pending: set<V>, n: V)
    requires NeighboursAreVertices(g) && |p| > 0 && IsPathFrom(g, p, start)
    requires LayeredTraversal(g, start, queue, walks, visited, level, order, Last(p), pending)
    requires Last(p) in visited && level[Last(p)] == |p| && order != [] && Last(order) == Last(p)
    requires forall q :: q in walks ==> |p| <= |q| <= |p| + 1
    requires n in pending
    ensures LayeredTraversal(g, start, queue + [n], walks + [p + [n]], visited, level, order,
                             Last(p), pending - {n})
    ensures forall q :: q in walks + [p + [n]] ==> |p| <= |q| <= |p| + 1
  {
    PushPending(g, start, queue, visited, order, Last(p), pending, n);
    Push(g, start, {}, walks, visited, level, p, pending, n);
    LevelPush(queue, walks, order, level, p, n);
  }

  /** With the queue empty, the printed vertices are exactly the reachable
      ones, in non-decreasing distance from start. */
  lemma TraversalFinish<V(!new)>(g: map<V, set<V>>, start: V, walks: seq<seq<V>>, visited: set<V>,
                                 level: map<V, nat>, order: seq<V>, from: V)
    requires LayeredTraversal(g, start, [], walks, visited, level, order, from, {})
    ensures |order| > 0 && order[0] == start && Distinct(order)
    ensures forall v :: v in order <==> Reachable(g, start, v)
    ensures HasEarlierParents(g, order)
    ensures forall i, j :: 0 <= i < j < |order| ==> NoFartherThan(g, start, order[i], order[j])
  {
    Finish(g, start, visited, order, from);
    LevelOrderIsDistanceOrder(g, start, visited, level, order);
  }

  /** Dequeuing a vertex together with its walk keeps the two queues in step
      and the printed vertices in level order. */
  lemma LevelDrop<V>(queue: seq<V>, walks: seq<seq<V>>, order: seq<V>, level: map<V, nat>)
    requires EndsOf(queue, walks) && |walks| > 0 && PrintedByLevel(order, level, walks)
    ensures EndsOf(queue[1..], walks[1..]) && PrintedByLevel(order, level, walks[1..])
  {
    forall p | p in walks[1..]
      ensures p in walks
    {
      var i :| 0 <= i < |walks[1..]| && walks[1..][i] == p;
      assert walks[i + 1] == p;
    }
  }

  /** Printing the end of the head walk at that walk's length keeps the
      printed vertices in level order. */
  lemma LevelVisit<V>(order: seq<V>, level: map<V, nat>, walks: seq<seq<V>>)
    requires |walks| > 0 && |walks[0]| > 0 && Last(walks[0]) !in level
    requires PrintedByLevel(order, level, walks)
    requires forall q :: q in walks[1..] ==> |walks[0]| <= |q|
    ensures PrintedByLevel(order + [Last(walks[0])], level[Last(walks[0]) := |walks[0]|], walks[1..])
  {
    var cur := Last(walks[0]);
    var order', level' := order + [cur], level[cur := |walks[0]|];
    assert walks[0] in walks;
    forall i, j | 0 <= i < j < |order'|
      ensures level'[order'[i]] <= level'[order'[j]]
    {
      assert order'[i] == order[i] && order[i] != cur;
      if j < |order| {
        assert order'[j] == order[j] && order[j] != cur;
      } else if i < |order| - 1 {
        assert level[order[i]] <= level[Last(order)];
      }
    }
  }

  /** Enqueuing a neighbour with its walk p + [n], where p is as long as the
      level of the last vertex printed, keeps both facts. */
  lemma LevelPush<V>(queue: seq<V>, walks: seq<seq<V>>, order: seq<V>, level: map<V, nat>, p: seq<V>, n: V)
    requires EndsOf(queue, walks) && PrintedByLevel(order, level, walks)
    requires order != [] && level[Last(order)] == |p|
    ensures EndsOf(queue + [n], walks + [p + [n]]) && PrintedByLevel(order, level, walks + [p + [n]])
  {
    var walks' := walks + [p + [n]];
    forall k | 0 <= k < |walks'|
      ensures |walks'[k]| > 0 && Last(walks'[k]) == (queue + [n])[k]
    {
      if k < |walks| {
        assert walks'[k] == walks[k];
      }
    }
  }

  /** Printed in level order, with levels the shortest walk lengths, the
      vertices come in non-decreasing distance from start. */
  lemma LevelOrderIsDistanceOrder<V(!new)>(g: map<V, set<V>>, start: V, visited: set<V>,
                                           level: map<V, nat>, order: seq<V>)
    requires LevelsShortest(g, start, visited, level) && PrintedByLevel(order, level, [])
    ensures forall i, j :: 0 <= i < j < |order| ==> NoFartherThan(g, start, order[i], order[j])
  {
    forall i, j, p | 0 <= i < j < |order| && IsPathFromTo(g, p, start, order[j])
      ensures exists q :: IsPathFromTo(g, q, start, order[i]) && |q| <= |p|
    {
      var q :| IsPathFromTo(g, q, start, order[i]) && |q| == level[order[i]];
      assert level[order[j]] <= |p|;
    }
  }
}
