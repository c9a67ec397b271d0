/** Invariants of the iterative depth-first path search
    (projects/graph/graph.py, dfs): a LIFO stack of walks from the start.

    As written, dfs never inserts into its visited set, so it explores every
    walk from the start, revisiting vertices; `Explore*` below describe that
    search.  `Marked*` describe the search with the visited set updated the
    way bfs updates it. */
module DepthFirst {
  import opened Paths

  /** Every stacked walk starts at start and ends at a vertex (or at dest). */
  ghost predicate StackedWalks<V(!new)>(g: map<V, set<V>>, start: V, dest: V, stack: seq<seq<V>>)
  {
    forall p :: p in stack ==> IsPathFrom(g, p, start) && (Last(p) in g || Last(p) == dest)
  }

  /** Walk w is still to be explored: a prefix of it is on the stack, or it
      extends the walk `from` by a pending neighbour. */
  ghost predicate Scheduled<V(!new)>(w: seq<V>, stack: seq<seq<V>>, from: seq<V>, pending: set<V>)
  {
    || (exists k :: 1 <= k <= |w| && w[..k] in stack)
    || (exists k :: 1 <= k < |w| && w[..k] == from && w[k] in pending)
  }

  /** The state of the as-written search after `steps` iterations: `explored`
      holds the walks popped so far. */
  ghost predicate ExploreState<V(!new)>(g: map<V, set<V>>, start: V, dest: V, stack: seq<seq<V>>,
                                        explored: set<seq<V>>, steps: nat, from: seq<V>, pending: set<V>)
  {
    && StackedWalks(g, start, dest, stack)
    && (forall p :: p in stack ==> |p| <= steps + 1)
    && (forall e :: e in explored ==> |e| > 0 && |e| <= steps && Last(e) != dest)
    && (forall w :: IsPathFrom(g, w, start) ==> w in explored || Scheduled(w, stack, from, pending))
    && (pending != {} ==> IsPathFrom(g, from, start) && |from| <= steps && Last(from) in g)
    && (forall n :: n in pending ==> Edge(g, Last(from), n))
  }

  lemma ExploreStart<V(!new)>(g: map<V, set<V>>, start: V, dest: V)
    requires start in g || start == dest
    ensures ExploreState(g, start, dest, [[start]], {}, 0, [start], {})
  {
    forall w | IsPathFrom(g, w, start)
      ensures Scheduled(w, [[start]], [start], {})
    {
      assert w[..1] == [start];
    }
  }

  /** A walk other than the popped one that had a prefix on the stack still
      has one, or continues the popped walk by one of its out-neighbours. */
  lemma ScheduledAfterPop<V(!new)>(g: map<V, set<V>>, w: seq<V>, stack: seq<seq<V>>)
    requires IsPath(g, w) && |stack| > 0 && |stack[|stack| - 1]| > 0
    requires Last(stack[|stack| - 1]) in g
    requires exists k :: 1 <= k <= |w| && w[..k] in stack
    requires w != stack[|stack| - 1]
    ensures Scheduled(w, stack[..|stack| - 1], stack[|stack| - 1], g[Last(stack[|stack| - 1])])
  {
    var top := stack[|stack| - 1];
    var rest := stack[..|stack| - 1];
    var k :| 1 <= k <= |w| && w[..k] in stack;
    var i :| 0 <= i < |stack| && stack[i] == w[..k];
    if i < |stack| - 1 {
      assert rest[i] == w[..k];
    } else {
      assert w[..k] == top;
      assert k < |w|;
      assert Edge(g, w[k - 1], w[k]);
    }
  }

  /** Popping the top walk (not ending at dest) explores it and makes the
      out-neighbours of its end pending. */
  lemma ExplorePop<V(!new)>(g: map<V, set<V>>, start: V, dest: V, stack: seq<seq<V>>,
                            explored: set<seq<V>>, steps: nat, from: seq<V>)
    requires ExploreState(g, start, dest, stack, explored, steps, from, {})
    requires |stack| > 0 && |stack[|stack| - 1]| > 0 && Last(stack[|stack| - 1]) != dest
    ensures var top := stack[|stack| - 1];
            && Last(top) in g
            && ExploreState(g, start, dest, stack[..|stack| - 1], explored + {top}, steps + 1,
                            top, g[Last(top)])
  {
    var top := stack[|stack| - 1];
    var rest := stack[..|stack| - 1];
    assert top in stack;
    forall w | IsPathFrom(g, w, start) && w !in explored + {top}
      ensures Scheduled(w, rest, top, g[Last(top)])
    {
      ScheduledAfterPop(g, w, stack);
    }
    forall p | p in rest
      ensures p in stack
    {
      var i :| 0 <= i < |rest| && rest[i] == p;
      assert stack[i] == p;
    }
  }

  /** Pushing the extension of `from` by one pending neighbour keeps the state. */
  lemma ExplorePush<V(!new)>(g: map<V, set<V>>, start: V, dest: V, stack: seq<seq<V>>,
                             explored: set<seq<V>>, steps: nat, from: seq<V>, pending: set<V>, n: V)
    requires NeighboursAreVertices(g)
    requires ExploreState(g, start, dest, stack, explored, steps, from, pending)
    requires n in pending
    ensures ExploreState(g, start, dest, stack + [from + [n]], explored, steps, from, pending - {n})
  {
    var stack' := stack + [from + [n]];
    PathExtend(g, from, start, n);
    forall w | IsPathFrom(g, w, start) && w !in explored
      ensures Scheduled(w, stack', from, pending - {n})
    {
      if exists k :: 1 <= k <= |w| && w[..k] in stack {
        var k :| 1 <= k <= |w| && w[..k] in stack;
        assert w[..k] in stack';
      } else {
        var k :| 1 <= k < |w| && w[..k] == from && w[k] in pending;
        if w[k] == n {
          assert w[..k + 1] == from + [n];
          assert w[..k + 1] in stack';
        }
      }
    }
  }

  /** When the stack runs empty, dest is unreachable and every walk from start
      has been explored, so none has more than `steps` vertices. */
  lemma ExploreDone<V(!new)>(g: map<V, set<V>>, start: V, dest: V, explored: set<seq<V>>,
                             steps: nat, from: seq<V>)
    requires ExploreState(g, start, dest, [], explored, steps, from, {})
    ensures !Reachable(g, start, dest)
    ensures forall w :: IsPathFrom(g, w, start) ==> |w| <= steps
  {
  }

  /** All but the last vertex of walk p are visited, and none of them twice. */
  ghost predicate SettledPrefix<V>(p: seq<V>, visited: set<V>)
  {
    |p| > 0 && Distinct(p[..|p| - 1]) && forall i :: 0 <= i < |p| - 1 ==> p[i] in visited
  }

  /** The state of the search that marks vertices visited. */
  ghost predicate MarkedState<V(!new)>(g: map<V, set<V>>, start: V, dest: V, stack: seq<seq<V>>,
                                       visited: set<V>, from: V, pending: set<V>)
  {
    && visited <= g.Keys
    && dest !in visited
    && (start !in visited ==> stack == [[start]] && pending == {} && visited == {})
    && StackedWalks(g, start, dest, stack)
    && (forall p :: p in stack ==> SettledPrefix(p, visited))
    && (forall v, u :: v in visited && Edge(g, v, u) ==>
          || u in visited
          || (v == from && u in pending)
          || exists p :: p in stack && |p| > 0 && Last(p) == u)
    && (pending != {} ==> from in visited && Reachable(g, start, from))
    && (forall u :: u in pending ==> Edge(g, from, u))
  }

  lemma MarkedStart<V(!new)>(g: map<V, set<V>>, start: V, dest: V)
    requires start in g || start == dest
    ensures MarkedState(g, start, dest, [[start]], {}, start, {})
  {
  }

  /** Popping a walk to an already visited vertex keeps the state. */
  lemma MarkedDrop<V(!new)>(g: map<V, set<V>>, start: V, dest: V, stack: seq<seq<V>>,
                            visited: set<V>, from: V)
    requires MarkedState(g, start, dest, stack, visited, from, {})
    requires |stack| > 0 && |stack[|stack| - 1]| > 0 && Last(stack[|stack| - 1]) in visited
    ensures MarkedState(g, start, dest, stack[..|stack| - 1], visited, from, {})
  {
    var rest := stack[..|stack| - 1];
    forall v, u | v in visited && Edge(g, v, u) && u !in visited
      ensures exists p :: p in rest && |p| > 0 && Last(p) == u
    {
      var p :| p in stack && |p| > 0 && Last(p) == u;
      var i :| 0 <= i < |stack| && stack[i] == p;
      assert rest[i] == p;
    }
    forall p | p in rest
      ensures p in stack
    {
      var i :| 0 <= i < |rest| && rest[i] == p;
      assert stack[i] == p;
    }
  }

  /** A stacked walk whose end is not yet visited repeats no vertex. */
  lemma SettledDistinct<V>(p: seq<V>, visited: set<V>)
    requires SettledPrefix(p, visited) && Last(p) !in visited
    ensures Distinct(p)
  {
    var init := p[..|p| - 1];
    assert p == init + [Last(p)];
    forall x | x in init
      ensures x !in [Last(p)]
    {
      var i :| 0 <= i < |init| && init[i] == x;
      assert p[i] in visited;
    }
    DistinctConcat(init, [Last(p)]);
  }

  /** Popping a walk to an unvisited vertex other than dest marks that vertex
      visited; its out-neighbours become pending. */
  lemma MarkedVisit<V(!new)>(g: map<V, set<V>>, start: V, dest: V, stack: seq<seq<V>>,
                             visited: set<V>, from: V)
    requires MarkedState(g, start, dest, stack, visited, from, {})
    requires |stack| > 0 && |stack[|stack| - 1]| > 0
    requires Last(stack[|stack| - 1]) !in visited && Last(stack[|stack| - 1]) != dest
    ensures var cur := Last(stack[|stack| - 1]);
            && cur in g
            && MarkedState(g, start, dest, stack[..|stack| - 1], visited + {cur}, cur, g[cur])
  {
    var top := stack[|stack| - 1];
    var cur := Last(top);
    var rest := stack[..|stack| - 1];
    assert top in stack;
    assert IsPathFromTo(g, top, start, cur);
    forall v, u | v in visited && Edge(g, v, u) && u !in visited + {cur}
      ensures exists p :: p in rest && |p| > 0 && Last(p) == u
    {
      var p :| p in stack && |p| > 0 && Last(p) == u;
      var i :| 0 <= i < |stack| && stack[i] == p;
      assert rest[i] == p;
    }
    forall p | p in rest
      ensures p in stack
    {
      var i :| 0 <= i < |rest| && rest[i] == p;
      assert stack[i] == p;
    }
  }

  /** Pushing the walk p extended by one pending neighbour keeps the state. */
  lemma MarkedPush<V(!new)>(g: map<V, set<V>>, start: V, dest: V, stack: seq<seq<V>>,
                            visited: set<V>, p: seq<V>, pending: set<V>, n: V)
    requires NeighboursAreVertices(g) && IsPathFrom(g, p, start)
    requires MarkedState(g, start, dest, stack, visited, Last(p), pending)
    requires Distinct(p) && forall i :: 0 <= i < |p| ==> p[i] in visited
    requires n in pending
    ensures MarkedState(g, start, dest, stack + [p + [n]], visited, Last(p), pending - {n})
  {
    PathExtend(g, p, start, n);
    assert (p + [n])[..|p|] == p;
    assert p + [n] in stack + [p + [n]];
  }

  /** When the stack runs empty, dest is unreachable. */
  lemma MarkedDone<V(!new)>(g: map<V, set<V>>, start: V, dest: V, visited: set<V>, from: V)
    requires MarkedState(g, start, dest, [], visited, from, {})
    ensures !Reachable(g, start, dest)
  {
    if Reachable(g, start, dest) {
      ClosedContainsReachable(g, start, visited, dest);
    }
  }
}
