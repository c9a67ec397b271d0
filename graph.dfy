/** A directed graph kept as a map from each vertex to the set of its
    out-neighbours, with breadth- and depth-first traversals and path searches
    (projects/graph/graph.py). */
module Graphs {
  import opened Paths
  import opened Frontier
  import BreadthFirst
  import DepthFirst
  import DftOrder
  import Recursion

  class Graph<V(==, !new)> {
    /** vertex -> set of out-neighbours */
    var vertices: map<V, set<V>>

    /** The set created once as the default `visited_verts` argument of
        dfs_recursive: calls that do not pass a set all share it and it keeps
        what earlier calls put into it. */
    var defaultVisited: set<V>

    /** Edges are only ever added between existing vertices. */
    ghost predicate Valid()
      reads this
    {
      NeighboursAreVertices(vertices)
    }

    constructor ()
      ensures Valid() && vertices == map[] && defaultVisited == {}
    {
      vertices := map[];
      defaultVisited := {};
    }

    /** Adds id with no edges unless it is already a vertex. */
    method AddVertex(id: V)
      requires Valid()
      modifies this
      ensures Valid()
      ensures vertices.Keys == old(vertices).Keys + {id}
      ensures id in old(vertices) ==> vertices == old(vertices)
      ensures id !in old(vertices) ==> vertices == old(vertices)[id := {}]
      ensures defaultVisited == old(defaultVisited)
    {
      if id !in vertices {
        vertices := vertices[id := {}];
      }
    }

    /** Adds the edge v1 -> v2 when both ends are vertices; otherwise does nothing. */
    method AddEdge(v1: V, v2: V)
      requires Valid()
      modifies this
      ensures Valid()
      ensures vertices.Keys == old(vertices).Keys
      ensures v1 in old(vertices) && v2 in old(vertices) ==>
                vertices == old(vertices)[v1 := old(vertices)[v1] + {v2}]
      ensures !(v1 in old(vertices) && v2 in old(vertices)) ==> vertices == old(vertices)
      ensures Edge(old(vertices), v1, v2) ==> vertices == old(vertices)
      ensures defaultVisited == old(defaultVisited)
    {
      if v1 in vertices && v2 in vertices {
        if v2 in vertices[v1] {
          assert vertices[v1] + {v2} == vertices[v1];
        }
        vertices := vertices[v1 := vertices[v1] + {v2}];
      }
    }

    /** The out-neighbours of a vertex; every one of them is again a vertex,
        so this lookup is safe on any neighbour. */
    function GetNeighbors(id: V): (ns: set<V>)
      reads this
      requires id in vertices
      ensures forall n :: n in ns <==> Edge(vertices, id, n)
      ensures Valid() ==> forall n :: n in ns ==> n in vertices
    {
      vertices[id]
    }

    /** Breadth-first traversal from start with a FIFO queue; returns the
        vertices in the order they are printed, which is non-decreasing
        distance from start.  As ghost bookkeeping, `walks` holds beside each
        queued vertex the walk along which it was enqueued, and `level` the
        length of the walk on which each printed vertex was dequeued. */
    method Bft(start: V) returns (order: seq<V>)
      requires Valid() && start in vertices
      ensures |order| > 0 && order[0] == start
      ensures Distinct(order)
      ensures forall v :: v in order <==> Reachable(vertices, start, v)
      ensures HasEarlierParents(vertices, order)
      ensures forall i, j :: 0 <= i < j < |order| ==> NoFartherThan(vertices, start, order[i], order[j])
    {
      var queue := [start];
      var visited: set<V> := {};
      order := [];
      ghost var from := start;
      ghost var walks: seq<seq<V>> := [[start]];
      ghost var level: map<V, nat> := map[];
      BreadthFirst.TraversalStart(vertices, start);
      while |queue| > 0
        invariant BreadthFirst.LayeredTraversal(vertices, start, queue, walks, visited, level, order, from, {})
        decreases vertices.Keys - visited, |queue|
      {
        var cur := queue[0];
        if cur !in visited {
          BreadthFirst.TraversalVisit(vertices, start, queue, walks, visited, level, order, from);
          ghost var curPath := walks[0];
          queue, walks := queue[1..], walks[1..];
          visited := visited + {cur};
          level := level[cur := |curPath|];
          order := order + [cur];
          from := cur;
          var ns := GetNeighbors(cur);
          while ns != {}
            invariant BreadthFirst.LayeredTraversal(vertices, start, queue, walks, visited, level, order, from, ns)
            invariant forall p :: p in walks ==> |curPath| <= |p| <= |curPath| + 1
            decreases ns
          {
            var n :| n in ns;
            BreadthFirst.TraversalPush(vertices, start, queue, walks, visited, level, order, curPath, ns, n);
            queue := queue + [n];
            walks := walks + [curPath + [n]];
            ns := ns - {n};
          }
        } else {
          BreadthFirst.TraversalDrop(vertices, start, queue, walks, visited, level, order, from);
          queue, walks := queue[1..], walks[1..];
        }
      }
      BreadthFirst.TraversalFinish(vertices, start, walks, visited, level, order, from);
    }

    /** Depth-first traversal from start with a LIFO stack; returns the
        vertices in the order they are printed. */
    method Dft(start: V) returns (order: seq<V>)
      requires Valid() && start in vertices
      ensures |order| > 0 && order[0] == start
      ensures Distinct(order)
      ensures forall v :: v in order <==> Reachable(vertices, start, v)
      ensures HasEarlierParents(vertices, order)
      ensures DftOrder.DepthFirstOrder(vertices, order, {})
    {
      var stack := [start];
      var visited: set<V> := {};
      order := [];
      ghost var from := start;
      ghost var pushers := [-1];
      DftOrder.DepthStart(vertices, start);
      while |stack| > 0
        invariant DftOrder.DepthTraversal(vertices, start, stack, pushers, visited, order, from, {})
        decreases vertices.Keys - visited, |stack|
      {
        ghost var k := |stack| - 1;
        if stack[k] !in visited {
          DftOrder.DepthVisit(vertices, start, stack, pushers, visited, order, from);
        } else {
          DftOrder.DepthDrop(vertices, start, stack, pushers, visited, order, from);
        }
        var cur := stack[|stack| - 1];
        stack := stack[..|stack| - 1];
        pushers := pushers[..k];
        if cur !in visited {
          visited := visited + {cur};
          order := order + [cur];
          from := cur;
          var ns := GetNeighbors(cur);
          while ns != {}
            invariant DftOrder.DepthTraversal(vertices, start, stack, pushers, visited, order, from, ns)
            decreases ns
          {
            var n :| n in ns;
            DftOrder.DepthPush(vertices, start, stack, pushers, visited, order, from, ns, n);
            stack := stack + [n];
            pushers := pushers + [|order| - 1];
            ns := ns - {n};
          }
        }
      }
      DftOrder.DepthFinish(vertices, start, pushers, visited, order, from);
    }

    /** Recursive depth-first traversal from start.  `visited` is the set the
        recursive calls share (empty at the top-level call); returns that set
        afterwards and the vertices this call printed, in order. */
    method DftRecursive(start: V, visited: set<V>) returns (visitedOut: set<V>, order: seq<V>)
      requires Valid() && start in vertices
      ensures |order| > 0 && order[0] == start && Distinct(order) && Avoids(order, visited)
      ensures forall v :: v in visitedOut <==> v in visited || v in order
      ensures forall v :: v in order <==> ReachableAvoiding(vertices, start, v, visited)
      ensures ClosedUnder(vertices, (visitedOut - visited) + {start}, visitedOut)
      ensures HasEarlierParents(vertices, order)
      ensures DftOrder.DepthFirstOrder(vertices, order, visited)
      ensures visited == {} ==> forall v :: v in order <==> Reachable(vertices, start, v)
      decreases vertices.Keys - (visited - {start})
    {
      visitedOut := visited + {start};
      order := [start];
      Recursion.DftStart(vertices, start, visited);
      var ns := vertices[start];
      while ns != {}
        invariant Recursion.DftState(vertices, start, visited, visitedOut, order, ns)
        invariant visited + {start} <= visitedOut
        decreases ns
      {
        var n :| n in ns;
        if n !in visitedOut {
          assert vertices.Keys - (visitedOut - {n}) < vertices.Keys - (visited - {start}) by {
            assert visited <= visitedOut && start in visitedOut && n !in visitedOut;
            assert start in vertices.Keys - (visited - {start});
            assert vertices.Keys - (visitedOut - {n}) <= vertices.Keys - (visited - {start});
          }
          var marked, t := DftRecursive(n, visitedOut);
          Recursion.DftDescend(vertices, start, visited, visitedOut, order, ns, n, marked, t);
          visitedOut := marked;
          order := order + t;
        } else {
          Recursion.DftSkip(vertices, start, visited, visitedOut, order, ns, n);
        }
        ns := ns - {n};
      }
      Recursion.DftDone(vertices, start, visited, visitedOut, order);
      if visited == {} {
        forall v
          ensures v in order <==> Reachable(vertices, start, v)
        {
          ReachableAvoidingNothing(vertices, start, v);
        }
      }
    }

    /** Breadth-first search for a walk from start to dest.  Returns a
        shortest such walk, or None when dest cannot be reached; `printed` is
        the sequence of vertices printed on the way. */
    method Bfs(start: V, dest: V) returns (r: Option<seq<V>>, printed: seq<V>)
      requires Valid() && (start in vertices || start == dest)
      ensures r.Some? <==> Reachable(vertices, start, dest)
      ensures r.Some? ==> IsPathFromTo(vertices, r.value, start, dest)
      ensures r.Some? ==> forall p :: IsPathFromTo(vertices, p, start, dest) ==> |r.value| <= |p|
      ensures start == dest ==> r == Some([start]) && printed == []
      ensures Distinct(printed)
      ensures forall v :: v in printed ==> v != dest && Reachable(vertices, start, v)
    {
      var queue: seq<seq<V>> := [[start]];
      var visited: set<V> := {};
      printed := [];
      ghost var level: map<V, nat> := map[];
      ghost var from := start;
      BreadthFirst.Start(vertices, start, {dest});
      while |queue| > 0
        invariant BreadthFirst.SearchState(vertices, start, {dest}, queue, visited, level, from, {})
        invariant forall v :: v in printed <==> v in visited
        invariant visited == {} ==> printed == []
        invariant Distinct(printed)
        decreases vertices.Keys - visited, |queue|
      {
        ghost var before := queue;
        var curPath := queue[0];
        assert curPath in before;
        queue := queue[1..];
        var cur := curPath[|curPath| - 1];
        if cur !in visited {
          if cur == dest {
            forall p | IsPathFromTo(vertices, p, start, dest)
              ensures |curPath| <= |p|
            {
              BreadthFirst.HeadIsShortest(vertices, start, {dest}, before, visited, level, from, p);
            }
            assert IsPathFromTo(vertices, curPath, start, dest);
            return Some(curPath), printed;
          }
          BreadthFirst.Visit(vertices, start, {dest}, before, visited, level, from);
          visited := visited + {cur};
          level := level[cur := |curPath|];
          DistinctConcat(printed, [cur]);
          printed := printed + [cur];
          from := cur;
          var ns := GetNeighbors(cur);
          while ns != {}
            invariant BreadthFirst.SearchState(vertices, start, {dest}, queue, visited, level, from, ns)
            invariant forall p :: p in queue ==> |curPath| <= |p| <= |curPath| + 1
            decreases ns
          {
            var n :| n in ns;
            BreadthFirst.Push(vertices, start, {dest}, queue, visited, level, curPath, ns, n);
            var newPath := curPath + [n];
            queue := queue + [newPath];
            ns := ns - {n};
          }
        } else {
          BreadthFirst.DropVisited(vertices, start, {dest}, before, visited, level, from);
        }
      }
      BreadthFirst.Exhausted(vertices, start, dest, visited, level, from);
      r := None;
    }

    /** Depth-first search for a walk from start to dest, as written: the
        visited set is consulted but never added to, so on a graph with a cycle
        the loop can run forever.  The loop is bounded here by `fuel`
        iterations; `finished` says whether it ended (by returning a walk or
        by emptying its stack) within that bound. */
    method Dfs(start: V, dest: V, fuel: nat) returns (r: Option<seq<V>>, finished: bool)
      requires Valid() && (start in vertices || start == dest)
      ensures r.Some? ==> finished && IsPathFromTo(vertices, r.value, start, dest)
      ensures finished ==> (r.Some? <==> Reachable(vertices, start, dest))
      ensures finished && r.None? ==> forall w :: IsPathFrom(vertices, w, start) ==> |w| <= fuel
      ensures start == dest && fuel > 0 ==> r == Some([start])
    {
      var stack: seq<seq<V>> := [[start]];
      var visited: set<V> := {};
      var steps: nat := 0;
      ghost var explored: set<seq<V>> := {};
      ghost var from: seq<V> := [start];
      DepthFirst.ExploreStart(vertices, start, dest);
      while |stack| > 0
        invariant DepthFirst.ExploreState(vertices, start, dest, stack, explored, steps, from, {})
        invariant steps <= fuel && visited == {}
        invariant start == dest ==> steps == 0 && stack == [[start]]
        decreases fuel - steps
      {
        if steps == fuel {
          return None, false;
        }
        ghost var before := stack;
        var curPath := stack[|stack| - 1];
        assert curPath in before;
        stack := stack[..|stack| - 1];
        var cur := curPath[|curPath| - 1];
        assert start == dest ==> cur == dest by {
          if start == dest {
            assert curPath == [start];
          }
        }
        if cur !in visited {
          if cur == dest {
            assert DepthFirst.StackedWalks(vertices, start, dest, before);
            assert IsPathFromTo(vertices, curPath, start, dest);
            return Some(curPath), true;
          }
          DepthFirst.ExplorePop(vertices, start, dest, before, explored, steps, from);
          explored := explored + {curPath};
          steps := steps + 1;
          from := curPath;
          var ns := GetNeighbors(cur);
          while ns != {}
            invariant DepthFirst.ExploreState(vertices, start, dest, stack, explored, steps, from, ns)
            decreases ns
          {
            var n :| n in ns;
            DepthFirst.ExplorePush(vertices, start, dest, stack, explored, steps, from, ns, n);
            var newPath := curPath + [n];
            stack := stack + [newPath];
            ns := ns - {n};
          }
        }
      }
      DepthFirst.ExploreDone(vertices, start, dest, explored, steps, from);
      return None, true;
    }

    /** The depth-first search with its visited set kept up to date (each
        vertex is marked when its walk is first popped, as bfs does).  It
        always terminates, and finds a walk exactly when dest is reachable. */
    method DfsWithVisited(start: V, dest: V) returns (r: Option<seq<V>>)
      requires Valid() && (start in vertices || start == dest)
      ensures r.Some? <==> Reachable(vertices, start, dest)
      ensures r.Some? ==> IsPathFromTo(vertices, r.value, start, dest) && Distinct(r.value)
      ensures start == dest ==> r == Some([start])
    {
      var stack: seq<seq<V>> := [[start]];
      var visited: set<V> := {};
      ghost var from := start;
      DepthFirst.MarkedStart(vertices, start, dest);
      while |stack| > 0
        invariant DepthFirst.MarkedState(vertices, start, dest, stack, visited, from, {})
        decreases vertices.Keys - visited, |stack|
      {
        ghost var before := stack;
        var curPath := stack[|stack| - 1];
        assert curPath in before;
        stack := stack[..|stack| - 1];
        var cur := curPath[|curPath| - 1];
        if cur !in visited {
          DepthFirst.SettledDistinct(curPath, visited);
          if cur == dest {
            assert IsPathFromTo(vertices, curPath, start, dest);
            return Some(curPath);
          }
          DepthFirst.MarkedVisit(vertices, start, dest, before, visited, from);
          visited := visited + {cur};
          from := cur;
          var ns := GetNeighbors(cur);
          while ns != {}
            invariant DepthFirst.MarkedState(vertices, start, dest, stack, visited, from, ns)
            decreases ns
          {
            var n :| n in ns;
            DepthFirst.MarkedPush(vertices, start, dest, stack, visited, curPath, ns, n);
            var newPath := curPath + [n];
            stack := stack + [newPath];
            ns := ns - {n};
          }
        } else {
          DepthFirst.MarkedDrop(vertices, start, dest, before, visited, from);
        }
      }
      DepthFirst.MarkedDone(vertices, start, dest, visited, from);
      r := None;
    }

    /** Recursive depth-first search for a walk from start to dest.  `visited`
        is the set the recursive calls share and `path` the walk that led to
        start.  Returns path extended by a walk from start to dest that never
        re-enters `visited`, or None when there is none; and the shared set
        afterwards. */
    method DfsRecursive(start: V, dest: V, visited: set<V>, path: seq<V>)
        returns (r: Option<seq<V>>, visitedOut: set<V>)
      requires Valid() && (start in vertices || start == dest)
      ensures visited <= visitedOut
      ensures start == dest ==> r == Some(path + [start]) && visitedOut == visited
      ensures r.Some? <==> ReachableAvoiding(vertices, start, dest, visited)
      ensures r.Some? ==> |r.value| > |path| && r.value[..|path|] == path
      ensures r.Some? ==> IsPathFromTo(vertices, r.value[|path|..], start, dest)
      ensures r.Some? ==> Avoids(r.value[|path|..], visited)
      ensures r.Some? ==> Distinct(r.value[|path|..])
      ensures r.Some? ==> forall i :: |path| <= i < |r.value| - 1 ==> r.value[i] in visitedOut
      ensures r.None? ==> start in visitedOut && dest !in visitedOut - visited
      ensures r.None? ==> ClosedUnder(vertices, (visitedOut - visited) + {start}, visitedOut)
      ensures r.None? ==> forall v :: v in (visitedOut - visited) + {start} <==> ReachableAvoiding(vertices, start, v, visited)
      ensures forall v :: v in visitedOut - visited ==> ReachableAvoiding(vertices, start, v, visited)
      decreases vertices.Keys - (visited - {start})
    {
      if start == dest {
        var p := path + [start];
        assert p[|path|..] == [start];
        assert IsPathFromTo(vertices, [start], start, dest) && Avoids([start], visited);
        return Some(p), visited;
      }
      visitedOut := visited + {start};
      Recursion.DfsStart(vertices, start, dest, visited);
      var ns := GetNeighbors(start);
      while ns != {}
        invariant visited <= visitedOut
        invariant Recursion.DfsState(vertices, start, dest, visited, visitedOut, ns)
        decreases ns
      {
        var n :| n in ns;
        if n !in visitedOut {
          assert vertices.Keys - (visitedOut - {n}) < vertices.Keys - (visited - {start}) by {
            assert visited <= visitedOut && start in visitedOut && n !in visitedOut;
            assert start in vertices.Keys - (visited - {start});
            assert vertices.Keys - (visitedOut - {n}) <= vertices.Keys - (visited - {start});
          }
          var found, marked := DfsRecursive(n, dest, visitedOut, path + [start]);
          if found.Some? {
            Recursion.DfsFoundVia(vertices, start, dest, visited, visitedOut, ns, n, path, marked, found.value);
            return found, marked;
          }
          Recursion.DfsMiss(vertices, start, dest, visited, visitedOut, ns, n, marked);
          visitedOut := marked;
        }
        ns := ns - {n};
      }
      Recursion.DfsDone(vertices, start, dest, visited, visitedOut);
      r := None;
    }

    /** A top-level dfs_recursive call that passes no visited set, as written:
        it searches with the shared default set and leaves in it every vertex
        it marked, so a later call avoids them too. */
    method DfsRecursiveDefault(start: V, dest: V) returns (r: Option<seq<V>>)
      requires Valid() && (start in vertices || start == dest)
      modifies this
      ensures vertices == old(vertices) && old(defaultVisited) <= defaultVisited
      ensures r.Some? <==> ReachableAvoiding(vertices, start, dest, old(defaultVisited))
      ensures r.Some? ==> IsPathFromTo(vertices, r.value, start, dest) && Distinct(r.value)
      ensures r.Some? ==> forall i :: 0 <= i < |r.value| - 1 ==> r.value[i] in defaultVisited
      ensures r.None? ==> start in defaultVisited && dest !in defaultVisited - old(defaultVisited)
      ensures r.None? ==> forall v :: v in (defaultVisited - old(defaultVisited)) + {start} <==>
                                      ReachableAvoiding(vertices, start, v, old(defaultVisited))
      ensures forall v :: v in defaultVisited - old(defaultVisited) ==>
                            ReachableAvoiding(vertices, start, v, old(defaultVisited))
    {
      var marked;
      r, marked := DfsRecursive(start, dest, defaultVisited, []);
      defaultVisited := marked;
      if r.Some? {
        assert r.value[0..] == r.value;
      }
    }

    /** A top-level dfs_recursive call with a fresh empty visited set: finds a
        walk exactly when dest is reachable. */
    method DfsRecursiveFresh(start: V, dest: V) returns (r: Option<seq<V>>)
      requires Valid() && (start in vertices || start == dest)
      ensures r.Some? <==> Reachable(vertices, start, dest)
      ensures r.Some? ==> IsPathFromTo(vertices, r.value, start, dest) && Distinct(r.value)
      ensures start == dest ==> r == Some([start])
    {
      var marked;
      r, marked := DfsRecursive(start, dest, {}, []);
      ReachableAvoidingNothing(vertices, start, dest);
      if r.Some? {
        assert r.value[0..] == r.value;
      }
    }
  }
}
