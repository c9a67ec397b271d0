/** The example graph of projects/graph/graph.py (its `__main__` block) and
    what the traversals and searches return on it; and two small graphs on
    which the as-written searches misbehave. */
module GraphDemo {
  import opened Paths
  import opened Frontier
  import opened Graphs
  import opened DftOrder

  /** The adjacency map the example prints after adding its seven vertices
      and ten edges. */
  const Example: map<int, set<int>> :=
    map[1 := {2}, 2 := {3, 4}, 3 := {5}, 4 := {6, 7}, 5 := {3}, 6 := {3}, 7 := {1, 6}]

  method BuildExample() returns (g: Graph<int>)
    ensures fresh(g) && g.Valid() && g.vertices == Example && g.defaultVisited == {}
  {
    g := new Graph();
    AddVertices(g);
    AddEdges1(g);
    AddEdges2(g);
    AddEdges3(g);
    AddEdges4(g);
  }

  /** The example's vertices 1 to 7, with no edges yet. */
  method AddVertices(g: Graph<int>)
    requires g.Valid() && g.vertices == map[]
    modifies g
    ensures g.defaultVisited == old(g.defaultVisited)
    ensures g.Valid() && g.vertices == map[1 := {}, 2 := {}, 3 := {}, 4 := {}, 5 := {}, 6 := {}, 7 := {}]
  {
    g.AddVertex(1);
    assert g.vertices == map[1 := {}];
    g.AddVertex(2);
    assert g.vertices == map[1 := {}, 2 := {}];
    g.AddVertex(3);
    assert g.vertices == map[1 := {}, 2 := {}, 3 := {}];
    g.AddVertex(4);
    AddVertices2(g);
  }

  /** The example's vertices 5 to 7. */
  method AddVertices2(g: Graph<int>)
    requires g.Valid() && g.vertices == map[1 := {}, 2 := {}, 3 := {}, 4 := {}]
    modifies g
    ensures g.defaultVisited == old(g.defaultVisited)
    ensures g.Valid() && g.vertices == map[1 := {}, 2 := {}, 3 := {}, 4 := {}, 5 := {}, 6 := {}, 7 := {}]
  {
    g.AddVertex(5);
    assert g.vertices == map[1 := {}, 2 := {}, 3 := {}, 4 := {}, 5 := {}];
    g.AddVertex(6);
    assert g.vertices == map[1 := {}, 2 := {}, 3 := {}, 4 := {}, 5 := {}, 6 := {}];
    g.AddVertex(7);
  }

  /** The example's edges 5 -> 3, 6 -> 3, 7 -> 1. */
  method AddEdges1(g: Graph<int>)
    requires g.Valid() && g.vertices == map[1 := {}, 2 := {}, 3 := {}, 4 := {}, 5 := {}, 6 := {}, 7 := {}]
    modifies g
    ensures g.defaultVisited == old(g.defaultVisited)
    ensures g.Valid() && g.vertices == map[1 := {}, 2 := {}, 3 := {}, 4 := {}, 5 := {3}, 6 := {3}, 7 := {1}]
  {
    g.AddEdge(5, 3);
    assert g.vertices[5] == {3};
    g.AddEdge(6, 3);
    assert g.vertices[6] == {3};
    g.AddEdge(7, 1);
    assert g.vertices[7] == {1};
    assert g.vertices.Keys == {1, 2, 3, 4, 5, 6, 7};
  }

  /** The example's edges 4 -> 7, 1 -> 2, 7 -> 6. */
  method AddEdges2(g: Graph<int>)
    requires g.Valid() && g.vertices == map[1 := {}, 2 := {}, 3 := {}, 4 := {}, 5 := {3}, 6 := {3}, 7 := {1}]
    modifies g
    ensures g.defaultVisited == old(g.defaultVisited)
    ensures g.Valid() && g.vertices == map[1 := {2}, 2 := {}, 3 := {}, 4 := {7}, 5 := {3}, 6 := {3}, 7 := {1, 6}]
  {
    g.AddEdge(4, 7);
    assert g.vertices[4] == {7};
    g.AddEdge(1, 2);
    assert g.vertices[1] == {2};
    g.AddEdge(7, 6);
    assert g.vertices[7] == {1, 6};
    assert g.vertices.Keys == {1, 2, 3, 4, 5, 6, 7};
  }

  /** The example's edges 2 -> 4, 3 -> 5. */
  method AddEdges3(g: Graph<int>)
    requires g.Valid() && g.vertices == map[1 := {2}, 2 := {}, 3 := {}, 4 := {7}, 5 := {3}, 6 := {3}, 7 := {1, 6}]
    modifies g
    ensures g.defaultVisited == old(g.defaultVisited)
    ensures g.Valid() && g.vertices == map[1 := {2}, 2 := {4}, 3 := {5}, 4 := {7}, 5 := {3}, 6 := {3}, 7 := {1, 6}]
  {
    g.AddEdge(2, 4);
    assert g.vertices[2] == {4};
    g.AddEdge(3, 5);
    assert g.vertices[3] == {5};
    assert g.vertices.Keys == {1, 2, 3, 4, 5, 6, 7};
  }

  /** The example's edges 2 -> 3, 4 -> 6. */
  method AddEdges4(g: Graph<int>)
    requires g.Valid() && g.vertices == map[1 := {2}, 2 := {4}, 3 := {5}, 4 := {7}, 5 := {3}, 6 := {3}, 7 := {1, 6}]
    modifies g
    ensures g.defaultVisited == old(g.defaultVisited)
    ensures g.Valid() && g.vertices == Example
  {
    g.AddEdge(2, 3);
    assert g.vertices[2] == {3, 4};
    g.AddEdge(4, 6);
    assert g.vertices[4] == {6, 7};
    assert g.vertices.Keys == {1, 2, 3, 4, 5, 6, 7};
  }

  /** From vertex 1 every vertex of the example is reachable, and nothing else. */
  lemma ExampleReach(v: int)
    ensures Reachable(Example, 1, v) <==> 1 <= v <= 7
  {
    var g := Example;
    if 1 <= v <= 7 {
      var p := if v == 1 then [1] else if v == 2 then [1, 2] else if v == 3 then [1, 2, 3]
               else if v == 4 then [1, 2, 4] else if v == 5 then [1, 2, 3, 5]
               else if v == 6 then [1, 2, 4, 6] else [1, 2, 4, 7];
      assert IsPathFromTo(g, p, 1, v);
    } else {
      assert NeighboursAreVertices(g);
      if Reachable(g, 1, v) {
        ReachableIsVertex(g, 1, v);
      }
    }
  }

  /** The only walk from 1 to 6 with at most four vertices is 1, 2, 4, 6. */
  lemma ShortWalkToSix(p: seq<int>)
    requires IsPathFromTo(Example, p, 1, 6) && |p| <= 4
    ensures p == [1, 2, 4, 6]
  {
    var g := Example;
    assert |p| >= 2 && Edge(g, p[0], p[1]);
    assert p[1] == 2;
    assert |p| >= 3 && Edge(g, p[1], p[2]);
    assert p[2] == 3 || p[2] == 4;
    assert |p| == 4 && Edge(g, p[2], p[3]);
  }

  /** The example's breadth-first traversal from 1 prints every vertex once:
      1 first, 2 second, then 3 and 4 in either order, then 5, 6 and 7 in some
      order, as every order the example lists does. */
  method ExampleBft() returns (order: seq<int>)
    ensures |order| > 3 && order[0] == 1 && order[1] == 2 && Distinct(order)
    ensures forall v :: v in order <==> 1 <= v <= 7
    ensures {order[2], order[3]} == {3, 4}
    ensures forall k :: 4 <= k < |order| ==> order[k] in {5, 6, 7}
  {
    var g := BuildExample();
    order := g.Bft(1);
    ExampleOrder(order);
    NearComeFirst(order);
    ExampleLayers(order);
  }

  /** A walk from 1 with at most three vertices ends at 1, 2, 3 or 4. */
  lemma ShortWalksFromOne(p: seq<int>)
    requires IsPathFrom(Example, p, 1) && |p| <= 3
    ensures Last(p) in {1, 2, 3, 4}
  {
    var g := Example;
    if |p| >= 2 {
      assert Edge(g, p[0], p[1]);
    }
    if |p| == 3 {
      assert Edge(g, p[1], p[2]);
    }
  }

  /** A vertex no farther from 1 than 3 or 4 is one of 1 to 4. */
  lemma NoFartherThanThreeOrFour(u: int, v: int)
    requires v == 3 || v == 4
    requires NoFartherThan(Example, 1, u, v)
    ensures u in {1, 2, 3, 4}
  {
    assert IsPathFromTo(Example, [1, 2, v], 1, v);
    var q :| IsPathFromTo(Example, q, 1, u) && |q| <= 3;
    ShortWalksFromOne(q);
  }

  /** In an order of the example's vertices by non-decreasing distance from
      1, whatever comes before 3 or 4 is one of 1 to 4. */
  lemma NearComeFirst(order: seq<int>)
    requires forall i, j :: 0 <= i < j < |order| ==> NoFartherThan(Example, 1, order[i], order[j])
    ensures forall i, j :: 0 <= i < j < |order| && order[j] in {3, 4} ==> order[i] in {1, 2, 3, 4}
  {
    forall i, j | 0 <= i < j < |order| && order[j] in {3, 4}
      ensures order[i] in {1, 2, 3, 4}
    {
      NoFartherThanThreeOrFour(order[i], order[j]);
    }
  }

  /** An order of the example's vertices that starts 1, 2 and in which
      nothing beyond 4 comes before 3 or 4 has 3 and 4 third and fourth. */
  lemma ExampleLayers(order: seq<int>)
    requires |order| > 1 && order[0] == 1 && order[1] == 2 && Distinct(order)
    requires forall v :: v in order <==> 1 <= v <= 7
    requires forall i, j :: 0 <= i < j < |order| && order[j] in {3, 4} ==> order[i] in {1, 2, 3, 4}
    ensures |order| > 3 && {order[2], order[3]} == {3, 4}
    ensures forall k :: 4 <= k < |order| ==> order[k] in {5, 6, 7}
  {
    assert 3 in order && 4 in order;
    var i3 :| 0 <= i3 < |order| && order[i3] == 3;
    var i4 :| 0 <= i4 < |order| && order[i4] == 4;
    assert 2 <= i3 && 2 <= i4 && i3 != i4;
    forall i | 2 <= i <= 3 && i < |order|
      ensures order[i] in {3, 4}
    {
      if i3 > i || i4 > i {
        var j := if i3 > i then i3 else i4;
        assert order[i] in {1, 2, 3, 4};
        assert order[i] != order[0] && order[i] != order[1];
      } else {
        assert {i3, i4} == {2, 3};
      }
    }
    forall k | 4 <= k < |order|
      ensures order[k] in {5, 6, 7}
    {
      assert order[k] != order[0] && order[k] != order[1] && order[k] != order[2] && order[k] != order[3];
      assert order[k] in order;
    }
  }

  /** The four depth-first orders the example lists for dft(1). */
  const ListedDftOrders: set<seq<int>> :=
    {[1, 2, 3, 5, 4, 6, 7], [1, 2, 3, 5, 4, 7, 6], [1, 2, 4, 7, 6, 3, 5], [1, 2, 4, 6, 3, 5, 7]}

  /** The example's depth-first traversal from 1 prints one of the listed orders. */
  method ExampleDft() returns (order: seq<int>)
    ensures order in ListedDftOrders
  {
    var g := BuildExample();
    order := g.Dft(1);
    ExampleOrder(order);
    ExampleDepthFirst(order);
  }

  /** The example's recursive depth-first traversal from 1, likewise. */
  method ExampleDftRecursive() returns (order: seq<int>)
    ensures order in ListedDftOrders
  {
    var g := BuildExample();
    var visited;
    visited, order := g.DftRecursive(1, {});
    ExampleOrder(order);
    ExampleDepthFirst(order);
  }

  /** The vertex printed at i in a depth-first order of the example, and the
      earlier one it is printed from. */
  lemma PrintedAt(order: seq<int>, i: int) returns (j: int)
    requires DepthFirstOrder(Example, order, {}) && 0 < i < |order|
    ensures 0 <= j < i && Edge(Example, order[j], order[i])
    ensures forall k, w :: j < k < i && Edge(Example, order[k], w) ==> w in order[..i]
  {
    assert PrintedFromEarlier(Example, order, {}, i);
    j :| 0 <= j < i && PrintedFrom(Example, order, {}, i, j);
  }

  /** A vertex of order that is not among its first i entries comes later. */
  lemma Beyond(order: seq<int>, i: nat, v: int)
    requires i <= |order| && v in order && v !in order[..i]
    ensures |order| > i
  {
    assert order == order[..i] + order[i..];
    assert v in order[i..];
  }

  /** In an order of the vertices 1 to 7 without repeats, the entry after a
      prefix holding every vertex but v is v. */
  lemma Remaining(order: seq<int>, i: nat, v: int)
    requires Distinct(order) && forall u :: u in order <==> 1 <= u <= 7
    requires i < |order| && forall u :: 1 <= u <= 7 && u != v ==> u in order[..i]
    ensures order[i] == v
  {
    assert order[i] !in order[..i] by {
      forall t | 0 <= t < i
        ensures order[..i][t] != order[i]
      {
        assert order[..i][t] == order[t];
      }
    }
    assert order[i] in order;
  }

  /** An order of the vertices 1 to 7 without repeats whose first seven
      entries are given is exactly those seven. */
  lemma OnlySeven(order: seq<int>, first: seq<int>)
    requires Distinct(order) && forall v :: v in order <==> 1 <= v <= 7
    requires |first| == 7 && |order| >= 7 && order[..7] == first
    requires forall v :: 1 <= v <= 7 ==> v in first
    ensures order == first
  {
    var last := order[|order| - 1];
    assert last in order && last in first;
    var u :| 0 <= u < 7 && first[u] == last;
    assert order[u] == last;
    assert |order| == 7;
    assert order == order[..7];
  }

  /** The depth-first orders of the example from 1 are the four listed ones:
      after 1 and 2, whichever of 3 and 4 comes first is followed by what it
      alone leads to (5 after 3; 6 and 7 after 4) before the other. */
  lemma ExampleDepthFirst(order: seq<int>)
    requires |order| > 1 && order[0] == 1 && order[1] == 2 && Distinct(order)
    requires forall v :: v in order <==> 1 <= v <= 7
    requires DepthFirstOrder(Example, order, {})
    ensures order in ListedDftOrders
  {
    assert order[..2] == [1, 2];
    Beyond(order, 2, 3);
    var j := PrintedAt(order, 2);
    assert order[2] == 3 || order[2] == 4;
    if order[2] == 3 {
      AfterThree(order);
    } else {
      AfterFour(order);
    }
  }

  /** The depth-first orders of the example that start 1, 2, 3. */
  lemma AfterThree(order: seq<int>)
    requires |order| > 2 && order[0] == 1 && order[1] == 2 && order[2] == 3 && Distinct(order)
    requires forall v :: v in order <==> 1 <= v <= 7
    requires DepthFirstOrder(Example, order, {})
    ensures order == [1, 2, 3, 5, 4, 6, 7] || order == [1, 2, 3, 5, 4, 7, 6]
  {
    var g := Example;
    assert order[..3] == [1, 2, 3];
    Beyond(order, 3, 4);
    var j3 := PrintedAt(order, 3);
    assert j3 == 0 || j3 == 1 || j3 == 2;
    assert Edge(g, order[2], 5) && 5 !in order[..3];
    assert order[3] == 5;
    assert order[..4] == [1, 2, 3, 5];
    Beyond(order, 4, 4);
    var j4 := PrintedAt(order, 4);
    assert j4 == 0 || j4 == 1 || j4 == 2 || j4 == 3;
    assert order[4] == 4;
    assert order[..5] == [1, 2, 3, 5, 4];
    Beyond(order, 5, 6);
    var j5 := PrintedAt(order, 5);
    assert j5 == 0 || j5 == 1 || j5 == 2 || j5 == 3 || j5 == 4;
    assert Edge(g, order[4], 6) && 6 !in order[..5];
    assert order[5] == 6 || order[5] == 7;
    var other := if order[5] == 6 then 7 else 6;
    assert order[..6] == [1, 2, 3, 5, 4, order[5]];
    Beyond(order, 6, other);
    Remaining(order, 6, other);
    OnlySeven(order, [1, 2, 3, 5, 4, order[5], other]);
  }

  /** The depth-first orders of the example that start 1, 2, 4. */
  lemma AfterFour(order: seq<int>)
    requires |order| > 2 && order[0] == 1 && order[1] == 2 && order[2] == 4 && Distinct(order)
    requires forall v :: v in order <==> 1 <= v <= 7
    requires DepthFirstOrder(Example, order, {})
    ensures order == [1, 2, 4, 7, 6, 3, 5] || order == [1, 2, 4, 6, 3, 5, 7]
  {
    var g := Example;
    assert order[..3] == [1, 2, 4];
    Beyond(order, 3, 3);
    var j3 := PrintedAt(order, 3);
    assert j3 == 0 || j3 == 1 || j3 == 2;
    assert Edge(g, order[2], 6) && 6 !in order[..3];
    assert order[3] == 6 || order[3] == 7;
    if order[3] == 6 {
      AfterFourSix(order);
    } else {
      assert order[..4] == [1, 2, 4, 7];
      Beyond(order, 4, 6);
      var j4 := PrintedAt(order, 4);
      assert j4 == 0 || j4 == 1 || j4 == 2 || j4 == 3;
      assert Edge(g, order[2], 6) && 6 !in order[..4];
      assert order[4] == 6;
      assert order[..5] == [1, 2, 4, 7, 6];
      Beyond(order, 5, 3);
      var j5 := PrintedAt(order, 5);
      assert j5 == 0 || j5 == 1 || j5 == 2 || j5 == 3 || j5 == 4;
      assert order[5] == 3;
      assert order[..6] == [1, 2, 4, 7, 6, 3];
      Beyond(order, 6, 5);
      Remaining(order, 6, 5);
      OnlySeven(order, [1, 2, 4, 7, 6, 3, 5]);
    }
  }

  /** The depth-first order of the example that starts 1, 2, 4, 6. */
  lemma AfterFourSix(order: seq<int>)
    requires |order| > 3 && order[..4] == [1, 2, 4, 6] && Distinct(order)
    requires forall v :: v in order <==> 1 <= v <= 7
    requires DepthFirstOrder(Example, order, {})
    ensures order == [1, 2, 4, 6, 3, 5, 7]
  {
    var g := Example;
    assert order[0] == 1 && order[1] == 2 && order[2] == 4 && order[3] == 6;
    Beyond(order, 4, 3);
    var j4 := PrintedAt(order, 4);
    assert j4 == 0 || j4 == 1 || j4 == 2 || j4 == 3;
    assert Edge(g, order[3], 3) && Edge(g, order[2], 7) && 3 !in order[..4] && 7 !in order[..4];
    assert order[4] == 3;
    assert order[..5] == [1, 2, 4, 6, 3];
    Beyond(order, 5, 5);
    var j5 := PrintedAt(order, 5);
    assert j5 == 0 || j5 == 1 || j5 == 2 || j5 == 3 || j5 == 4;
    assert Edge(g, order[4], 5) && 5 !in order[..5];
    assert order[5] == 5;
    assert order[..6] == [1, 2, 4, 6, 3, 5];
    Beyond(order, 6, 7);
    Remaining(order, 6, 7);
    OnlySeven(order, [1, 2, 4, 6, 3, 5, 7]);
  }

  /** A traversal order of the example from 1 has 2 second: it is the only
      out-neighbour of 1. */
  lemma ExampleOrder(order: seq<int>)
    requires |order| > 0 && order[0] == 1
    requires forall v :: v in order <==> Reachable(Example, 1, v)
    requires HasEarlierParents(Example, order)
    ensures |order| > 1 && order[1] == 2
    ensures forall v :: v in order <==> 1 <= v <= 7
  {
    forall v
      ensures v in order <==> 1 <= v <= 7
    {
      ExampleReach(v);
    }
    assert 2 in order;
    assert |order| > 1 by {
      assert order[0] == 1 && 2 in order;
    }
    assert HasEarlierParent(Example, order, 1);
  }

  /** In a graph without edges, bft from a vertex prints that vertex, once,
      and nothing else. */
  method LoneVertexBft() returns (order: seq<int>)
    ensures |order| > 0 && order[0] == 1 && Distinct(order)
    ensures forall v :: v in order <==> v == 1
  {
    var g := new Graph<int>();
    g.AddVertex(1);
    g.AddVertex(2);
    assert g.vertices == map[1 := {}, 2 := {}];
    order := g.Bft(1);
    assert ClosedUnder(g.vertices, {1}, {1});
    forall v | v in order
      ensures v == 1
    {
      ClosedContainsReachable(g.vertices, 1, {1}, v);
    }
  }

  /** bfs(1, 6) on the example returns [1, 2, 4, 6]. */
  method ExampleBfs() returns (r: Option<seq<int>>)
    ensures r == Some([1, 2, 4, 6])
  {
    var g := BuildExample();
    var printed;
    r, printed := g.Bfs(1, 6);
    assert IsPathFromTo(Example, [1, 2, 4, 6], 1, 6);
    ShortWalkToSix(r.value);
  }

  /** dfs(1, 6) on the example, when it finishes, returns a walk from 1 to 6. */
  method ExampleDfs(fuel: nat) returns (r: Option<seq<int>>, finished: bool)
    ensures finished ==> r.Some? && IsPathFromTo(Example, r.value, 1, 6)
  {
    var g := BuildExample();
    r, finished := g.Dfs(1, 6, fuel);
    assert IsPathFromTo(Example, [1, 2, 4, 6], 1, 6);
  }

  /** The first dfs_recursive(1, 6) of the example, which starts from the
      still empty default visited set, returns one of the two walks the
      example lists. */
  method ExampleDfsRecursive() returns (r: Option<seq<int>>)
    ensures r == Some([1, 2, 4, 6]) || r == Some([1, 2, 4, 7, 6])
  {
    var g := BuildExample();
    assert IsPathFromTo(Example, [1, 2, 4, 6], 1, 6) && Avoids([1, 2, 4, 6], {});
    r := g.DfsRecursiveDefault(1, 6);
    DistinctWalksToSix(r.value);
  }

  /** A walk through 3 never ends at 6: from 3 only 3 and 5 can be reached. */
  lemma ThreeNeverReachesSix(p: seq<int>, k: nat)
    requires IsPath(Example, p) && k < |p|
    ensures p[k] == 3 ==> Last(p) != 6
  {
    var g := Example;
    if p[k] == 3 {
      var rest := p[k..];
      forall i | 0 <= i < |rest| - 1
        ensures Edge(g, rest[i], rest[i + 1])
      {
        assert rest[i] == p[i + k] && rest[i + 1] == p[i + k + 1];
      }
      assert IsPathFromTo(g, rest, 3, Last(p));
      assert ClosedUnder(g, {3, 5}, {3, 5});
      ClosedContainsReachable(g, 3, {3, 5}, Last(p));
    }
  }

  /** The walks from 1 to 6 that repeat no vertex are 1, 2, 4, 6 and
      1, 2, 4, 7, 6. */
  lemma DistinctWalksToSix(p: seq<int>)
    requires IsPathFromTo(Example, p, 1, 6) && Distinct(p)
    ensures p == [1, 2, 4, 6] || p == [1, 2, 4, 7, 6]
  {
    var g := Example;
    assert |p| >= 2 && Edge(g, p[0], p[1]) && p[1] == 2;
    assert |p| >= 3 && Edge(g, p[1], p[2]);
    ThreeNeverReachesSix(p, 2);
    assert p[2] == 4 && Edge(g, p[2], p[3]);
    if p[3] == 6 {
      assert |p| == 4;
    } else {
      assert p[3] == 7 && Edge(g, p[3], p[4]) && p[4] != p[0];
      assert |p| == 5;
    }
  }

  /** On the graph 1 -> 1 (with a second, isolated vertex 2), dfs(1, 2) as
      written never finishes, whatever bound is put on its iterations. */
  method DfsDivergesOnSelfLoop(fuel: nat) returns (finished: bool)
    ensures !finished
  {
    var g := new Graph<int>();
    g.AddVertex(1);
    g.AddVertex(2);
    g.AddEdge(1, 1);
    assert g.vertices.Keys == {1, 2} && g.vertices[1] == {1} && g.vertices[2] == {};
    assert g.vertices == map[1 := {1}, 2 := {}];
    var r;
    r, finished := g.Dfs(1, 2, fuel);
    var loop := seq(fuel + 1, i => 1);
    assert IsPathFrom(g.vertices, loop, 1);
    assert ClosedUnder(g.vertices, {1}, {1});
    if Reachable(g.vertices, 1, 2) {
      ClosedContainsReachable(g.vertices, 1, {1}, 2);
    }
  }

  /** On the path 1 -> 2 -> 3, a second dfs_recursive(1, 3) call that relies
      on the default visited set finds nothing, because the first call left
      1 and 2 in that set. */
  method DefaultVisitedLeaks() returns (first: Option<seq<int>>, second: Option<seq<int>>)
    ensures first.Some? && second.None?
  {
    var g := BuildChain();
    var h := map[1 := {2}, 2 := {3}, 3 := {}];
    assert IsPathFromTo(h, [1, 2, 3], 1, 3) && Avoids([1, 2, 3], {});
    first := g.DfsRecursiveDefault(1, 3);
    var p := first.value;
    assert Edge(h, p[0], p[1]) && p[1] == 2 && 1 < |p| - 1;
    var marked := g.defaultVisited;
    second := g.DfsRecursiveDefault(1, 3);
    forall q | IsPathFromTo(h, q, 1, 3)
      ensures !Avoids(q, marked)
    {
      assert Edge(h, q[0], q[1]);
    }
  }

  /** The chain 1 -> 2 -> 3 with nothing visited yet. */
  method BuildChain() returns (g: Graph<int>)
    ensures fresh(g) && g.Valid() && g.defaultVisited == {}
    ensures g.vertices == map[1 := {2}, 2 := {3}, 3 := {}]
  {
    g := new Graph<int>();
    g.AddVertex(1);
    g.AddVertex(2);
    g.AddVertex(3);
    g.AddEdge(1, 2);
    g.AddEdge(2, 3);
    assert g.vertices.Keys == {1, 2, 3} && g.vertices[1] == {2} && g.vertices[2] == {3} && g.vertices[3] == {};
  }
}
