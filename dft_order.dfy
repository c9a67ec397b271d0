/** Depth-first order (projects/graph/graph.py, dft and dft_recursive): each
    printed vertex is reached along an edge from the latest printed vertex
    that still has an unvisited out-neighbour. */
module DftOrder {
  import opened Paths
  import opened Frontier

  /** The vertex printed at i is an out-neighbour of the one printed at j, and
      every vertex printed between them had all its out-neighbours visited
      (in `visited`, or printed before i) by the time i was printed. */
  ghost predicate PrintedFrom<V(!new)>(g: map<V, set<V>>, order: seq<V>, visited: set<V>, i: int, j: int)
    requires 0 <= j < i < |order|
  {
    && Edge(g, order[j], order[i])
    && forall k, w :: j < k < i && Edge(g, order[k], w) ==> w in visited || w in order[..i]
  }

  /** The vertex printed at i is printed from some earlier one. */
  ghost predicate PrintedFromEarlier<V(!new)>(g: map<V, set<V>>, order: seq<V>, visited: set<V>, i: int)
    requires 0 <= i < |order|
  {
    exists j :: 0 <= j < i && PrintedFrom(g, order, visited, i, j)
  }

  /** Every vertex after the first is printed from an earlier one, in the
      sense of PrintedFrom.  `visited` is what was visited before the first. */
  ghost predicate DepthFirstOrder<V(!new)>(g: map<V, set<V>>, order: seq<V>, visited: set<V>)
  {
    forall i :: 0 < i < |order| ==> PrintedFromEarlier(g, order, visited, i)
  }

  /** Printing v from the vertex at j keeps the order depth-first when every
      vertex printed after j has no out-neighbour left unvisited. */
  lemma DepthFirstAppend<V(!new)>(g: map<V, set<V>>, order: seq<V>, visited: set<V>, v: V, j: int)
    requires DepthFirstOrder(g, order, visited)
    requires order != [] ==> 0 <= j < |order| && Edge(g, order[j], v)
    requires order != [] ==> forall k, w :: j < k < |order| && Edge(g, order[k], w) ==> w in visited || w in order
    ensures DepthFirstOrder(g, order + [v], visited)
  {
    var o := order + [v];
    forall i | 0 < i < |o|
      ensures PrintedFromEarlier(g, o, visited, i)
    {
      assert o[..i] == order[..i] by {
        if i == |order| {
          assert o[..i] == order;
        }
      }
      if i < |order| {
        assert PrintedFromEarlier(g, order, visited, i);
        var j' :| 0 <= j' < i && PrintedFrom(g, order, visited, i, j');
        assert PrintedFrom(g, o, visited, i, j') by {
          assert o[j'] == order[j'] && o[i] == order[i];
          forall k, w | j' < k < i && Edge(g, o[k], w)
            ensures w in visited || w in o[..i]
          {
            assert o[k] == order[k];
          }
        }
      } else {
        assert o[..i] == order && o[i] == v && o[j] == order[j];
        assert PrintedFrom(g, o, visited, i, j) by {
          forall k, w | j < k < i && Edge(g, o[k], w)
            ensures w in visited || w in o[..i]
          {
            assert o[k] == order[k];
          }
        }
      }
    }
  }

  /** Appending the vertices printed by a call on an out-neighbour of the
      first vertex of a, made with the visited set `marked` (what was visited
      before a, and a itself), keeps the order depth-first when every vertex
      of a after the first has all its out-neighbours in `marked`. */
  lemma DepthFirstConcat<V(!new)>(g: map<V, set<V>>, a: seq<V>, b: seq<V>, visited: set<V>, marked: set<V>)
    requires DepthFirstOrder(g, a, visited) && DepthFirstOrder(g, b, marked)
    requires forall v :: v in marked <==> v in visited || v in a
    requires |a| > 0 && (|b| > 0 ==> Edge(g, a[0], b[0]))
    requires forall k, w :: 0 < k < |a| && Edge(g, a[k], w) ==> w in marked
    ensures DepthFirstOrder(g, a + b, visited)
  {
    var c := a + b;
    forall i | 0 < i < |c|
      ensures PrintedFromEarlier(g, c, visited, i)
    {
      if i < |a| {
        assert PrintedFromEarlier(g, a, visited, i);
        var j :| 0 <= j < i && PrintedFrom(g, a, visited, i, j);
        assert c[..i] == a[..i];
        assert PrintedFrom(g, c, visited, i, j) by {
          assert c[j] == a[j] && c[i] == a[i];
          forall k, w | j < k < i && Edge(g, c[k], w)
            ensures w in visited || w in c[..i]
          {
            assert c[k] == a[k];
          }
        }
      } else if i == |a| {
        assert c[..i] == a && c[0] == a[0] && c[i] == b[0];
        assert PrintedFrom(g, c, visited, i, 0) by {
          forall k, w | 0 < k < i && Edge(g, c[k], w)
            ensures w in visited || w in c[..i]
          {
            assert c[k] == a[k];
          }
        }
      } else {
        var i' := i - |a|;
        assert PrintedFromEarlier(g, b, marked, i');
        var j' :| 0 <= j' < i' && PrintedFrom(g, b, marked, i', j');
        var j := j' + |a|;
        assert c[j] == b[j'] && c[i] == b[i'];
        assert c[..i] == a + b[..i'];
        assert PrintedFrom(g, c, visited, i, j) by {
          forall k, w | j < k < i && Edge(g, c[k], w)
            ensures w in visited || w in c[..i]
          {
            assert c[k] == b[k - |a|];
          }
        }
      }
    }
  }

  /** The stack of the iterative traversal (bottom first) together with, for
      each entry, the position in `order` of the vertex that pushed it (-1 for
      the start entry).  Every out-neighbour of a vertex printed after an
      entry was pushed is printed, stacked above that entry, or (for the
      vertex printed last) still pending. */
  ghost predicate StackOrder<V(!new)>(g: map<V, set<V>>, stack: seq<V>, pushers: seq<int>,
                                      order: seq<V>, pending: set<V>)
  {
    && |pushers| == |stack|
    && (order == [] ==> |stack| <= 1)
    && (forall s :: 0 <= s < |stack| ==> -1 <= pushers[s] < |order|)
    && (forall s :: 0 <= s < |stack| && order != [] ==> 0 <= pushers[s])
    && (forall s :: 0 <= s < |stack| && 0 <= pushers[s] ==> Edge(g, order[pushers[s]], stack[s]))
    && (forall s, k, w :: 0 <= s < |stack| && pushers[s] < k < |order| && Edge(g, order[k], w) ==>
          || w in order
          || w in stack[s + 1..]
          || (k == |order| - 1 && w in pending))
    && DepthFirstOrder(g, order, {})
  }

  lemma StackStart<V(!new)>(g: map<V, set<V>>, start: V)
    ensures StackOrder(g, [start], [-1], [], {})
  {
  }

  /** Popping the top entry, whose vertex is already printed, keeps the state. */
  lemma StackDrop<V(!new)>(g: map<V, set<V>>, stack: seq<V>, pushers: seq<int>, order: seq<V>)
    requires StackOrder(g, stack, pushers, order, {})
    requires |stack| > 0 && stack[|stack| - 1] in order
    ensures StackOrder(g, stack[..|stack| - 1], pushers[..|stack| - 1], order, {})
  {
    var top := |stack| - 1;
    var rest := stack[..top];
    forall s, k, w | 0 <= s < |rest| && pushers[s] < k < |order| && Edge(g, order[k], w)
      ensures w in order || w in rest[s + 1..]
    {
      assert stack[s + 1..] == rest[s + 1..] + [stack[top]];
    }
  }

  /** Popping the top entry, whose vertex cur is not yet printed, prints it
      from the vertex that pushed it; its out-neighbours become pending. */
  lemma StackVisit<V(!new)>(g: map<V, set<V>>, stack: seq<V>, pushers: seq<int>, order: seq<V>)
    requires StackOrder(g, stack, pushers, order, {})
    requires |stack| > 0 && stack[|stack| - 1] !in order && stack[|stack| - 1] in g
    ensures var cur := stack[|stack| - 1];
            StackOrder(g, stack[..|stack| - 1], pushers[..|stack| - 1], order + [cur], g[cur])
  {
    var top := |stack| - 1;
    var cur := stack[top];
    var rest := stack[..top];
    var order' := order + [cur];
    var pushers' := pushers[..top];
    if order == [] {
      assert rest == [] && pushers' == [];
      DepthFirstAppend(g, order, {}, cur, -1);
    } else {
      TopSettled(g, stack, pushers, order);
      DepthFirstAppend(g, order, {}, cur, pushers[top]);
      StackAfterVisit(g, stack, pushers, order);
      forall s | 0 <= s < |rest| && 0 <= pushers'[s]
        ensures Edge(g, order'[pushers'[s]], rest[s])
      {
        assert order'[pushers[s]] == order[pushers[s]];
      }
    }
  }

  /** Every vertex printed since the top entry was pushed has all its
      out-neighbours printed. */
  lemma TopSettled<V(!new)>(g: map<V, set<V>>, stack: seq<V>, pushers: seq<int>, order: seq<V>)
    requires StackOrder(g, stack, pushers, order, {}) && |stack| > 0
    ensures forall k, w :: pushers[|stack| - 1] < k < |order| && Edge(g, order[k], w) ==> w in order
  {
    assert stack[|stack|..] == [];
  }

  /** After the visit of StackVisit, every out-neighbour of a vertex printed
      since an entry was pushed is printed, above it, or pending. */
  lemma StackAfterVisit<V(!new)>(g: map<V, set<V>>, stack: seq<V>, pushers: seq<int>, order: seq<V>)
    requires StackOrder(g, stack, pushers, order, {})
    requires |stack| > 0 && stack[|stack| - 1] in g
    ensures var top := |stack| - 1;
            var cur := stack[top];
            forall s, k, w :: 0 <= s < top && pushers[s] < k < |order| + 1 && Edge(g, (order + [cur])[k], w) ==>
              || w in order + [cur]
              || w in stack[..top][s + 1..]
              || (k == |order| && w in g[cur])
  {
    var top := |stack| - 1;
    var cur := stack[top];
    var rest := stack[..top];
    var order' := order + [cur];
    forall s, k, w | 0 <= s < top && pushers[s] < k < |order'| && Edge(g, order'[k], w)
      ensures || w in order'
              || w in rest[s + 1..]
              || (k == |order| && w in g[cur])
    {
      if k < |order| {
        assert order'[k] == order[k];
        assert stack[s + 1..] == rest[s + 1..] + [cur];
      } else {
        assert order'[k] == cur;
      }
    }
  }

  /** Pushing a pending out-neighbour n of the vertex printed last keeps the state. */
  lemma StackPush<V(!new)>(g: map<V, set<V>>, stack: seq<V>, pushers: seq<int>,
                           order: seq<V>, pending: set<V>, n: V)
    requires StackOrder(g, stack, pushers, order, pending)
    requires |order| > 0 && n in pending && Edge(g, Last(order), n)
    ensures StackOrder(g, stack + [n], pushers + [|order| - 1], order, pending - {n})
  {
    var stack' := stack + [n];
    var pushers' := pushers + [|order| - 1];
    forall s, k, w | 0 <= s < |stack'| && pushers'[s] < k < |order| && Edge(g, order[k], w)
      ensures || w in order
              || w in stack'[s + 1..]
              || (k == |order| - 1 && w in pending - {n})
    {
      assert s < |stack|;
      assert pushers'[s] == pushers[s];
      assert stack'[s + 1..] == stack[s + 1..] + [n];
    }
  }

  /** The whole state of the iterative traversal: the frontier invariant
      shared with the breadth-first traversal, and the stack order above. */
  ghost predicate DepthTraversal<V(!new)>(g: map<V, set<V>>, start: V, stack: seq<V>, pushers: seq<int>,
                                          visited: set<V>, order: seq<V>, from: V, pending: set<V>)
  {
    TraversalState(g, start, stack, visited, order, from, pending) && StackOrder(g, stack, pushers, order, pending)
  }

  lemma DepthStart<V(!new)>(g: map<V, set<V>>, start: V)
    requires start in g
    ensures DepthTraversal(g, start, [start], [-1], {}, [], start, {})
  {
    Start(g, start);
    StackStart(g, start);
  }

  /** Popping a vertex that is already visited keeps the state. */
  lemma DepthDrop<V(!new)>(g: map<V, set<V>>, start: V, stack: seq<V>, pushers: seq<int>,
                           visited: set<V>, order: seq<V>, from: V)
    requires DepthTraversal(g, start, stack, pushers, visited, order, from, {})
    requires |stack| > 0 && stack[|stack| - 1] in visited
    ensures DepthTraversal(g, start, stack[..|stack| - 1], pushers[..|stack| - 1], visited, order, from, {})
  {
    var k := |stack| - 1;
    assert stack[..k] == stack[..k] + stack[k + 1..];
    RemoveAt(stack, k);
    DropVisited(g, start, stack, stack[..k], visited, order, from, stack[k]);
    StackDrop(g, stack, pushers, order);
  }

  /** Popping an unvisited vertex prints it; its out-neighbours become pending. */
  lemma DepthVisit<V(!new)>(g: map<V, set<V>>, start: V, stack: seq<V>, pushers: seq<int>,
                            visited: set<V>, order: seq<V>, from: V)
    requires DepthTraversal(g, start, stack, pushers, visited, order, from, {})
    requires |stack| > 0 && stack[|stack| - 1] !in visited
    ensures var k := |stack| - 1;
            var cur := stack[k];
            && cur in g
            && DepthTraversal(g, start, stack[..k], pushers[..k], visited + {cur}, order + [cur], cur, g[cur])
  {
    var k := |stack| - 1;
    assert stack[..k] == stack[..k] + stack[k + 1..];
    RemoveAt(stack, k);
    VisitNew(g, start, stack, stack[..k], visited, order, from, stack[k]);
    StackVisit(g, stack, pushers, order);
  }

  /** Pushing one pending out-neighbour of the vertex printed last keeps the state. */
  lemma DepthPush<V(!new)>(g: map<V, set<V>>, start: V, stack: seq<V>, pushers: seq<int>,
                           visited: set<V>, order: seq<V>, from: V, pending: set<V>, n: V)
    requires NeighboursAreVertices(g)
    requires DepthTraversal(g, start, stack, pushers, visited, order, from, pending)
    requires n in pending
    ensures DepthTraversal(g, start, stack + [n], pushers + [|order| - 1], visited, order, from, pending - {n})
  {
    PushPending(g, start, stack, visited, order, from, pending, n);
    StackPush(g, stack, pushers, order, pending, n);
  }

  /** With the stack empty, every vertex reachable from start has been
      printed, once, in depth-first order. */
  lemma DepthFinish<V(!new)>(g: map<V, set<V>>, start: V, pushers: seq<int>, visited: set<V>,
                             order: seq<V>, from: V)
    requires DepthTraversal(g, start, [], pushers, visited, order, from, {})
    ensures |order| > 0 && order[0] == start && Distinct(order)
    ensures forall v :: v in order <==> Reachable(g, start, v)
    ensures HasEarlierParents(g, order) && DepthFirstOrder(g, order, {})
  {
    Finish(g, start, visited, order, from);
  }
}
