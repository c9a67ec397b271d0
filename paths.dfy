/** Walks and reachability in a directed graph given as an adjacency map
    from each vertex to the set of its out-neighbours. */
module Paths {

  /** The absent-or-present result of a path search (Python's `None` or a list). */
  datatype Option<T> = None | Some(value: T)

  function Last<V>(p: seq<V>): V
    requires |p| > 0
  {
    p[|p| - 1]
  }

  /** u -> v is an edge of g. */
  predicate Edge<V(==)>(g: map<V, set<V>>, u: V, v: V)
  {
    u in g && v in g[u]
  }

  /** Every out-neighbour is itself a vertex (the class invariant of a graph). */
  predicate NeighboursAreVertices<V(==)>(g: map<V, set<V>>)
  {
    forall u, v :: u in g && v in g[u] ==> v in g
  }

  /** p is a non-empty walk: each consecutive pair is an edge. */
  predicate IsPath<V(==)>(g: map<V, set<V>>, p: seq<V>)
  {
    |p| > 0 && forall i :: 0 <= i < |p| - 1 ==> Edge(g, p[i], p[i + 1])
  }

  predicate IsPathFrom<V(==)>(g: map<V, set<V>>, p: seq<V>, s: V)
  {
    IsPath(g, p) && p[0] == s
  }

  predicate IsPathFromTo<V(==)>(g: map<V, set<V>>, p: seq<V>, s: V, d: V)
  {
    IsPath(g, p) && p[0] == s && Last(p) == d
  }

  /** No vertex of p after the first lies in avoid. */
  predicate Avoids<V(==)>(p: seq<V>, avoid: set<V>)
  {
    forall i :: 1 <= i < |p| ==> p[i] !in avoid
  }

  /** No element occurs twice in s. */
  predicate Distinct<V(==)>(s: seq<V>)
  {
    forall i, j :: 0 <= i < j < |s| ==> s[i] != s[j]
  }

  ghost predicate Reachable<V(!new)>(g: map<V, set<V>>, s: V, d: V)
  {
    exists p :: IsPathFromTo(g, p, s, d)
  }

  /** d is reached from s by a walk that, after leaving s, never enters avoid. */
  ghost predicate ReachableAvoiding<V(!new)>(g: map<V, set<V>>, s: V, d: V, avoid: set<V>)
  {
    exists p :: IsPathFromTo(g, p, s, d) && Avoids(p, avoid)
  }

  /** Every out-neighbour of a vertex of from lies in within. */
  ghost predicate ClosedUnder<V(!new)>(g: map<V, set<V>>, from: set<V>, within: set<V>)
  {
    forall u, v :: u in from && Edge(g, u, v) ==> v in within
  }

  /** u is no farther from s than v: every walk from s to v is matched by a
      walk from s to u with no more vertices. */
  ghost predicate NoFartherThan<V(!new)>(g: map<V, set<V>>, s: V, u: V, v: V)
  {
    forall p :: IsPathFromTo(g, p, s, v) ==> exists q :: IsPathFromTo(g, q, s, u) && |q| <= |p|
  }

  lemma PathExtend<V(!new)>(g: map<V, set<V>>, p: seq<V>, s: V, v: V)
    requires IsPathFrom(g, p, s) && Edge(g, Last(p), v)
    ensures IsPathFromTo(g, p + [v], s, v)
  {
    var q := p + [v];
    forall i | 0 <= i < |q| - 1
      ensures Edge(g, q[i], q[i + 1])
    {
      if i < |p| - 1 {
        assert q[i] == p[i] && q[i + 1] == p[i + 1];
      }
    }
  }

  lemma PathPrefix<V(!new)>(g: map<V, set<V>>, p: seq<V>, k: nat)
    requires IsPath(g, p) && 0 < k <= |p|
    ensures IsPathFromTo(g, p[..k], p[0], p[k - 1])
  {
  }

  lemma ReachableStep<V(!new)>(g: map<V, set<V>>, s: V, u: V, v: V)
    requires Reachable(g, s, u) && Edge(g, u, v)
    ensures Reachable(g, s, v)
  {
    var p :| IsPathFromTo(g, p, s, u);
    PathExtend(g, p, s, v);
  }

  /** Prefixing an edge s -> q[0] to a walk q that starts outside w and then
      avoids w gives a walk from s that avoids every subset of w. */
  lemma PrependAvoiding<V(!new)>(g: map<V, set<V>>, s: V, q: seq<V>, w: set<V>, avoid: set<V>)
    requires IsPath(g, q) && Edge(g, s, q[0]) && q[0] !in w && Avoids(q, w) && avoid <= w
    ensures IsPathFromTo(g, [s] + q, s, Last(q)) && Avoids([s] + q, avoid)
  {
    var p := [s] + q;
    forall i | 0 <= i < |p| - 1
      ensures Edge(g, p[i], p[i + 1])
    {
      if i > 0 {
        assert p[i] == q[i - 1] && p[i + 1] == q[i];
      }
    }
    forall i | 1 <= i < |p|
      ensures p[i] !in avoid
    {
      assert p[i] == q[i - 1];
    }
  }

  lemma ReachableAvoidingPrepend<V(!new)>(g: map<V, set<V>>, s: V, n: V, d: V, w: set<V>, avoid: set<V>)
    requires Edge(g, s, n) && n !in w && avoid <= w && ReachableAvoiding(g, n, d, w)
    ensures ReachableAvoiding(g, s, d, avoid)
  {
    var q :| IsPathFromTo(g, q, n, d) && Avoids(q, w);
    PrependAvoiding(g, s, q, w, avoid);
  }

  /** Without an avoided set, avoiding reachability is plain reachability. */
  lemma ReachableAvoidingNothing<V(!new)>(g: map<V, set<V>>, s: V, d: V)
    ensures ReachableAvoiding(g, s, d, {}) <==> Reachable(g, s, d)
  {
    if Reachable(g, s, d) {
      var p :| IsPathFromTo(g, p, s, d);
      assert Avoids(p, {});
    }
  }

  /** A walk that starts in a closed region and avoids `avoid` after its start
      ends in the new part of the region or back at its start. */
  lemma {:induction false} ClosedWalk<V(!new)>(g: map<V, set<V>>, p: seq<V>, avoid: set<V>, w: set<V>)
    requires IsPath(g, p) && Avoids(p, avoid) && p[0] in w
    requires ClosedUnder(g, (w - avoid) + {p[0]}, w)
    ensures Last(p) in (w - avoid) + {p[0]}
  {
    if |p| > 1 {
      var q := p[..|p| - 1];
      assert IsPath(g, q) && Avoids(q, avoid) && q[0] == p[0];
      ClosedWalk(g, q, avoid, w);
      assert Edge(g, Last(q), Last(p)) by {
        assert Last(q) == p[|p| - 2];
      }
    }
  }

  /** Everything reachable from s while avoiding `avoid` lies in any region
      that contains s and is closed under edges out of its part outside `avoid`. */
  lemma ClosedContainsReachableAvoiding<V(!new)>(g: map<V, set<V>>, s: V, avoid: set<V>, w: set<V>, d: V)
    requires s in w
    requires ClosedUnder(g, (w - avoid) + {s}, w)
    requires ReachableAvoiding(g, s, d, avoid)
    ensures d in (w - avoid) + {s}
  {
    var p :| IsPathFromTo(g, p, s, d) && Avoids(p, avoid);
    ClosedWalk(g, p, avoid, w);
  }

  /** A set that contains s and is closed under edges contains everything reachable from s. */
  lemma ClosedContainsReachable<V(!new)>(g: map<V, set<V>>, s: V, w: set<V>, d: V)
    requires s in w && ClosedUnder(g, w, w)
    requires Reachable(g, s, d)
    ensures d in w
  {
    ReachableAvoidingNothing(g, s, d);
    assert (w - {}) + {s} == w;
    ClosedContainsReachableAvoiding(g, s, {}, w, d);
  }

  /** In a graph whose neighbours are vertices, whatever a vertex reaches is a vertex. */
  lemma ReachableIsVertex<V(!new)>(g: map<V, set<V>>, s: V, d: V)
    requires NeighboursAreVertices(g) && s in g && Reachable(g, s, d)
    ensures d in g
  {
    assert ClosedUnder(g, g.Keys, g.Keys);
    ClosedContainsReachable(g, s, g.Keys, d);
  }

  /** The sum of two duplicate-free sequences with no common element is duplicate-free. */
  lemma DistinctConcat<V>(a: seq<V>, b: seq<V>)
    requires Distinct(a) && Distinct(b)
    requires forall x :: x in a ==> x !in b
    ensures Distinct(a + b)
  {
    forall i, j | 0 <= i < j < |a + b|
      ensures (a + b)[i] != (a + b)[j]
    {
      if j < |a| {
      } else if i >= |a| {
        assert (a + b)[i] == b[i - |a|] && (a + b)[j] == b[j - |a|];
      } else {
        assert (a + b)[i] == a[i] && (a + b)[j] == b[j - |a|];
        assert a[i] in a;
      }
    }
  }
}
