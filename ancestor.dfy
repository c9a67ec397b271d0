/** The furthest ancestor of a node in a parent/child relation
    (projects/ancestor/ancestor.py, earliest_ancestor).  The relation is a
    sequence of (parent, child) pairs of integer identifiers; the search
    climbs one generation at a time, each generation being every recorded
    parent of the previous one, and answers the smallest identifier of the
    last non-empty generation, or -1 when the node has no recorded parent. */
module Ancestor {
  import opened Paths

  /** The nodes recorded as a child. */
  function Children(pairs: seq<(int, int)>): set<int>
  {
    set i | 0 <= i < |pairs| :: pairs[i].1
  }

  /** The parents recorded for child c, in the order of the pairs, repeats kept. */
  function ParentsOf(pairs: seq<(int, int)>, c: int): (ps: seq<int>)
    ensures forall x :: x in ps <==> (x, c) in pairs
    ensures |ps| > 0 <==> c in Children(pairs)
  {
    if |pairs| == 0 then []
    else
      var init, last := pairs[..|pairs| - 1], pairs[|pairs| - 1];
      assert pairs == init + [last];
      assert forall i :: 0 <= i < |init| ==> init[i] == pairs[i];
      ParentsOf(init, c) + (if last.1 == c then [last.0] else [])
  }

  /** One generation up: every recorded parent of a member of s. */
  function Parents(pairs: seq<(int, int)>, s: set<int>): set<int>
  {
    set i | 0 <= i < |pairs| && pairs[i].1 in s :: pairs[i].0
  }

  /** The k-th generation above start. */
  function Level(pairs: seq<(int, int)>, start: int, k: nat): set<int>
  {
    if k == 0 then {start} else Parents(pairs, Level(pairs, start, k - 1))
  }

  /** ch climbs from ch[0] one recorded child -> parent step at a time. */
  ghost predicate IsParentChain(pairs: seq<(int, int)>, start: int, ch: seq<int>)
  {
    |ch| > 0 && ch[0] == start && forall i :: 0 <= i < |ch| - 1 ==> (ch[i + 1], ch[i]) in pairs
  }

  /** No chain of parents climbing from start ever meets the same node twice. */
  ghost predicate NoCycleAbove(pairs: seq<(int, int)>, start: int)
  {
    forall ch :: IsParentChain(pairs, start, ch) ==> Distinct(ch)
  }

  /** Builds the child -> parents map: every recorded child is a key, mapped
      to its parents in the order of the pairs. */
  method BuildAncestorTree(pairs: seq<(int, int)>) returns (tree: map<int, seq<int>>)
    ensures tree.Keys == Children(pairs)
    ensures forall c :: c in tree ==> |tree[c]| > 0 && tree[c] == ParentsOf(pairs, c)
  {
    tree := map[];
    for i := 0 to |pairs|
      invariant tree.Keys == Children(pairs[..i])
      invariant forall c :: c in tree ==> tree[c] == ParentsOf(pairs[..i], c)
    {
      var parent, child := pairs[i].0, pairs[i].1;
      PairsStep(pairs, i);
      if child !in tree {
        tree := tree[child := [parent]];
      } else {
        tree := tree[child := tree[child] + [parent]];
      }
      forall c | c in tree
        ensures tree[c] == ParentsOf(pairs[..i + 1], c)
      {
        assert ParentsOf(pairs[..i + 1], c) ==
          ParentsOf(pairs[..i], c) + (if child == c then [parent] else []);
      }
    }
    assert pairs[..|pairs|] == pairs;
  }

  /** One more pair adds its child to the recorded children and its parent
      to the end of that child's parents, and changes nothing else. */
  lemma PairsStep(pairs: seq<(int, int)>, i: nat)
    requires i < |pairs|
    ensures Children(pairs[..i + 1]) == Children(pairs[..i]) + {pairs[i].1}
    ensures forall c :: ParentsOf(pairs[..i + 1], c) ==
              ParentsOf(pairs[..i], c) + (if pairs[i].1 == c then [pairs[i].0] else [])
  {
    var pre, next := pairs[..i], pairs[..i + 1];
    assert next[..i] == pre && next[i] == pairs[i];
    forall c | c in Children(next)
      ensures c in Children(pre) + {pairs[i].1}
    {
      var j :| 0 <= j < i + 1 && next[j].1 == c;
      if j < i {
        assert pre[j].1 == c;
      }
    }
    forall c | c in Children(pre)
      ensures c in Children(next)
    {
      var j :| 0 <= j < i && pre[j].1 == c;
      assert next[j].1 == c;
    }
    assert next[i].1 == pairs[i].1;
  }

  /** Collecting the parents of one more child. */
  lemma ParentsAdd(pairs: seq<(int, int)>, s: set<int>, c: int)
    ensures Parents(pairs, s + {c}) == Parents(pairs, s) + set x | x in ParentsOf(pairs, c)
  {
    forall x | x in Parents(pairs, s + {c})
      ensures x in Parents(pairs, s) || x in ParentsOf(pairs, c)
    {
      var i :| 0 <= i < |pairs| && pairs[i].1 in s + {c} && pairs[i].0 == x;
      if pairs[i].1 == c {
        assert (x, c) == pairs[i];
      }
    }
    forall x | x in ParentsOf(pairs, c)
      ensures x in Parents(pairs, s + {c})
    {
      var i :| 0 <= i < |pairs| && pairs[i] == (x, c);
    }
  }

  /** Once a generation is empty, every later one is. */
  lemma {:induction false} EmptyStaysEmpty(pairs: seq<(int, int)>, start: int, j: nat, k: nat)
    requires j <= k && Level(pairs, start, j) == {}
    ensures Level(pairs, start, k) == {}
  {
    if j < k {
      EmptyStaysEmpty(pairs, start, j, k - 1);
      assert Parents(pairs, {}) == {};
    }
  }

  /** Every member of the k-th generation ends a chain of k steps from start. */
  lemma {:induction false} LevelHasChain(pairs: seq<(int, int)>, start: int, k: nat, x: int) returns (ch: seq<int>)
    requires x in Level(pairs, start, k)
    ensures IsParentChain(pairs, start, ch) && |ch| == k + 1 && Last(ch) == x
  {
    if k == 0 {
      ch := [start];
    } else {
      var i :| 0 <= i < |pairs| && pairs[i].1 in Level(pairs, start, k - 1) && pairs[i].0 == x;
      var prev := LevelHasChain(pairs, start, k - 1, pairs[i].1);
      ch := prev + [x];
      assert (x, Last(prev)) == pairs[i];
      forall j | 0 <= j < |ch| - 1
        ensures (ch[j + 1], ch[j]) in pairs
      {
        if j < |prev| - 1 {
          assert ch[j] == prev[j] && ch[j + 1] == prev[j + 1];
        }
      }
    }
  }

  /** The end of a chain of k steps from start is in the k-th generation. */
  lemma {:induction false} ChainInLevel(pairs: seq<(int, int)>, start: int, ch: seq<int>)
    requires IsParentChain(pairs, start, ch)
    ensures Last(ch) in Level(pairs, start, |ch| - 1)
  {
    if |ch| > 1 {
      var prev := ch[..|ch| - 1];
      assert IsParentChain(pairs, start, prev);
      ChainInLevel(pairs, start, prev);
      var i :| 0 <= i < |pairs| && pairs[i] == (Last(ch), Last(prev));
    }
  }

  /** The nodes a chain from start can meet: start and the recorded parents. */
  function Nodes(pairs: seq<(int, int)>, start: int): set<int>
  {
    {start} + set i | 0 <= i < |pairs| :: pairs[i].0
  }

  /** A sequence without repeats drawn from s is no longer than s is large. */
  lemma {:induction false} DistinctBound(ch: seq<int>, s: set<int>)
    requires Distinct(ch) && forall i :: 0 <= i < |ch| ==> ch[i] in s
    ensures |ch| <= |s|
  {
    if |ch| > 0 {
      var init := ch[..|ch| - 1];
      forall i | 0 <= i < |init|
        ensures init[i] in s - {Last(ch)}
      {
        assert init[i] == ch[i];
      }
      DistinctBound(init, s - {Last(ch)});
    }
  }

  /** Without a cycle above start the climb runs out of parents: the
      generation numbered by the count of nodes is empty. */
  lemma AcyclicWalkEnds(pairs: seq<(int, int)>, start: int)
    requires NoCycleAbove(pairs, start)
    ensures Level(pairs, start, |Nodes(pairs, start)|) == {}
  {
    var n := |Nodes(pairs, start)|;
    forall x | x in Level(pairs, start, n)
      ensures false
    {
      var ch := LevelHasChain(pairs, start, n, x);
      forall i | 0 <= i < |ch|
        ensures ch[i] in Nodes(pairs, start)
      {
        if i > 0 {
          var j :| 0 <= j < |pairs| && pairs[j] == (ch[i], ch[i - 1]);
        }
      }
      DistinctBound(ch, Nodes(pairs, start));
    }
  }

  /** On a chain from start that returns to ch[a] at index b, the climb keeps
      visiting the cycle ch[a..b]: from generation a on, every generation
      holds one of its nodes. */
  lemma {:induction false} CycleLevel(pairs: seq<(int, int)>, start: int, ch: seq<int>, a: nat, b: nat, m: nat)
      returns (t: nat)
    requires IsParentChain(pairs, start, ch) && a < b < |ch| && ch[a] == ch[b]
    requires a <= m
    ensures t < b - a && ch[a + t] in Level(pairs, start, m)
  {
    if m == a {
      t := 0;
      assert IsParentChain(pairs, start, ch[..a + 1]);
      ChainInLevel(pairs, start, ch[..a + 1]);
    } else {
      var s := CycleLevel(pairs, start, ch, a, b, m - 1);
      t := if s + 1 < b - a then s + 1 else 0;
      assert ch[a + t] == ch[a + s + 1];
      var i :| 0 <= i < |pairs| && pairs[i] == (ch[a + s + 1], ch[a + s]);
    }
  }

  /** A cycle above start means no generation is ever empty. */
  lemma CycleWalkNeverEnds(pairs: seq<(int, int)>, start: int, k: nat)
    requires !NoCycleAbove(pairs, start)
    ensures Level(pairs, start, k) != {}
  {
    var ch :| IsParentChain(pairs, start, ch) && !Distinct(ch);
    var a, b :| 0 <= a < b < |ch| && ch[a] == ch[b];
    if k < a {
      assert IsParentChain(pairs, start, ch[..k + 1]);
      ChainInLevel(pairs, start, ch[..k + 1]);
    } else {
      var t := CycleLevel(pairs, start, ch, a, b, k);
    }
  }

  /** The climb of earliest_ancestor ends exactly when there is no cycle above start. */
  lemma WalkEndsIffAcyclic(pairs: seq<(int, int)>, start: int)
    ensures (exists k: nat :: Level(pairs, start, k) == {}) <==> NoCycleAbove(pairs, start)
  {
    if NoCycleAbove(pairs, start) {
      AcyclicWalkEnds(pairs, start);
    } else {
      forall k: nat
        ensures Level(pairs, start, k) != {}
      {
        CycleWalkNeverEnds(pairs, start, k);
      }
    }
  }

  /** A last non-empty generation is the deepest: there is exactly one. */
  lemma FinalLevelIsDeepest(pairs: seq<(int, int)>, start: int, k: nat, j: nat)
    requires Level(pairs, start, k) != {} && Level(pairs, start, k + 1) == {}
    ensures Level(pairs, start, j) != {} <==> j <= k
  {
    if j > k {
      EmptyStaysEmpty(pairs, start, k + 1, j);
    } else if Level(pairs, start, j) == {} {
      EmptyStaysEmpty(pairs, start, j, k);
    }
  }

  /** A recorded child has a recorded parent: the first generation above it is not empty. */
  lemma StartHasParent(pairs: seq<(int, int)>, start: int)
    requires start in Children(pairs)
    ensures Level(pairs, start, 1) != {}
  {
    var i :| 0 <= i < |pairs| && pairs[i].1 == start;
    assert pairs[i].0 in Parents(pairs, {start});
  }

  /** Every member of the last non-empty generation above start is a recorded
      parent and has no recorded parent of its own. */
  lemma LastLevelIsRoots(pairs: seq<(int, int)>, start: int, k: nat)
    requires k >= 1 && Level(pairs, start, k + 1) == {}
    ensures forall x :: x in Level(pairs, start, k) ==> x !in Children(pairs)
    ensures forall x :: x in Level(pairs, start, k) ==> exists i :: 0 <= i < |pairs| && pairs[i].0 == x
  {
    var top := Level(pairs, start, k);
    forall i | 0 <= i < |pairs|
      ensures pairs[i].1 !in top
    {
      var (parent, child) := pairs[i];
      assert child in top ==> parent in Parents(pairs, top);
    }
  }

  /** When every recorded parent is smaller than its child, no chain repeats a node. */
  lemma RankedIsAcyclic(pairs: seq<(int, int)>, start: int)
    requires forall i :: 0 <= i < |pairs| ==> pairs[i].0 < pairs[i].1
    ensures NoCycleAbove(pairs, start)
  {
    forall ch | IsParentChain(pairs, start, ch)
      ensures Distinct(ch)
    {
      ChainDecreases(pairs, start, ch);
    }
  }

  lemma {:induction false} ChainDecreases(pairs: seq<(int, int)>, start: int, ch: seq<int>)
    requires forall i :: 0 <= i < |pairs| ==> pairs[i].0 < pairs[i].1
    requires IsParentChain(pairs, start, ch)
    ensures forall i, j :: 0 <= i < j < |ch| ==> ch[j] < ch[i]
  {
    if |ch| > 1 {
      var prev := ch[..|ch| - 1];
      assert IsParentChain(pairs, start, prev);
      ChainDecreases(pairs, start, prev);
      var k :| 0 <= k < |pairs| && pairs[k] == (Last(ch), Last(prev));
      forall i, j | 0 <= i < j < |ch|
        ensures ch[j] < ch[i]
      {
        if j < |ch| - 1 {
          assert ch[i] == prev[i] && ch[j] == prev[j];
        } else if i < |ch| - 2 {
          assert ch[i] == prev[i] && ch[|ch| - 2] == prev[|ch| - 2];
        }
      }
    }
  }

  /** Python's iteration over a set: some member, in no specified order. */
  method Pick<T>(s: set<T>) returns (x: T)
    requires s != {}
    ensures x in s
  {
    x :| x in s;
  }

  /** m is the smallest member of s. */
  predicate IsMin(m: int, s: set<int>)
  {
    m in s && forall x :: x in s ==> m <= x
  }

  /** The smallest member of a non-empty set. */
  method Min(s: set<int>) returns (m: int)
    requires s != {}
    ensures IsMin(m, s)
  {
    m := Pick(s);
    var rest := s - {m};
    while rest != {}
      invariant m in s && rest <= s
      invariant forall x :: x in s && x !in rest ==> m <= x
      decreases rest
    {
      var x := Pick(rest);
      if x < m {
        m := x;
      }
      rest := rest - {x};
    }
  }

  /** tree maps every recorded child, and nothing else, to its parents. */
  ghost predicate IsAncestorTree(pairs: seq<(int, int)>, tree: map<int, seq<int>>)
  {
    tree.Keys == Children(pairs) && forall c :: c in tree ==> tree[c] == ParentsOf(pairs, c)
  }

  /** One generation up, read from the tree: the union of the recorded
      parents of every member of children. */
  method CollectParents(pairs: seq<(int, int)>, tree: map<int, seq<int>>, children: set<int>)
      returns (parents: set<int>)
    requires IsAncestorTree(pairs, tree)
    ensures parents == Parents(pairs, children)
  {
    parents := {};
    var todo := children;
    while todo != {}
      invariant todo <= children
      invariant parents == Parents(pairs, children - todo)
      decreases todo
    {
      var c := Pick(todo);
      ParentsAdd(pairs, children - todo, c);
      assert children - todo + {c} == children - (todo - {c});
      if c in tree {
        var ps := tree[c];
        for j := 0 to |ps|
          invariant parents == Parents(pairs, children - todo) + set x | x in ps[..j]
        {
          assert ps[..j + 1] == ps[..j] + [ps[j]];
          parents := parents + {ps[j]};
        }
        assert ps[..|ps|] == ps;
      } else {
        assert ParentsOf(pairs, c) == [];
      }
      todo := todo - {c};
    }
    assert children - todo == children;
  }

  /** earliest_ancestor: -1 when start has no recorded parent; otherwise the
      smallest node of the last non-empty generation above start, which is
      a recorded parent that has no recorded parent of its own. */
  method EarliestAncestor(pairs: seq<(int, int)>, start: int) returns (r: int)
    requires NoCycleAbove(pairs, start)
    ensures start !in Children(pairs) ==> r == -1
    ensures start in Children(pairs) ==>
              exists k: nat :: k >= 1 && Level(pairs, start, k + 1) == {} && IsMin(r, Level(pairs, start, k))
    ensures start in Children(pairs) ==> r !in Children(pairs) && exists i :: 0 <= i < |pairs| && pairs[i].0 == r
    ensures start in Children(pairs) ==> exists ch :: IsParentChain(pairs, start, ch) && |ch| >= 2 && Last(ch) == r
  {
    var tree := BuildAncestorTree(pairs);
    if start !in tree {
      return -1;
    }
    AcyclicWalkEnds(pairs, start);
    ghost var bound := |Nodes(pairs, start)|;
    var children := {start};
    var parents: set<int> := {};
    var furthest := false;
    ghost var k: nat := 0;
    while !furthest
      invariant children == Level(pairs, start, k) && children != {}
      invariant parents == {} && k < bound
      decreases bound - k
    {
      parents := CollectParents(pairs, tree, children);
      if k == 0 {
        StartHasParent(pairs, start);
      }
      if parents == {} {
        furthest := true;
        break;
      }
      assert k + 1 < bound;
      children := parents;
      parents := {};
      k := k + 1;
    }
    r := Min(children);
    assert k >= 1 && Level(pairs, start, k + 1) == {} && IsMin(r, Level(pairs, start, k));
    LastLevelIsRoots(pairs, start, k);
    var ch := LevelHasChain(pairs, start, k, r);
  }
}
