/** earliest_ancestor (projects/ancestor/ancestor.py) on a small family:
    1 and 2 are the parents of 3, 3 of 5, and 5 of 8 and 9. */
module AncestorDemo {
  import opened Paths
  import opened Ancestor

  const Family: seq<(int, int)> := [(1, 3), (2, 3), (3, 5), (5, 8), (5, 9)]

  /** Climbing from 8: {5}, then {3}, then {1, 2}, then nothing. */
  lemma FamilyLevels()
    ensures Level(Family, 8, 1) == {5}
    ensures Level(Family, 8, 2) == {3}
    ensures Level(Family, 8, 3) == {1, 2}
    ensures Level(Family, 8, 4) == {}
  {
    assert Level(Family, 8, 0) == {8};
    assert Family[3] == (5, 8);
    assert Level(Family, 8, 1) == {5};
    assert Family[2] == (3, 5);
    assert Level(Family, 8, 2) == {3};
    assert Family[0] == (1, 3) && Family[1] == (2, 3);
    assert Level(Family, 8, 3) == {1, 2};
  }

  /** The earliest ancestor of 8 is 1: the smaller of the two nodes three
      generations up. */
  method EarliestOfEight() returns (r: int)
    ensures r == 1
  {
    RankedIsAcyclic(Family, 8);
    r := EarliestAncestor(Family, 8);
    assert Family[3].1 == 8;
    FamilyLevels();
    ghost var k: nat :| k >= 1 && Level(Family, 8, k + 1) == {} && IsMin(r, Level(Family, 8, k));
    FinalLevelIsDeepest(Family, 8, 3, k);
    FinalLevelIsDeepest(Family, 8, k, 3);
  }

  /** 1 has no recorded parent, so the answer is the sentinel -1. */
  method EarliestOfOne() returns (r: int)
    ensures r == -1
  {
    RankedIsAcyclic(Family, 1);
    r := EarliestAncestor(Family, 1);
  }

  /** With 1 and 2 each recorded as the other's parent, the climb from 1
      never runs out of parents, so earliest_ancestor would loop forever. */
  lemma MutualParentsNeverEnd(k: nat)
    ensures Level([(1, 2), (2, 1)], 1, k) != {}
  {
    var pairs := [(1, 2), (2, 1)];
    var ch := [1, 2, 1];
    assert IsParentChain(pairs, 1, ch);
    assert ch[0] == ch[2];
    CycleWalkNeverEnds(pairs, 1, k);
  }
}
