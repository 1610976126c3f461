/**
 A concrete tree: init (1) has child R = 100; R has children C1 = 101 (running)
 and C2 = 102 (defunct); C1 has child G1 = 103. The listing has them in pid order.
 */
module Scenario {
  import opened ProcTable
  import opened Queries
  import opened Signals
  import opened Command

  const Tree: Table := map[
    1 := Rec(0, 'S'),
    100 := Rec(1, 'S'),
    101 := Rec(100, 'S'),
    102 := Rec(100, 'Z'),
    103 := Rec(101, 'S')
  ]

  const Listing: seq<int> := [1, 100, 101, 102, 103]

  lemma ScenarioAncestry()
    ensures IsDescendant(Tree, 100, 101) && IsDescendant(Tree, 100, 102) && IsDescendant(Tree, 100, 103)
    ensures !IsDescendant(Tree, 100, 100) && !IsDescendant(Tree, 100, 1)
    ensures IsDescendant(Tree, 101, 103) && !IsDescendant(Tree, 101, 102)
  {
    DescendantCases(Tree, 100, 101);
    DescendantCases(Tree, 100, 102);
    DescendantCases(Tree, 100, 103);
    DescendantCases(Tree, 100, 100);
    DescendantCases(Tree, 100, 1);
    DescendantCases(Tree, 100, 0);
    DescendantCases(Tree, 101, 103);
    DescendantCases(Tree, 101, 102);
    DescendantCases(Tree, 101, 100);
  }

  function Keep(t: Table, f: Filter, x: int): seq<int>
  {
    if Matches(t, f, x) then [x] else []
  }

  lemma ListingScan(t: Table, f: Filter)
    ensures Scan(t, Listing, f) == Keep(t, f, 1) + Keep(t, f, 100) + Keep(t, f, 101) + Keep(t, f, 102) + Keep(t, f, 103)
  {
    assert [] + [1] == [1];
    assert [1] + [100] == [1, 100];
    assert [1, 100] + [101] == [1, 100, 101];
    assert [1, 100, 101] + [102] == [1, 100, 101, 102];
    assert [1, 100, 101, 102] + [103] == Listing;
    ScanSnoc(t, [], 1, f);
    ScanSnoc(t, [1], 100, f);
    ScanSnoc(t, [1, 100], 101, f);
    ScanSnoc(t, [1, 100, 101], 102, f);
    ScanSnoc(t, [1, 100, 101, 102], 103, f);
  }

  /** The scenario's query results, in listing order. */
  lemma ScenarioDescendants()
    ensures Scan(Tree, Listing, DescendantOf(100, false)) == [101, 102, 103]
  {
    var f := DescendantOf(100, false);
    assert Keep(Tree, f, 1) == [] && Keep(Tree, f, 100) == [] && Keep(Tree, f, 101) == [101]
        && Keep(Tree, f, 102) == [102] && Keep(Tree, f, 103) == [103] by {
      ScenarioAncestry();
    }
    ListingScan(Tree, f);
  }

  lemma ScenarioTargets()
    ensures Scan(Tree, Listing, SignalTargetOf(100)) == [101, 102, 103]
  {
    var f := SignalTargetOf(100);
    assert Keep(Tree, f, 1) == [] && Keep(Tree, f, 100) == [] && Keep(Tree, f, 101) == [101]
        && Keep(Tree, f, 102) == [102] && Keep(Tree, f, 103) == [103] by {
      ScenarioAncestry();
    }
    ListingScan(Tree, f);
  }

  lemma ScenarioZombies()
    ensures Scan(Tree, Listing, DescendantOf(100, true)) == [102]
  {
    ScenarioAncestry();
    ListingScan(Tree, DescendantOf(100, true));
  }

  lemma ScenarioChildren()
    ensures Scan(Tree, Listing, ChildOf(100)) == [101, 102]
  {
    var f := ChildOf(100);
    ListingScan(Tree, f);
    assert Keep(Tree, f, 1) == [] && Keep(Tree, f, 100) == [];
    assert Keep(Tree, f, 101) == [101] && Keep(Tree, f, 102) == [102] && Keep(Tree, f, 103) == [];
  }

  lemma ScenarioChildrenOfChildren()
    ensures Scan(Tree, Listing, ChildOf(101)) == [103]
    ensures Scan(Tree, Listing, ChildOf(102)) == []
  {
    ListingScan(Tree, ChildOf(101));
    ListingScan(Tree, ChildOf(102));
  }

  lemma ScenarioNonDirect()
    ensures Scan(Tree, Listing, NonDirectOf(100)) == [103]
  {
    ScenarioAncestry();
    ListingScan(Tree, NonDirectOf(100));
  }

  lemma ScenarioSiblings()
    ensures Scan(Tree, Listing, SiblingOf(101, 100, false)) == [102]
    ensures Scan(Tree, Listing, SiblingOf(101, 100, true)) == [102]
    ensures ProcessStatus(Tree, 102) == Defunct && ProcessStatus(Tree, 101) == NotDefunct
  {
    ListingScan(Tree, SiblingOf(101, 100, false));
    ListingScan(Tree, SiblingOf(101, 100, true));
  }

  /** The outer scan up to 101: only 101's child 103 so far. */
  lemma GrandchildPrefix()
    ensures GrandchildScan(Tree, [1, 100, 101], Listing, 100) == [103]
  {
    assert !IsImmediateChild(Tree, 100, 1) && !IsImmediateChild(Tree, 100, 100) && IsImmediateChild(Tree, 100, 101);
    ScenarioChildrenOfChildren();
    var a, b, c := [1], [1, 100], [1, 100, 101];
    assert a == [] + [1] && b == a + [100] && c == b + [101];
    GrandchildSnoc(Tree, [], 1, Listing, 100);
    GrandchildSnoc(Tree, a, 100, Listing, 100);
    assert GrandchildScan(Tree, b, Listing, 100) == [];
    GrandchildSnoc(Tree, b, 101, Listing, 100);
  }

  lemma ScenarioGrandchildren()
    ensures GrandchildScan(Tree, Listing, Listing, 100) == [103]
  {
    assert IsImmediateChild(Tree, 100, 102) && !IsImmediateChild(Tree, 100, 103);
    ScenarioChildrenOfChildren();
    GrandchildPrefix();
    var c, d := [1, 100, 101], [1, 100, 101, 102];
    assert d == c + [102] && Listing == d + [103];
    GrandchildSnoc(Tree, c, 102, Listing, 100);
    assert GrandchildScan(Tree, d, Listing, 100) == [103];
    GrandchildSnoc(Tree, d, 103, Listing, 100);
  }

  /** Killing the zombies' parents under R sends exactly one SIGKILL, to R, and none to C2. */
  lemma ScenarioReap()
    ensures ReapLog(Tree, Listing, 100, {100}) == [Send(100, SIGKILL, true)]
  {
    ScenarioZombies();
    ReapLogFollowsZombies(Tree, Listing, 100, {100});
  }

  /** What is left of the tree once 101, 102 and 103 have been killed. */
  const Emptied: Table := map[1 := Rec(0, 'S'), 100 := Rec(1, 'S')]

  lemma FirstPass()
    ensures PassSends(Snapshot(Listing, Tree, {101, 102, 103}), 100, SIGKILL) ==
              [Send(101, SIGKILL, true), Send(102, SIGKILL, true), Send(103, SIGKILL, true)]
  {
    ScenarioTargets();
  }

  lemma EmptiedHasNoTargets()
    ensures !Matches(Emptied, SignalTargetOf(100), 1) && !Matches(Emptied, SignalTargetOf(100), 100)
  {
    DescendantCases(Emptied, 100, 1);
    DescendantCases(Emptied, 100, 0);
  }

  lemma EmptiedScan()
    ensures Scan(Emptied, [1, 100], SignalTargetOf(100)) == []
  {
    EmptiedHasNoTargets();
    assert [] + [1] == [1] && [1] + [100] == [1, 100];
    ScanSnoc(Emptied, [], 1, SignalTargetOf(100));
    ScanSnoc(Emptied, [1], 100, SignalTargetOf(100));
  }

  lemma SecondPass()
    ensures PassSends(Snapshot([1, 100], Emptied, {}), 100, SIGKILL) == []
  {
    EmptiedScan();
  }

  /**
   Killing R's tree: the first pass kills all three descendants, the second finds
   none, so the loop stops after two passes and R is killed last. The later
   snapshots are never read.
   */
  lemma ScenarioKillTree(snaps: seq<Snapshot>)
    requires |snaps| >= MaxPasses
    requires snaps[0] == Snapshot(Listing, Tree, {101, 102, 103})
    requires snaps[1] == Snapshot([1, 100], Emptied, {})
    ensures SignalRun(snaps, 100, SIGKILL, true) ==
              Outcome([Send(101, SIGKILL, true), Send(102, SIGKILL, true), Send(103, SIGKILL, true),
                       Send(100, SIGKILL, true)], 2, false)
  {
    FirstPass();
    SecondPass();
    assert Passes(snaps, 100, SIGKILL, 1) == Outcome([], 2, false);
    assert Delivered(PassSends(snaps[0], 100, SIGKILL)) == 3;
  }

  /** `prc24 -zd 1 100` lists C2; `prc24 -zd 101 100` is refused, since R is not under C1. */
  lemma ScenarioDispatch()
    ensures Decide(Tree, 1, 100, Some("-zd")) == Perform(ListZombieDescendants)
    ensures Decide(Tree, 101, 100, Some("-zd")) == NotInTree
    ensures Decide(Tree, 101, 100, Some("-xx")) == NotInTree
    ensures Decide(Tree, 1, 100, Some("-xx")) == InvalidOption("-xx")
  {
    DescendantCases(Tree, 1, 100);
    DescendantCases(Tree, 101, 100);
    DescendantCases(Tree, 101, 1);
  }
}
