/**
 * A request that is granted although part of it is write-locked, and the operations on a new key that lead
 * to it.
 */
module SkippedIntervals {
  import opened LockTypes
  import opened AvlShape
  import opened Intervals
  import opened Probes

  // Transaction 1 write-locks [5, 5] and transaction 2 [6, 6]; then transaction 2 is unlocked. A request for
  // [5, 6] looks at [6, 6] and then at [1, 4].

  /** After transaction 1 locked [5, 5]. */
  function OneLock(): seq<Interval> {
    [Interval(0, 0, SENTINEL_CELL), Interval(1, 4, FREE_CELL), Interval(5, 5, Cell(WriteLock, {1})),
     Interval(6, UINT64_MAX, FREE_CELL)]
  }

  /** With what is at 6 after transaction 2 locked it, or was unlocked. */
  function TwoLocks(at6: Cell): seq<Interval> {
    [Interval(0, 0, SENTINEL_CELL), Interval(1, 4, FREE_CELL), Interval(5, 5, Cell(WriteLock, {1})),
     Interval(6, 6, at6), Interval(7, UINT64_MAX, FREE_CELL)]
  }

  function Single(x: nat): Tree<nat> {
    Node(x, Leaf, Leaf)
  }

  /** The nodes in the order of time; node 2 is the one that was there first after the sentinel. */
  function FinalTree(): Tree<nat> {
    Node(1, Single(0), Node(3, Single(2), Single(4)))
  }

  /** The four insertions: for a new key, before and after [5, 5], and after [6, 6]. */
  lemma TreeGrows()
    ensures InsertTree(map[0 := 0, 2 := 1], Root, Single(0), 2) == Node(0, Leaf, Single(2))
    ensures InsertTree(map[0 := 0, 2 := 5, 1 := 1], InRight(0, Leaf, Root), Single(2), 1)
         == Node(1, Single(0), Single(2))
    ensures InsertTree(map[0 := 0, 2 := 5, 1 := 1, 3 := 6], InRight(1, Single(0), Root), Single(2), 3)
         == Node(1, Single(0), Node(2, Leaf, Single(3)))
    ensures InsertTree(map[0 := 0, 2 := 5, 1 := 1, 3 := 6, 4 := 7], InRight(2, Leaf, InRight(1, Single(0), Root)),
                       Single(3), 4)
         == FinalTree()
  {
  }

  lemma PointsOfNew(t: uint64)
    ensures Partition(INITIAL_INTERVALS) && CellAt(INITIAL_INTERVALS, t) == if t == 0 then SENTINEL_CELL else FREE_CELL
  {
    CellIn(INITIAL_INTERVALS, if t == 0 then 0 else 1, t);
  }

  lemma PointsOfOne(t: uint64)
    ensures Partition(OneLock())
    ensures CellAt(OneLock(), t) == if t == 0 then SENTINEL_CELL else if t == 5 then Cell(WriteLock, {1}) else FREE_CELL
  {
    CellIn(OneLock(), if t == 0 then 0 else if t < 5 then 1 else if t == 5 then 2 else 3, t);
  }

  lemma PointsOfTwo(at6: Cell, t: uint64)
    ensures Partition(TwoLocks(at6))
    ensures CellAt(TwoLocks(at6), t) == if t == 6 then at6 else CellAt(OneLock(), t)
    ensures Index(TwoLocks(at6), t) == if t == 0 then 0 else if t < 5 then 1 else if t < 7 then t - 3 else 4
  {
    PointsOfOne(t);
    CellIn(TwoLocks(at6), if t == 0 then 0 else if t < 5 then 1 else if t < 7 then t - 3 else 4, t);
  }

  /** Where intervals end, as far as it matters. */
  lemma EndsOfTwo(at6: Cell, t: uint64)
    ensures Partition(INITIAL_INTERVALS) && Partition(OneLock()) && Partition(TwoLocks(at6))
    ensures EndsAt(TwoLocks(at6), t) <==> t in {0, 4, 5, 6, UINT64_MAX}
    ensures EndsAt(OneLock(), t) <==> t in {0, 4, 5, UINT64_MAX}
    ensures EndsAt(INITIAL_INTERVALS, t) <==> t in {0, UINT64_MAX}
  {
    PointsOfTwo(at6, t);
    CellIn(OneLock(), if t == 0 then 0 else if t < 5 then 1 else if t == 5 then 2 else 3, t);
    CellIn(INITIAL_INTERVALS, if t == 0 then 0 else 1, t);
  }

  /** Transaction 1 locks [5, 5] in a new key. */
  lemma FirstLock()
    ensures KeyLockedInterval(INITIAL_INTERVALS, OneLock(), 1, 5, 5, false, true)
  {
    forall t: uint64
      ensures Partition(INITIAL_INTERVALS) && Partition(OneLock())
      ensures EndsAt(INITIAL_INTERVALS, t) ==> EndsAt(OneLock(), t)
      ensures t == 5 ==> !Stops(CellAt(INITIAL_INTERVALS, t), false)
      ensures CellAt(OneLock(), t)
           == if t == 5 then LockCell(CellAt(INITIAL_INTERVALS, t), 1, false) else CellAt(INITIAL_INTERVALS, t)
    {
      PointsOfNew(t);
      PointsOfOne(t);
      EndsOfTwo(FREE_CELL, t);
      assert {} + {1} == {1};
    }
  }

  /** Then transaction 2 locks [6, 6]. */
  lemma SecondLock()
    ensures KeyLockedInterval(OneLock(), TwoLocks(Cell(WriteLock, {2})), 2, 6, 6, false, true)
  {
    var ivs := TwoLocks(Cell(WriteLock, {2}));
    forall t: uint64
      ensures Partition(OneLock()) && Partition(ivs)
      ensures EndsAt(OneLock(), t) ==> EndsAt(ivs, t)
      ensures t == 6 ==> !Stops(CellAt(OneLock(), t), false)
      ensures CellAt(ivs, t) == if t == 6 then LockCell(CellAt(OneLock(), t), 2, false) else CellAt(OneLock(), t)
    {
      PointsOfOne(t);
      PointsOfTwo(Cell(WriteLock, {2}), t);
      EndsOfTwo(Cell(WriteLock, {2}), t);
      assert {} + {2} == {2};
    }
  }

  /** Then transaction 2 is unlocked. */
  lemma ThenUnlock()
    ensures ReleaseOutcome(TwoLocks(Cell(WriteLock, {2})), TwoLocks(FREE_CELL), map[], 2, false, {})
  {
    var ivs, ivs' := TwoLocks(Cell(WriteLock, {2})), TwoLocks(FREE_CELL);
    forall t: uint64
      ensures Partition(ivs) && Partition(ivs')
      ensures EndsAt(ivs, t) ==> EndsAt(ivs', t)
      ensures CellAt(ivs', t) == FinishCell(CellAt(ivs, t), 2, false, false)
    {
      PointsOfOne(t);
      PointsOfTwo(Cell(WriteLock, {2}), t);
      PointsOfTwo(FREE_CELL, t);
      EndsOfTwo(Cell(WriteLock, {2}), t);
      EndsOfTwo(FREE_CELL, t);
      assert {2} - {2} == {};
    }
  }

  /** The request for [5, 6] looks at [6, 6] and at [1, 4]. */
  lemma LooksAtTwo()
    ensures Request(FinalTree(), TwoLocks(FREE_CELL), 5, 6)
    ensures Probed(FinalTree(), TwoLocks(FREE_CELL), Index(TwoLocks(FREE_CELL), 6), 5) == [3, 1]
    ensures Passes(FinalTree(), TwoLocks(FREE_CELL), Index(TwoLocks(FREE_CELL), 6), 5, false)
  {
    var t, ivs := FinalTree(), TwoLocks(FREE_CELL);
    TreeInOrder();
    PointsOfTwo(FREE_CELL, 6);
    PointsOfTwo(FREE_CELL, 4);
    SubParts(t, 3);
    SubParts(t.r, 1);
    assert SubStart(t, 3) == 2 && Next(t, ivs, 3, 5) == 1;
    assert Probed(t, ivs, 1, 5) == [1] && Passes(t, ivs, 1, 5, false);
  }

  lemma TreeInOrder()
    ensures Avl(FinalTree()) && InOrder(FinalTree()) == [0, 1, 2, 3, 4]
    ensures InOrder(FinalTree().l) == [0] && InOrder(FinalTree().r) == [2, 3, 4] && InOrder(FinalTree().r.l) == [2]
  {
    var t := FinalTree();
    assert InOrder(t.l) == [0] && InOrder(t.r.l) == [2] && InOrder(t.r.r) == [4];
  }

  /**
   * Three requests for single points lead to a tree in which a request for [5, 6] passes although 5 is
   * write-locked.
   */
  lemma SkipsLockedInterval()
    ensures KeyLockedInterval(INITIAL_INTERVALS, OneLock(), 1, 5, 5, false, true)
    ensures KeyLockedInterval(OneLock(), TwoLocks(Cell(WriteLock, {2})), 2, 6, 6, false, true)
    ensures ReleaseOutcome(TwoLocks(Cell(WriteLock, {2})), TwoLocks(FREE_CELL), map[], 2, false, {})
    ensures var t, ivs := FinalTree(), TwoLocks(FREE_CELL);
            && Avl(t) && InOrder(t) == [0, 1, 2, 3, 4] && Request(t, ivs, 5, 6)
            && Probed(t, ivs, Index(ivs, 6), 5) == [3, 1] && Passes(t, ivs, Index(ivs, 6), 5, false)
            && CellAt(ivs, 5) == Cell(WriteLock, {1}) && !Clear(ivs, 5, 6, false)
  {
    FirstLock();
    SecondLock();
    ThenUnlock();
    TreeInOrder();
    LooksAtTwo();
    PointsOfTwo(FREE_CELL, 5);
    PointsOfOne(5);
  }
}
