/**
 * The locks of one key: the root of its interval tree and the requests waiting on it, with the
 * parts of the lock manager's operations that work on a single key.
 */
module KeyInfos {
  import opened LockTypes
  import opened Sequences
  import opened AvlShape
  import opened TreeCost
  import opened Intervals
  import opened Probes
  import opened OperationCost
  import opened AVLTreeLockNodes

  class KeyInfo {
    /** Waiting requests by the end of the interval that blocks them. */
    var events: map<uint64, set<uint64>>
    var root: AVLTreeLockNode
    /** The shape of the tree, its nodes, its nodes in order, and their intervals. */
    ghost var tree: Tree<AVLTreeLockNode>
    ghost var nodes: set<AVLTreeLockNode>
    ghost var ns: seq<AVLTreeLockNode>
    ghost var ivs: seq<Interval>

    /** The tree is a linked AVL tree without shared nodes. */
    ghost predicate TreeOk()
      reads this`root, this`tree, this`nodes, this`ns
      reads nodes`parent, nodes`left, nodes`right, nodes`leftHeight, nodes`rightHeight
    {
      && Laid(nodes, tree) && tree.Node? && root == tree.x
      && ns == InOrder(tree) && (forall n :: n in ns ==> n in nodes)
    }

    /** Its nodes, in order, show intervals that partition time after the sentinel. */
    ghost predicate IntervalsOk()
      reads this`ns, this`ivs, ns`start, ns`end, ns`status, ns`tids
    {
      Shows(ns, ivs) && Partition(ivs) && ivs[0] == Interval(0, 0, SENTINEL_CELL)
    }

    /** Every waiting request is attached to the end of an interval. */
    ghost predicate EventsOk()
      reads this`ivs, this`events
      requires Partition(ivs)
    {
      forall b | b in events :: EndsAt(ivs, b)
    }

    ghost predicate Valid()
      reads this, nodes
    {
      TreeOk() && IntervalsOk() && EventsOk()
    }

    /** A key with a tree that shows its initial intervals. */
    constructor (root: AVLTreeLockNode, ghost tree: Tree<AVLTreeLockNode>)
      requires Laid(Elems(tree), tree) && tree.Node? && root == tree.x && Shows(InOrder(tree), INITIAL_INTERVALS)
      ensures Valid() && ivs == INITIAL_INTERVALS && events == map[] && nodes == Elems(tree)
    {
      InOrderElems(tree);
      this.root, this.tree, nodes, ns := root, tree, Elems(tree), InOrder(tree);
      ivs, events := INITIAL_INTERVALS, map[];
    }

    /**
     * `newLock` is a detached node which, inserted next to the i-th one, makes the order `ns'`,
     * showing `ivs'`.
     */
    ghost predicate Fits(cur: AVLTreeLockNode, newLock: AVLTreeLockNode, i: nat, p: nat, starts: StartMap,
                         ns': seq<AVLTreeLockNode>, ivs': seq<Interval>)
      reads this, nodes, newLock, ns', ns
    {
      && TreeOk() && i < |ns| && ns[i] == cur && i <= p <= i + 1
      && newLock !in nodes && newLock.Links() == DETACHED
      && StartsOf(starts, nodes + {newLock}) && StartsAscend(starts, ns) && FitsAt(starts, ns, p, newLock)
      && ns' == Inserted(ns, p, newLock) && Shows(ns', ivs')
    }

    /** Cutting the i-th interval after `t` makes the intervals `ivs'`. */
    ghost predicate CutsTo(i: nat, t: uint64, ivs': seq<Interval>)
      reads this`ivs, this`events
    {
      && Partition(ivs) && ivs[0] == Interval(0, 0, SENTINEL_CELL) && EventsOk()
      && i < |ivs| && ivs[i].start <= t < ivs[i].end && ivs' == SplitAt(ivs, i, t)
    }

    /** Insert the node for one part of the i-th interval, cut after `t`. */
    method InsertCut(cur: AVLTreeLockNode, newLock: AVLTreeLockNode, ghost i: nat, ghost p: nat, ghost starts: StartMap,
                     ghost ns': seq<AVLTreeLockNode>, ghost ivs': seq<Interval>, ghost t: uint64)
      requires Fits(cur, newLock, i, p, starts, ns', ivs')
      requires CutsTo(i, t, ivs')
      modifies this`root, this`tree, this`nodes, this`ns, this`ivs
      modifies nodes`parent, nodes`left, nodes`right, nodes`leftHeight, nodes`rightHeight
      modifies newLock`parent, newLock`left, newLock`right, newLock`leftHeight, newLock`rightHeight
      ensures Valid() && nodes == old(nodes) + {newLock} && ns == ns' && ivs == ivs'
    {
      SplitReady(ivs, i, t, ivs');
      InsertAt(cur, newLock, i, p, starts, ns', ivs');
    }

    /** Insert a node next to the i-th one, which makes the order `ns'`, showing `ivs'`. */
    method InsertAt(cur: AVLTreeLockNode, newLock: AVLTreeLockNode, ghost i: nat, ghost p: nat, ghost starts: StartMap,
                    ghost ns': seq<AVLTreeLockNode>, ghost ivs': seq<Interval>)
      requires Fits(cur, newLock, i, p, starts, ns', ivs')
      requires Partition(ivs) && Partition(ivs') && KeepsEnds(ivs, ivs') && ivs'[0] == Interval(0, 0, SENTINEL_CELL)
      requires EventsOk()
      modifies this`root, this`tree, this`nodes, this`ns, this`ivs
      modifies nodes`parent, nodes`left, nodes`right, nodes`leftHeight, nodes`rightHeight
      modifies newLock`parent, newLock`left, newLock`right, newLock`leftHeight, newLock`rightHeight
      ensures Valid() && nodes == old(nodes) + {newLock} && ns == ns' && ivs == ivs'
    {
      var newRoot;
      ghost var newTree;
      newRoot, newTree := InsertNextTo(cur, newLock, tree, nodes, i, p, starts);
      SetRoot(newRoot, newTree, nodes + {newLock}, ns', ivs');
    }

    /** Take over a new tree and the intervals it shows, with every old boundary kept. */
    method SetRoot(newRoot: AVLTreeLockNode, ghost tree': Tree<AVLTreeLockNode>, ghost nodes': set<AVLTreeLockNode>,
                   ghost ns': seq<AVLTreeLockNode>, ghost ivs': seq<Interval>)
      requires Laid(nodes', tree') && tree'.Node? && newRoot == tree'.x && ns' == InOrder(tree')
      requires Partition(ivs) && Partition(ivs') && KeepsEnds(ivs, ivs') && ivs'[0] == Interval(0, 0, SENTINEL_CELL)
      requires EventsOk() && Shows(ns', ivs')
      modifies this`root, this`tree, this`nodes, this`ns, this`ivs
      ensures Valid() && nodes == nodes' && ns == ns' && ivs == ivs'
    {
      InOrderElems(tree');
      root, tree, nodes, ns, ivs := newRoot, tree', nodes', ns', ivs';
    }

    /** Each node comes once in the order. */
    lemma NodesInOrder()
      requires TreeOk()
      ensures NoDuplicates(ns)
    {
      DistinctInOrder(tree);
    }

    /** Change the lock of the i-th interval. */
    method SetLock(cur: AVLTreeLockNode, status: LockStatus, tids: set<uint64>, ghost i: nat)
      requires Valid() && 0 < i < |ns| && ns[i] == cur
      modifies cur`status, cur`tids, this`ivs
      ensures Valid()
      ensures ivs == old(ivs)[i := old(ivs)[i].(cell := Cell(status, tids))]
    {
      NodesInOrder();
      SetCell(cur, status, tids, i);
    }

    method SetCell(cur: AVLTreeLockNode, status: LockStatus, tids: set<uint64>, ghost i: nat)
      requires IntervalsOk() && 0 < i < |ns| && ns[i] == cur && NoDuplicates(ns)
      modifies cur`status, cur`tids, this`ivs
      ensures IntervalsOk()
      ensures ivs == old(ivs)[i := old(ivs)[i].(cell := Cell(status, tids))]
      ensures forall b: uint64 :: EndsAt(ivs, b) <==> EndsAt(old(ivs), b)
    {
      RecellKeeps(ivs, i, Cell(status, tids));
      cur.status := status;
      cur.tids := tids;
      ivs := ivs[i := ivs[i].(cell := Cell(status, tids))];
    }

    /** Cut the i-th interval after `t`; its node keeps the earlier part. */
    method SplitAfter(cur: AVLTreeLockNode, t: uint64, ghost i: nat)
      requires Valid() && i < |ns| && ns[i] == cur && cur.start <= t < cur.end
      modifies this`root, this`tree, this`nodes, this`ns, this`ivs, cur`end
      modifies nodes`parent, nodes`left, nodes`right, nodes`leftHeight, nodes`rightHeight
      ensures Valid() && fresh(nodes - old(nodes))
      ensures ivs == SplitAt(old(ivs), i, t) && i < |ns| && ns[i] == cur && ns[..i] == old(ns[..i])
    {
      var newLock;
      ghost var starts, ns', ivs';
      newLock, starts, ns', ivs' := CutNode(cur, t, i);
      InsertCut(cur, newLock, i, i + 1, starts, ns', ivs', t);
    }

    /** First part of SplitAfter: make the node for the later part, not yet in the tree. */
    method CutNode(cur: AVLTreeLockNode, t: uint64, ghost i: nat)
      returns (newLock: AVLTreeLockNode, ghost starts: StartMap, ghost ns': seq<AVLTreeLockNode>,
               ghost ivs': seq<Interval>)
      requires Valid() && i < |ns| && ns[i] == cur && cur.start <= t < cur.end
      modifies cur`end
      ensures fresh(newLock) && Fits(cur, newLock, i, i + 1, starts, ns', ivs')
      ensures i < |ns'| && ns'[i] == cur && ns'[..i] == ns[..i] && CutsTo(i, t, ivs')
    {
      NodesInOrder();
      newLock := CutAfter(cur, t);
      starts := map n | n in nodes + {newLock} :: n.start;
      ns', ivs' := Inserted(ns, i + 1, newLock), SplitAt(ivs, i, t);
      FitsAfter(cur, newLock, i, t, starts);
    }

    /** The node for the later part fits in right after the one for the earlier part. */
    lemma FitsAfter(cur: AVLTreeLockNode, newLock: AVLTreeLockNode, i: nat, t: uint64, starts: StartMap)
      requires TreeOk() && ShowsExcept(ns, ivs, i) && Contiguous(ivs) && i < |ns| && ns[i] == cur
      requires newLock !in nodes && newLock.Links() == DETACHED && StartsOf(starts, nodes + {newLock})
      requires ivs[i].start <= t < ivs[i].end
      requires cur.Iv() == ivs[i].(end := t) && newLock.Iv() == ivs[i].(start := t + 1)
      ensures Fits(cur, newLock, i, i + 1, starts, Inserted(ns, i + 1, newLock), SplitAt(ivs, i, t))
      ensures var ns' := Inserted(ns, i + 1, newLock); i < |ns'| && ns'[i] == cur && ns'[..i] == ns[..i]
    {
      AscendAfter(ns, ivs, starts, i, t, newLock);
      ShowsAfter(ns, ivs, i, t, newLock);
    }

    /** Cut the i-th interval before `t`, after `u`; its node, now the next one, keeps the later part. */
    method SplitBefore(cur: AVLTreeLockNode, t: uint64, ghost u: uint64, ghost i: nat)
      requires Valid() && i < |ns| && ns[i] == cur && cur.start < t <= cur.end && t == u + 1
      modifies this`root, this`tree, this`nodes, this`ns, this`ivs, cur`start
      modifies nodes`parent, nodes`left, nodes`right, nodes`leftHeight, nodes`rightHeight
      ensures Valid() && fresh(nodes - old(nodes))
      ensures ivs == SplitAt(old(ivs), i, u) && i + 1 < |ns| && ns[i + 1] == cur && ns[..i] == old(ns[..i])
    {
      var newLock;
      ghost var starts, ns', ivs';
      newLock, starts, ns', ivs' := CutNodeBefore(cur, t, u, i);
      InsertCut(cur, newLock, i, i, starts, ns', ivs', u);
    }

    /** First part of SplitBefore: make the node for the earlier part, not yet in the tree. */
    method CutNodeBefore(cur: AVLTreeLockNode, t: uint64, ghost u: uint64, ghost i: nat)
      returns (newLock: AVLTreeLockNode, ghost starts: StartMap, ghost ns': seq<AVLTreeLockNode>,
               ghost ivs': seq<Interval>)
      requires Valid() && i < |ns| && ns[i] == cur && cur.start < t <= cur.end && t == u + 1
      modifies cur`start
      ensures fresh(newLock) && Fits(cur, newLock, i, i, starts, ns', ivs')
      ensures i + 1 < |ns'| && ns'[i + 1] == cur && ns'[..i] == ns[..i] && CutsTo(i, u, ivs')
    {
      NodesInOrder();
      newLock := CutBefore(cur, t);
      starts := map n | n in nodes + {newLock} :: n.start;
      ns', ivs' := Inserted(ns, i, newLock), SplitAt(ivs, i, u);
      FitsBefore(cur, newLock, i, t, u, starts);
    }

    /** The node for the earlier part fits in right before the one for the later part. */
    lemma FitsBefore(cur: AVLTreeLockNode, newLock: AVLTreeLockNode, i: nat, t: uint64, u: uint64, starts: StartMap)
      requires TreeOk() && ShowsExcept(ns, ivs, i) && Contiguous(ivs) && i < |ns| && ns[i] == cur
      requires newLock !in nodes && newLock.Links() == DETACHED && StartsOf(starts, nodes + {newLock})
      requires ivs[i].start < t <= ivs[i].end && t == u + 1
      requires cur.Iv() == ivs[i].(start := t) && newLock.Iv() == ivs[i].(end := u)
      ensures Fits(cur, newLock, i, i, starts, Inserted(ns, i, newLock), SplitAt(ivs, i, u))
      ensures var ns' := Inserted(ns, i, newLock); i + 1 < |ns'| && ns'[i + 1] == cur && ns'[..i] == ns[..i]
    {
      AscendBefore(ns, ivs, starts, i, t, newLock);
      ShowsBefore(ns, ivs, i, t, u, newLock);
    }

    /** The stack of the node whose interval contains `ts`. */
    method FindFrom(ts: uint64) returns (locks: seq<AVLTreeLockNode>, ghost i: nat, ghost calls: nat)
      requires Valid()
      ensures i == Index(ivs, ts) && i < |ns| == |ivs| == Size(tree) && locks == RightTurns(tree, i)
      ensures |locks| > 0 && locks[|locks| - 1] == ns[i] && calls == PathLength(tree, i)
    {
      ghost var j;
      locks, j, calls := root.Find([], ts, tree, nodes, ivs);
      i := j;
      CellIn(ivs, i, ts);
      TopOfPosition(tree, i);
      assert [] + RightTurns(tree, i) == RightTurns(tree, i);
    }

    /** The subtree of the i-th node and the intervals it shows. */
    lemma SubTree(i: nat) returns (t: Tree<AVLTreeLockNode>, sub: seq<Interval>)
      requires Valid() && i < Size(tree)
      ensures t == Sub(tree, i) && t.x == ns[i] && Elems(t) <= nodes && Linked(Snapshot(nodes), t, t.x.parent)
      ensures IsSlice(ivs, sub, SubStart(tree, i)) && |sub| == Size(t)
      ensures Shows(InOrder(t), sub) && Contiguous(sub) && ns[i].start <= sub[|sub| - 1].end
    {
      t := Sub(tree, i);
      SubLinked(Snapshot(nodes), tree, null, i);
      TopOfPosition(tree, i);
      sub := SubIntervals(tree, ivs, i);
    }

    /**
     * The stack of an earlier time, from the stack of `cur` with `cur` popped. A time before the
     * subtree of `cur` is not searched for: then the stack is the one of the node before the subtree.
     */
    method FindBefore(cur: AVLTreeLockNode, locks: seq<AVLTreeLockNode>, ts: uint64, ghost i: nat)
      returns (locks': seq<AVLTreeLockNode>, ghost calls: nat)
      requires Valid() && i < Size(tree) && ns[i] == cur && ts < cur.start && locks == Popped(tree, i)
      ensures Index(ivs, ts) < i && locks' == RightTurns(tree, NextProbe(tree, i, Index(ivs, ts)))
      ensures Index(ivs, ts) == i - 1 ==> calls == ResumeLength(Sub(tree, i))
    {
      ghost var t, sub := SubTree(i);
      ghost var j;
      locks', j, calls := cur.Find(locks, ts, t, nodes, sub);
      IndexBefore(ivs, i, ts);
      FoundBefore(tree, ivs, i, t, sub, ts, locks, locks', j);
    }

    /** The stack of the node before `cur`, from the stack of `cur` with `cur` popped. */
    method StepBackFrom(cur: AVLTreeLockNode, locks: seq<AVLTreeLockNode>, ghost i: nat)
      returns (locks': seq<AVLTreeLockNode>, ghost calls: nat)
      requires Valid() && 0 < i < Size(tree) && ns[i] == cur && cur.start > 0 && locks == Popped(tree, i)
      ensures locks' == RightTurns(tree, i - 1)
      ensures |locks'| > 0 && locks'[|locks'| - 1] == ns[i - 1] && calls == ResumeLength(Sub(tree, i))
    {
      PreviousIndex(ivs, i);
      PopTurns(tree, i);
      TopOfPosition(tree, i - 1);
      locks', calls := FindBefore(cur, locks, cur.start - 1, i);
    }

    /** Register a waiting request at the end of an interval. */
    method AddEvent(end: uint64, event: uint64)
      requires Partition(ivs) && EventsOk() && EndsAt(ivs, end)
      modifies this`events
      ensures EventsOk() && events == WithEvent(old(events), end, event)
    {
      if end !in events {
        events := events[end := {}];
      }
      events := events[end := events[end] + {event}];
    }

    /**
     * Lock everything from `tsEnd` backwards until something stops the caller. The walk stops at
     * `curTs`; a live lock there gets the request's event, a frozen one lets the caller succeed. The
     * searches look at `calls` nodes in all.
     */
    method LockBackward(tid: uint64, tsEnd: uint64, isRead: bool, event: uint64)
      returns (res: bool, curTs: uint64, ghost end: uint64, ghost calls: nat)
      requires Valid()
      modifies this, nodes
      ensures Valid() && fresh(nodes - old(nodes))
      ensures KeyLockedBack(old(ivs), ivs, old(events), events, tid, tsEnd, isRead, event, res, curTs, end)
      ensures BackwardCost(ivs, tsEnd, curTs, calls)
    {
      var locks;
      ghost var n, first, second, walk, j;
      locks, n, first, second := OpenBackward(tsEnd, isRead);
      ghost var ivs1 := ivs;
      res, curTs, j, walk := WalkBackward(tid, tsEnd, isRead, event, locks, n, second);
      end, calls := ivs[j].end, first + walk;
      BackwardDone(old(ivs), ivs1, ivs, old(events), events, tid, tsEnd, isRead, event, n, j, res, curTs);
      WalkedCost(ivs1, ivs, tid, tsEnd, isRead, n, j, curTs, |old(ivs)|, first, walk);
    }

    /** The tree is at most logarithmically high. */
    lemma TreeHeight()
      requires Valid()
      ensures Height(tree) <= MaxHeight(|ivs|)
    {
      HeightBound(tree);
    }

    /**
     * Find the interval of `tsEnd`, and cut it after `tsEnd` if the caller is going to take it. `first` is what
     * the search before the cut costs, if there is one, and `calls` what the other search costs.
     */
    method OpenBackward(tsEnd: uint64, isRead: bool)
      returns (locks: seq<AVLTreeLockNode>, ghost n: nat, ghost first: nat, ghost calls: nat)
      requires Valid()
      modifies this`root, this`tree, this`nodes, this`ns, this`ivs, nodes
      ensures Valid() && fresh(nodes - old(nodes))
      ensures SameCells(old(ivs), ivs)
      ensures n == Index(ivs, tsEnd) && n < Size(tree) && locks == RightTurns(tree, n)
      ensures Takes(ivs[n].cell, isRead) ==> ivs[n].end == tsEnd
      ensures calls == PathLength(tree, n) && first <= MaxHeight(|old(ivs)|) && |old(ivs)| <= |ivs|
    {
      locks, n, calls := FindFrom(tsEnd);
      first := 0;
      var cur := locks[|locks| - 1];
      NodesInOrder();
      if (cur.status == Free || (cur.status == ReadLock && isRead)) && tsEnd < cur.end {
        TreeHeight();
        first := calls;
        locks, n, calls := CutForWalk(cur, tsEnd, n);
      }
    }

    /** Cut the interval of `tsEnd` after it, and find it again. */
    method CutForWalk(cur: AVLTreeLockNode, tsEnd: uint64, ghost i: nat)
      returns (locks: seq<AVLTreeLockNode>, ghost n: nat, ghost calls: nat)
      requires Valid() && i < |ns| && ns[i] == cur && cur in nodes && cur.start <= tsEnd < cur.end
      modifies this`root, this`tree, this`nodes, this`ns, this`ivs, nodes
      ensures Valid() && fresh(nodes - old(nodes)) && SameCells(old(ivs), ivs)
      ensures n == Index(ivs, tsEnd) && n < Size(tree) && locks == RightTurns(tree, n)
      ensures ivs[n].end == tsEnd && calls == PathLength(tree, n) && |old(ivs)| <= |ivs|
    {
      SplitKeeps(ivs, i, tsEnd);
      SplitAfter(cur, tsEnd, i);
      locks, n, calls := FindFrom(tsEnd);
    }

    /**
     * The loop: pop a node, visit it, find its predecessor. Its searches, with the one for `tsEnd` that led to
     * the stack, look at no more than twice the height of the tree plus twice the intervals visited.
     */
    method WalkBackward(tid: uint64, tsEnd: uint64, isRead: bool, event: uint64, stack: seq<AVLTreeLockNode>,
                        ghost n: nat,
                        ghost calls0: nat)
      returns (res: bool, curTs: uint64, ghost j: nat, ghost calls: nat)
      requires Valid() && n == Index(ivs, tsEnd) && n < Size(tree) && stack == RightTurns(tree, n)
      requires calls0 == PathLength(tree, n)
      modifies nodes`status, nodes`tids, this`ivs, this`events
      ensures Valid() && WalkedBack(old(ivs), ivs, tid, tsEnd, isRead, n, j, curTs)
      ensures res == Frozen(ivs[j].cell)
      ensures events == if res then old(events) else WithEvent(old(events), ivs[j].end, event)
      ensures calls == WalkLength(tree, n, j) && calls <= 2 * Height(tree) + 2 * (n - j + 1)
      ensures calls <= 2 * MaxHeight(|ivs|) + 2 * (n - j + 1)
    {
      TreeHeight();
      var locks, stopped := stack, false;
      res, curTs, j, calls := true, tsEnd, n, calls0;
      WalkStart(ivs, tid, tsEnd, isRead, n);
      while |locks| != 0
        invariant Valid() && !stopped && j <= n < Size(tree) && locks == RightTurns(tree, j)
        invariant WalkingBack(old(ivs), ivs, tid, tsEnd, isRead, n, j, curTs)
        invariant res && events == old(events) && calls == WalkLength(tree, n, j)
        decreases j
      {
        ghost var more;
        stopped, res, curTs, locks, more := BackwardStep(tid, isRead, event, curTs, locks, old(ivs), tsEnd, n, j);
        if stopped {
          break;
        }
        j, calls := j - 1, calls + more;
      }
      WalkBound(tree, n, j);
    }

    /** One turn of the walk: visit the node on top of the stack, then step to its predecessor. */
    method BackwardStep(tid: uint64, isRead: bool, event: uint64, ts: uint64, stack: seq<AVLTreeLockNode>,
                        ghost ivs0: seq<Interval>, ghost hi: uint64, ghost n: nat, ghost j: nat)
      returns (stopped: bool, res: bool, curTs: uint64, locks: seq<AVLTreeLockNode>, ghost calls: nat)
      requires Valid() && WalkingBack(ivs0, ivs, tid, hi, isRead, n, j, ts)
      requires j <= n < Size(tree) && stack == RightTurns(tree, j)
      modifies nodes`status, nodes`tids, this`ivs, this`events
      ensures Valid()
      ensures stopped ==>
                && WalkedBack(ivs0, ivs, tid, hi, isRead, n, j, curTs) && res == Frozen(ivs[j].cell)
                && events == if res then old(events) else WithEvent(old(events), ivs[j].end, event)
      ensures !stopped ==>
                && 0 < j && WalkingBack(ivs0, ivs, tid, hi, isRead, n, j - 1, curTs) && locks == RightTurns(tree, j - 1)
                && res && events == old(events) && calls == ResumeLength(Sub(tree, j))
    {
      TopOfPosition(tree, j);
      var cur := stack[|stack| - 1];
      locks := stack[..|stack| - 1];
      NodesInOrder();
      if ts < cur.start || ts > cur.end {
        assert false;
      }
      ghost var before := ivs;
      curTs, res := Visit(cur, tid, isRead, event, ts, j);
      WalkTurn(ivs0, before, ivs, tid, hi, isRead, n, j, ts, curTs);
      stopped, calls := curTs != cur.start - 1, 0;
      if !stopped {
        locks, calls := StepBackFrom(cur, locks, j);
      }
    }

    /** Take the lock of one interval. */
    method TakeNode(cur: AVLTreeLockNode, tid: uint64, isRead: bool, ghost j: nat)
      requires Valid() && 0 < j < |ns| && ns[j] == cur && Takes(ivs[j].cell, isRead)
      modifies cur`status, cur`tids, this`ivs
      ensures Valid() && ivs == Visited(old(ivs), j, tid, isRead)
    {
      SetLock(cur, Mode(isRead), cur.tids + {tid}, j);
    }

    /** Wait for the end of one interval. */
    method WaitAt(cur: AVLTreeLockNode, event: uint64, ghost j: nat)
      requires Valid() && j < |ns| && ns[j] == cur
      modifies this`events
      ensures Valid() && events == WithEvent(old(events), ivs[j].end, event)
    {
      CellIn(ivs, j, cur.end);
      AddEvent(cur.end, event);
    }

    /** Look at one interval on a walk backwards: take it, pass it, or stop at it. */
    method Visit(cur: AVLTreeLockNode, tid: uint64, isRead: bool, event: uint64, curTs: uint64, ghost j: nat)
      returns (curTs': uint64, res: bool)
      requires Valid() && j < |ns| && ns[j] == cur && Contains(ivs[j], curTs)
      modifies cur`status, cur`tids, this`ivs, this`events
      ensures Valid() && ivs == Visited(old(ivs), j, tid, isRead)
      ensures curTs' == if Stops(old(ivs)[j].cell, isRead) then curTs else cur.start - 1
      ensures !Stops(old(ivs)[j].cell, isRead) ==> j > 0
      ensures res == (Stops(old(ivs)[j].cell, isRead) ==> Frozen(old(ivs)[j].cell))
      ensures events == if res then old(events) else WithEvent(old(events), ivs[j].end, event)
    {
      curTs', res := curTs, true;
      assert ivs[j := ivs[j]] == ivs;
      StartsLater(ivs, j);
      match cur.status
      case Free =>
        TakeNode(cur, tid, isRead, j);
        curTs' := cur.start - 1;
      case ReadLock =>
        if isRead {
          curTs' := cur.start - 1;
          TakeNode(cur, tid, isRead, j);
        } else {
          WaitAt(cur, event, j);
          res := false;
        }
      case WriteLock =>
        WaitAt(cur, event, j);
        res := false;
      case FreezeReadLock =>
        if isRead {
          curTs' := cur.start - 1;
        }
      case FreezeWriteLock =>
    }

    /**
     * Freeze (on commit) or unlock everything that `tid` holds of this key, by walking down its
     * recorded hull, and collect the requests this wakes. The searches look at `calls` nodes in all.
     */
    method ReleaseHull(tid: uint64, first: uint64, second: uint64, commit: bool)
      returns (woken: set<uint64>, ghost calls: nat)
      requires Valid() && 1 <= first && HullCovers(ivs, tid, first, second)
      modifies nodes`status, nodes`tids, this`ivs
      ensures Valid() && ReleaseOutcome(old(ivs), ivs, events, tid, commit, woken)
      ensures ReleaseCost(old(ivs), first, second, calls)
    {
      var locks, tsEnd;
      ghost var n, j;
      locks, n, calls := FindFrom(second);
      woken, tsEnd, j, calls := ReleaseWalk(tid, first, second, commit, locks, n, calls);
      ReleaseDone(old(ivs), ivs, events, tid, commit, first, second, n, j, tsEnd, woken);
      ReleasedCost(old(ivs), first, second, n, j, calls);
    }

    /** The loop: pop a node, release it, find its predecessor. It costs what a walk backwards does. */
    method ReleaseWalk(tid: uint64, first: uint64, second: uint64, commit: bool, stack: seq<AVLTreeLockNode>,
                       ghost n: nat,
                       ghost calls0: nat)
      returns (woken: set<uint64>, tsEnd: uint64, ghost j: nat, ghost calls: nat)
      requires Valid() && 1 <= first && n == Index(ivs, second) && n < Size(tree) && stack == RightTurns(tree, n)
      requires calls0 == PathLength(tree, n)
      modifies nodes`status, nodes`tids, this`ivs
      ensures Valid() && tsEnd < first && Releasing(old(ivs), ivs, tid, commit, second, n, j, tsEnd)
      ensures woken == WokenIn(old(ivs), events, tid, commit, j + 1, n)
      ensures calls == WalkLength(tree, n, j) && calls <= 2 * MaxHeight(|old(ivs)|) + 2 * (n - j + 1)
      ensures WithinHull(old(ivs), first, second, n, j)
    {
      TreeHeight();
      var locks := stack;
      woken, tsEnd, j, calls := {}, second, n, calls0;
      ReleaseStart(ivs, tid, commit, second, n);
      while tsEnd >= first
        invariant Valid() && j <= n < Size(tree) && locks == RightTurns(tree, j)
        invariant Releasing(old(ivs), ivs, tid, commit, second, n, j, tsEnd)
        invariant woken == WokenIn(old(ivs), events, tid, commit, j + 1, n) && calls == WalkLength(tree, n, j)
        invariant WithinHull(old(ivs), first, second, n, j)
        decreases j
      {
        ghost var before, at := ivs, tsEnd;
        woken, tsEnd, locks, calls := ReleaseStep(tid, commit, tsEnd, locks, woken, old(ivs), second, n, j, calls);
        WithinHullStep(old(ivs), before, tid, commit, first, second, n, j, at);
        j := j - 1;
      }
      WalkBound(tree, n, j);
    }

    /** One turn of the walk: release the node on top of the stack, then step to its predecessor. */
    method ReleaseStep(tid: uint64, commit: bool, ts: uint64, stack: seq<AVLTreeLockNode>, woken: set<uint64>,
                       ghost ivs0: seq<Interval>, ghost second: uint64, ghost n: nat, ghost j: nat, ghost calls0: nat)
      returns (woken': set<uint64>, tsEnd: uint64, locks: seq<AVLTreeLockNode>, ghost calls: nat)
      requires Valid() && 1 <= ts && Releasing(ivs0, ivs, tid, commit, second, n, j, ts)
      requires j <= n < Size(tree) && stack == RightTurns(tree, j)
      requires woken == WokenIn(ivs0, events, tid, commit, j + 1, n) && calls0 == WalkLength(tree, n, j)
      modifies nodes`status, nodes`tids, this`ivs
      ensures Valid() && 0 < j && Releasing(ivs0, ivs, tid, commit, second, n, j - 1, tsEnd)
      ensures locks == RightTurns(tree, j - 1) && woken' == WokenIn(ivs0, events, tid, commit, j, n)
      ensures calls == WalkLength(tree, n, j - 1)
    {
      TopOfPosition(tree, j);
      var cur := stack[|stack| - 1];
      locks := stack[..|stack| - 1];
      woken', tsEnd := ReleaseTop(cur, tid, commit, ts, woken, ivs0, second, n, j);
      locks, calls := StepBackFrom(cur, locks, j);
      calls := calls0 + calls;
    }

    /** Release the node that was popped. */
    method ReleaseTop(cur: AVLTreeLockNode, tid: uint64, commit: bool, ts: uint64, woken: set<uint64>,
                      ghost ivs0: seq<Interval>, ghost second: uint64, ghost n: nat, ghost j: nat)
      returns (woken': set<uint64>, tsEnd: uint64)
      requires Valid() && 1 <= ts && Releasing(ivs0, ivs, tid, commit, second, n, j, ts)
      requires j <= n && j < |ns| && ns[j] == cur && cur in nodes
      requires woken == WokenIn(ivs0, events, tid, commit, j + 1, n)
      modifies nodes`status, nodes`tids, this`ivs
      ensures Valid() && 0 < j && cur.start > 0 && Releasing(ivs0, ivs, tid, commit, second, n, j - 1, tsEnd)
      ensures woken' == WokenIn(ivs0, events, tid, commit, j, n)
    {
      StartsLater(ivs, j);
      ghost var before := ivs;
      var waiting := Release(cur, tid, commit, j);
      woken' := woken + waiting;
      tsEnd := cur.start - 1;
      ReleaseTurn(ivs0, before, ivs, tid, commit, second, n, j, ts, tsEnd);
    }

    /** Release one interval. */
    method Release(cur: AVLTreeLockNode, tid: uint64, commit: bool, ghost j: nat) returns (waiting: set<uint64>)
      requires Valid() && 0 < j < |ns| && ns[j] == cur
      modifies cur`status, cur`tids, this`ivs
      ensures Valid() && ivs == Released(old(ivs), j, tid, commit)
      ensures waiting == WokenAt(old(ivs)[j], events, tid, commit)
    {
      waiting := {};
      assert ivs[j := ivs[j]] == ivs;
      var isRead, isWrite := cur.status == ReadLock, cur.status == WriteLock;
      if (isRead || isWrite) && tid in cur.tids {
        var left := if commit then {} else cur.tids - {tid};
        assert cur.tids - {tid} == {} <==> cur.tids == {tid};
        SetLock(cur, if !commit then Free else if isRead then FreezeReadLock else FreezeWriteLock, left, j);
        if (commit || isWrite || left == {}) && cur.end in events {
          waiting := events[cur.end];
        }
      }
    }

    /** A request for [lo, hi] looks at exactly the intervals that overlap it: see Probes.ProbedExactlyIff. */
    ghost predicate ProbesExactly(lo: uint64, hi: uint64)
      reads this`tree, this`ivs
    {
      Request(tree, ivs, lo, hi) && ExactShape(tree, ivs, Index(ivs, hi), lo)
    }

    /** A request within one interval looks at that interval only. */
    lemma OneIntervalProbesExactly(lo: uint64, hi: uint64)
      requires Valid() && 1 <= lo <= hi && Index(ivs, lo) == Index(ivs, hi)
      ensures ProbesExactly(lo, hi)
    {
      OneIntervalIsExact(tree, ivs, Index(ivs, hi), lo);
    }

    /** In a new key, all of time after 0 is one interval. */
    lemma NewKeyProbesExactly(lo: uint64, hi: uint64)
      requires Valid() && ivs == INITIAL_INTERVALS && 1 <= lo <= hi
      ensures ProbesExactly(lo, hi)
    {
      CellIn(ivs, 1, lo);
      CellIn(ivs, 1, hi);
      OneIntervalProbesExactly(lo, hi);
    }

    /** Lock [tsStart, tsEnd] if all of it can be locked. */
    method LockInterval(tid: uint64, tsStart: uint64, tsEnd: uint64, isRead: bool) returns (res: bool)
      requires Valid() && ProbesExactly(tsStart, tsEnd)
      modifies this, nodes
      ensures Valid() && fresh(nodes - old(nodes)) && events == old(events)
      ensures KeyLockedInterval(old(ivs), ivs, tid, tsStart, tsEnd, isRead, res)
    {
      var pendLocks;
      res, pendLocks := Probe(tsStart, tsEnd, isRead);
      ExactVerdict(tree, ivs, tsStart, tsEnd, isRead);
      if res {
        IndexBefore(ivs, Index(ivs, tsStart), tsEnd);
        PendingAll(ns, tree, ivs, Index(ivs, tsEnd), tsStart, isRead);
        LockPending(tid, tsStart, tsEnd, isRead, pendLocks, Index(ivs, tsEnd));
      }
    }

    /**
     * The first loop: look at intervals from that of `tsEnd` back, until one stops the caller or one
     * starts no later than `tsStart`, and collect those that can be taken.
     */
    method Probe(tsStart: uint64, tsEnd: uint64, isRead: bool) returns (res: bool, pendLocks: seq<AVLTreeLockNode>)
      requires Valid() && Request(tree, ivs, tsStart, tsEnd)
      ensures res == Passes(tree, ivs, Index(ivs, tsEnd), tsStart, isRead)
      ensures res ==> pendLocks == Pending(ns, tree, ivs, Index(ivs, tsEnd), tsStart, isRead)
    {
      var locks;
      ghost var n, calls;
      locks, n, calls := FindFrom(tsEnd);
      res, pendLocks := true, [];
      ghost var i: nat := n;
      while |locks| != 0
        invariant res && Fitting(tree, ivs, i, tsStart) && Probing(locks, pendLocks, i, n, tsStart, isRead)
        decreases |locks| != 0, i
      {
        res, locks, pendLocks, i := ProbeStep(locks, pendLocks, tsStart, isRead, i, n);
        if !res {
          break;
        }
      }
    }

    /** One turn of the loop. */
    method ProbeStep(stack: seq<AVLTreeLockNode>, pend: seq<AVLTreeLockNode>, tsStart: uint64, isRead: bool,
                     ghost i: nat, ghost n: nat)
      returns (res: bool, locks: seq<AVLTreeLockNode>, pendLocks: seq<AVLTreeLockNode>, ghost i': nat)
      requires Valid() && Fitting(tree, ivs, i, tsStart) && Fitting(tree, ivs, n, tsStart)
      requires stack != [] && Probing(stack, pend, i, n, tsStart, isRead)
      ensures Fitting(tree, ivs, i', tsStart) && (locks == [] || i' < i)
      ensures if res then Probing(locks, pendLocks, i', n, tsStart, isRead) else !Passes(tree, ivs, n, tsStart, isRead)
    {
      TopOfPosition(tree, i);
      var cur := stack[|stack| - 1];
      locks, i' := stack[..|stack| - 1], i;
      res, pendLocks := Collect(cur, pend, tsStart, isRead, i);
      if res && cur.start > tsStart {
        locks, i' := ProbeOn(cur, locks, tsStart, i);
      } else {
        locks := [];
      }
    }

    /** Go on from a node that starts after `tsStart`. */
    method ProbeOn(cur: AVLTreeLockNode, locks: seq<AVLTreeLockNode>, tsStart: uint64, ghost i: nat)
      returns (locks': seq<AVLTreeLockNode>, ghost i': nat)
      requires Valid() && Fitting(tree, ivs, i, tsStart) && ns[i] == cur && tsStart < ivs[i].start
               && locks == Popped(tree, i)
      ensures i' == Next(tree, ivs, i, tsStart) && locks' == RightTurns(tree, i')
    {
      ghost var calls;
      var ts := tsStart - 1;
      locks', calls := FindBefore(cur, locks, ts, i);
      i' := Next(tree, ivs, i, tsStart);
    }

    /** Look at one interval, and collect it if it can be taken. */
    method Collect(cur: AVLTreeLockNode, pend: seq<AVLTreeLockNode>, tsStart: uint64, isRead: bool, ghost i: nat)
      returns (res: bool, pendLocks: seq<AVLTreeLockNode>)
      requires Shows(ns, ivs) && Fitting(tree, ivs, i, tsStart) && ns[i] == cur
      ensures res == !Stops(ivs[i].cell, isRead)
      ensures !res ==> !Passes(tree, ivs, i, tsStart, isRead)
      ensures res ==>
                var all := pend + Pending(ns, tree, ivs, i, tsStart, isRead);
                if ivs[i].start <= tsStart then Passes(tree, ivs, i, tsStart, isRead) && pendLocks == all
                else
                  var k := Next(tree, ivs, i, tsStart);
                  && (Passes(tree, ivs, i, tsStart, isRead) <==> Passes(tree, ivs, k, tsStart, isRead))
                  && pendLocks + Pending(ns, tree, ivs, k, tsStart, isRead) == all
    {
      var takes;
      res, takes := Check(cur, isRead, i);
      pendLocks := if takes then pend + [cur] else pend;
      PassesTurn(tree, ivs, i, tsStart, isRead);
      PendingTurn(ns, tree, ivs, i, tsStart, isRead, pend);
      assert pendLocks == pend + Here(ns, ivs, i, isRead);
    }

    /** The state of the loop: about to look at the i-th interval, or done. */
    ghost predicate Probing(locks: seq<AVLTreeLockNode>, pendLocks: seq<AVLTreeLockNode>, i: nat, n: nat, lo: uint64,
                            isRead: bool)
      requires Fitting(tree, ivs, i, lo) && Fitting(tree, ivs, n, lo)
      reads this`tree, this`ivs, this`ns
    {
      && |ns| == |ivs|
      && if locks == [] then Passes(tree, ivs, n, lo, isRead) && pendLocks == Pending(ns, tree, ivs, n, lo, isRead)
         else
           && locks == RightTurns(tree, i)
           && (Passes(tree, ivs, n, lo, isRead) <==> Passes(tree, ivs, i, lo, isRead))
           && pendLocks + Pending(ns, tree, ivs, i, lo, isRead) == Pending(ns, tree, ivs, n, lo, isRead)
    }

    /** Whether an interval lets the caller go on, and whether the caller takes it. */
    method Check(cur: AVLTreeLockNode, isRead: bool, ghost i: nat) returns (res: bool, takes: bool)
      requires Shows(ns, ivs) && i < |ns| && ns[i] == cur
      ensures res == !Stops(ivs[i].cell, isRead) && takes == Takes(ivs[i].cell, isRead)
    {
      res, takes := true, false;
      match cur.status
      case Free =>
        takes := true;
      case ReadLock =>
        if isRead {
          takes := true;
        } else {
          res := false;
        }
      case WriteLock =>
        res := false;
      case FreezeReadLock =>
        if !isRead {
          res := false;
        }
      case FreezeWriteLock =>
        res := false;
    }

    /** The second loop: cut what was collected down to [tsStart, tsEnd] and lock it. */
    method LockPending(tid: uint64, tsStart: uint64, tsEnd: uint64, isRead: bool, pendLocks: seq<AVLTreeLockNode>,
                       ghost n: nat)
      requires Valid() && tsStart <= tsEnd && n == Index(ivs, tsEnd) && n < |ns| == |ivs| && Index(ivs, tsStart) <= n
      requires pendLocks == PendingDown(ns, ivs, n, Index(ivs, tsStart), isRead)
      modifies this`root, this`tree, this`nodes, this`ns, this`ivs, nodes
      ensures Valid() && fresh(nodes - old(nodes))
      ensures IntervalLocked(old(ivs), ivs, tid, tsStart, tsEnd, isRead)
    {
      ghost var ns0, ivs0, s := ns, ivs, Index(ivs, tsStart);
      ghost var i: int := n;
      PartStart(ivs, tid, n, tsStart, tsEnd, isRead);
      for q := 0 to |pendLocks|
        invariant Valid() && fresh(nodes - old(nodes))
        invariant s - 1 <= i <= n && SameUpTo(ns0, ivs0, ns, ivs, i)
        invariant pendLocks[q..] == PendingDown(ns0, ivs0, i, s, isRead)
        invariant PartLocked(ivs0, ivs, tid, i, tsStart, tsEnd, isRead)
      {
        i := LockNext(pendLocks[q], tid, tsStart, tsEnd, isRead, i, s, ns0, ivs0, pendLocks[q..]);
        assert pendLocks[q..][1..] == pendLocks[q + 1..];
      }
      SkipRest(ns0, ivs0, ivs, tid, i, s, tsStart, tsEnd, isRead);
      PartDone(ivs0, ivs, tid, tsStart, tsEnd, isRead);
    }

    /** Skip what cannot be taken and lock the next interval that was collected. */
    method LockNext(cur: AVLTreeLockNode, tid: uint64, tsStart: uint64, tsEnd: uint64, isRead: bool, ghost i: int,
                    ghost s: nat,
                    ghost ns0: seq<AVLTreeLockNode>, ghost ivs0: seq<Interval>, ghost rest: seq<AVLTreeLockNode>)
      returns (ghost i': int)
      requires Valid() && SameUpTo(ns0, ivs0, ns, ivs, i) && tsStart <= tsEnd
               && PartLocked(ivs0, ivs, tid, i, tsStart, tsEnd, isRead)
      requires s == Index(ivs0, tsStart) && i <= Index(ivs0, tsEnd)
      requires rest != [] && rest[0] == cur && rest == PendingDown(ns0, ivs0, i, s, isRead)
      modifies this`root, this`tree, this`nodes, this`ns, this`ivs, nodes
      ensures Valid() && fresh(nodes - old(nodes)) && SameUpTo(ns0, ivs0, ns, ivs, i')
      ensures s - 1 <= i' < i && PartLocked(ivs0, ivs, tid, i', tsStart, tsEnd, isRead)
      ensures rest[1..] == PendingDown(ns0, ivs0, i', s, isRead)
    {
      ghost var k := NextToLock(ns0, ivs0, ns, ivs, tid, i, s, tsStart, tsEnd, isRead, rest);
      LockOne(cur, tid, tsStart, tsEnd, isRead, k, ns0, ivs0);
      i' := k - 1;
    }

    /** Cut one interval down to what overlaps [tsStart, tsEnd] and lock it. */
    method LockOne(cur: AVLTreeLockNode, tid: uint64, tsStart: uint64, tsEnd: uint64, isRead: bool, ghost i: nat,
                   ghost ns0: seq<AVLTreeLockNode>, ghost ivs0: seq<Interval>)
      requires Valid() && SameUpTo(ns0, ivs0, ns, ivs, i) && ns0[i] == cur && Takes(ivs0[i].cell, isRead)
      requires tsStart <= tsEnd && ivs0[i].start <= tsEnd && tsStart <= ivs0[i].end
      requires PartLocked(ivs0, ivs, tid, i, tsStart, tsEnd, isRead)
      modifies this`root, this`tree, this`nodes, this`ns, this`ivs, nodes
      ensures Valid() && fresh(nodes - old(nodes)) && SameUpTo(ns0, ivs0, ns, ivs, i - 1)
      ensures PartLocked(ivs0, ivs, tid, i - 1, tsStart, tsEnd, isRead)
    {
      assert ns[i] == ns0[i] && ivs[i] == ivs0[i];
      TakeInterval(cur, tid, tsStart, tsEnd, isRead, i);
      PartTake(ivs0, old(ivs), ivs, tid, i, tsStart, tsEnd, isRead);
      SameUpToLess(ns0, ivs0, old(ns), old(ivs), ns, ivs, i);
    }

    method TakeInterval(cur: AVLTreeLockNode, tid: uint64, tsStart: uint64, tsEnd: uint64, isRead: bool, ghost i: nat)
      requires Valid() && i < |ns| && ns[i] == cur && cur in nodes
      requires tsStart <= tsEnd && cur.start <= tsEnd && tsStart <= cur.end && Takes(ivs[i].cell, isRead)
      modifies this`root, this`tree, this`nodes, this`ns, this`ivs, nodes
      ensures Valid() && fresh(nodes - old(nodes)) && SameBefore(old(ns), old(ivs), ns, ivs, i)
      ensures IntervalLocked(old(ivs), ivs, tid, Latest(old(ivs)[i].start, tsStart), Earliest(old(ivs)[i].end, tsEnd),
                             isRead)
    {
      ghost var j := CutTo(cur, tsStart, tsEnd, i);
      LockedExactly(old(ivs), ivs, j, tid, ivs[j].start, ivs[j].end, isRead);
      SetLock(cur, Mode(isRead), cur.tids + {tid}, j);
    }

    /** Cut an interval down to what overlaps [tsStart, tsEnd]. */
    method CutTo(cur: AVLTreeLockNode, tsStart: uint64, tsEnd: uint64, ghost i: nat) returns (ghost j: nat)
      requires Valid() && 0 < i < |ns| && ns[i] == cur && cur in nodes
      requires tsStart <= tsEnd && cur.start <= tsEnd && tsStart <= cur.end
      modifies this`root, this`tree, this`nodes, this`ns, this`ivs, nodes
      ensures Valid() && fresh(nodes - old(nodes)) && SameCells(old(ivs), ivs)
      ensures i <= j < |ns| && ns[j] == cur && cur in nodes && SameBefore(old(ns), old(ivs), ns, ivs, i)
      ensures ivs[j] == Interval(Latest(old(ivs)[i].start, tsStart), Earliest(old(ivs)[i].end, tsEnd), old(ivs)[i].cell)
    {
      j := CutStart(cur, tsStart, i);
      ghost var ns1, ivs1 := ns, ivs;
      CutEnd(cur, tsEnd, j, old(ivs));
      SameBeforeTrans(old(ns), old(ivs), ns1, ivs1, ns, ivs, i, j);
    }

    /** Cut off what an interval has before `tsStart`, if anything. */
    method CutStart(cur: AVLTreeLockNode, tsStart: uint64, ghost i: nat) returns (ghost j: nat)
      requires Valid() && 0 < i < |ns| && ns[i] == cur && cur in nodes && tsStart <= cur.end
      modifies this`root, this`tree, this`nodes, this`ns, this`ivs, nodes
      ensures Valid() && fresh(nodes - old(nodes)) && SameCells(old(ivs), ivs)
      ensures i <= j < |ns| && ns[j] == cur && cur in nodes && SameBefore(old(ns), old(ivs), ns, ivs, i)
      ensures ivs[j] == old(ivs)[i].(start := Latest(old(ivs)[i].start, tsStart))
    {
      j := i;
      if cur.start < tsStart {
        CutOffBefore(cur, tsStart, tsStart - 1, i);
        j := i + 1;
      }
    }

    /** Cut off the part of the i-th interval before `t`. */
    method CutOffBefore(cur: AVLTreeLockNode, t: uint64, ghost u: uint64, ghost i: nat)
      requires Valid() && i < |ns| && ns[i] == cur && cur in nodes && cur.start < t <= cur.end && t == u + 1
      modifies this`root, this`tree, this`nodes, this`ns, this`ivs, cur`start
      modifies nodes`parent, nodes`left, nodes`right, nodes`leftHeight, nodes`rightHeight
      ensures Valid() && fresh(nodes - old(nodes)) && SameCells(old(ivs), ivs)
      ensures i + 1 < |ns| && ns[i + 1] == cur && cur in nodes && SameBefore(old(ns), old(ivs), ns, ivs, i)
      ensures ivs[i + 1] == old(ivs)[i].(start := t)
    {
      SplitSameCells(ivs, i, u);
      SplitParts(ivs, i, u);
      SplitBefore(cur, t, u, i);
    }

    /** Cut off what an interval has after `tsEnd`, if anything. */
    method CutEnd(cur: AVLTreeLockNode, tsEnd: uint64, ghost j: nat, ghost ivs0: seq<Interval>)
      requires Valid() && SameCells(ivs0, ivs) && 0 < j < |ns| && ns[j] == cur && cur in nodes && cur.start <= tsEnd
      modifies this`root, this`tree, this`nodes, this`ns, this`ivs, nodes
      ensures Valid() && fresh(nodes - old(nodes)) && SameCells(ivs0, ivs)
      ensures j < |ns| && ns[j] == cur && cur in nodes && SameBefore(old(ns), old(ivs), ns, ivs, j)
      ensures ivs[j] == old(ivs)[j].(end := Earliest(old(ivs)[j].end, tsEnd))
    {
      if cur.end > tsEnd {
        CutOffAfter(cur, tsEnd, j, ivs0);
      }
    }

    /** Cut off the part of the j-th interval after `t`. */
    method CutOffAfter(cur: AVLTreeLockNode, t: uint64, ghost j: nat, ghost ivs0: seq<Interval>)
      requires Valid() && SameCells(ivs0, ivs) && j < |ns| && ns[j] == cur && cur in nodes && cur.start <= t < cur.end
      modifies this`root, this`tree, this`nodes, this`ns, this`ivs, cur`end
      modifies nodes`parent, nodes`left, nodes`right, nodes`leftHeight, nodes`rightHeight
      ensures Valid() && fresh(nodes - old(nodes)) && SameCells(ivs0, ivs)
      ensures j < |ns| && ns[j] == cur && cur in nodes && SameBefore(old(ns), old(ivs), ns, ivs, j)
      ensures ivs[j] == old(ivs)[j].(end := t)
    {
      SameCellsSplit(ivs0, ivs, j, t);
      SplitAfter(cur, t, j);
    }
  }

  /** The nodes and intervals before the i-th are still what they were. */
  ghost predicate SameBefore(ns0: seq<AVLTreeLockNode>, ivs0: seq<Interval>, ns: seq<AVLTreeLockNode>,
                             ivs: seq<Interval>,
                             i: nat)
  {
    && i <= |ns0| && i <= |ivs0| && i <= |ns| && i <= |ivs|
    && ns[..i] == ns0[..i] && ivs[..i] == ivs0[..i]
  }

  lemma SameBeforeTrans(ns0: seq<AVLTreeLockNode>, ivs0: seq<Interval>, ns1: seq<AVLTreeLockNode>, ivs1: seq<Interval>,
                        ns: seq<AVLTreeLockNode>, ivs: seq<Interval>, i: nat, j: nat)
    requires SameBefore(ns0, ivs0, ns1, ivs1, i) && SameBefore(ns1, ivs1, ns, ivs, j) && i <= j
    ensures SameBefore(ns0, ivs0, ns, ivs, i)
  {
    assert ns[..i] == ns[..j][..i] == ns1[..j][..i] == ns1[..i];
    assert ivs[..i] == ivs[..j][..i] == ivs1[..j][..i] == ivs1[..i];
  }

  /** The nodes and intervals up to the i-th are still what they were. */
  ghost predicate SameUpTo(ns0: seq<AVLTreeLockNode>, ivs0: seq<Interval>, ns: seq<AVLTreeLockNode>,
                           ivs: seq<Interval>, i: int)
  {
    && |ns0| == |ivs0| && -1 <= i < |ns0| && i < |ns| && i < |ivs|
    && ns[..i + 1] == ns0[..i + 1] && ivs[..i + 1] == ivs0[..i + 1]
  }

  lemma SameUpToPart(ns0: seq<AVLTreeLockNode>, ivs0: seq<Interval>, ns: seq<AVLTreeLockNode>, ivs: seq<Interval>,
                     i: int, k: int)
    requires SameUpTo(ns0, ivs0, ns, ivs, i) && -1 <= k <= i
    ensures SameUpTo(ns0, ivs0, ns, ivs, k)
  {
    assert ns[..k + 1] == ns[..i + 1][..k + 1] && ivs[..k + 1] == ivs[..i + 1][..k + 1];
  }

  lemma Overlaps(ivs: seq<Interval>, k: nat, lo: uint64, hi: uint64)
    requires Partition(ivs) && k < |ivs| && Index(ivs, lo) <= k <= Index(ivs, hi)
    ensures ivs[k].start <= hi && lo <= ivs[k].end
  {
    IndexBefore(ivs, k, hi);
    if Index(ivs, lo) < k {
      ContiguousAscends(ivs, Index(ivs, lo), k);
    }
  }

  lemma SameUpToLess(ns0: seq<AVLTreeLockNode>, ivs0: seq<Interval>, ns1: seq<AVLTreeLockNode>, ivs1: seq<Interval>,
                     ns: seq<AVLTreeLockNode>, ivs: seq<Interval>, i: nat)
    requires SameUpTo(ns0, ivs0, ns1, ivs1, i) && SameBefore(ns1, ivs1, ns, ivs, i)
    ensures SameUpTo(ns0, ivs0, ns, ivs, i - 1)
  {
    assert ns1[..i] == ns1[..i + 1][..i] == ns0[..i + 1][..i] == ns0[..i];
    assert ivs1[..i] == ivs1[..i + 1][..i] == ivs0[..i + 1][..i] == ivs0[..i];
  }

  /** Skip what cannot be taken, down to the next interval that is left to lock. */
  lemma {:induction false} SkipPassed(ns: seq<AVLTreeLockNode>, ivs: seq<Interval>, ivs': seq<Interval>, tid: uint64,
                                      i: int, s: nat,
                                      lo: uint64, hi: uint64, isRead: bool)
    returns (k: nat)
    requires i < |ns| == |ivs| && PendingDown(ns, ivs, i, s, isRead) != []
    requires PartLocked(ivs, ivs', tid, i, lo, hi, isRead)
    ensures s <= k <= i && Takes(ivs[k].cell, isRead) && PartLocked(ivs, ivs', tid, k, lo, hi, isRead)
    ensures PendingDown(ns, ivs, i, s, isRead) == [ns[k]] + PendingDown(ns, ivs, k - 1, s, isRead)
    decreases i
  {
    if Takes(ivs[i].cell, isRead) {
      k := i;
    } else {
      PartPass(ivs, ivs', tid, i, lo, hi, isRead);
      assert PendingDown(ns, ivs, i, s, isRead) == PendingDown(ns, ivs, i - 1, s, isRead);
      k := SkipPassed(ns, ivs, ivs', tid, i - 1, s, lo, hi, isRead);
    }
  }

  /** The next interval that is left to lock, with what locking it needs. */
  lemma NextToLock(ns0: seq<AVLTreeLockNode>, ivs0: seq<Interval>, ns: seq<AVLTreeLockNode>, ivs: seq<Interval>,
                   tid: uint64, i: int,
                   s: nat, lo: uint64, hi: uint64, isRead: bool, rest: seq<AVLTreeLockNode>)
    returns (k: nat)
    requires SameUpTo(ns0, ivs0, ns, ivs, i) && PartLocked(ivs0, ivs, tid, i, lo, hi, isRead)
    requires s == Index(ivs0, lo) && i <= Index(ivs0, hi)
    requires rest != [] && rest == PendingDown(ns0, ivs0, i, s, isRead)
    ensures s <= k <= i && Takes(ivs0[k].cell, isRead) && ivs0[k].start <= hi && lo <= ivs0[k].end
    ensures SameUpTo(ns0, ivs0, ns, ivs, k) && PartLocked(ivs0, ivs, tid, k, lo, hi, isRead)
    ensures rest[0] == ns0[k] && rest[1..] == PendingDown(ns0, ivs0, k - 1, s, isRead)
  {
    k := SkipPassed(ns0, ivs0, ivs, tid, i, s, lo, hi, isRead);
    Overlaps(ivs0, k, lo, hi);
    SameUpToPart(ns0, ivs0, ns, ivs, i, k);
  }

  lemma {:induction false} SkipRest(ns: seq<AVLTreeLockNode>, ivs: seq<Interval>, ivs': seq<Interval>, tid: uint64,
                                    i: int, s: nat,
                                    lo: uint64, hi: uint64, isRead: bool)
    requires s - 1 <= i < |ns| == |ivs| && PendingDown(ns, ivs, i, s, isRead) == []
    requires PartLocked(ivs, ivs', tid, i, lo, hi, isRead)
    ensures PartLocked(ivs, ivs', tid, s - 1, lo, hi, isRead)
    decreases i
  {
    if s <= i {
      PartPass(ivs, ivs', tid, i, lo, hi, isRead);
      SkipRest(ns, ivs, ivs', tid, i - 1, s, lo, hi, isRead);
    }
  }

  /** A new node for the part of a node's interval after `t`. */
  method CutAfter(cur: AVLTreeLockNode, t: uint64) returns (newLock: AVLTreeLockNode)
    requires cur.start <= t < cur.end
    modifies cur`end
    ensures fresh(newLock) && newLock.Links() == DETACHED
    ensures newLock.Iv() == old(cur.Iv()).(start := t + 1) && cur.Iv() == old(cur.Iv()).(end := t)
  {
    newLock := new AVLTreeLockNode.Copy(cur);
    newLock.start := t + 1;
    newLock.end := cur.end;
    cur.end := t;
  }

  /** A new node for the part of a node's interval before `t`. */
  method CutBefore(cur: AVLTreeLockNode, t: uint64) returns (newLock: AVLTreeLockNode)
    requires cur.start < t <= cur.end
    modifies cur`start
    ensures fresh(newLock) && newLock.Links() == DETACHED
    ensures newLock.Iv() == old(cur.Iv()).(end := t - 1) && cur.Iv() == old(cur.Iv()).(start := t)
  {
    newLock := new AVLTreeLockNode.Copy(cur);
    newLock.end := t - 1;
    cur.start := t;
  }

  /** Only the sentinel starts at time 0. */
  lemma StartsLater(ivs: seq<Interval>, j: nat)
    requires Partition(ivs) && j < |ivs| && ivs[0] == Interval(0, 0, SENTINEL_CELL)
    ensures j == 0 || ivs[j].start > 0
  {
    if j > 0 {
      ContiguousAscends(ivs, 0, j);
    }
  }

  lemma SplitReady(ivs: seq<Interval>, i: nat, t: uint64, ivs': seq<Interval>)
    requires Partition(ivs) && ivs[0] == Interval(0, 0, SENTINEL_CELL) && i < |ivs| && ivs[i].start <= t < ivs[i].end
    requires ivs' == SplitAt(ivs, i, t)
    ensures Partition(ivs') && KeepsEnds(ivs, ivs') && ivs'[0] == Interval(0, 0, SENTINEL_CELL)
  {
    SplitKeeps(ivs, i, t);
    SplitIndex(ivs, i, t, 0);
  }

  /** All but the i-th node show their intervals. */
  ghost predicate ShowsExcept(ns: seq<AVLTreeLockNode>, ivs: seq<Interval>, i: nat)
    reads ns`start, ns`end, ns`status, ns`tids
  {
    |ns| == |ivs| && forall j | 0 <= j < |ns| && j != i :: ns[j].Iv() == ivs[j]
  }

  /** A node that takes the later part of an interval fits right after it. */
  lemma AscendAfter(ns: seq<AVLTreeLockNode>, ivs: seq<Interval>, starts: StartMap, i: nat, t: uint64,
                    n: AVLTreeLockNode)
    requires ShowsExcept(ns, ivs, i) && Contiguous(ivs) && i < |ns| && ivs[i].start <= t < ivs[i].end
    requires (forall m | m in ns :: m in starts && starts[m] == m.start) && n in starts && starts[n] == n.start
    requires ns[i].start == ivs[i].start && n.start == t + 1
    ensures StartsAscend(starts, ns) && FitsAt(starts, ns, i + 1, n)
  {
    forall a, b | 0 <= a < b < |ns| ensures StartIn(starts, ns[a]) <= StartIn(starts, ns[b]) {
      ContiguousAscends(ivs, a, b);
      assert ns[a] in ns && ns[b] in ns;
    }
    assert ns[i] in ns;
    if i + 1 < |ns| {
      assert ns[i + 1] in ns && ivs[i].end + 1 == ivs[i + 1].start;
    }
  }

  /** The nodes show the split intervals once the new node is in place. */
  lemma ShowsAfter(ns: seq<AVLTreeLockNode>, ivs: seq<Interval>, i: nat, t: uint64, n: AVLTreeLockNode)
    requires ShowsExcept(ns, ivs, i) && i < |ns| && ivs[i].start <= t < ivs[i].end
    requires ns[i].Iv() == ivs[i].(end := t) && n.Iv() == ivs[i].(start := t + 1)
    ensures Shows(Inserted(ns, i + 1, n), SplitAt(ivs, i, t))
  {
    var s := Inserted(ns, i + 1, n);
    forall j | 0 <= j < |s| ensures s[j].Iv() == SplitAt(ivs, i, t)[j] {
      if j <= i {
        SplitIndex(ivs, i, t, j);
      } else {
        SplitIndex(ivs, i, t, j - 1);
      }
    }
  }

  /** A node that takes the earlier part of an interval fits right before it. */
  lemma AscendBefore(ns: seq<AVLTreeLockNode>, ivs: seq<Interval>, starts: StartMap, i: nat, t: uint64,
                     n: AVLTreeLockNode)
    requires ShowsExcept(ns, ivs, i) && Contiguous(ivs) && i < |ns| && ivs[i].start < t <= ivs[i].end
    requires (forall m | m in ns :: m in starts && starts[m] == m.start) && n in starts && starts[n] == n.start
    requires ns[i].start == t && n.start == ivs[i].start
    ensures StartsAscend(starts, ns) && FitsAt(starts, ns, i, n)
  {
    forall a, b | 0 <= a < b < |ns| ensures StartIn(starts, ns[a]) <= StartIn(starts, ns[b]) {
      ContiguousAscends(ivs, a, b);
      assert ns[a] in ns && ns[b] in ns;
    }
    assert ns[i] in ns;
    if i > 0 {
      assert ns[i - 1] in ns && ivs[i - 1].end + 1 == ivs[i - 1 + 1].start;
    }
  }

  /** The nodes show the split intervals once the new node is in place. */
  lemma ShowsBefore(ns: seq<AVLTreeLockNode>, ivs: seq<Interval>, i: nat, t: uint64, u: uint64, n: AVLTreeLockNode)
    requires ShowsExcept(ns, ivs, i) && i < |ns| && ivs[i].start < t <= ivs[i].end && t == u + 1
    requires ns[i].Iv() == ivs[i].(start := t) && n.Iv() == ivs[i].(end := u)
    ensures Shows(Inserted(ns, i, n), SplitAt(ivs, i, u)) && Inserted(ns, i, n)[i + 1] == ns[i]
  {
    var s := Inserted(ns, i, n);
    forall j | 0 <= j < |s| ensures s[j].Iv() == SplitAt(ivs, i, u)[j] {
      if j < i {
        SplitIndex(ivs, i, u, j);
      } else if j == i {
        SplitIndex(ivs, i, u, i);
      } else {
        SplitIndex(ivs, i, u, j - 1);
      }
    }
  }

  ghost predicate NoDuplicates(ns: seq<AVLTreeLockNode>) {
    forall i, j | 0 <= i < j < |ns| :: ns[i] != ns[j]
  }

  /** The tree of a new key: the frozen write at time 0 and, after it, free time. */
  method InitialTree() returns (root: AVLTreeLockNode, ghost tree: Tree<AVLTreeLockNode>)
    ensures Laid(Elems(tree), tree) && tree.Node? && root == tree.x && Shows(InOrder(tree), INITIAL_INTERVALS)
    ensures fresh(Elems(tree))
  {
    var first := new AVLTreeLockNode();
    first.status := FreezeWriteLock;
    first.end := 0;
    var temp := new AVLTreeLockNode();
    temp.start := 1;
    root, tree := InsertSecond(first, temp);
    assert [first, temp][0] == first && [first, temp][1] == temp;
  }

  /** The information of a new key. */
  method NewKeyInfo() returns (info: KeyInfo)
    ensures info.Valid() && info.ivs == INITIAL_INTERVALS && info.events == map[]
    ensures fresh(info) && fresh(info.nodes)
  {
    var root;
    ghost var tree;
    root, tree := InitialTree();
    info := new KeyInfo(root, tree);
  }

  /** A tree of two nodes. */
  method InsertSecond(first: AVLTreeLockNode, temp: AVLTreeLockNode)
    returns (root: AVLTreeLockNode, ghost tree: Tree<AVLTreeLockNode>)
    requires first != temp && first.Links() == temp.Links() == DETACHED && first.start < temp.start
    modifies first`parent, first`left, first`right, first`leftHeight, first`rightHeight
    modifies temp`parent, temp`left, temp`right, temp`leftHeight, temp`rightHeight
    ensures Laid(Elems(tree), tree) && tree.Node? && root == tree.x && InOrder(tree) == [first, temp]
            && Elems(tree) == {first} + {temp}
  {
    ghost var starts: StartMap := map[first := first.start, temp := temp.start];
    ghost var k;
    OneNode(first);
    root, tree, k := first.Insert(temp, Root, Node(first, Leaf, Leaf), {first}, starts);
    SecondNode(Snapshot({first} + {temp}), starts, first, temp, tree, k);
  }

  lemma InOrderElems(t: Tree<AVLTreeLockNode>)
    ensures forall n :: n in InOrder(t) ==> n in Elems(t)
  {
    forall n | n in InOrder(t) ensures n in Elems(t) {
      ElemsInOrder(t, n);
    }
  }

  /** A tree of one node. */
  lemma OneNode(x: AVLTreeLockNode)
    ensures var t := Node(x, Leaf, Leaf);
            Avl(Plug(Root, t)) && Apart(Root, t) && Elems(t) == {x} && InOrder(t) == [x] && Size(t) == 1
  {
    assert Avl<AVLTreeLockNode>(Leaf) && Diff(Node(x, Leaf, Leaf)) == 0;
  }

  /** The only place for a second node that starts later. */
  lemma SecondNode(h: LinkMap, starts: StartMap, x: AVLTreeLockNode, n: AVLTreeLockNode, t': Tree<AVLTreeLockNode>,
                   k: nat)
    requires Grown(h, starts, Root, Node(x, Leaf, Leaf), t', k, n) && StartIn(starts, x) < StartIn(starts, n)
    ensures InOrder(t') == [x, n] && Elems(t') == {x} + {n} && t'.Node?
  {
    OneNode(x);
    assert k == 1 by {
      assert InOrder(Node(x, Leaf, Leaf))[0] == x;
    }
    assert Inserted([x], 1, n) == [x, n];
  }

  /** The intervals that a subtree shows. */
  lemma SubIntervals(tree: Tree<AVLTreeLockNode>, ivs: seq<Interval>, i: nat) returns (sub: seq<Interval>)
    requires i < Size(tree) && Shows(InOrder(tree), ivs) && Contiguous(ivs)
    ensures var t := Sub(tree, i);
            && IsSlice(ivs, sub, SubStart(tree, i)) && |sub| == Size(t)
            && Shows(InOrder(t), sub) && Contiguous(sub) && ivs[i].start <= sub[|sub| - 1].end
  {
    SubSlice(tree, i);
    SizeParts(Sub(tree, i));
    sub := ShownSlice(InOrder(tree), InOrder(Sub(tree, i)), ivs, SubStart(tree, i));
    SliceContiguous(ivs, sub, SubStart(tree, i), i);
  }

  lemma ShownSlice(ns: seq<AVLTreeLockNode>, part: seq<AVLTreeLockNode>, ivs: seq<Interval>, lo: int)
    returns (sub: seq<Interval>)
    requires Shows(ns, ivs) && IsSlice(ns, part, lo)
    ensures IsSlice(ivs, sub, lo) && Shows(part, sub)
  {
    sub := ivs[lo..lo + |part|];
  }

  /** A subtree of a linked tree is linked. */
  lemma {:induction false} SubLinked(h: LinkMap, t: Tree<AVLTreeLockNode>, p: AVLTreeLockNode?, i: nat)
    requires Linked(h, t, p) && i < Size(t)
    ensures var s := Sub(t, i);
            Elems(s) <= Elems(t) && s.x in h && Linked(h, s, h[s.x].parent)
  {
    if i < Size(t.l) {
      SubLinked(h, t.l, t.x, i);
    } else if i > Size(t.l) {
      SubLinked(h, t.r, t.x, i - Size(t.l) - 1);
    }
  }

  /** Looking up an earlier time from a node: in its left subtree, or else not at all. */
  lemma FoundBefore(tree: Tree<AVLTreeLockNode>, ivs: seq<Interval>, i: nat, t: Tree<AVLTreeLockNode>,
                    sub: seq<Interval>,
                    ts: uint64, locks: seq<AVLTreeLockNode>, locks': seq<AVLTreeLockNode>, j: int)
    requires Partition(ivs) && |ivs| == Size(tree) && i < Size(tree) && t == Sub(tree, i) && Index(ivs, ts) < i
    requires IsSlice(ivs, sub, SubStart(tree, i)) && |sub| == Size(t) && locks == Popped(tree, i)
    requires Found(t, sub, ts, locks, locks', j)
    ensures locks' == RightTurns(tree, NextProbe(tree, i, Index(ivs, ts)))
    ensures Index(ivs, ts) == i - 1 ==> SearchLength(t, j) == ResumeLength(t)
  {
    var m, first := Index(ivs, ts), SubStart(tree, i);
    PopTurns(tree, i);
    FoundPosition(ivs, sub, first, ts, j);
    if first <= m {
      DescendTurns(tree, i, j);
      TurnsParts(t, j);
    }
  }

  /** Where in a stretch a time is found. */
  lemma FoundPosition(ivs: seq<Interval>, sub: seq<Interval>, first: nat, ts: uint64, j: int)
    requires Partition(ivs) && |sub| > 0 && IsSlice(ivs, sub, first)
    requires if ts < sub[0].start then j == -1 else 0 <= j < |sub| && Contains(sub[j], ts)
    ensures if Index(ivs, ts) < first then j == -1 else j == Index(ivs, ts) - first
  {
    IndexBefore(ivs, first, ts);
    assert sub[0] == ivs[first];
    if j >= 0 {
      assert sub[j] == ivs[first + j];
      IndexUnique(ivs, first + j, Index(ivs, ts), ts);
    }
  }
}
