/**
 * The interval lock tree: heap nodes with parent pointers and cached child heights, rebalanced in
 * place. The methods carry, as ghost values, the shape of the tree they work on and the set of its
 * nodes; a snapshot of the pointers of those nodes ties the heap to the shape.
 */
module AVLTreeLockNodes {
  import opened LockTypes
  import opened AvlShape
  import opened TreeCost
  import opened Intervals

  class AVLTreeLockNode {
    var status: LockStatus
    var start: uint64
    var end: uint64
    var tids: set<uint64>

    var leftHeight: int
    var rightHeight: int
    var parent: AVLTreeLockNode?
    var left: AVLTreeLockNode?
    var right: AVLTreeLockNode?

    ghost function Links(): Link
      reads this`parent, this`left, this`right, this`leftHeight, this`rightHeight
    {
      Link(parent, left, right, leftHeight, rightHeight)
    }

    ghost function Iv(): Interval
      reads this`start, this`end, this`status, this`tids
    {
      Interval(start, end, Cell(status, tids))
    }

    /** A free lock over all of time. */
    constructor ()
      ensures status == Free && start == 0 && end == UINT64_MAX && tids == {}
      ensures Links() == DETACHED
    {
      status, start, end, tids := Free, 0, UINT64_MAX, {};
      leftHeight, rightHeight := 0, 0;
      parent, left, right := null, null, null;
    }

    /** A detached copy of another node's lock. */
    constructor Copy(lock: AVLTreeLockNode)
      ensures status == lock.status && start == lock.start && end == lock.end && tids == lock.tids
      ensures Links() == DETACHED
    {
      status, start, end, tids := lock.status, lock.start, lock.end, lock.tids;
      leftHeight, rightHeight := 0, 0;
      parent, left, right := null, null, null;
    }

    method UpdateHeight()
      requires left != this && right != this
      modifies this`leftHeight, this`rightHeight
      ensures leftHeight == if left == null then 0 else Max(left.leftHeight, left.rightHeight) + 1
      ensures rightHeight == if right == null then 0 else Max(right.leftHeight, right.rightHeight) + 1
    {
      leftHeight :=
        if left == null then 0
        else if left.leftHeight >= left.rightHeight then left.leftHeight + 1 else left.rightHeight + 1;
      rightHeight :=
        if right == null then 0
        else if right.leftHeight >= right.rightHeight then right.leftHeight + 1 else right.rightHeight + 1;
    }

    /** Rotate the left (or right) child above this node. */
    method Swap(isLeft: bool, ghost c: Ctx<AVLTreeLockNode>, ghost t: Tree<AVLTreeLockNode>,
                ghost nodes: set<AVLTreeLockNode>)
      requires t.Node? && t.x == this && (if isLeft then t.l.Node? else t.r.Node?)
      requires Apart(c, t) && Elems(t) + ElemsC(c) <= nodes
      requires Hung(Snapshot(nodes), t, CtxTop(c)) && LinkedC(Snapshot(nodes), c, this)
      modifies nodes`parent, nodes`left, nodes`right, nodes`leftHeight, nodes`rightHeight
      ensures var t' := if isLeft then RotateRight(t) else RotateLeft(t);
              Linked(Snapshot(nodes), t', CtxTop(c)) && LinkedC(Snapshot(nodes), c, t'.x)
    {
      var child := if isLeft then left else right;
      ghost var h := Snapshot(nodes);
      SwapParts(h, isLeft, c, t, nodes);
      ReplaceInParent(child, c, nodes);
      ghost var h1 := Snapshot(nodes);
      if isLeft {
        AdoptFromLeft(child, nodes);
      } else {
        AdoptFromRight(child, nodes);
      }
      Swapped(h, h1, Snapshot(nodes), isLeft, c, t);
    }

    /** First half of Swap: put `child` where the parent of this node has this node. */
    method ReplaceInParent(child: AVLTreeLockNode, ghost c: Ctx<AVLTreeLockNode>, ghost nodes: set<AVLTreeLockNode>)
      requires DistinctC(c) && parent == CtxTop(c) && ElemsC(c) <= nodes && child in nodes
      requires this !in ElemsC(c) && child !in ElemsC(c) && LinkedC(Snapshot(nodes), c, this)
      modifies nodes`parent, nodes`left, nodes`right
      ensures LinkedC(Snapshot(nodes), c, child)
      ensures child.Links() == old(child.Links()).(parent := CtxTop(c))
      ensures SameOn(old(Snapshot(nodes)), Snapshot(nodes), nodes - ElemsC(c) - {child})
    {
      ghost var h := Snapshot(nodes);
      child.parent := parent;
      if parent != null {
        if parent.left == this {
          parent.left := child;
        } else {
          parent.right := child;
        }
      }
      Replaced(h, Snapshot(nodes), c, this, child);
    }

    /** Second half of Swap for a left child: take over its right subtree and become its right child. */
    method AdoptFromLeft(child: AVLTreeLockNode, ghost nodes: set<AVLTreeLockNode>)
      requires this in nodes && child in nodes && OnlyInner(this, child, child.right, child.left, right, nodes)
      modifies nodes`parent, nodes`left, nodes`right, nodes`leftHeight, nodes`rightHeight
      ensures AdoptedLeft(old(Snapshot(nodes)), Snapshot(nodes), this, child)
    {
      parent := child;
      left := child.right;
      if left != null {
        left.parent := this;
      }
      child.right := this;
      UpdateHeight();
      child.UpdateHeight();
    }

    /** Second half of Swap for a right child. */
    method AdoptFromRight(child: AVLTreeLockNode, ghost nodes: set<AVLTreeLockNode>)
      requires this in nodes && child in nodes && OnlyInner(this, child, child.left, child.right, left, nodes)
      modifies nodes`parent, nodes`left, nodes`right, nodes`leftHeight, nodes`rightHeight
      ensures AdoptedRight(old(Snapshot(nodes)), Snapshot(nodes), this, child)
    {
      parent := child;
      right := child.left;
      if right != null {
        right.parent := this;
      }
      child.left := this;
      UpdateHeight();
      child.UpdateHeight();
    }

    /** Restore balance at this node. */
    method Rebalance(ghost c: Ctx<AVLTreeLockNode>, ghost t: Tree<AVLTreeLockNode>, ghost nodes: set<AVLTreeLockNode>)
      requires t.Node? && t.x == this && Avl(t.l) && Avl(t.r) && -2 <= Diff(t) <= 2
      requires Apart(c, t) && Elems(t) + ElemsC(c) <= nodes
      requires Hung(Snapshot(nodes), t, CtxTop(c)) && LinkedC(Snapshot(nodes), c, this)
      modifies nodes`parent, nodes`left, nodes`right, nodes`leftHeight, nodes`rightHeight
      ensures var t' := AvlShape.Rebalance(t);
              Linked(Snapshot(nodes), t', CtxTop(c)) && LinkedC(Snapshot(nodes), c, t'.x)
    {
      Refresh(c, t, nodes);
      var diff := rightHeight - leftHeight;
      if diff < -1 {
        ghost var t1 := t;
        if left.rightHeight - left.leftHeight == 1 {
          t1 := LiftInner(true, c, t, nodes);
        } else if left.rightHeight - left.leftHeight < -1 {
          assert false;
        }
        Swap(true, c, t1, nodes);
      } else if diff > 1 {
        ghost var t1 := t;
        if right.rightHeight - right.leftHeight == -1 {
          t1 := LiftInner(false, c, t, nodes);
        } else if right.rightHeight - right.leftHeight > 1 {
          assert false;
        }
        Swap(false, c, t1, nodes);
      }
    }

    /** Bring the cached heights of this node up to date. */
    method Refresh(ghost c: Ctx<AVLTreeLockNode>, ghost t: Tree<AVLTreeLockNode>, ghost nodes: set<AVLTreeLockNode>)
      requires t.Node? && t.x == this && Apart(c, t) && Elems(t) + ElemsC(c) <= nodes
      requires Hung(Snapshot(nodes), t, CtxTop(c)) && LinkedC(Snapshot(nodes), c, this)
      modifies this`leftHeight, this`rightHeight
      ensures Linked(Snapshot(nodes), t, CtxTop(c)) && LinkedC(Snapshot(nodes), c, this)
    {
      ghost var h := Snapshot(nodes);
      TopParts(t);
      LinkedHeight(h, t.l, this);
      LinkedHeight(h, t.r, this);
      UpdateHeight();
      ghost var h' := Snapshot(nodes);
      LinkedSame(h, h', t.l, this);
      LinkedSame(h, h', t.r, this);
      LinkedCSame(h, h', c, this);
    }

    /** First half of a double rotation: lift the inner grandchild above the heavy child. */
    method LiftInner(isLeft: bool, ghost c: Ctx<AVLTreeLockNode>, ghost t: Tree<AVLTreeLockNode>,
                     ghost nodes: set<AVLTreeLockNode>)
      returns (ghost t1: Tree<AVLTreeLockNode>)
      requires t.Node? && t.x == this && Lifted(isLeft, t).Node?
      requires if isLeft then t.l.r.Node? else t.r.l.Node?
      requires Apart(c, t) && Elems(t) + ElemsC(c) <= nodes
      requires Linked(Snapshot(nodes), t, CtxTop(c)) && LinkedC(Snapshot(nodes), c, this)
      modifies nodes`parent, nodes`left, nodes`right, nodes`leftHeight, nodes`rightHeight
      ensures t1 == if isLeft then Node(t.x, RotateLeft(t.l), t.r) else Node(t.x, t.l, RotateRight(t.r))
      ensures Apart(c, t1) && Elems(t1) == Elems(t)
      ensures Hung(Snapshot(nodes), t1, CtxTop(c)) && LinkedC(Snapshot(nodes), c, this)
    {
      TopParts(t);
      if isLeft {
        RotateLeftKeeps(t.l);
        t1 := Node(t.x, RotateLeft(t.l), t.r);
        left.Swap(false, InLeft(this, t.r, c), t.l, nodes);
      } else {
        RotateRightKeeps(t.r);
        t1 := Node(t.x, t.l, RotateRight(t.r));
        right.Swap(true, InRight(this, t.l, c), t.r, nodes);
      }
    }

    /** Restore balance at this node and at every node above it. */
    method Balance(ghost c: Ctx<AVLTreeLockNode>, ghost t: Tree<AVLTreeLockNode>, ghost h: int,
                   ghost nodes: set<AVLTreeLockNode>)
      requires t.Node? && t.x == this && Repairable(c, t, h)
      requires Apart(c, t) && Elems(t) + ElemsC(c) <= nodes
      requires Hung(Snapshot(nodes), t, CtxTop(c)) && LinkedC(Snapshot(nodes), c, this)
      modifies nodes`parent, nodes`left, nodes`right, nodes`leftHeight, nodes`rightHeight
      ensures Linked(Snapshot(nodes), BalanceUp(c, t), null)
      decreases c
    {
      var parent := this.parent;
      Rebalance(c, t, nodes);
      RebalanceKeeps(t);
      RepairableUp(c, t, h);
      if parent != null {
        parent.Balance(c.up, Above(c, AvlShape.Rebalance(t)), HeightAbove(c, h), nodes);
      }
    }

    method GetRoot(ghost t: Tree<AVLTreeLockNode>, ghost nodes: set<AVLTreeLockNode>) returns (root: AVLTreeLockNode)
      requires this in Elems(t) && Elems(t) <= nodes && Distinct(t) && Linked(Snapshot(nodes), t, null)
      ensures root == t.x
      decreases Depth(t, this)
    {
      ParentAbove(Snapshot(nodes), t, null, this);
      if parent != null {
        root := parent.GetRoot(t, nodes);
      } else {
        root := this;
      }
    }

    /**
     * Insert a detached node below this one, by start, and rebalance up to the root. `t` is the
     * subtree of this node and `c` the rest of the tree. The new node lands, in order, somewhere
     * within the subtree: after its first `k` nodes, which start no later than the new node, and
     * before the others, which start later.
     */
    method Insert(newLock: AVLTreeLockNode, ghost c: Ctx<AVLTreeLockNode>, ghost t: Tree<AVLTreeLockNode>,
                  ghost nodes: set<AVLTreeLockNode>, ghost starts: StartMap)
      returns (root: AVLTreeLockNode, ghost t': Tree<AVLTreeLockNode>, ghost k: nat)
      requires t.Node? && t.x == this && Apart(c, t) && Elems(t) + ElemsC(c) == nodes
      requires Linked(Snapshot(nodes), t, CtxTop(c)) && LinkedC(Snapshot(nodes), c, this)
      requires Avl(Plug(c, t)) && StartsOf(starts, nodes + {newLock}) && StartsAscend(starts, InOrder(t))
      requires newLock !in nodes && newLock.Links() == DETACHED
      modifies nodes`parent, nodes`left, nodes`right, nodes`leftHeight, nodes`rightHeight
      modifies newLock`parent, newLock`left, newLock`right, newLock`leftHeight, newLock`rightHeight
      ensures Grown(Snapshot(nodes + {newLock}), starts, c, t, t', k, newLock) && root == Top(t')
      ensures t' == InsertTree(starts, c, t, newLock)
      decreases t, 1
    {
      if newLock.start < start {
        if left == null {
          root, t', k := InsertHere(true, newLock, c, t, nodes, starts);
        } else {
          root, t', k := InsertLeft(newLock, c, t, nodes, starts);
        }
      } else {
        if right == null {
          root, t', k := InsertHere(false, newLock, c, t, nodes, starts);
        } else {
          root, t', k := InsertRight(newLock, c, t, nodes, starts);
        }
      }
    }

    /** Insert where there is no child yet. */
    method InsertHere(isLeft: bool, newLock: AVLTreeLockNode, ghost c: Ctx<AVLTreeLockNode>,
                      ghost t: Tree<AVLTreeLockNode>, ghost nodes: set<AVLTreeLockNode>, ghost starts: StartMap)
      returns (root: AVLTreeLockNode, ghost t': Tree<AVLTreeLockNode>, ghost k: nat)
      requires t.Node? && t.x == this && Apart(c, t) && Elems(t) + ElemsC(c) == nodes
      requires Linked(Snapshot(nodes), t, CtxTop(c)) && LinkedC(Snapshot(nodes), c, this)
      requires Avl(Plug(c, t)) && StartsAscend(starts, InOrder(t))
      requires newLock !in nodes && newLock.Links() == DETACHED
      requires Lifted(isLeft, t).Leaf? && isLeft == (StartIn(starts, newLock) < StartIn(starts, this))
      modifies nodes`parent, nodes`left, nodes`right, nodes`leftHeight, nodes`rightHeight
      modifies newLock`parent, newLock`left, newLock`right, newLock`leftHeight, newLock`rightHeight
      ensures Grown(Snapshot(nodes + {newLock}), starts, c, t, t', k, newLock) && root == Top(t')
      ensures t' == InsertTree(starts, c, t, newLock)
    {
      t' := Attach(isLeft, newLock, c, t, nodes);
      k := if isLeft then 0 else Size(t);
      GrownAttached(Snapshot(nodes + {newLock}), starts, isLeft, c, t, t', k, newLock);
      root := GetRoot(t', nodes + {newLock});
    }

    /** Insert into the left subtree. */
    method InsertLeft(newLock: AVLTreeLockNode, ghost c: Ctx<AVLTreeLockNode>, ghost t: Tree<AVLTreeLockNode>,
                      ghost nodes: set<AVLTreeLockNode>, ghost starts: StartMap)
      returns (root: AVLTreeLockNode, ghost t': Tree<AVLTreeLockNode>, ghost k: nat)
      requires t.Node? && t.x == this && Apart(c, t) && Elems(t) + ElemsC(c) == nodes
      requires Linked(Snapshot(nodes), t, CtxTop(c)) && LinkedC(Snapshot(nodes), c, this)
      requires Avl(Plug(c, t)) && StartsOf(starts, nodes + {newLock}) && StartsAscend(starts, InOrder(t))
      requires newLock !in nodes && newLock.Links() == DETACHED
      requires newLock.start < start && left != null
      modifies nodes`parent, nodes`left, nodes`right, nodes`leftHeight, nodes`rightHeight
      modifies newLock`parent, newLock`left, newLock`right, newLock`leftHeight, newLock`rightHeight
      ensures Grown(Snapshot(nodes + {newLock}), starts, c, t, t', k, newLock) && root == Top(t')
      ensures t' == InsertTree(starts, c, t, newLock)
      decreases t, 0
    {
      InsertBelow(true, starts, c, t);
      root, t', k := left.Insert(newLock, InLeft(this, t.r, c), t.l, nodes, starts);
      GrownLeft(Snapshot(nodes + {newLock}), starts, c, t, t', k, newLock);
    }

    /** Insert into the right subtree. */
    method InsertRight(newLock: AVLTreeLockNode, ghost c: Ctx<AVLTreeLockNode>, ghost t: Tree<AVLTreeLockNode>,
                       ghost nodes: set<AVLTreeLockNode>, ghost starts: StartMap)
      returns (root: AVLTreeLockNode, ghost t': Tree<AVLTreeLockNode>, ghost k: nat)
      requires t.Node? && t.x == this && Apart(c, t) && Elems(t) + ElemsC(c) == nodes
      requires Linked(Snapshot(nodes), t, CtxTop(c)) && LinkedC(Snapshot(nodes), c, this)
      requires Avl(Plug(c, t)) && StartsOf(starts, nodes + {newLock}) && StartsAscend(starts, InOrder(t))
      requires newLock !in nodes && newLock.Links() == DETACHED
      requires start <= newLock.start && right != null
      modifies nodes`parent, nodes`left, nodes`right, nodes`leftHeight, nodes`rightHeight
      modifies newLock`parent, newLock`left, newLock`right, newLock`leftHeight, newLock`rightHeight
      ensures Grown(Snapshot(nodes + {newLock}), starts, c, t, t', k, newLock) && root == Top(t')
      ensures t' == InsertTree(starts, c, t, newLock)
      decreases t, 0
    {
      InsertBelow(false, starts, c, t);
      ghost var j;
      root, t', j := right.Insert(newLock, InRight(this, t.l, c), t.r, nodes, starts);
      k := j + Size(t.l) + 1;
      GrownRight(Snapshot(nodes + {newLock}), starts, c, t, t', j, k, newLock);
    }

    /** Hang a node where there is no child yet, and rebalance. */
    method Attach(isLeft: bool, newLock: AVLTreeLockNode, ghost c: Ctx<AVLTreeLockNode>, ghost t: Tree<AVLTreeLockNode>,
                  ghost nodes: set<AVLTreeLockNode>)
      returns (ghost t': Tree<AVLTreeLockNode>)
      requires t.Node? && t.x == this && Lifted(isLeft, t).Leaf? && Apart(c, t) && Elems(t) + ElemsC(c) == nodes
      requires Linked(Snapshot(nodes), t, CtxTop(c)) && LinkedC(Snapshot(nodes), c, this) && Avl(Plug(c, t))
      requires newLock !in nodes && newLock.Links() == DETACHED
      modifies nodes`parent, nodes`left, nodes`right, nodes`leftHeight, nodes`rightHeight
      modifies newLock`parent, newLock`left, newLock`right, newLock`leftHeight, newLock`rightHeight
      ensures Linked(Snapshot(nodes + {newLock}), t', null) && t' == BalanceUp(c, WithLeaf(isLeft, t, newLock))
      ensures Avl(t') && Distinct(t') && Elems(t') == nodes + {newLock} && this in Elems(t')
      ensures InOrder(t') == Before(c) + Inserted(InOrder(t), if isLeft then 0 else Size(t), newLock) + After(c)
    {
      Hang(isLeft, newLock, c, t, nodes);
      AttachedShape(isLeft, c, t, newLock);
      ghost var grown := WithLeaf(isLeft, t, newLock);
      Balance(c, grown, Height(t), nodes + {newLock});
      t' := BalanceUp(c, grown);
    }

    method Hang(isLeft: bool, newLock: AVLTreeLockNode, ghost c: Ctx<AVLTreeLockNode>, ghost t: Tree<AVLTreeLockNode>,
                ghost nodes: set<AVLTreeLockNode>)
      requires t.Node? && t.x == this && Lifted(isLeft, t).Leaf? && Apart(c, t) && Elems(t) + ElemsC(c) == nodes
      requires Linked(Snapshot(nodes), t, CtxTop(c)) && LinkedC(Snapshot(nodes), c, this)
      requires newLock !in nodes && newLock.Links() == DETACHED
      modifies this`left, this`right, newLock`parent
      ensures var h, t' := Snapshot(nodes + {newLock}), WithLeaf(isLeft, t, newLock);
              Apart(c, t') && Elems(t') == Elems(t) + {newLock} && Hung(h, t', CtxTop(c)) && LinkedC(h, c, this)
    {
      ghost var h := Snapshot(nodes);
      if isLeft {
        left := newLock;
      } else {
        right := newLock;
      }
      newLock.parent := this;
      Attached(h, Snapshot(nodes + {newLock}), isLeft, c, t, newLock);
    }

    /**
     * Walk down to the node whose interval contains `ts`, pushing that node and, before it, every
     * node from which the path turns right. Nothing is pushed for a time before the whole subtree.
     * `calls` counts the nodes looked at.
     */
    method Find(locks: seq<AVLTreeLockNode>, ts: uint64, ghost t: Tree<AVLTreeLockNode>,
                ghost nodes: set<AVLTreeLockNode>,
                ghost ivs: seq<Interval>)
      returns (pushed: seq<AVLTreeLockNode>, ghost i: int, ghost calls: nat)
      requires t.Node? && t.x == this && Elems(t) <= nodes && Linked(Snapshot(nodes), t, parent)
      requires Shows(InOrder(t), ivs) && Contiguous(ivs) && ts <= ivs[|ivs| - 1].end
      ensures Found(t, ivs, ts, locks, pushed, i) && calls == SearchLength(t, i)
      decreases t, 1
    {
      FindHere(Snapshot(nodes), t, parent, ivs);
      calls := 1;
      if ts < start {
        if left != null {
          pushed, i, calls := FindLeft(locks, ts, t, nodes, ivs);
        } else {
          pushed, i := locks, -1;
        }
      } else if ts > end {
        if right != null {
          pushed, i, calls := FindRight(locks, ts, t, nodes, ivs);
        } else {
          assert false;
        }
      } else {
        pushed, i := locks + [this], Size(t.l);
      }
    }

    /** Find in the left subtree. */
    method FindLeft(locks: seq<AVLTreeLockNode>, ts: uint64, ghost t: Tree<AVLTreeLockNode>,
                    ghost nodes: set<AVLTreeLockNode>,
                    ghost ivs: seq<Interval>)
      returns (pushed: seq<AVLTreeLockNode>, ghost i: int, ghost calls: nat)
      requires t.Node? && t.x == this && Elems(t) <= nodes && Linked(Snapshot(nodes), t, parent)
      requires Shows(InOrder(t), ivs) && Contiguous(ivs) && ts <= ivs[|ivs| - 1].end
      requires ts < start && left != null
      ensures Found(t, ivs, ts, locks, pushed, i) && calls == SearchLength(t, i)
      decreases t, 0
    {
      FindParts(t, ivs);
      LinkedTop(Snapshot(nodes), t, parent);
      pushed, i, calls := left.Find(locks, ts, t.l, nodes, ivs[..Size(t.l)]);
      FoundLeft(t, ivs, ts, locks, pushed, i);
      calls := calls + 1;
    }

    /** Remember this node and find in the right subtree. */
    method FindRight(locks: seq<AVLTreeLockNode>, ts: uint64, ghost t: Tree<AVLTreeLockNode>,
                     ghost nodes: set<AVLTreeLockNode>,
                     ghost ivs: seq<Interval>)
      returns (pushed: seq<AVLTreeLockNode>, ghost i: int, ghost calls: nat)
      requires t.Node? && t.x == this && Elems(t) <= nodes && Linked(Snapshot(nodes), t, parent)
      requires Shows(InOrder(t), ivs) && Contiguous(ivs) && ts <= ivs[|ivs| - 1].end
      requires ts > end && right != null
      ensures Found(t, ivs, ts, locks, pushed, i) && calls == SearchLength(t, i)
      decreases t, 0
    {
      RightPart(t, ivs, ts);
      LinkedTop(Snapshot(nodes), t, parent);
      ghost var j;
      pushed, j, calls := right.Find(locks + [this], ts, t.r, nodes, ivs[Size(t.l) + 1..]);
      FoundRight(t, ivs, ts, locks, pushed, j);
      i, calls := j + Size(t.l) + 1, calls + 1;
    }
  }

  /** The nodes around a rotation are distinct. */
  predicate OnlyInner(n: AVLTreeLockNode, child: AVLTreeLockNode, inner: AVLTreeLockNode?, outer: AVLTreeLockNode?,
                      other: AVLTreeLockNode?, nodes: set<AVLTreeLockNode>)
  {
    && n != child && inner != n && inner != child && outer != n && outer != child && other != n && other != child
    && (inner != null ==> inner in nodes && inner != outer && inner != other)
    && (outer != null ==> outer in nodes) && (other != null ==> other in nodes)
  }

  /** The height that the cached heights of a node give it. */
  ghost function CachedHeight(h: LinkMap, n: AVLTreeLockNode?): int {
    if n == null || n !in h then 0 else Max(h[n].leftHeight, h[n].rightHeight) + 1
  }

  /** What the second half of a right rotation does to the pointers of the nodes involved. */
  ghost predicate AdoptedLeft(h: LinkMap, h': LinkMap, n: AVLTreeLockNode, child: AVLTreeLockNode) {
    && n in h && child in h && n in h' && child in h'
    && (var inner, outer, other := h[child].right, h[child].left, h[n].right;
        && h'[n] == Link(child, inner, other, CachedHeight(h, inner), CachedHeight(h, other))
        && h'[child] == Link(h[child].parent, outer, n, CachedHeight(h, outer), CachedHeight(h', n))
        && (inner != null ==> inner in h && inner in h' && h'[inner] == h[inner].(parent := n))
        && SameOn(h, h', h.Keys - {n, child, inner}))
  }

  /** What the second half of a left rotation does to the pointers of the nodes involved. */
  ghost predicate AdoptedRight(h: LinkMap, h': LinkMap, n: AVLTreeLockNode, child: AVLTreeLockNode) {
    && n in h && child in h && n in h' && child in h'
    && (var inner, outer, other := h[child].left, h[child].right, h[n].left;
        && h'[n] == Link(child, other, inner, CachedHeight(h, other), CachedHeight(h, inner))
        && h'[child] == Link(h[child].parent, n, outer, CachedHeight(h', n), CachedHeight(h, outer))
        && (inner != null ==> inner in h && inner in h' && h'[inner] == h[inner].(parent := n))
        && SameOn(h, h', h.Keys - {n, child, inner}))
  }

  // ----- the intervals of nodes

  /** A list of nodes and the intervals in their fields. */
  ghost predicate Shows(ns: seq<AVLTreeLockNode>, ivs: seq<Interval>)
    reads ns`start, ns`end, ns`status, ns`tids
  {
    |ns| == |ivs| && forall i | 0 <= i < |ns| :: ns[i].Iv() == ivs[i]
  }

  /** The intervals of the two subtrees and of the node between them. */
  lemma FindParts(t: Tree<AVLTreeLockNode>, ivs: seq<Interval>)
    requires t.Node? && Shows(InOrder(t), ivs) && Contiguous(ivs)
    ensures var n := Size(t.l);
            && |ivs| == n + 1 + Size(t.r) && ivs[n] == t.x.Iv()
            && Shows(InOrder(t.l), ivs[..n]) && Shows(InOrder(t.r), ivs[n + 1..])
            && Contiguous(ivs[..n]) && Contiguous(ivs[n + 1..]) && Around(ivs, n)
  {
    ShowsParts(InOrder(t.l), t.x, InOrder(t.r), ivs);
    ContiguousParts(ivs, Size(t.l));
  }

  lemma ShowsParts(a: seq<AVLTreeLockNode>, x: AVLTreeLockNode, b: seq<AVLTreeLockNode>, ivs: seq<Interval>)
    requires Shows(a + [x] + b, ivs)
    ensures |ivs| == |a| + 1 + |b| && ivs[|a|] == x.Iv()
    ensures Shows(a, ivs[..|a|]) && Shows(b, ivs[|a| + 1..])
  {
    var s := a + [x] + b;
    assert s[|a|] == x;
    assert forall i | 0 <= i < |a| :: s[i] == a[i];
    assert forall i | 0 <= i < |b| :: s[|a| + 1 + i] == b[i];
  }

  /**
   * The outcome of looking `ts` up in a subtree: the path's right turns down to the node that
   * contains it, or nothing when it lies before the subtree.
   */
  ghost predicate Found(t: Tree<AVLTreeLockNode>, ivs: seq<Interval>, ts: uint64, locks: seq<AVLTreeLockNode>,
                        pushed: seq<AVLTreeLockNode>, i: int)
    requires |ivs| == Size(t) > 0
  {
    if ts < ivs[0].start then i == -1 && pushed == locks
    else 0 <= i < Size(t) && Contains(ivs[i], ts) && pushed == locks + RightTurns(t, i)
  }

  /** What a search knows at the top of a subtree. */
  lemma FindHere(h: LinkMap, t: Tree<AVLTreeLockNode>, p: AVLTreeLockNode?, ivs: seq<Interval>)
    requires t.Node? && Linked(h, t, p) && Shows(InOrder(t), ivs) && Contiguous(ivs)
    ensures t.x in h && (h[t.x].left == null <==> t.l.Leaf?) && (h[t.x].right == null <==> t.r.Leaf?)
    ensures var n := Size(t.l);
            && |ivs| == Size(t) && ivs[n] == t.x.Iv() && ivs[0].start <= ivs[n].start && RightTurns(t, n) == [t.x]
            && (t.l.Leaf? ==> n == 0) && (t.r.Leaf? ==> n + 1 == |ivs|)
            && SearchLength(t, n) == 1 && (t.l.Leaf? ==> SearchLength(t, -1) == 1)
  {
    FindParts(t, ivs);
    assert t.l.Leaf? ==> LeftLength(t) == 1 + LeftLength(t.l);
  }

  lemma FoundLeft(t: Tree<AVLTreeLockNode>, ivs: seq<Interval>, ts: uint64, locks: seq<AVLTreeLockNode>,
                  pushed: seq<AVLTreeLockNode>, i: int)
    requires t.Node? && t.l.Node? && |ivs| == Size(t)
    requires Found(t.l, ivs[..Size(t.l)], ts, locks, pushed, i)
    ensures Found(t, ivs, ts, locks, pushed, i) && SearchLength(t, i) == SearchLength(t.l, i) + 1
  {
  }

  lemma FoundRight(t: Tree<AVLTreeLockNode>, ivs: seq<Interval>, ts: uint64, locks: seq<AVLTreeLockNode>,
                   pushed: seq<AVLTreeLockNode>, j: int)
    requires t.Node? && t.r.Node? && Size(t.l) + 1 < |ivs| == Size(t) && ivs[0].start <= ivs[Size(t.l) + 1].start <= ts
    requires Found(t.r, ivs[Size(t.l) + 1..], ts, locks + [t.x], pushed, j)
    ensures Found(t, ivs, ts, locks, pushed, j + Size(t.l) + 1)
    ensures SearchLength(t, j + Size(t.l) + 1) == SearchLength(t.r, j) + 1
  {
    SizeParts(t);
    var i := j + Size(t.l) + 1;
    assert ivs[Size(t.l) + 1..][j] == ivs[i];
    RightPosition(t, j, locks);
  }

  /** What a search needs of the right subtree. */
  lemma RightPart(t: Tree<AVLTreeLockNode>, ivs: seq<Interval>, ts: uint64)
    requires t.Node? && t.r.Node? && Shows(InOrder(t), ivs) && Contiguous(ivs) && t.x.end < ts <= ivs[|ivs| - 1].end
    ensures var n := Size(t.l);
            && |ivs| == Size(t) && n + 1 < |ivs| && ivs[0].start <= ivs[n + 1].start <= ts
            && Shows(InOrder(t.r), ivs[n + 1..]) && Contiguous(ivs[n + 1..]) && ts <= ivs[n + 1..][|ivs| - n - 2].end
  {
    FindParts(t, ivs);
  }

  /** The way to a node of the right subtree. */
  lemma RightPosition(t: Tree<AVLTreeLockNode>, j: nat, locks: seq<AVLTreeLockNode>)
    requires t.Node? && j < Size(t.r)
    ensures locks + RightTurns(t, j + Size(t.l) + 1) == locks + [t.x] + RightTurns(t.r, j)
    ensures SearchLength(t, j + Size(t.l) + 1) == SearchLength(t.r, j) + 1
  {
    assert RightTurns(t, j + Size(t.l) + 1) == [t.x] + RightTurns(t.r, j);
  }

  lemma LinkedTop(h: LinkMap, t: Tree<AVLTreeLockNode>, p: AVLTreeLockNode?)
    requires t.Node? && Linked(h, t, p)
    ensures t.x in h && h[t.x].left == Top(t.l) && h[t.x].right == Top(t.r)
    ensures Linked(h, t.l, t.x) && Linked(h, t.r, t.x)
    ensures t.l.Node? ==> t.l.x in h && h[t.l.x].parent == t.x
    ensures t.r.Node? ==> t.r.x in h && h[t.r.x].parent == t.x
  {
  }

  // ----- the order of starts

  /** A sequence with `n` put in after the first `k` elements. */
  function Inserted<T>(s: seq<T>, k: nat, n: T): seq<T>
    requires k <= |s|
  {
    s[..k] + [n] + s[k..]
  }

  /** The starts of a set of nodes. */
  type StartMap = map<AVLTreeLockNode, int>

  ghost predicate StartsOf(starts: StartMap, nodes: set<AVLTreeLockNode>)
    reads nodes`start
  {
    forall n | n in nodes :: n in starts && starts[n] == n.start
  }

  ghost predicate StartsAscend(starts: StartMap, ns: seq<AVLTreeLockNode>) {
    forall i, j | 0 <= i < j < |ns| :: StartIn(starts, ns[i]) <= StartIn(starts, ns[j])
  }

  /** The first `k` nodes start no later than `n`, the others start later. */
  ghost predicate StartsSplit(starts: StartMap, ns: seq<AVLTreeLockNode>, k: nat, n: AVLTreeLockNode)
    requires k <= |ns|
  {
    && (forall i | 0 <= i < k :: StartIn(starts, ns[i]) <= StartIn(starts, n))
    && (forall i | k <= i < |ns| :: StartIn(starts, n) < StartIn(starts, ns[i]))
  }

  // ----- snapshots of pointers

  datatype Link = Link(
    parent: AVLTreeLockNode?,
    left: AVLTreeLockNode?,
    right: AVLTreeLockNode?,
    leftHeight: int,
    rightHeight: int)

  const DETACHED := Link(null, null, null, 0, 0)

  type LinkMap = map<AVLTreeLockNode, Link>

  ghost function Snapshot(nodes: set<AVLTreeLockNode>): LinkMap
    reads nodes`parent, nodes`left, nodes`right, nodes`leftHeight, nodes`rightHeight
  {
    map n | n in nodes :: n.Links()
  }

  function Top(t: Tree<AVLTreeLockNode>): AVLTreeLockNode? {
    if t.Leaf? then null else t.x
  }

  function CtxTop(c: Ctx<AVLTreeLockNode>): AVLTreeLockNode? {
    if c.Root? then null else c.x
  }

  /** The links of a tree hanging from `p`, with cached heights exact at every node. */
  ghost predicate Linked(h: LinkMap, t: Tree<AVLTreeLockNode>, p: AVLTreeLockNode?) {
    t.Leaf? ||
    (&& t.x in h && h[t.x] == Link(p, Top(t.l), Top(t.r), Height(t.l), Height(t.r))
     && Linked(h, t.l, t.x) && Linked(h, t.r, t.x))
  }

  /** As Linked, except that the cached heights of the top node may be out of date. */
  ghost predicate Hung(h: LinkMap, t: Tree<AVLTreeLockNode>, p: AVLTreeLockNode?)
    requires t.Node?
  {
    && t.x in h && h[t.x].parent == p && h[t.x].left == Top(t.l) && h[t.x].right == Top(t.r)
    && Linked(h, t.l, t.x) && Linked(h, t.r, t.x)
  }

  /** The links of a context around a hole filled by `hole`; heights on the path may be out of date. */
  ghost predicate LinkedC(h: LinkMap, c: Ctx<AVLTreeLockNode>, hole: AVLTreeLockNode?) {
    match c
    case Root => true
    case InLeft(x, r, up) =>
      && x in h && h[x].left == hole && h[x].right == Top(r) && h[x].parent == CtxTop(up)
      && Linked(h, r, x) && LinkedC(h, up, x)
    case InRight(x, l, up) =>
      && x in h && h[x].left == Top(l) && h[x].right == hole && h[x].parent == CtxTop(up)
      && Linked(h, l, x) && LinkedC(h, up, x)
  }

  /** A subtree and its context share no node. */
  predicate Apart(c: Ctx<AVLTreeLockNode>, t: Tree<AVLTreeLockNode>) {
    Distinct(t) && DistinctC(c) && Elems(t) !! ElemsC(c)
  }

  ghost predicate SameOn(h: LinkMap, h': LinkMap, nodes: set<AVLTreeLockNode>) {
    forall n | n in nodes && n in h :: n in h' && h'[n] == h[n]
  }

  lemma {:induction false} LinkedSame(h: LinkMap, h': LinkMap, t: Tree<AVLTreeLockNode>, p: AVLTreeLockNode?)
    requires Linked(h, t, p) && SameOn(h, h', Elems(t))
    ensures Linked(h', t, p)
  {
    if t.Node? {
      LinkedSame(h, h', t.l, t.x);
      LinkedSame(h, h', t.r, t.x);
    }
  }

  lemma {:induction false} LinkedCSame(h: LinkMap, h': LinkMap, c: Ctx<AVLTreeLockNode>, hole: AVLTreeLockNode?)
    requires LinkedC(h, c, hole) && SameOn(h, h', ElemsC(c))
    ensures LinkedC(h', c, hole)
  {
    match c
    case Root =>
    case InLeft(x, r, up) =>
      LinkedSame(h, h', r, x);
      LinkedCSame(h, h', up, x);
    case InRight(x, l, up) =>
      LinkedSame(h, h', l, x);
      LinkedCSame(h, h', up, x);
  }

  /** Moving a subtree below another parent. */
  lemma Reparented(h: LinkMap, h': LinkMap, t: Tree<AVLTreeLockNode>, p: AVLTreeLockNode?, q: AVLTreeLockNode?)
    requires Distinct(t) && Linked(h, t, p)
    requires t.Node? ==> t.x in h' && h'[t.x] == h[t.x].(parent := q)
    requires SameOn(h, h', Elems(t) - {Top(t)})
    ensures Linked(h', t, q)
  {
    if t.Node? {
      LinkedSame(h, h', t.l, t.x);
      LinkedSame(h, h', t.r, t.x);
    }
  }

  /** Putting another node where a context has `hole`. */
  lemma Replaced(h: LinkMap, h': LinkMap, c: Ctx<AVLTreeLockNode>, hole: AVLTreeLockNode, child: AVLTreeLockNode)
    requires DistinctC(c) && LinkedC(h, c, hole)
    requires SameOn(h, h', ElemsC(c) - {CtxTop(c)})
    requires c.InLeft? ==> c.x in h' && h'[c.x] == h[c.x].(left := child)
    requires c.InRight? ==> c.x in h' && h'[c.x] == h[c.x].(right := child)
    ensures LinkedC(h', c, child)
  {
    match c
    case Root =>
    case InLeft(x, r, up) =>
      LinkedSame(h, h', r, x);
      LinkedCSame(h, h', up, x);
    case InRight(x, l, up) =>
      LinkedSame(h, h', l, x);
      LinkedCSame(h, h', up, x);
  }

  /** Changing the pointers of a node and its child leaves the subtrees around them linked. */
  lemma PiecesSame(h: LinkMap, h': LinkMap, isLeft: bool, t: Tree<AVLTreeLockNode>)
    requires t.Node? && Distinct(t) && Linked(h, t.l, t.x) && Linked(h, t.r, t.x)
    requires if isLeft then t.l.Node? && SameOn(h, h', Elems(t) - {t.l.x})
             else t.r.Node? && SameOn(h, h', Elems(t) - {t.r.x})
    ensures if isLeft then Linked(h', t.l.l, t.l.x) && Linked(h', t.l.r, t.l.x) && Linked(h', t.r, t.x)
            else Linked(h', t.r.l, t.r.x) && Linked(h', t.r.r, t.r.x) && Linked(h', t.l, t.x)
  {
    if isLeft {
      LeftParts(t);
      LinkedSame(h, h', t.l.l, t.l.x);
      LinkedSame(h, h', t.l.r, t.l.x);
      LinkedSame(h, h', t.r, t.x);
    } else {
      RightParts(t);
      LinkedSame(h, h', t.r.l, t.r.x);
      LinkedSame(h, h', t.r.r, t.r.x);
      LinkedSame(h, h', t.l, t.x);
    }
  }

  lemma TopParts(t: Tree<AVLTreeLockNode>)
    requires t.Node? && Distinct(t)
    ensures && Elems(t) == Elems(t.l) + Elems(t.r) + {t.x} && t.x !in Elems(t.l) && t.x !in Elems(t.r)
            && Elems(t.l) !! Elems(t.r)
            && (t.l.Node? ==> t.l.x in Elems(t.l)) && (t.r.Node? ==> t.r.x in Elems(t.r))
  {
  }

  /** The pieces of a tree around its left child share no node. */
  lemma LeftParts(t: Tree<AVLTreeLockNode>)
    requires t.Node? && t.l.Node? && Distinct(t)
    ensures var a, b, c := Elems(t.l.l), Elems(t.l.r), Elems(t.r);
            && a !! b && a !! c && b !! c
            && t.x !in a && t.x !in b && t.x !in c && t.l.x !in a && t.l.x !in b && t.l.x !in c && t.x != t.l.x
            && Elems(t) == a + b + c + {t.x, t.l.x}
            && (t.l.r.Node? ==> t.l.r.x in b)
  {
  }

  /** The pieces of a tree around its right child share no node. */
  lemma RightParts(t: Tree<AVLTreeLockNode>)
    requires t.Node? && t.r.Node? && Distinct(t)
    ensures var a, b, c := Elems(t.l), Elems(t.r.l), Elems(t.r.r);
            && a !! b && a !! c && b !! c
            && t.x !in a && t.x !in b && t.x !in c && t.r.x !in a && t.r.x !in b && t.r.x !in c && t.x != t.r.x
            && Elems(t) == a + b + c + {t.x, t.r.x}
            && (t.r.l.Node? ==> t.r.l.x in b)
  {
  }

  lemma LinkedHeight(h: LinkMap, t: Tree<AVLTreeLockNode>, p: AVLTreeLockNode?)
    requires Linked(h, t, p)
    ensures CachedHeight(h, Top(t)) == Height(t)
  {
  }

  /** The pointers that a right rotation leaves behind are those of the rotated tree. */
  lemma RotatedRight(h: LinkMap, h': LinkMap, t: Tree<AVLTreeLockNode>)
    requires t.Node? && t.l.Node? && Distinct(t) && AdoptedLeft(h, h', t.x, t.l.x)
    requires h[t.x].right == Top(t.r) && h[t.l.x].left == Top(t.l.l) && h[t.l.x].right == Top(t.l.r)
    requires Linked(h, t.l.l, t.l.x) && Linked(h, t.l.r, t.l.x) && Linked(h, t.r, t.x)
    ensures Linked(h', RotateRight(t), h[t.l.x].parent)
  {
    LeftParts(t);
    LinkedHeight(h, t.l.l, t.l.x);
    LinkedHeight(h, t.l.r, t.l.x);
    LinkedHeight(h, t.r, t.x);
    LinkedSame(h, h', t.l.l, t.l.x);
    LinkedSame(h, h', t.r, t.x);
    Reparented(h, h', t.l.r, t.l.x, t.x);
  }

  /** The pointers that a left rotation leaves behind are those of the rotated tree. */
  lemma RotatedLeft(h: LinkMap, h': LinkMap, t: Tree<AVLTreeLockNode>)
    requires t.Node? && t.r.Node? && Distinct(t) && AdoptedRight(h, h', t.x, t.r.x)
    requires h[t.x].left == Top(t.l) && h[t.r.x].left == Top(t.r.l) && h[t.r.x].right == Top(t.r.r)
    requires Linked(h, t.r.l, t.r.x) && Linked(h, t.r.r, t.r.x) && Linked(h, t.l, t.x)
    ensures Linked(h', RotateLeft(t), h[t.r.x].parent)
  {
    RightParts(t);
    LinkedHeight(h, t.r.r, t.r.x);
    LinkedHeight(h, t.r.l, t.r.x);
    LinkedHeight(h, t.l, t.x);
    LinkedSame(h, h', t.r.r, t.r.x);
    LinkedSame(h, h', t.l, t.x);
    Reparented(h, h', t.r.l, t.r.x, t.x);
  }

  /** The child that a rotation lifts. */
  function Lifted(isLeft: bool, t: Tree<AVLTreeLockNode>): Tree<AVLTreeLockNode>
    requires t.Node?
  {
    if isLeft then t.l else t.r
  }

  /** What the pointers around a rotation are before it starts. */
  lemma SwapParts(h: LinkMap, isLeft: bool, c: Ctx<AVLTreeLockNode>, t: Tree<AVLTreeLockNode>,
                  nodes: set<AVLTreeLockNode>)
    requires t.Node? && Lifted(isLeft, t).Node? && Apart(c, t) && Elems(t) + ElemsC(c) <= nodes
    requires Hung(h, t, CtxTop(c))
    ensures var child := Lifted(isLeft, t).x;
            && t.x in nodes && child in nodes && t.x !in ElemsC(c) && child !in ElemsC(c)
            && t.x in h && child in h
            && (if isLeft then h[t.x].left == child
                && OnlyInner(t.x, child, h[child].right, h[child].left, h[t.x].right, nodes)
                else h[t.x].right == child && OnlyInner(t.x, child, h[child].left, h[child].right, h[t.x].left, nodes))
  {
    if isLeft { LeftParts(t); } else { RightParts(t); }
  }

  /** Both halves of a rotation together. */
  lemma Swapped(h: LinkMap, h1: LinkMap, h2: LinkMap, isLeft: bool, c: Ctx<AVLTreeLockNode>, t: Tree<AVLTreeLockNode>)
    requires t.Node? && Lifted(isLeft, t).Node? && Apart(c, t) && Hung(h, t, CtxTop(c))
    requires var child := Lifted(isLeft, t).x;
             && LinkedC(h1, c, child)
             && child in h && child in h1 && h1[child] == h[child].(parent := CtxTop(c))
             && SameOn(h, h1, h.Keys - ElemsC(c) - {child})
             && (if isLeft then AdoptedLeft(h1, h2, t.x, child) else AdoptedRight(h1, h2, t.x, child))
    ensures var t' := if isLeft then RotateRight(t) else RotateLeft(t);
            Linked(h2, t', CtxTop(c)) && LinkedC(h2, c, t'.x)
  {
    PiecesSame(h, h1, isLeft, t);
    if isLeft {
      LeftParts(t);
      RotatedRight(h1, h2, t);
    } else {
      RightParts(t);
      RotatedLeft(h1, h2, t);
    }
    LinkedCSame(h1, h2, c, Lifted(isLeft, t).x);
  }

  /** In a linked tree every node but the top has its parent in the tree, one level up. */
  lemma {:induction false} ParentAbove(h: LinkMap, t: Tree<AVLTreeLockNode>, p: AVLTreeLockNode?, n: AVLTreeLockNode)
    requires Linked(h, t, p) && Distinct(t) && n in Elems(t)
    ensures n in h
    ensures n == t.x ==> h[n].parent == p
    ensures n != t.x ==> h[n].parent != null && h[n].parent in Elems(t) && Depth(t, h[n].parent) < Depth(t, n)
  {
    if n in Elems(t.l) {
      ParentAbove(h, t.l, t.x, n);
    } else if n in Elems(t.r) {
      ParentAbove(h, t.r, t.x, n);
    }
  }

  ghost function WithLeaf(isLeft: bool, t: Tree<AVLTreeLockNode>, n: AVLTreeLockNode): Tree<AVLTreeLockNode>
    requires t.Node?
  {
    if isLeft then Node(t.x, Node(n, Leaf, Leaf), t.r) else Node(t.x, t.l, Node(n, Leaf, Leaf))
  }

  /** Hanging a new leaf below the top of a subtree. */
  lemma Attached(h: LinkMap, h': LinkMap, isLeft: bool, c: Ctx<AVLTreeLockNode>, t: Tree<AVLTreeLockNode>,
                 n: AVLTreeLockNode)
    requires t.Node? && Lifted(isLeft, t).Leaf? && Apart(c, t) && n !in Elems(t) && n !in ElemsC(c)
    requires Linked(h, t, CtxTop(c)) && LinkedC(h, c, t.x)
    requires n in h' && h'[n] == DETACHED.(parent := t.x)
    requires t.x in h' && h'[t.x] == (if isLeft then h[t.x].(left := n) else h[t.x].(right := n))
    requires SameOn(h, h', Elems(t) + ElemsC(c) - {t.x})
    ensures var t' := WithLeaf(isLeft, t, n);
            Apart(c, t') && Elems(t') == Elems(t) + {n} && Hung(h', t', CtxTop(c)) && LinkedC(h', c, t.x)
  {
    TopParts(t);
    LinkedSame(h, h', t.l, t.x);
    LinkedSame(h, h', t.r, t.x);
    LinkedCSame(h, h', c, t.x);
  }

  /** The shape after hanging a leaf and rebalancing: balanced, with the leaf in order next to the subtree. */
  lemma AttachedShape(isLeft: bool, c: Ctx<AVLTreeLockNode>, t: Tree<AVLTreeLockNode>, n: AVLTreeLockNode)
    requires t.Node? && Lifted(isLeft, t).Leaf? && Apart(c, t) && n !in Elems(t) && n !in ElemsC(c) && Avl(Plug(c, t))
    ensures var t' := BalanceUp(c, WithLeaf(isLeft, t, n));
            && Repairable(c, WithLeaf(isLeft, t, n), Height(t))
            && Avl(t') && Distinct(t') && Elems(t') == Elems(t) + ElemsC(c) + {n}
            && InOrder(t') == Before(c) + Inserted(InOrder(t), if isLeft then 0 else Size(t), n) + After(c)
  {
    var grown := WithLeaf(isLeft, t, n);
    LeafRepairable(c, t, n);
    BalanceUpAvl(c, grown, Height(t));
    BalanceUpKeeps(c, grown);
    PlugInOrder(c, grown);
    PlugElems(c, grown);
    LeafInOrder(isLeft, t, n);
    BalanceUpDistinct(c, grown);
  }

  lemma LeafInOrder(isLeft: bool, t: Tree<AVLTreeLockNode>, n: AVLTreeLockNode)
    requires t.Node? && Lifted(isLeft, t).Leaf?
    ensures InOrder(WithLeaf(isLeft, t, n)) == Inserted(InOrder(t), if isLeft then 0 else Size(t), n)
  {
    assert InOrder(Node(n, Leaf, Leaf)) == [n];
    if isLeft {
      assert InOrder(t) == [t.x] + InOrder(t.r);
    } else {
      assert InOrder(t) == InOrder(t.l) + [t.x];
    }
  }

  /** Descending into a child keeps what Insert needs. */
  lemma InsertBelow(isLeft: bool, starts: StartMap, c: Ctx<AVLTreeLockNode>, t: Tree<AVLTreeLockNode>)
    requires t.Node? && Lifted(isLeft, t).Node? && Apart(c, t) && StartsAscend(starts, InOrder(t))
    ensures StartsAscend(starts, InOrder(t.l)) && StartsAscend(starts, InOrder(t.r))
    ensures var c' := if isLeft then InLeft(t.x, t.r, c) else InRight(t.x, t.l, c);
            Apart(c', Lifted(isLeft, t)) && Elems(Lifted(isLeft, t)) + ElemsC(c') == Elems(t) + ElemsC(c)
  {
    TopParts(t);
    AscendParts(starts, InOrder(t.l), t.x, InOrder(t.r));
  }

  lemma AscendParts(starts: StartMap, a: seq<AVLTreeLockNode>, x: AVLTreeLockNode, b: seq<AVLTreeLockNode>)
    requires StartsAscend(starts, a + [x] + b)
    ensures StartsAscend(starts, a) && StartsAscend(starts, b)
    ensures forall i | 0 <= i < |a| :: StartIn(starts, a[i]) <= StartIn(starts, x)
    ensures forall i | 0 <= i < |b| :: StartIn(starts, x) <= StartIn(starts, b[i])
  {
    var s := a + [x] + b;
    assert s[|a|] == x;
    assert forall i | 0 <= i < |a| :: a[i] == s[i];
    assert forall i | 0 <= i < |b| :: b[i] == s[|a| + 1 + i];
  }

  /**
   * The outcome of inserting `n` at the hole of `c`, filled by `t`: a linked, balanced tree of the
   * old nodes and `n`, in the old order except that `n` comes after the first `k` nodes of `t`,
   * which is where its start belongs.
   */
  ghost predicate Grown(h: LinkMap, starts: StartMap, c: Ctx<AVLTreeLockNode>, t: Tree<AVLTreeLockNode>,
                        t': Tree<AVLTreeLockNode>, k: nat,
                        n: AVLTreeLockNode)
  {
    && Linked(h, t', null) && Avl(t') && Distinct(t') && Elems(t') == Elems(t) + ElemsC(c) + {n}
    && k <= Size(t) && StartsSplit(starts, InOrder(t), k, n)
    && InOrder(t') == Before(c) + Inserted(InOrder(t), k, n) + After(c)
  }

  /** An insertion into the left subtree is an insertion into the whole. */
  lemma GrownLeft(h: LinkMap, starts: StartMap, c: Ctx<AVLTreeLockNode>, t: Tree<AVLTreeLockNode>,
                  t': Tree<AVLTreeLockNode>, k: nat,
                  n: AVLTreeLockNode)
    requires t.Node? && StartsAscend(starts, InOrder(t)) && StartIn(starts, n) < StartIn(starts, t.x)
    requires Grown(h, starts, InLeft(t.x, t.r, c), t.l, t', k, n)
    ensures Grown(h, starts, c, t, t', k, n)
  {
    SplitFirst(starts, InOrder(t.l), t.x, InOrder(t.r), k, n);
    OrderFirst(c, t, k, n);
  }

  lemma OrderFirst(c: Ctx<AVLTreeLockNode>, t: Tree<AVLTreeLockNode>, k: nat, n: AVLTreeLockNode)
    requires t.Node? && k <= Size(t.l)
    ensures var c' := InLeft(t.x, t.r, c);
            Before(c') + Inserted(InOrder(t.l), k, n) + After(c') == Before(c) + Inserted(InOrder(t), k, n) + After(c)
  {
    var a, b := InOrder(t.l), InOrder(t.r);
    InsertedFirst(a, t.x, b, k, n);
    Reassoc(Before(c), Inserted(a, k, n), [t.x] + b, After(c));
  }

  lemma SplitFirst(starts: StartMap, a: seq<AVLTreeLockNode>, x: AVLTreeLockNode, b: seq<AVLTreeLockNode>, k: nat,
                   n: AVLTreeLockNode)
    requires StartsAscend(starts, a + [x] + b) && StartIn(starts, n) < StartIn(starts, x)
    requires k <= |a| && StartsSplit(starts, a, k, n)
    ensures StartsSplit(starts, a + [x] + b, k, n)
  {
    AscendParts(starts, a, x, b);
  }

  lemma InsertedFirst<T>(a: seq<T>, x: T, b: seq<T>, k: nat, n: T)
    requires k <= |a|
    ensures Inserted(a + [x] + b, k, n) == Inserted(a, k, n) + ([x] + b)
  {
  }

  /** An insertion into the right subtree is an insertion into the whole. */
  lemma GrownRight(h: LinkMap, starts: StartMap, c: Ctx<AVLTreeLockNode>, t: Tree<AVLTreeLockNode>,
                   t': Tree<AVLTreeLockNode>, j: nat,
                   k: nat, n: AVLTreeLockNode)
    requires t.Node? && StartsAscend(starts, InOrder(t)) && StartIn(starts, t.x) <= StartIn(starts, n)
    requires k == j + Size(t.l) + 1 && Grown(h, starts, InRight(t.x, t.l, c), t.r, t', j, n)
    ensures Grown(h, starts, c, t, t', k, n)
  {
    SplitSecond(starts, InOrder(t.l), t.x, InOrder(t.r), j, n);
    OrderSecond(c, t, j, n);
  }

  lemma OrderSecond(c: Ctx<AVLTreeLockNode>, t: Tree<AVLTreeLockNode>, k: nat, n: AVLTreeLockNode)
    requires t.Node? && k <= Size(t.r)
    ensures var c' := InRight(t.x, t.l, c);
            Before(c') + Inserted(InOrder(t.r), k, n) + After(c')
            == Before(c) + Inserted(InOrder(t), k + Size(t.l) + 1, n) + After(c)
  {
    RegroupSecond(Before(c), InOrder(t.l), t.x, InOrder(t.r), k, n, After(c));
  }

  lemma SplitSecond(starts: StartMap, a: seq<AVLTreeLockNode>, x: AVLTreeLockNode, b: seq<AVLTreeLockNode>, k: nat,
                    n: AVLTreeLockNode)
    requires StartsAscend(starts, a + [x] + b) && StartIn(starts, x) <= StartIn(starts, n) && k <= |b|
             && StartsSplit(starts, b, k, n)
    ensures StartsSplit(starts, a + [x] + b, |a| + 1 + k, n)
  {
    AscendParts(starts, a, x, b);
  }

  lemma RegroupSecond<T>(p: seq<T>, a: seq<T>, x: T, b: seq<T>, k: nat, n: T, q: seq<T>)
    requires k <= |b|
    ensures (p + a + [x]) + Inserted(b, k, n) + q == p + Inserted(a + [x] + b, |a| + 1 + k, n) + q
  {
    InsertedSecond(a, x, b, k, n);
    Reassoc(p, a + [x], Inserted(b, k, n), q);
    assert p + a + [x] == p + (a + [x]);
  }

  lemma InsertedSecond<T>(a: seq<T>, x: T, b: seq<T>, k: nat, n: T)
    requires k <= |b|
    ensures Inserted(a + [x] + b, |a| + 1 + k, n) == (a + [x]) + Inserted(b, k, n)
  {
    assert (a + [x] + b)[..|a| + 1 + k] == a + [x] + b[..k];
    assert (a + [x] + b)[|a| + 1 + k..] == b[k..];
  }

  /** A node hung directly below the top of a subtree is in order there. */
  lemma GrownHere(starts: StartMap, t: Tree<AVLTreeLockNode>, n: AVLTreeLockNode)
    requires t.Node? && StartsAscend(starts, InOrder(t))
    ensures StartIn(starts, n) < StartIn(starts, t.x) && t.l.Leaf? ==> StartsSplit(starts, InOrder(t), 0, n)
    ensures StartIn(starts, t.x) <= StartIn(starts, n) && t.r.Leaf? ==> StartsSplit(starts, InOrder(t), Size(t), n)
  {
    AscendParts(starts, InOrder(t.l), t.x, InOrder(t.r));
  }

  /** Attaching a leaf where there is no child is an insertion. */
  lemma GrownAttached(h: LinkMap, starts: StartMap, isLeft: bool, c: Ctx<AVLTreeLockNode>, t: Tree<AVLTreeLockNode>,
                      t': Tree<AVLTreeLockNode>, k: nat, n: AVLTreeLockNode)
    requires t.Node? && StartsAscend(starts, InOrder(t)) && Lifted(isLeft, t).Leaf?
    requires isLeft == (StartIn(starts, n) < StartIn(starts, t.x)) && k == (if isLeft then 0 else Size(t))
    requires Linked(h, t', null) && Avl(t') && Distinct(t') && Elems(t') == Elems(t) + ElemsC(c) + {n}
    requires t' == BalanceUp(c, WithLeaf(isLeft, t, n))
    requires InOrder(t') == Before(c) + Inserted(InOrder(t), k, n) + After(c)
    ensures Grown(h, starts, c, t, t', k, n) && t' == InsertTree(starts, c, t, n)
  {
    GrownHere(starts, t, n);
  }

  // ----- inserting next to a node

  /** The links of a whole tree are those of a subtree and of the context around it. */
  lemma {:induction false} LinkedZip(h: LinkMap, c: Ctx<AVLTreeLockNode>, t: Tree<AVLTreeLockNode>)
    requires Linked(h, Plug(c, t), null)
    ensures Linked(h, t, CtxTop(c)) && LinkedC(h, c, Top(t))
    decreases c
  {
    if !c.Root? {
      LinkedZip(h, c.up, Above(c, t));
    }
  }

  /** `n` starts between the neighbours of position `p`. */
  ghost predicate FitsAt(starts: StartMap, ns: seq<AVLTreeLockNode>, p: nat, n: AVLTreeLockNode)
    requires p <= |ns|
  {
    && (p > 0 ==> StartIn(starts, ns[p - 1]) <= StartIn(starts, n))
    && (p < |ns| ==> StartIn(starts, n) < StartIn(starts, ns[p]))
  }

  /** The only position of a stretch at which a node that fits at `p` can have been inserted. */
  lemma OnlyPosition(starts: StartMap, b: seq<AVLTreeLockNode>, s: seq<AVLTreeLockNode>, a: seq<AVLTreeLockNode>,
                     k: nat, p: nat, n: AVLTreeLockNode)
    requires 0 < |s| && k <= |s| && StartsSplit(starts, s, k, n)
    requires |b| <= p <= |b| + |s| && FitsAt(starts, b + s + a, p, n)
    ensures p == |b| + k
    ensures b + Inserted(s, k, n) + a == Inserted(b + s + a, p, n)
  {
    var all := b + s + a;
    if p > |b| {
      assert all[p - 1] == s[p - 1 - |b|];
    }
    if p < |b| + |s| {
      assert all[p] == s[p - |b|];
    }
    assert all[..p] == b + s[..k] && all[p..] == s[k..] + a;
  }

  /** A node has one position in the order of its tree. */
  lemma PositionInOrder(c: Ctx<AVLTreeLockNode>, t: Tree<AVLTreeLockNode>, i: nat)
    requires t.Node? && Distinct(Plug(c, t)) && i < Size(Plug(c, t)) && InOrder(Plug(c, t))[i] == t.x
    ensures i == |Before(c)| + Size(t.l)
    ensures InOrder(Plug(c, t)) == Before(c) + InOrder(t) + After(c)
  {
    PlugInOrder(c, t);
    DistinctInOrder(Plug(c, t));
    assert InOrder(t)[Size(t.l)] == t.x;
    assert InOrder(Plug(c, t))[|Before(c)| + Size(t.l)] == t.x;
  }

  /** Inserting at a node something that fits right before or after it puts it there. */
  lemma InsertedNext(h: LinkMap, starts: StartMap, c: Ctx<AVLTreeLockNode>, t: Tree<AVLTreeLockNode>,
                     t': Tree<AVLTreeLockNode>, k: nat, n: AVLTreeLockNode, i: nat, p: nat)
    requires Grown(h, starts, c, t, t', k, n)
    requires t.Node? && Distinct(Plug(c, t)) && i < Size(Plug(c, t)) && InOrder(Plug(c, t))[i] == t.x
    requires i <= p <= i + 1 && FitsAt(starts, InOrder(Plug(c, t)), p, n)
    ensures InOrder(t') == Inserted(InOrder(Plug(c, t)), p, n)
    ensures WholeTree(h, t') && Elems(t') == Elems(Plug(c, t)) + {n}
  {
    PlugElems(c, t);
    PositionInOrder(c, t, i);
    OnlyPosition(starts, Before(c), InOrder(t), After(c), k, p, n);
  }

  /** What Insert needs at any node of a linked, balanced, ordered tree. */
  lemma InsertReady(h: LinkMap, starts: StartMap, c: Ctx<AVLTreeLockNode>, t: Tree<AVLTreeLockNode>)
    requires t.Node? && Distinct(Plug(c, t)) && Linked(h, Plug(c, t), null) && StartsAscend(starts, InOrder(Plug(c, t)))
    ensures Apart(c, t) && Elems(t) + ElemsC(c) == Elems(Plug(c, t))
    ensures Linked(h, t, CtxTop(c)) && LinkedC(h, c, t.x)
    ensures StartsAscend(starts, InOrder(t))
  {
    LinkedZip(h, c, t);
    PlugDistinct(c, t);
    PlugElems(c, t);
    PlugInOrder(c, t);
    AscendMiddle(starts, Before(c), InOrder(t), After(c));
  }

  lemma AscendMiddle(starts: StartMap, a: seq<AVLTreeLockNode>, s: seq<AVLTreeLockNode>, b: seq<AVLTreeLockNode>)
    requires StartsAscend(starts, a + s + b)
    ensures StartsAscend(starts, s)
  {
    var all := a + s + b;
    assert forall j | 0 <= j < |s| :: s[j] == all[|a| + j];
  }

  /** The subtree and the context of a node, with what Insert needs of them. */
  lemma FocusOn(h: LinkMap, starts: StartMap, tree: Tree<AVLTreeLockNode>, i: nat)
    returns (c: Ctx<AVLTreeLockNode>, t: Tree<AVLTreeLockNode>)
    requires i < Size(tree) && Distinct(tree) && Linked(h, tree, null) && StartsAscend(starts, InOrder(tree))
    ensures Plug(c, t) == tree && t.Node? && t.x == InOrder(tree)[i]
    ensures Apart(c, t) && Elems(t) + ElemsC(c) == Elems(tree)
    ensures Linked(h, t, CtxTop(c)) && LinkedC(h, c, t.x) && StartsAscend(starts, InOrder(t))
  {
    var x := InOrder(tree)[i];
    ElemsInOrder(tree, x);
    var z := Zip(Root, tree, x);
    c, t := z.0, z.1;
    InsertReady(h, starts, c, t);
  }

  /** A linked, balanced tree without shared nodes. */
  ghost predicate WholeTree(h: LinkMap, tree: Tree<AVLTreeLockNode>) {
    tree.Node? && Distinct(tree) && Avl(tree) && Linked(h, tree, null)
  }

  /** The heap holds this tree, of these nodes. */
  ghost predicate Laid(nodes: set<AVLTreeLockNode>, tree: Tree<AVLTreeLockNode>)
    reads nodes`parent, nodes`left, nodes`right, nodes`leftHeight, nodes`rightHeight
  {
    WholeTree(Snapshot(nodes), tree) && nodes == Elems(tree)
  }

  /** Insert a node next to the i-th one: before it if `p == i`, after it if `p == i + 1`. */
  method InsertNextTo(cur: AVLTreeLockNode, newLock: AVLTreeLockNode, ghost tree: Tree<AVLTreeLockNode>,
                      ghost nodes: set<AVLTreeLockNode>, ghost i: nat, ghost p: nat, ghost starts: StartMap)
    returns (root: AVLTreeLockNode, ghost tree': Tree<AVLTreeLockNode>)
    requires Laid(nodes, tree)
    requires i < Size(tree) && InOrder(tree)[i] == cur && i <= p <= i + 1
    requires newLock !in nodes && newLock.Links() == DETACHED
    requires StartsOf(starts, nodes + {newLock}) && StartsAscend(starts, InOrder(tree))
    requires FitsAt(starts, InOrder(tree), p, newLock)
    modifies nodes`parent, nodes`left, nodes`right, nodes`leftHeight, nodes`rightHeight
    modifies newLock`parent, newLock`left, newLock`right, newLock`leftHeight, newLock`rightHeight
    ensures Laid(nodes + {newLock}, tree') && tree'.Node? && root == tree'.x
    ensures InOrder(tree') == Inserted(InOrder(tree), p, newLock)
  {
    ghost var c, t := FocusOn(Snapshot(nodes), starts, tree, i);
    ghost var k;
    root, tree', k := cur.Insert(newLock, c, t, nodes, starts);
    InsertedNext(Snapshot(nodes + {newLock}), starts, c, t, tree', k, newLock, i, p);
  }
}
