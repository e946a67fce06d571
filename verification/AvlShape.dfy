/**
 * The shape of an AVL tree as a value: trees, the context around a subtree, rotations, and the
 * rebalancing of every node from an insertion point up to the root.
 */
module AvlShape {
  import opened Sequences

  datatype Tree<T> = Leaf | Node(x: T, l: Tree<T>, r: Tree<T>)

  /** A tree with a hole: the path from the hole up to the root. */
  datatype Ctx<T> = Root | InLeft(x: T, r: Tree<T>, up: Ctx<T>) | InRight(x: T, l: Tree<T>, up: Ctx<T>)

  function Max(a: int, b: int): int {
    if a >= b then a else b
  }

  function Height<T>(t: Tree<T>): nat {
    match t
    case Leaf => 0
    case Node(_, l, r) => Max(Height(l), Height(r)) + 1
  }

  function InOrder<T>(t: Tree<T>): seq<T> {
    match t
    case Leaf => []
    case Node(x, l, r) => InOrder(l) + [x] + InOrder(r)
  }

  function Elems<T(==)>(t: Tree<T>): set<T> {
    match t
    case Leaf => {}
    case Node(x, l, r) => Elems(l) + {x} + Elems(r)
  }

  predicate Distinct<T(==)>(t: Tree<T>) {
    t.Leaf? ||
    (&& Distinct(t.l) && Distinct(t.r)
     && t.x !in Elems(t.l) && t.x !in Elems(t.r) && Elems(t.l) !! Elems(t.r))
  }

  /** Right height minus left height. */
  function Diff<T>(t: Tree<T>): int
    requires t.Node?
  {
    Height(t.r) - Height(t.l)
  }

  predicate Avl<T>(t: Tree<T>) {
    t.Leaf? || (Avl(t.l) && Avl(t.r) && -1 <= Diff(t) <= 1)
  }

  // ----- contexts

  function Plug<T>(c: Ctx<T>, t: Tree<T>): Tree<T> {
    match c
    case Root => t
    case InLeft(x, r, up) => Plug(up, Node(x, t, r))
    case InRight(x, l, up) => Plug(up, Node(x, l, t))
  }

  function ElemsC<T(==)>(c: Ctx<T>): set<T> {
    match c
    case Root => {}
    case InLeft(x, r, up) => {x} + Elems(r) + ElemsC(up)
    case InRight(x, l, up) => {x} + Elems(l) + ElemsC(up)
  }

  predicate DistinctC<T(==)>(c: Ctx<T>) {
    match c
    case Root => true
    case InLeft(x, r, up) =>
      Distinct(r) && DistinctC(up) && x !in Elems(r) && x !in ElemsC(up) && Elems(r) !! ElemsC(up)
    case InRight(x, l, up) =>
      Distinct(l) && DistinctC(up) && x !in Elems(l) && x !in ElemsC(up) && Elems(l) !! ElemsC(up)
  }

  /** The subtree one level up, when the hole is filled by `t`. */
  function Above<T>(c: Ctx<T>, t: Tree<T>): Tree<T>
    requires !c.Root?
  {
    match c
    case InLeft(x, r, _) => Node(x, t, r)
    case InRight(x, l, _) => Node(x, l, t)
  }

  /** The height one level up, when the hole has height `h`. */
  function HeightAbove<T>(c: Ctx<T>, h: int): int
    requires !c.Root?
  {
    match c
    case InLeft(_, r, _) => Max(h, Height(r)) + 1
    case InRight(_, l, _) => Max(Height(l), h) + 1
  }

  /** What comes before the hole in order. */
  function Before<T>(c: Ctx<T>): seq<T> {
    match c
    case Root => []
    case InLeft(_, _, up) => Before(up)
    case InRight(x, l, up) => Before(up) + InOrder(l) + [x]
  }

  /** What comes after the hole in order. */
  function After<T>(c: Ctx<T>): seq<T> {
    match c
    case Root => []
    case InLeft(x, r, up) => [x] + InOrder(r) + After(up)
    case InRight(_, _, up) => After(up)
  }

  lemma {:induction false} PlugInOrder<T>(c: Ctx<T>, t: Tree<T>)
    ensures InOrder(Plug(c, t)) == Before(c) + InOrder(t) + After(c)
    decreases c
  {
    match c
    case Root =>
    case InLeft(x, r, up) =>
      PlugInOrder(up, Node(x, t, r));
      Reassoc(Before(up), InOrder(t), [x] + InOrder(r), After(up));
      assert InOrder(t) + [x] + InOrder(r) == InOrder(t) + ([x] + InOrder(r));
    case InRight(x, l, up) =>
      PlugInOrder(up, Node(x, l, t));
      Reassoc(Before(up), InOrder(l) + [x], InOrder(t), After(up));
      assert Before(up) + InOrder(l) + [x] == Before(up) + (InOrder(l) + [x]);
  }

  lemma Reassoc<T>(a: seq<T>, b: seq<T>, c: seq<T>, d: seq<T>)
    ensures a + (b + c) + d == (a + b) + c + d == a + b + (c + d)
  {
  }

  lemma {:induction false} PlugElems<T>(c: Ctx<T>, t: Tree<T>)
    ensures Elems(Plug(c, t)) == Elems(t) + ElemsC(c)
    decreases c
  {
    match c
    case Root =>
    case InLeft(x, r, up) => PlugElems(up, Node(x, t, r));
    case InRight(x, l, up) => PlugElems(up, Node(x, l, t));
  }

  lemma {:induction false} PlugDistinct<T>(c: Ctx<T>, t: Tree<T>)
    ensures Distinct(Plug(c, t)) <==> Distinct(t) && DistinctC(c) && Elems(t) !! ElemsC(c)
    decreases c
  {
    match c
    case Root =>
    case InLeft(x, r, up) => PlugDistinct(up, Node(x, t, r));
    case InRight(x, l, up) => PlugDistinct(up, Node(x, l, t));
  }

  // ----- rotations and rebalancing

  function RotateRight<T>(t: Tree<T>): Tree<T>
    requires t.Node? && t.l.Node?
  {
    Node(t.l.x, t.l.l, Node(t.x, t.l.r, t.r))
  }

  function RotateLeft<T>(t: Tree<T>): Tree<T>
    requires t.Node? && t.r.Node?
  {
    Node(t.r.x, Node(t.x, t.l, t.r.l), t.r.r)
  }

  function Rebalance<T>(t: Tree<T>): Tree<T>
    requires t.Node?
  {
    if Diff(t) < -1 then
      RotateRight(if Diff(t.l) == 1 then Node(t.x, RotateLeft(t.l), t.r) else t)
    else if Diff(t) > 1 then
      RotateLeft(if Diff(t.r) == -1 then Node(t.x, t.l, RotateRight(t.r)) else t)
    else t
  }

  /** Rebalance a subtree and then every node above it. */
  function BalanceUp<T>(c: Ctx<T>, t: Tree<T>): Tree<T>
    requires t.Node?
    decreases c
  {
    if c.Root? then Rebalance(t) else BalanceUp(c.up, Above(c, Rebalance(t)))
  }

  function StartIn<T(==)>(starts: map<T, int>, n: T): int {
    if n in starts then starts[n] else 0
  }

  /** The whole tree after a node was inserted below the top of subtree `t`, by start, and rebalanced up to the root. */
  function InsertTree<T(==)>(starts: map<T, int>, c: Ctx<T>, t: Tree<T>, n: T): Tree<T>
    requires t.Node?
    decreases t
  {
    if StartIn(starts, n) < StartIn(starts, t.x) then
      if t.l.Leaf? then BalanceUp(c, Node(t.x, Node(n, Leaf, Leaf), t.r))
      else InsertTree(starts, InLeft(t.x, t.r, c), t.l, n)
    else
      if t.r.Leaf? then BalanceUp(c, Node(t.x, t.l, Node(n, Leaf, Leaf)))
      else InsertTree(starts, InRight(t.x, t.l, c), t.r, n)
  }

  lemma Regroup<T>(a: seq<T>, x: T, b: seq<T>, y: T, c: seq<T>)
    ensures (a + [x] + b) + [y] + c == a + [x] + (b + [y] + c)
  {
  }

  /** The three subtrees and the two nodes around a left child, and what they hold. */
  lemma LeftPieces<T>(t: Tree<T>)
    requires t.Node? && t.l.Node?
    ensures Elems(t.l) == Elems(t.l.l) + {t.l.x} + Elems(t.l.r) && Elems(t) == Elems(t.l) + {t.x} + Elems(t.r)
  {
  }

  lemma RightPieces<T>(t: Tree<T>)
    requires t.Node? && t.r.Node?
    ensures Elems(t.r) == Elems(t.r.l) + {t.r.x} + Elems(t.r.r) && Elems(t) == Elems(t.l) + {t.x} + Elems(t.r)
  {
  }

  lemma RotateRightKeeps<T>(t: Tree<T>)
    requires t.Node? && t.l.Node?
    ensures InOrder(RotateRight(t)) == InOrder(t) && Elems(RotateRight(t)) == Elems(t)
    ensures Distinct(t) ==> Distinct(RotateRight(t))
  {
    Regroup(InOrder(t.l.l), t.l.x, InOrder(t.l.r), t.x, InOrder(t.r));
    LeftPieces(t);
    RightPieces(RotateRight(t));
    if Distinct(t) {
      RotateRightDistinct(t);
    }
  }

  lemma RotateRightDistinct<T>(t: Tree<T>)
    requires t.Node? && t.l.Node? && Distinct(t)
    ensures Distinct(RotateRight(t))
  {
    var inner := Node(t.x, t.l.r, t.r);
    LeftPieces(t);
    assert Distinct(t.l) && Distinct(t.l.l) && Distinct(t.l.r);
    assert Elems(inner) == Elems(t.l.r) + {t.x} + Elems(t.r);
    assert Distinct(inner);
    assert t.l.x !in Elems(inner) && Elems(t.l.l) !! Elems(inner);
  }

  lemma RotateLeftKeeps<T>(t: Tree<T>)
    requires t.Node? && t.r.Node?
    ensures InOrder(RotateLeft(t)) == InOrder(t) && Elems(RotateLeft(t)) == Elems(t)
    ensures Distinct(t) ==> Distinct(RotateLeft(t))
  {
    Regroup(InOrder(t.l), t.x, InOrder(t.r.l), t.r.x, InOrder(t.r.r));
    RightPieces(t);
    LeftPieces(RotateLeft(t));
    if Distinct(t) {
      RotateLeftDistinct(t);
    }
  }

  lemma RotateLeftDistinct<T>(t: Tree<T>)
    requires t.Node? && t.r.Node? && Distinct(t)
    ensures Distinct(RotateLeft(t))
  {
    var inner := Node(t.x, t.l, t.r.l);
    RightPieces(t);
    assert Distinct(t.r) && Distinct(t.r.l) && Distinct(t.r.r);
    assert Elems(inner) == Elems(t.l) + {t.x} + Elems(t.r.l);
    assert Distinct(inner);
    assert t.r.x !in Elems(inner) && Elems(inner) !! Elems(t.r.r);
  }

  lemma RebalanceKeeps<T>(t: Tree<T>)
    requires t.Node?
    ensures Rebalance(t).Node?
    ensures InOrder(Rebalance(t)) == InOrder(t) && Elems(Rebalance(t)) == Elems(t)
    ensures Distinct(t) ==> Distinct(Rebalance(t))
  {
    if Diff(t) < -1 {
      if Diff(t.l) == 1 {
        RotateLeftKeeps(t.l);
        RotateRightKeeps(Node(t.x, RotateLeft(t.l), t.r));
      } else {
        RotateRightKeeps(t);
      }
    } else if Diff(t) > 1 {
      if Diff(t.r) == -1 {
        RotateRightKeeps(t.r);
        RotateLeftKeeps(Node(t.x, t.l, RotateRight(t.r)));
      } else {
        RotateLeftKeeps(t);
      }
    }
  }

  /** Rebalancing up to the root never changes the elements or their order. */
  lemma {:induction false} BalanceUpKeeps<T>(c: Ctx<T>, t: Tree<T>)
    requires t.Node?
    ensures InOrder(BalanceUp(c, t)) == InOrder(Plug(c, t))
    ensures Elems(BalanceUp(c, t)) == Elems(Plug(c, t))
    decreases c
  {
    RebalanceKeeps(t);
    if !c.Root? {
      BalanceUpKeeps(c.up, Above(c, Rebalance(t)));
      SamePlug(c.up, Above(c, Rebalance(t)), Above(c, t));
    }
  }

  lemma {:induction false} BalanceUpDistinct<T>(c: Ctx<T>, t: Tree<T>)
    requires t.Node? && Distinct(t) && DistinctC(c) && Elems(t) !! ElemsC(c)
    ensures Distinct(BalanceUp(c, t))
    decreases c
  {
    RebalanceKeeps(t);
    if !c.Root? {
      BalanceUpDistinct(c.up, Above(c, Rebalance(t)));
    }
  }

  lemma SamePlug<T>(c: Ctx<T>, t: Tree<T>, u: Tree<T>)
    requires InOrder(t) == InOrder(u) && Elems(t) == Elems(u)
    ensures InOrder(Plug(c, t)) == InOrder(Plug(c, u)) && Elems(Plug(c, t)) == Elems(Plug(c, u))
  {
    PlugInOrder(c, t);
    PlugInOrder(c, u);
    PlugElems(c, t);
    PlugElems(c, u);
  }

  // ----- balance

  /** Every node of the context is balanced when the hole has height `h`. */
  predicate AvlC<T>(c: Ctx<T>, h: int) {
    match c
    case Root => true
    case InLeft(x, r, up) => Avl(r) && -1 <= Height(r) - h <= 1 && AvlC(up, Max(h, Height(r)) + 1)
    case InRight(x, l, up) => Avl(l) && -1 <= h - Height(l) <= 1 && AvlC(up, Max(Height(l), h) + 1)
  }

  lemma {:induction false} PlugAvl<T>(c: Ctx<T>, t: Tree<T>)
    ensures Avl(Plug(c, t)) <==> Avl(t) && AvlC(c, Height(t))
    decreases c
  {
    match c
    case Root =>
    case InLeft(x, r, up) => PlugAvl(up, Node(x, t, r));
    case InRight(x, l, up) => PlugAvl(up, Node(x, l, t));
  }

  /**
   * The situation at each node while rebalancing upwards: both children are balanced and differ by
   * at most two, the subtree is as high as before the insertion or one more, and it is one more if
   * it is out of balance.
   */
  predicate Repairable<T>(c: Ctx<T>, t: Tree<T>, h: int) {
    && t.Node? && Avl(t.l) && Avl(t.r) && -2 <= Diff(t) <= 2 && AvlC(c, h)
    && 0 <= Height(t) - h <= 1 && (-1 <= Diff(t) <= 1 || Height(t) == h + 1)
  }

  lemma RebalanceLeftHeavy<T>(t: Tree<T>)
    requires t.Node? && Avl(t.l) && Avl(t.r) && Diff(t) == -2
    ensures Avl(Rebalance(t)) && Height(t) - 1 <= Height(Rebalance(t)) <= Height(t)
  {
    assert Height(t.l) == Height(t.r) + 2;
  }

  lemma RebalanceRightHeavy<T>(t: Tree<T>)
    requires t.Node? && Avl(t.l) && Avl(t.r) && Diff(t) == 2
    ensures Avl(Rebalance(t)) && Height(t) - 1 <= Height(Rebalance(t)) <= Height(t)
  {
    assert Height(t.r) == Height(t.l) + 2;
  }

  lemma RebalanceAvl<T>(t: Tree<T>)
    requires t.Node? && Avl(t.l) && Avl(t.r) && -2 <= Diff(t) <= 2
    ensures Avl(Rebalance(t))
    ensures -1 <= Diff(t) <= 1 ==> Height(Rebalance(t)) == Height(t)
    ensures Diff(t) < -1 || Diff(t) > 1 ==> Height(t) - 1 <= Height(Rebalance(t)) <= Height(t)
  {
    if Diff(t) == -2 {
      RebalanceLeftHeavy(t);
    } else if Diff(t) == 2 {
      RebalanceRightHeavy(t);
    }
  }

  /** A balanced subtree, as high as before the insertion or one more, is repairable one level up. */
  lemma RepairableAbove<T>(c: Ctx<T>, u: Tree<T>, h: int)
    requires !c.Root? && Avl(u) && AvlC(c, h) && 0 <= Height(u) - h <= 1
    ensures Repairable(c.up, Above(c, u), HeightAbove(c, h))
  {
  }

  lemma RepairableUp<T>(c: Ctx<T>, t: Tree<T>, h: int)
    requires Repairable(c, t, h)
    ensures !c.Root? ==> Repairable(c.up, Above(c, Rebalance(t)), HeightAbove(c, h))
  {
    RebalanceAvl(t);
    if !c.Root? {
      RepairableAbove(c, Rebalance(t), h);
    }
  }

  /** Rebalancing up to the root restores balance at every node. */
  lemma {:induction false} BalanceUpAvl<T>(c: Ctx<T>, t: Tree<T>, h: int)
    requires Repairable(c, t, h)
    ensures Avl(BalanceUp(c, t))
    decreases c
  {
    RebalanceAvl(t);
    RepairableUp(c, t, h);
    if !c.Root? {
      BalanceUpAvl(c.up, Above(c, Rebalance(t)), HeightAbove(c, h));
    }
  }

  /** Hanging a new leaf below a node of a balanced tree leaves something rebalancing can repair. */
  lemma LeafRepairable<T>(c: Ctx<T>, t: Tree<T>, x: T)
    requires t.Node? && Avl(Plug(c, t))
    ensures t.l.Leaf? ==> Repairable(c, Node(t.x, Node(x, Leaf, Leaf), t.r), Height(t))
    ensures t.r.Leaf? ==> Repairable(c, Node(t.x, t.l, Node(x, Leaf, Leaf)), Height(t))
  {
    PlugAvl(c, t);
  }

  // ----- positions

  function Size<T>(t: Tree<T>): nat {
    |InOrder(t)|
  }

  lemma SizeParts<T>(t: Tree<T>)
    requires t.Node?
    ensures Size(t) == Size(t.l) + 1 + Size(t.r)
    ensures (t.l.Node? <==> Size(t.l) > 0) && (t.r.Node? <==> Size(t.r) > 0)
  {
  }

  /** The subtree whose top is the i-th node in order. */
  function Sub<T>(t: Tree<T>, i: nat): (s: Tree<T>)
    requires i < Size(t)
    ensures s.Node?
  {
    if i < Size(t.l) then Sub(t.l, i)
    else if i == Size(t.l) then t
    else Sub(t.r, i - Size(t.l) - 1)
  }

  /** The nodes from which the path to the i-th node turns right, and then the i-th node itself. */
  function RightTurns<T>(t: Tree<T>, i: nat): (s: seq<T>)
    requires i < Size(t)
    ensures |s| > 0
  {
    if i < Size(t.l) then RightTurns(t.l, i)
    else if i == Size(t.l) then [t.x]
    else [t.x] + RightTurns(t.r, i - Size(t.l) - 1)
  }

  /** The part of the stack that the left subtree of a node contributes to reach the node's predecessor. */
  function LeftSpine<T>(t: Tree<T>): seq<T> {
    if t.Leaf? || t.l.Leaf? then [] else RightTurns(t.l, Size(t.l) - 1)
  }

  lemma TurnsParts<T>(t: Tree<T>, i: nat)
    requires i < Size(t)
    ensures i < Size(t.l) ==> RightTurns(t, i) == RightTurns(t.l, i)
    ensures i == Size(t.l) ==> RightTurns(t, i) == [t.x]
    ensures i > Size(t.l) ==> RightTurns(t, i) == [t.x] + RightTurns(t.r, i - Size(t.l) - 1)
  {
  }

  /** Both the subtree and the stack of the i-th node end at that node. */
  lemma {:induction false} TopOfPosition<T>(t: Tree<T>, i: nat)
    requires i < Size(t)
    ensures Sub(t, i).x == InOrder(t)[i]
    ensures RightTurns(t, i)[|RightTurns(t, i)| - 1] == InOrder(t)[i]
  {
    TurnsParts(t, i);
    SubParts(t, i);
    if i < Size(t.l) {
      TopOfPosition(t.l, i);
    } else if i > Size(t.l) {
      TopOfPosition(t.r, i - Size(t.l) - 1);
    }
  }

  /** Where the subtree of the i-th node begins in order. */
  function SubStart<T>(t: Tree<T>, i: nat): int
    requires i < Size(t)
  {
    i - Size(Sub(t, i).l)
  }

  /** A subtree is a contiguous stretch of the order around its top. */
  lemma {:induction false} SubSlice<T>(t: Tree<T>, i: nat)
    requires i < Size(t)
    ensures IsSlice(InOrder(t), InOrder(Sub(t, i)), SubStart(t, i))
  {
    SubParts(t, i);
    if i < Size(t.l) {
      SubSlice(t.l, i);
      SliceOfLeft(InOrder(t.l), t.x, InOrder(t.r), InOrder(Sub(t.l, i)), SubStart(t.l, i));
    } else if i > Size(t.l) {
      var j := i - Size(t.l) - 1;
      SubSlice(t.r, j);
      SliceOfRight(InOrder(t.l), t.x, InOrder(t.r), InOrder(Sub(t.r, j)), SubStart(t.r, j));
    }
  }

  lemma SubParts<T>(t: Tree<T>, i: nat)
    requires i < Size(t)
    ensures i < Size(t.l) ==> Sub(t, i) == Sub(t.l, i) && SubStart(t, i) == SubStart(t.l, i)
    ensures i == Size(t.l) ==> Sub(t, i) == t && SubStart(t, i) == 0
    ensures i > Size(t.l) ==>
              var j := i - Size(t.l) - 1;
              Sub(t, i) == Sub(t.r, j) && SubStart(t, i) == SubStart(t.r, j) + Size(t.l) + 1
  {
  }

  // ----- stacks

  /** What is left of the stack of the i-th node once that node is popped. */
  function Popped<T>(t: Tree<T>, i: nat): seq<T>
    requires i < Size(t)
  {
    RightTurns(t, i)[..|RightTurns(t, i)| - 1]
  }

  lemma PoppedParts<T>(t: Tree<T>, i: nat)
    requires i < Size(t)
    ensures i < Size(t.l) ==> Popped(t, i) == Popped(t.l, i)
    ensures i == Size(t.l) ==> Popped(t, i) == []
    ensures i > Size(t.l) ==> Popped(t, i) == [t.x] + Popped(t.r, i - Size(t.l) - 1)
  {
    TurnsParts(t, i);
  }

  /** The stack of the i-th node with that node popped is the stack of the node before its subtree. */
  predicate PopsBefore<T(==)>(t: Tree<T>, i: nat)
    requires i < Size(t)
  {
    0 <= SubStart(t, i) <= i && Popped(t, i) == if SubStart(t, i) == 0 then [] else RightTurns(t, SubStart(t, i) - 1)
  }

  lemma PopInRight<T>(t: Tree<T>, j: nat)
    requires t.Node? && j < Size(t.r) && PopsBefore(t.r, j)
    ensures PopsBefore(t, j + Size(t.l) + 1)
  {
    var i := j + Size(t.l) + 1;
    PoppedParts(t, i);
    SubParts(t, i);
    TurnsParts(t, SubStart(t, i) - 1);
  }

  lemma {:induction false} PopTurns<T>(t: Tree<T>, i: nat)
    requires i < Size(t)
    ensures PopsBefore(t, i)
  {
    PoppedParts(t, i);
    SubParts(t, i);
    if i < Size(t.l) {
      PopTurns(t.l, i);
      if SubStart(t, i) > 0 {
        TurnsParts(t, SubStart(t, i) - 1);
      }
    } else if i > Size(t.l) {
      PopTurns(t.r, i - Size(t.l) - 1);
      PopInRight(t, i - Size(t.l) - 1);
    }
  }

  /** Going down from a popped node to the j-th node of its left subtree gives that node's stack. */
  predicate Descends<T(==)>(t: Tree<T>, i: nat, j: nat)
    requires i < Size(t) && j < Size(Sub(t, i).l)
  {
    0 <= SubStart(t, i) + j < Size(t) && Popped(t, i) + RightTurns(Sub(t, i).l, j) == RightTurns(t, SubStart(t, i) + j)
  }

  lemma DescendInLeft<T>(t: Tree<T>, i: nat, j: nat)
    requires t.Node? && i < Size(t.l) && j < Size(Sub(t.l, i).l) && Descends(t.l, i, j) && SubStart(t.l, i) + j < i
    ensures Sub(t, i) == Sub(t.l, i) && Descends(t, i, j)
  {
    PoppedParts(t, i);
    SubParts(t, i);
    TurnsParts(t, SubStart(t, i) + j);
  }

  lemma DescendHere<T>(t: Tree<T>, j: nat)
    requires t.Node? && j < Size(t.l)
    ensures Sub(t, Size(t.l)) == t && Descends(t, Size(t.l), j)
  {
    var i := Size(t.l);
    PoppedParts(t, i);
    SubParts(t, i);
    SizeParts(t);
    TurnsParts(t, j);
    var down := RightTurns(t.l, j);
    assert [] + down == down;
    assert Popped(t, i) + RightTurns(Sub(t, i).l, j) == [] + down;
  }

  lemma DescendInRight<T>(t: Tree<T>, i: nat, j: nat)
    requires t.Node? && i < Size(t.r) && j < Size(Sub(t.r, i).l) && Descends(t.r, i, j)
    ensures Sub(t, i + Size(t.l) + 1) == Sub(t.r, i) && Descends(t, i + Size(t.l) + 1, j)
  {
    var k := i + Size(t.l) + 1;
    PoppedParts(t, k);
    SubParts(t, k);
    TurnsParts(t, SubStart(t, k) + j);
    assert [t.x] + Popped(t.r, i) + RightTurns(Sub(t.r, i).l, j)
        == [t.x] + (Popped(t.r, i) + RightTurns(Sub(t.r, i).l, j));
  }

  lemma {:induction false} DescendTurns<T>(t: Tree<T>, i: nat, j: nat)
    requires i < Size(t) && j < Size(Sub(t, i).l)
    ensures Descends(t, i, j) && SubStart(t, i) + j < i
  {
    SubParts(t, i);
    if i < Size(t.l) {
      DescendTurns(t.l, i, j);
      DescendInLeft(t, i, j);
    } else if i == Size(t.l) {
      DescendHere(t, j);
    } else {
      DescendTurns(t.r, i - Size(t.l) - 1, j);
      DescendInRight(t, i - Size(t.l) - 1, j);
    }
  }

  /**
   * Resuming a backward walk: popping the i-th node and descending into its left subtree gives the
   * stack of its predecessor, and an empty stack when it has none.
   */
  lemma StepBack<T>(t: Tree<T>, i: nat)
    requires i < Size(t)
    ensures Popped(t, i) + LeftSpine(Sub(t, i)) == if i == 0 then [] else RightTurns(t, i - 1)
  {
    var s := Sub(t, i);
    if s.l.Leaf? {
      PopTurns(t, i);
      assert Popped(t, i) + LeftSpine(s) == Popped(t, i);
    } else {
      SizeParts(s);
      DescendTurns(t, i, Size(s.l) - 1);
    }
  }

  /** A node of the tree and the context around it. */
  function Zip<T(==)>(c: Ctx<T>, t: Tree<T>, x: T): (r: (Ctx<T>, Tree<T>))
    requires x in Elems(t)
    ensures Plug(r.0, r.1) == Plug(c, t) && r.1.Node? && r.1.x == x
    decreases t
  {
    if t.x == x then (c, t)
    else if x in Elems(t.l) then Zip(InLeft(t.x, t.r, c), t.l, x)
    else Zip(InRight(t.x, t.l, c), t.r, x)
  }

  function Depth<T(==)>(t: Tree<T>, x: T): nat {
    if t.Leaf? || t.x == x then 0
    else if x in Elems(t.l) then Depth(t.l, x) + 1
    else Depth(t.r, x) + 1
  }

  lemma {:induction false} ElemsInOrder<T>(t: Tree<T>, x: T)
    ensures x in Elems(t) <==> x in InOrder(t)
  {
    if t.Node? {
      ElemsInOrder(t.l, x);
      ElemsInOrder(t.r, x);
    }
  }

  /** A tree without shared nodes lists each node once. */
  lemma {:induction false} DistinctInOrder<T>(t: Tree<T>)
    requires Distinct(t)
    ensures forall i, j | 0 <= i < j < |InOrder(t)| :: InOrder(t)[i] != InOrder(t)[j]
  {
    if t.Node? {
      DistinctInOrder(t.l);
      DistinctInOrder(t.r);
      ElemsInOrder(t.l, t.x);
      ElemsInOrder(t.r, t.x);
      forall y | y in InOrder(t.l) ensures y !in InOrder(t.r) {
        ElemsInOrder(t.l, y);
        ElemsInOrder(t.r, y);
      }
      DistinctConcat(InOrder(t.l), t.x, InOrder(t.r));
    }
  }

  lemma DistinctConcat<T>(a: seq<T>, x: T, b: seq<T>)
    requires forall i, j | 0 <= i < j < |a| :: a[i] != a[j]
    requires forall i, j | 0 <= i < j < |b| :: b[i] != b[j]
    requires x !in a && x !in b && forall y | y in a :: y !in b
    ensures var s := a + [x] + b; forall i, j | 0 <= i < j < |s| :: s[i] != s[j]
  {
    var s := a + [x] + b;
    forall i, j | 0 <= i < j < |s| ensures s[i] != s[j] {
      if i < |a| {
        assert s[i] == a[i] && a[i] in a;
      } else if i > |a| {
        assert s[i] == b[i - |a| - 1];
      }
      if j > |a| {
        assert s[j] == b[j - |a| - 1] && s[j] in b;
      }
    }
  }
}
