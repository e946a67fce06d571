/**
 * What walking an AVL tree costs, in nodes looked at: a tree of n nodes is at most logarithmically
 * high, and a backward walk costs at most twice the height plus twice the nodes it is about.
 */
module TreeCost {
  import opened AvlShape

  function Fib(n: nat): nat {
    if n < 2 then n else Fib(n - 1) + Fib(n - 2)
  }

  function Pow2(n: nat): nat {
    if n == 0 then 1 else 2 * Pow2(n - 1)
  }

  lemma {:induction false} FibAscends(m: nat, n: nat)
    requires m <= n
    ensures Fib(m) <= Fib(n)
    decreases n - m
  {
    if m < n {
      FibAscends(m + 1, n);
    }
  }

  lemma {:induction false} FibGrows(n: nat)
    ensures Pow2(n / 2) <= Fib(n + 2)
  {
    if n >= 2 {
      FibGrows(n - 2);
      FibAscends(n, n + 1);
      assert n / 2 == (n - 2) / 2 + 1;
    }
  }

  /** Two subtrees whose heights differ by at most one. */
  lemma FibOfParts(a: nat, b: nat)
    requires -1 <= a - b <= 1
    ensures Fib(Max(a, b) + 3) <= Fib(a + 2) + Fib(b + 2)
  {
    var h := Max(a, b);
    FibAscends(h + 1, a + 2);
    FibAscends(h + 1, b + 2);
    assert Fib(h + 3) == Fib(h + 2) + Fib(h + 1);
  }

  /** A balanced tree of height h has at least Fib(h + 2) - 1 nodes. */
  lemma {:induction false} MinimalSize<T>(t: Tree<T>)
    requires Avl(t)
    ensures Fib(Height(t) + 2) - 1 <= Size(t)
  {
    if t.Node? {
      MinimalSize(t.l);
      MinimalSize(t.r);
      FibOfParts(Height(t.l), Height(t.r));
    } else {
      assert Fib(2) == Fib(1) + Fib(0);
    }
  }

  /** The height of a balanced tree is at most twice the logarithm of its size. */
  lemma LogarithmicHeight<T>(t: Tree<T>)
    requires Avl(t)
    ensures Pow2(Height(t) / 2) <= Size(t) + 1
  {
    MinimalSize(t);
    FibGrows(Height(t));
  }

  /** The logarithm to base 2, rounded down. */
  function Log2(n: nat): nat
    requires n > 0
  {
    if n == 1 then 0 else 1 + Log2(n / 2)
  }

  lemma {:induction false} Log2Ascends(m: nat, n: nat)
    requires 0 < m <= n
    ensures Log2(m) <= Log2(n)
  {
    if m > 1 {
      Log2Ascends(m / 2, n / 2);
    }
  }

  lemma {:induction false} Log2OfPower(k: nat, n: nat)
    requires Pow2(k) <= n && n > 0
    ensures k <= Log2(n)
  {
    if k > 0 {
      assert Pow2(k - 1) <= n / 2 && n / 2 > 0 by {
        PowerPositive(k - 1);
      }
      Log2OfPower(k - 1, n / 2);
    }
  }

  lemma {:induction false} PowerPositive(k: nat)
    ensures Pow2(k) > 0
  {
    if k > 0 {
      PowerPositive(k - 1);
    }
  }

  /** What is at most as high as a balanced tree of n nodes can be. */
  function MaxHeight(n: nat): nat {
    2 * Log2(n + 1) + 1
  }

  lemma HeightBound<T>(t: Tree<T>)
    requires Avl(t)
    ensures Height(t) <= MaxHeight(Size(t))
  {
    LogarithmicHeight(t);
    Log2OfPower(Height(t) / 2, Size(t) + 1);
  }

  // ----- looking nodes up

  /** The nodes looked at on the way down to the i-th node. */
  function PathLength<T>(t: Tree<T>, i: nat): (n: nat)
    requires i < Size(t)
    ensures 1 <= n <= Height(t)
  {
    if i < Size(t.l) then 1 + PathLength(t.l, i)
    else if i == Size(t.l) then 1
    else 1 + PathLength(t.r, i - Size(t.l) - 1)
  }

  /** The nodes looked at when a search runs out of the tree on the left. */
  function LeftLength<T>(t: Tree<T>): nat {
    if t.Leaf? then 0 else 1 + LeftLength(t.l)
  }

  /** The nodes looked at by a search that ends at the i-th node, or before all of them. */
  function SearchLength<T>(t: Tree<T>, i: int): nat
    requires i < Size(t)
  {
    if i < 0 then LeftLength(t) else PathLength(t, i)
  }

  /** The nodes looked at to resume a walk from a node: itself, and the way down to its predecessor. */
  function ResumeLength<T>(t: Tree<T>): nat
    requires t.Node?
  {
    SearchLength(t, Size(t.l) - 1)
  }

  /** The path to the last node of a tree only ever turns right. */
  lemma {:induction false} LastPath<T>(t: Tree<T>)
    requires t.Node?
    ensures PathLength(t, Size(t) - 1) == |RightTurns(t, Size(t) - 1)|
  {
    if t.r.Node? {
      LastPath(t.r);
    }
  }

  lemma {:induction false} TurnsInPath<T>(t: Tree<T>, i: nat)
    requires i < Size(t)
    ensures |RightTurns(t, i)| <= PathLength(t, i)
  {
    if i < Size(t.l) {
      TurnsInPath(t.l, i);
    } else if i > Size(t.l) {
      TurnsInPath(t.r, i - Size(t.l) - 1);
    }
  }

  lemma ResumeSpine<T>(t: Tree<T>)
    requires t.Node?
    ensures ResumeLength(t) == 1 + |LeftSpine(t)|
  {
    if t.l.Node? {
      LastPath(t.l);
      assert PathLength(t, Size(t.l) - 1) == 1 + PathLength(t.l, Size(t.l) - 1);
    } else {
      assert LeftLength(t) == 1 + LeftLength(t.l);
    }
  }

  /** Resuming pays for the nodes that it leaves on the stack. */
  lemma ResumeCost<T>(t: Tree<T>, i: nat)
    requires 0 < i < Size(t)
    ensures ResumeLength(Sub(t, i)) == 2 + |RightTurns(t, i - 1)| - |RightTurns(t, i)|
  {
    StepBack(t, i);
    ResumeSpine(Sub(t, i));
  }

  /** The nodes looked at by a walk from the n-th node back to the j-th: one search, and then resuming. */
  function WalkLength<T>(t: Tree<T>, n: nat, j: nat): nat
    requires j <= n < Size(t)
    decreases n - j
  {
    if j == n then PathLength(t, n) else WalkLength(t, n, j + 1) + ResumeLength(Sub(t, j + 1))
  }

  lemma {:induction false} WalkCost<T>(t: Tree<T>, n: nat, j: nat)
    requires j <= n < Size(t)
    ensures WalkLength(t, n, j) == PathLength(t, n) + 2 * (n - j) + |RightTurns(t, j)| - |RightTurns(t, n)|
    decreases n - j
  {
    if j < n {
      WalkCost(t, n, j + 1);
      ResumeCost(t, j + 1);
    }
  }

  /** A walk over m nodes of a tree of height h looks at no more than 2h + 2m nodes in all. */
  lemma WalkBound<T>(t: Tree<T>, n: nat, j: nat)
    requires j <= n < Size(t)
    ensures WalkLength(t, n, j) <= 2 * Height(t) + 2 * (n - j + 1)
  {
    WalkCost(t, n, j);
    TurnsInPath(t, j);
  }
}
