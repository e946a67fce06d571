/**
 * What the operations of one key cost, in tree nodes that their searches look at: logarithmic in the
 * number of intervals of the key, plus two for each interval that the operation is about.
 */
module OperationCost {
  import opened LockTypes
  import opened TreeCost
  import opened Intervals

  /**
   * Locking back from `hi` to where it stopped, `v`: two searches for `hi`, the second one after the
   * interval of `hi` was cut, and a walk.
   */
  ghost predicate BackwardCost(ivs: seq<Interval>, hi: uint64, v: uint64, calls: nat) {
    Partition(ivs) && calls <= 6 * Log2(|ivs| + 1) + 3 + 2 * (Index(ivs, hi) - Index(ivs, v) + 1)
  }

  lemma WalkedCost(ivs: seq<Interval>, ivs': seq<Interval>, tid: uint64, hi: uint64, isRead: bool, n: nat, j: nat,
                   v: uint64,
                   size: nat, first: nat, walk: nat)
    requires WalkedBack(ivs, ivs', tid, hi, isRead, n, j, v) && Partition(ivs')
    requires size <= |ivs| && first <= MaxHeight(size) && walk <= 2 * MaxHeight(|ivs|) + 2 * (n - j + 1)
    ensures BackwardCost(ivs', hi, v, first + walk)
  {
    CellIn(ivs', n, hi);
    CellIn(ivs', j, v);
    Log2Ascends(size + 1, |ivs| + 1);
  }

  /** The intervals that a recorded hull touches. */
  ghost function Touched(ivs: seq<Interval>, first: uint64, second: uint64): int
    requires Partition(ivs)
  {
    if first <= second then Index(ivs, second) - Index(ivs, first) + 1 else 0
  }

  /** Finishing a transaction in a key: a walk down its hull. */
  ghost predicate ReleaseCost(ivs: seq<Interval>, first: uint64, second: uint64, calls: nat) {
    Partition(ivs) && calls <= 4 * Log2(|ivs| + 1) + 4 + 2 * Touched(ivs, first, second)
  }

  /** The walk down a hull only steps past intervals that the hull touches. */
  ghost predicate WithinHull(ivs: seq<Interval>, first: uint64, second: uint64, n: nat, j: nat) {
    j <= n < |ivs| && (j < n ==> first <= second && first <= ivs[j + 1].end)
  }

  lemma ReleasedCost(ivs: seq<Interval>, first: uint64, second: uint64, n: nat, j: nat, calls: nat)
    requires Partition(ivs) && n == Index(ivs, second) && WithinHull(ivs, first, second, n, j)
    requires calls <= 2 * MaxHeight(|ivs|) + 2 * (n - j + 1)
    ensures ReleaseCost(ivs, first, second, calls)
  {
    if j < n {
      IndexBefore(ivs, j + 1, first);
      var k := Index(ivs, first);
      if j + 1 < k {
        ContiguousAscends(ivs, j + 1, k);
      }
    } else if first <= second {
      IndexBefore(ivs, Index(ivs, first), second);
    }
  }

  /** Looking at one more interval of the hull. */
  lemma WithinHullStep(ivs: seq<Interval>, ivs': seq<Interval>, tid: uint64, commit: bool, first: uint64,
                       second: uint64,
                       n: nat, j: nat, tsEnd: uint64)
    requires Releasing(ivs, ivs', tid, commit, second, n, j, tsEnd) && first <= tsEnd && 0 < j
    requires WithinHull(ivs, first, second, n, j)
    ensures WithinHull(ivs, first, second, n, j - 1)
  {
  }
}
