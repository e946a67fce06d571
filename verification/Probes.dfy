/**
 * Which intervals a request to lock [lo, hi] looks at. From each interval that starts after `lo`
 * the source searches for lo - 1, not for the time before that interval, so it can skip intervals;
 * when it does and when it does not is a matter of the shape of the tree.
 */
module Probes {
  import opened LockTypes
  import opened AvlShape
  import opened Intervals

  /** The interval looked at after the i-th, when lo - 1 lies in the m-th. */
  function NextProbe<T>(t: Tree<T>, i: nat, m: nat): (k: nat)
    requires m < i < Size(t)
    ensures m <= k < i
  {
    PopTurns(t, i);
    Max(m, SubStart(t, i) - 1)
  }

  /** Only an interval without a left subtree, or the one after the m-th, is followed by the one before it. */
  lemma NextProbeIff<T>(t: Tree<T>, i: nat, m: nat)
    requires m < i < Size(t)
    ensures NextProbe(t, i, m) == i - 1 <==> SubStart(t, i) == i || m == i - 1
    ensures SubStart(t, i) == i <==> Sub(t, i).l.Leaf?
  {
    SizeParts(Sub(t, i));
    PopTurns(t, i);
  }

  ghost predicate Fitting<T>(t: Tree<T>, ivs: seq<Interval>, i: nat, lo: uint64) {
    Partition(ivs) && |ivs| == Size(t) && i < |ivs| && 1 <= lo
  }

  /** The interval looked at after the i-th, if the i-th starts after `lo`. */
  ghost function Next<T>(t: Tree<T>, ivs: seq<Interval>, i: nat, lo: uint64): (k: nat)
    requires Fitting(t, ivs, i, lo) && lo < ivs[i].start
    ensures k < i
  {
    IndexBefore(ivs, i, lo - 1);
    NextProbe(t, i, Index(ivs, lo - 1))
  }

  /** The intervals looked at from the i-th on. */
  ghost function Probed<T>(t: Tree<T>, ivs: seq<Interval>, i: nat, lo: uint64): seq<nat>
    requires Fitting(t, ivs, i, lo)
    decreases i
  {
    if ivs[i].start <= lo then [i] else [i] + Probed(t, ivs, Next(t, ivs, i, lo), lo)
  }

  /** The verdict on a request: nothing that it looks at stops it. */
  ghost predicate Passes<T>(t: Tree<T>, ivs: seq<Interval>, i: nat, lo: uint64, isRead: bool)
    requires Fitting(t, ivs, i, lo)
    decreases i
  {
    !Stops(ivs[i].cell, isRead) && (ivs[i].start <= lo || Passes(t, ivs, Next(t, ivs, i, lo), lo, isRead))
  }

  lemma {:induction false} PassesIff<T>(t: Tree<T>, ivs: seq<Interval>, i: nat, lo: uint64, isRead: bool)
    requires Fitting(t, ivs, i, lo)
    ensures forall k | k in Probed(t, ivs, i, lo) :: k <= i
    ensures Passes(t, ivs, i, lo, isRead) <==> forall k | k in Probed(t, ivs, i, lo) :: !Stops(ivs[k].cell, isRead)
    decreases i
  {
    if lo < ivs[i].start {
      PassesIff(t, ivs, Next(t, ivs, i, lo), lo, isRead);
    }
  }

  /** The subtree of the i-th interval begins with it, or it is the one after that of lo - 1. */
  ghost predicate StepsDown<T>(t: Tree<T>, ivs: seq<Interval>, i: nat, lo: uint64)
    requires Fitting(t, ivs, i, lo)
  {
    SubStart(t, i) == i || Index(ivs, lo - 1) == i - 1
  }

  /** This is so for every interval from the n-th down to the one after that of `lo`. */
  ghost predicate ExactShape<T>(t: Tree<T>, ivs: seq<Interval>, n: nat, lo: uint64)
    requires Fitting(t, ivs, n, lo)
  {
    forall i: nat | Index(ivs, lo) < i <= n :: StepsDown(t, ivs, i, lo)
  }

  /** A request within one interval, as every request for a single point is, looks at that interval. */
  lemma OneIntervalIsExact<T>(t: Tree<T>, ivs: seq<Interval>, n: nat, lo: uint64)
    requires Fitting(t, ivs, n, lo) && Index(ivs, lo) == n
    ensures ExactShape(t, ivs, n, lo)
  {
  }

  lemma NextIff<T>(t: Tree<T>, ivs: seq<Interval>, i: nat, lo: uint64)
    requires Fitting(t, ivs, i, lo) && lo < ivs[i].start
    ensures Next(t, ivs, i, lo) == i - 1 <==> StepsDown(t, ivs, i, lo)
  {
    IndexBefore(ivs, i, lo - 1);
    NextProbeIff(t, i, Index(ivs, lo - 1));
  }

  /** Without an exact shape some interval that overlaps the request is never looked at. */
  lemma {:induction false} SkippedInterval<T>(t: Tree<T>, ivs: seq<Interval>, n: nat, lo: uint64) returns (k: nat)
    requires Fitting(t, ivs, n, lo) && Index(ivs, lo) <= n && !ExactShape(t, ivs, n, lo)
    ensures Index(ivs, lo) <= k < n && k !in Probed(t, ivs, n, lo)
    decreases n
  {
    IndexBefore(ivs, n, lo);
    var next := Next(t, ivs, n, lo);
    NextIff(t, ivs, n, lo);
    PassesIff(t, ivs, next, lo, true);
    if next == n - 1 {
      k := SkippedInterval(t, ivs, n - 1, lo);
    } else {
      k := n - 1;
    }
  }

  /** With an exact shape the request looks at exactly the intervals that overlap it. */
  lemma {:induction false} ProbedAll<T>(t: Tree<T>, ivs: seq<Interval>, n: nat, lo: uint64)
    requires Fitting(t, ivs, n, lo) && Index(ivs, lo) <= n && ExactShape(t, ivs, n, lo)
    ensures forall k: nat :: k in Probed(t, ivs, n, lo) <==> Index(ivs, lo) <= k <= n
    decreases n
  {
    IndexBefore(ivs, n, lo);
    if Index(ivs, lo) < n {
      assert StepsDown(t, ivs, n, lo);
      NextIff(t, ivs, n, lo);
      ProbedAll(t, ivs, n - 1, lo);
    }
  }

  /** The request looks at exactly the intervals that overlap it if and only if the shape is exact. */
  lemma ProbedExactlyIff<T>(t: Tree<T>, ivs: seq<Interval>, n: nat, lo: uint64)
    requires Fitting(t, ivs, n, lo) && Index(ivs, lo) <= n
    ensures (forall k: nat :: k in Probed(t, ivs, n, lo) <==> Index(ivs, lo) <= k <= n) <==> ExactShape(t, ivs, n, lo)
  {
    if ExactShape(t, ivs, n, lo) {
      ProbedAll(t, ivs, n, lo);
    } else {
      var k := SkippedInterval(t, ivs, n, lo);
    }
  }

  // ----- what is left to lock

  function Here<T>(ns: seq<T>, ivs: seq<Interval>, i: nat, isRead: bool): seq<T>
    requires i < |ns| == |ivs|
  {
    if Takes(ivs[i].cell, isRead) then [ns[i]] else []
  }

  /** Of what the request looks at from the i-th interval on, what can be taken. */
  ghost function Pending<T, N>(ns: seq<N>, t: Tree<T>, ivs: seq<Interval>, i: nat, lo: uint64, isRead: bool): seq<N>
    requires Fitting(t, ivs, i, lo) && |ns| == |ivs|
    decreases i
  {
    Here(ns, ivs, i, isRead) + (if ivs[i].start <= lo then [] else Pending(ns, t, ivs, Next(t, ivs, i, lo), lo, isRead))
  }

  lemma PassesTurn<T>(t: Tree<T>, ivs: seq<Interval>, i: nat, lo: uint64, isRead: bool)
    requires Fitting(t, ivs, i, lo)
    ensures Stops(ivs[i].cell, isRead) ==> !Passes(t, ivs, i, lo, isRead)
    ensures !Stops(ivs[i].cell, isRead) && ivs[i].start <= lo ==> Passes(t, ivs, i, lo, isRead)
    ensures !Stops(ivs[i].cell, isRead) && ivs[i].start > lo ==>
              (Passes(t, ivs, i, lo, isRead) <==> Passes(t, ivs, Next(t, ivs, i, lo), lo, isRead))
  {
  }

  lemma PendingTurn<T, N>(ns: seq<N>, t: Tree<T>, ivs: seq<Interval>, i: nat, lo: uint64, isRead: bool, pend: seq<N>)
    requires Fitting(t, ivs, i, lo) && |ns| == |ivs|
    ensures var pend', all := pend + Here(ns, ivs, i, isRead), pend + Pending(ns, t, ivs, i, lo, isRead);
            all == if ivs[i].start <= lo then pend' else pend' + Pending(ns, t, ivs, Next(t, ivs, i, lo), lo, isRead)
  {
    var here := Here(ns, ivs, i, isRead);
    if ivs[i].start > lo {
      var more := Pending(ns, t, ivs, Next(t, ivs, i, lo), lo, isRead);
      assert Pending(ns, t, ivs, i, lo, isRead) == here + more;
      AppendAssociates(pend, here, more);
    } else {
      assert Pending(ns, t, ivs, i, lo, isRead) == here + [] == here;
    }
  }

  lemma AppendAssociates<N>(a: seq<N>, b: seq<N>, c: seq<N>)
    ensures a + (b + c) == a + b + c
  {
  }

  /** Of the intervals from the n-th down to the s-th, what can be taken. */
  function PendingDown<N>(ns: seq<N>, ivs: seq<Interval>, n: int, s: nat, isRead: bool): seq<N>
    requires n < |ns| == |ivs|
    decreases n
  {
    if n < s then [] else Here(ns, ivs, n, isRead) + PendingDown(ns, ivs, n - 1, s, isRead)
  }

  lemma PendingStep<T, N>(ns: seq<N>, t: Tree<T>, ivs: seq<Interval>, n: nat, lo: uint64, isRead: bool, s: nat)
    requires Fitting(t, ivs, n, lo) && |ns| == |ivs| && s <= n
    requires if ivs[n].start <= lo then s == n
             else Next(t, ivs, n, lo) == n - 1 &&
                  Pending(ns, t, ivs, n - 1, lo, isRead) == PendingDown(ns, ivs, n - 1, s, isRead)
    ensures Pending(ns, t, ivs, n, lo, isRead) == PendingDown(ns, ivs, n, s, isRead)
  {
    if ivs[n].start <= lo {
      assert PendingDown(ns, ivs, n - 1, n, isRead) == [];
    }
  }

  /** With an exact shape, everything that overlaps the request and can be taken is left to lock. */
  lemma {:induction false} PendingAll<T, N>(ns: seq<N>, t: Tree<T>, ivs: seq<Interval>, n: nat, lo: uint64,
                                            isRead: bool)
    requires Fitting(t, ivs, n, lo) && |ns| == |ivs| && Index(ivs, lo) <= n && ExactShape(t, ivs, n, lo)
    ensures Pending(ns, t, ivs, n, lo, isRead) == PendingDown(ns, ivs, n, Index(ivs, lo), isRead)
    decreases n
  {
    IndexBefore(ivs, n, lo);
    if Index(ivs, lo) < n {
      assert StepsDown(t, ivs, n, lo);
      NextIff(t, ivs, n, lo);
      PendingAll(ns, t, ivs, n - 1, lo, isRead);
    }
    PendingStep(ns, t, ivs, n, lo, isRead, Index(ivs, lo));
  }

  // ----- verdicts

  /** The same boundaries, with any locks. */
  ghost predicate SameBounds(ivs: seq<Interval>, ivs': seq<Interval>) {
    |ivs| == |ivs'| && forall i | 0 <= i < |ivs| :: ivs'[i].start == ivs[i].start && ivs'[i].end == ivs[i].end
  }

  /** A request for [lo, hi] of a tree that shows these intervals. */
  ghost predicate Request<T>(t: Tree<T>, ivs: seq<Interval>, lo: uint64, hi: uint64) {
    Partition(ivs) && |ivs| == Size(t) && 1 <= lo <= hi
  }

  /** What is promised: the request passes when no point of [lo, hi] stops it. */
  ghost predicate Clear(ivs: seq<Interval>, lo: uint64, hi: uint64, isRead: bool)
    requires Partition(ivs)
  {
    forall u: uint64 | lo <= u <= hi :: !Stops(CellAt(ivs, u), isRead)
  }

  lemma ClearIff(ivs: seq<Interval>, lo: uint64, hi: uint64, isRead: bool)
    requires Partition(ivs) && lo <= hi
    ensures Clear(ivs, lo, hi, isRead) <==>
            forall k: nat | Index(ivs, lo) <= k <= Index(ivs, hi) :: !Stops(ivs[k].cell, isRead)
  {
    var s, n := Index(ivs, lo), Index(ivs, hi);
    if Clear(ivs, lo, hi, isRead) {
      forall k: nat | s <= k <= n ensures !Stops(ivs[k].cell, isRead) {
        var u: uint64 := if k == s then lo else ivs[k].start;
        if s < k { ContiguousAscends(ivs, s, k); }
        if k < n { ContiguousAscends(ivs, k, n); }
        CellIn(ivs, k, u);
      }
    }
    forall u: uint64 | lo <= u <= hi ensures s <= Index(ivs, u) <= n {
      IndexBefore(ivs, s, u);
      IndexBefore(ivs, Index(ivs, u), hi);
    }
  }

  /** The request is given the verdict that is promised. */
  ghost predicate VerdictRight<T>(t: Tree<T>, ivs: seq<Interval>, lo: uint64, hi: uint64, isRead: bool)
    requires Request(t, ivs, lo, hi)
  {
    Passes(t, ivs, Index(ivs, hi), lo, isRead) <==> Clear(ivs, lo, hi, isRead)
  }

  lemma ExactVerdict<T>(t: Tree<T>, ivs: seq<Interval>, lo: uint64, hi: uint64, isRead: bool)
    requires Request(t, ivs, lo, hi) && ExactShape(t, ivs, Index(ivs, hi), lo)
    ensures VerdictRight(t, ivs, lo, hi, isRead)
  {
    var n, s := Index(ivs, hi), Index(ivs, lo);
    IndexBefore(ivs, s, hi);
    ProbedAll(t, ivs, n, lo);
    PassesIff(t, ivs, n, lo, isRead);
    ClearIff(ivs, lo, hi, isRead);
  }

  /** Every point free, except for the k-th interval, which is write-locked. */
  function OneLocked(ivs: seq<Interval>, k: nat): seq<Interval> {
    seq(|ivs|, i requires 0 <= i < |ivs| => ivs[i].(cell := if i == k then Cell(WriteLock, {0}) else FREE_CELL))
  }

  lemma {:induction false} SameBoundsIndex(ivs: seq<Interval>, ivs': seq<Interval>, u: uint64)
    requires Partition(ivs) && SameBounds(ivs, ivs')
    ensures Partition(ivs') && Index(ivs', u) == Index(ivs, u)
  {
    CellIn(ivs', Index(ivs, u), u);
  }

  /** The same boundaries make a request look at the same intervals. */
  lemma {:induction false} SameProbed<T>(t: Tree<T>, ivs: seq<Interval>, ivs': seq<Interval>, i: nat, lo: uint64)
    requires Fitting(t, ivs, i, lo) && SameBounds(ivs, ivs') && Fitting(t, ivs', i, lo)
    ensures Probed(t, ivs', i, lo) == Probed(t, ivs, i, lo)
    decreases i
  {
    if lo < ivs[i].start {
      SameBoundsIndex(ivs, ivs', lo - 1);
      SameProbed(t, ivs, ivs', Next(t, ivs, i, lo), lo);
    }
  }

  lemma SameExact<T>(t: Tree<T>, ivs: seq<Interval>, ivs': seq<Interval>, lo: uint64, hi: uint64)
    requires Request(t, ivs, lo, hi) && SameBounds(ivs, ivs') && Request(t, ivs', lo, hi)
    requires ExactShape(t, ivs, Index(ivs, hi), lo)
    ensures ExactShape(t, ivs', Index(ivs', hi), lo)
  {
    SameBoundsIndex(ivs, ivs', hi);
    SameBoundsIndex(ivs, ivs', lo);
    SameBoundsIndex(ivs, ivs', lo - 1);
    forall i: nat | Index(ivs', lo) < i <= Index(ivs', hi) ensures StepsDown(t, ivs', i, lo) {
      assert StepsDown(t, ivs, i, lo);
    }
  }

  /**
   * Whatever the boundaries are, the verdict is right for all locks that there can be within them
   * if and only if the shape is exact.
   */
  lemma VerdictRightIff<T>(t: Tree<T>, ivs: seq<Interval>, lo: uint64, hi: uint64, isRead: bool)
    requires Request(t, ivs, lo, hi)
    ensures (forall ivs' | SameBounds(ivs, ivs') && Request(t, ivs', lo, hi) :: VerdictRight(t, ivs', lo, hi, isRead))
            <==> ExactShape(t, ivs, Index(ivs, hi), lo)
  {
    if ExactShape(t, ivs, Index(ivs, hi), lo) {
      forall ivs' | SameBounds(ivs, ivs') && Request(t, ivs', lo, hi) ensures VerdictRight(t, ivs', lo, hi, isRead) {
        SameExact(t, ivs, ivs', lo, hi);
        ExactVerdict(t, ivs', lo, hi, isRead);
      }
    } else {
      IndexBefore(ivs, Index(ivs, lo), hi);
      var k := SkippedInterval(t, ivs, Index(ivs, hi), lo);
      WrongVerdict(t, ivs, lo, hi, isRead, k);
    }
  }

  /** A request that skips an interval passes although the interval is write-locked. */
  lemma WrongVerdict<T>(t: Tree<T>, ivs: seq<Interval>, lo: uint64, hi: uint64, isRead: bool, k: nat)
    requires Request(t, ivs, lo, hi)
    requires Index(ivs, lo) <= k <= Index(ivs, hi) && k !in Probed(t, ivs, Index(ivs, hi), lo)
    ensures var ivs' := OneLocked(ivs, k);
            SameBounds(ivs, ivs') && Request(t, ivs', lo, hi) && !VerdictRight(t, ivs', lo, hi, isRead)
  {
    var ivs' := OneLocked(ivs, k);
    SameBoundsIndex(ivs, ivs', hi);
    SameBoundsIndex(ivs, ivs', lo);
    SkippedPasses(t, ivs, Index(ivs, hi), lo, isRead, k);
    assert Stops(ivs'[k].cell, isRead);
    ClearIff(ivs', lo, hi, isRead);
  }

  lemma SkippedPasses<T>(t: Tree<T>, ivs: seq<Interval>, n: nat, lo: uint64, isRead: bool, k: nat)
    requires Fitting(t, ivs, n, lo) && k !in Probed(t, ivs, n, lo) && Fitting(t, OneLocked(ivs, k), n, lo)
    ensures Passes(t, OneLocked(ivs, k), n, lo, isRead)
  {
    var ivs' := OneLocked(ivs, k);
    SameProbed(t, ivs, ivs', n, lo);
    PassesIff(t, ivs', n, lo, isRead);
    forall j | j in Probed(t, ivs', n, lo) ensures !Stops(ivs'[j].cell, isRead) {
      assert ivs'[j].cell == FREE_CELL;
    }
  }
}
