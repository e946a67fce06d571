/**
 * The locks of one key as a value: a list of intervals that partition time, and the pointwise
 * lock map it stands for.
 */
module Intervals {
  import opened LockTypes
  import opened Sequences

  datatype Interval = Interval(start: uint64, end: uint64, cell: Cell)

  /** What a key holds when it is created: version 0, then free time. */
  const INITIAL_INTERVALS: seq<Interval> :=
    [Interval(0, 0, SENTINEL_CELL), Interval(1, UINT64_MAX, FREE_CELL)]

  /** Nonempty intervals, each starting right after the one before. */
  ghost predicate Contiguous(ivs: seq<Interval>) {
    && (forall i | 0 <= i < |ivs| :: ivs[i].start <= ivs[i].end)
    && (forall i | 0 <= i < |ivs| - 1 :: ivs[i].end + 1 == ivs[i + 1].start)
  }

  /** The intervals are nonempty, disjoint and cover all of time. */
  ghost predicate Partition(ivs: seq<Interval>) {
    && |ivs| > 0 && Contiguous(ivs)
    && ivs[0].start == 0 && ivs[|ivs| - 1].end == UINT64_MAX
  }

  ghost predicate Contains(iv: Interval, t: uint64) {
    iv.start <= t <= iv.end
  }

  /** Starts are strictly increasing, and so are ends. */
  lemma {:induction false} ContiguousAscends(ivs: seq<Interval>, i: nat, j: nat)
    requires Contiguous(ivs) && i < j < |ivs|
    ensures ivs[i].end < ivs[j].start
    decreases j - i
  {
    if i + 1 < j {
      ContiguousAscends(ivs, i + 1, j);
    }
  }

  /** The neighbours of the n-th interval touch it. */
  ghost predicate Around(ivs: seq<Interval>, n: nat)
    requires n < |ivs|
  {
    && ivs[0].start <= ivs[n].start <= ivs[n].end <= ivs[|ivs| - 1].end
    && (n > 0 ==> ivs[n - 1].end + 1 == ivs[n].start)
    && (n + 1 < |ivs| ==> ivs[n].end + 1 == ivs[n + 1].start)
  }

  lemma ContiguousParts(ivs: seq<Interval>, n: nat)
    requires Contiguous(ivs) && n < |ivs|
    ensures Contiguous(ivs[..n]) && Contiguous(ivs[n + 1..]) && Around(ivs, n)
  {
    if n > 0 {
      ContiguousAscends(ivs, 0, n);
      assert ivs[n - 1].end + 1 == ivs[n - 1 + 1].start;
    }
    if n < |ivs| - 1 {
      ContiguousAscends(ivs, n, |ivs| - 1);
    }
  }

  /** The index of the interval that contains a time. */
  ghost function {:induction false} IndexFrom(ivs: seq<Interval>, lo: nat, t: uint64): (i: nat)
    requires Contiguous(ivs) && lo < |ivs| && ivs[lo].start <= t <= ivs[|ivs| - 1].end
    ensures lo <= i < |ivs| && Contains(ivs[i], t)
    decreases |ivs| - lo
  {
    if t <= ivs[lo].end then lo else IndexFrom(ivs, lo + 1, t)
  }

  ghost function Index(ivs: seq<Interval>, t: uint64): (i: nat)
    requires Partition(ivs)
    ensures i < |ivs| && Contains(ivs[i], t)
  {
    IndexFrom(ivs, 0, t)
  }

  lemma IndexUnique(ivs: seq<Interval>, i: nat, j: nat, t: uint64)
    requires Contiguous(ivs) && i < |ivs| && j < |ivs| && Contains(ivs[i], t) && Contains(ivs[j], t)
    ensures i == j
  {
    if i < j {
      ContiguousAscends(ivs, i, j);
    } else if j < i {
      ContiguousAscends(ivs, j, i);
    }
  }

  lemma IndexBefore(ivs: seq<Interval>, i: nat, t: uint64)
    requires Partition(ivs) && i < |ivs|
    ensures t < ivs[i].start <==> Index(ivs, t) < i
  {
    var k := Index(ivs, t);
    if k < i {
      ContiguousAscends(ivs, k, i);
    } else if i < k {
      ContiguousAscends(ivs, i, k);
    }
  }

  /** The pointwise lock map of a key. */
  ghost function CellAt(ivs: seq<Interval>, t: uint64): Cell
    requires Partition(ivs)
  {
    ivs[Index(ivs, t)].cell
  }

  lemma CellIn(ivs: seq<Interval>, i: nat, t: uint64)
    requires Partition(ivs) && i < |ivs| && Contains(ivs[i], t)
    ensures CellAt(ivs, t) == ivs[i].cell && Index(ivs, t) == i
  {
    IndexUnique(ivs, i, Index(ivs, t), t);
  }

  /** An interval ends at `b`. */
  ghost predicate EndsAt(ivs: seq<Interval>, b: uint64)
    requires Partition(ivs)
  {
    ivs[Index(ivs, b)].end == b
  }

  /** Every boundary of `ivs` is still there. */
  ghost predicate KeepsEnds(ivs: seq<Interval>, ivs': seq<Interval>)
    requires Partition(ivs) && Partition(ivs')
  {
    forall b: uint64 | EndsAt(ivs, b) :: EndsAt(ivs', b)
  }

  // ----- splitting an interval

  /** The i-th interval cut in two after time `t`. */
  function SplitAt(ivs: seq<Interval>, i: nat, t: uint64): seq<Interval>
    requires i < |ivs| && t < ivs[i].end
  {
    ivs[..i] + [ivs[i].(end := t), ivs[i].(start := t + 1)] + ivs[i + 1..]
  }

  /** Where an interval of the old list is after a split. */
  lemma SplitIndex(ivs: seq<Interval>, i: nat, t: uint64, j: nat)
    requires i < |ivs| && ivs[i].start <= t < ivs[i].end && j < |ivs|
    ensures |SplitAt(ivs, i, t)| == |ivs| + 1
    ensures j < i ==> SplitAt(ivs, i, t)[j] == ivs[j]
    ensures j > i ==> SplitAt(ivs, i, t)[j + 1] == ivs[j]
    ensures SplitAt(ivs, i, t)[i] == ivs[i].(end := t)
    ensures SplitAt(ivs, i, t)[i + 1] == ivs[i].(start := t + 1)
  {
  }

  lemma SplitPartition(ivs: seq<Interval>, i: nat, t: uint64)
    requires Partition(ivs) && i < |ivs| && ivs[i].start <= t < ivs[i].end
    ensures Partition(SplitAt(ivs, i, t))
  {
    var s := SplitAt(ivs, i, t);
    forall j | 0 <= j < |s| ensures s[j].start <= s[j].end {
      if j < i { SplitIndex(ivs, i, t, j); } else if j > i + 1 { SplitIndex(ivs, i, t, j - 1); }
    }
    forall j | 0 <= j < |s| - 1 ensures s[j].end + 1 == s[j + 1].start {
      if j < i {
        SplitIndex(ivs, i, t, j);
        if j + 1 < i { SplitIndex(ivs, i, t, j + 1); }
      } else if j > i {
        SplitIndex(ivs, i, t, j);
        if j > i + 1 { SplitIndex(ivs, i, t, j - 1); }
      }
    }
  }

  /** Splitting leaves the pointwise lock map as it was, and only adds a boundary. */
  lemma SplitKeeps(ivs: seq<Interval>, i: nat, t: uint64)
    requires Partition(ivs) && i < |ivs| && ivs[i].start <= t < ivs[i].end
    ensures Partition(SplitAt(ivs, i, t)) && KeepsEnds(ivs, SplitAt(ivs, i, t))
    ensures forall u: uint64 :: CellAt(SplitAt(ivs, i, t), u) == CellAt(ivs, u)
    ensures Index(SplitAt(ivs, i, t), t) == i
  {
    SplitPartition(ivs, i, t);
    var s := SplitAt(ivs, i, t);
    SplitIndex(ivs, i, t, i);
    CellIn(s, i, t);
    forall u: uint64
      ensures CellAt(s, u) == CellAt(ivs, u)
      ensures EndsAt(ivs, u) ==> EndsAt(s, u)
    {
      SplitCell(ivs, i, t, u);
    }
  }

  lemma SplitCell(ivs: seq<Interval>, i: nat, t: uint64, u: uint64)
    requires Partition(ivs) && i < |ivs| && ivs[i].start <= t < ivs[i].end && Partition(SplitAt(ivs, i, t))
    ensures CellAt(SplitAt(ivs, i, t), u) == CellAt(ivs, u)
    ensures EndsAt(ivs, u) ==> EndsAt(SplitAt(ivs, i, t), u)
  {
    var s := SplitAt(ivs, i, t);
    var j := Index(ivs, u);
    SplitIndex(ivs, i, t, j);
    CellIn(s, if j < i || (j == i && u <= t) then j else j + 1, u);
  }

  // ----- changing the cells of a stretch of intervals

  /** The cells of the intervals from `lo` to `hi` changed by `f`. */
  function Mapped(ivs: seq<Interval>, lo: int, hi: int, f: Cell -> Cell): seq<Interval> {
    seq(|ivs|, i requires 0 <= i < |ivs| => if lo <= i <= hi then ivs[i].(cell := f(ivs[i].cell)) else ivs[i])
  }

  lemma MappedPartition(ivs: seq<Interval>, lo: int, hi: int, f: Cell -> Cell)
    requires Partition(ivs)
    ensures Partition(Mapped(ivs, lo, hi, f))
  {
    var s := Mapped(ivs, lo, hi, f);
    assert forall i | 0 <= i < |ivs| :: s[i].start == ivs[i].start && s[i].end == ivs[i].end;
  }

  /** Changing cells interval by interval changes the pointwise map at the times they contain. */
  lemma MappedCell(ivs: seq<Interval>, lo: int, hi: int, f: Cell -> Cell, u: uint64)
    requires Partition(ivs) && Partition(Mapped(ivs, lo, hi, f))
    ensures Index(Mapped(ivs, lo, hi, f), u) == Index(ivs, u)
    ensures CellAt(Mapped(ivs, lo, hi, f), u) == if lo <= Index(ivs, u) <= hi then f(CellAt(ivs, u)) else CellAt(ivs, u)
    ensures EndsAt(Mapped(ivs, lo, hi, f), u) <==> EndsAt(ivs, u)
  {
    CellIn(Mapped(ivs, lo, hi, f), Index(ivs, u), u);
  }

  /** Going one interval further back. */
  lemma MappedStep(ivs: seq<Interval>, i: nat, hi: int, f: Cell -> Cell)
    requires i < |ivs| && i <= hi
    ensures Mapped(ivs, i + 1, hi, f)[i := ivs[i].(cell := f(ivs[i].cell))] == Mapped(ivs, i, hi, f)
  {
  }

  /** Changing one cell. */
  lemma RecellKeeps(ivs: seq<Interval>, i: nat, c: Cell)
    requires Partition(ivs) && i < |ivs|
    ensures var s := ivs[i := ivs[i].(cell := c)];
            && Partition(s)
            && (forall u: uint64 :: CellAt(s, u) == if Index(ivs, u) == i then c else CellAt(ivs, u))
            && (forall u: uint64 :: EndsAt(s, u) <==> EndsAt(ivs, u))
  {
    var s := ivs[i := ivs[i].(cell := c)];
    assert forall j | 0 <= j < |ivs| :: s[j].start == ivs[j].start && s[j].end == ivs[j].end;
    forall u: uint64
      ensures CellAt(s, u) == if Index(ivs, u) == i then c else CellAt(ivs, u)
      ensures EndsAt(s, u) <==> EndsAt(ivs, u)
    {
      CellIn(s, Index(ivs, u), u);
    }
  }

  // ----- stretches of a partition

  lemma SliceContiguous(ivs: seq<Interval>, sub: seq<Interval>, lo: nat, i: nat)
    requires Contiguous(ivs) && IsSlice(ivs, sub, lo) && lo <= i < lo + |sub|
    ensures Contiguous(sub) && ivs[i].start <= sub[|sub| - 1].end
  {
    forall j | 0 <= j < |sub| - 1 ensures sub[j].end + 1 == sub[j + 1].start {
      assert ivs[lo + j].end + 1 == ivs[lo + j + 1].start;
    }
    if i < lo + |sub| - 1 {
      ContiguousAscends(ivs, i, lo + |sub| - 1);
    }
  }

  /** The time before an interval is in the interval before it. */
  lemma PreviousIndex(ivs: seq<Interval>, i: nat)
    requires Partition(ivs) && 0 < i < |ivs|
    ensures ivs[i].start > 0 && Index(ivs, ivs[i].start - 1) == i - 1
  {
    assert ivs[i - 1].end + 1 == ivs[i - 1 + 1].start;
    CellIn(ivs, i - 1, ivs[i].start - 1);
  }

  // ----- a walk backwards

  function Locker(tid: uint64, isRead: bool): Cell -> Cell {
    (c: Cell) => LockCell(c, tid, isRead)
  }

  /** The same points have the same locks, and no boundary is lost. */
  ghost predicate SameCells(ivs: seq<Interval>, ivs': seq<Interval>) {
    && Partition(ivs) && Partition(ivs') && KeepsEnds(ivs, ivs')
    && forall u: uint64 :: CellAt(ivs', u) == CellAt(ivs, u)
  }

  /**
   * A walk that started in interval `n`, at time `hi`, and is about to look at interval `j`: the
   * intervals in between did not stop it and are now locked.
   */
  ghost predicate WalkingBack(ivs: seq<Interval>, ivs': seq<Interval>, tid: uint64, hi: uint64, isRead: bool,
                              n: nat, j: nat, curTs: uint64)
  {
    && Partition(ivs) && j <= n < |ivs| && Contains(ivs[n], hi)
    && ivs' == Mapped(ivs, j + 1, n, Locker(tid, isRead))
    && (forall x | j < x <= n :: !Stops(ivs[x].cell, isRead))
    && curTs == (if j == n then hi else ivs[j].end)
  }

  ghost predicate WalkedBack(ivs: seq<Interval>, ivs': seq<Interval>, tid: uint64, hi: uint64, isRead: bool,
                             n: nat, j: nat, curTs: uint64)
  {
    WalkingBack(ivs, ivs', tid, hi, isRead, n, j, curTs) && Stops(ivs[j].cell, isRead)
  }

  lemma WalkStart(ivs: seq<Interval>, tid: uint64, hi: uint64, isRead: bool, n: nat)
    requires Partition(ivs) && n == Index(ivs, hi)
    ensures WalkingBack(ivs, ivs, tid, hi, isRead, n, n, hi)
  {
    assert ivs == Mapped(ivs, n + 1, n, Locker(tid, isRead));
  }

  /** The intervals after the walk looked at interval `j`. */
  function Visited(ivs: seq<Interval>, j: nat, tid: uint64, isRead: bool): seq<Interval>
    requires j < |ivs|
  {
    ivs[j := ivs[j].(cell := LockCell(ivs[j].cell, tid, isRead))]
  }

  /** One turn of the walk. */
  lemma WalkTurn(ivs: seq<Interval>, ivs1: seq<Interval>, ivs2: seq<Interval>, tid: uint64, hi: uint64, isRead: bool,
                 n: nat, j: nat, curTs: uint64, curTs': uint64)
    requires WalkingBack(ivs, ivs1, tid, hi, isRead, n, j, curTs) && ivs2 == Visited(ivs1, j, tid, isRead)
    requires curTs' == if Stops(ivs1[j].cell, isRead) then curTs else ivs1[j].start - 1
    ensures Stops(ivs1[j].cell, isRead) ==> ivs2 == ivs1 && WalkedBack(ivs, ivs2, tid, hi, isRead, n, j, curTs')
    ensures !Stops(ivs1[j].cell, isRead) && 0 < j ==> WalkingBack(ivs, ivs2, tid, hi, isRead, n, j - 1, curTs')
  {
    if !Stops(ivs1[j].cell, isRead) && 0 < j {
      assert ivs[j - 1].end + 1 == ivs[j - 1 + 1].start;
      MappedStep(ivs, j, n, Locker(tid, isRead));
    }
  }

  /** What locking backwards means point by point: see ServerSpec.BackwardStop and BackwardLocked. */
  ghost predicate BackwardOutcome(ivs: seq<Interval>, ivs': seq<Interval>, tid: uint64, hi: uint64, isRead: bool,
                                  v: uint64)
  {
    && Partition(ivs) && Partition(ivs')
    && v <= hi && Stops(CellAt(ivs, v), isRead)
    && (forall t: uint64 | v < t <= hi :: !Stops(CellAt(ivs, t), isRead))
    && forall t: uint64 ::
         CellAt(ivs', t) == if v < t <= hi then LockCell(CellAt(ivs, t), tid, isRead) else CellAt(ivs, t)
  }

  /** Which intervals the times between the stopping point and the start of a walk are in. */
  lemma WalkRange(ivs: seq<Interval>, n: nat, j: nat, hi: uint64, t: uint64)
    requires Partition(ivs) && j <= n < |ivs| && Contains(ivs[n], hi)
    ensures var v := if j == n then hi else ivs[j].end;
            && (v < t <= hi ==> j < Index(ivs, t) <= n)
            && (j < Index(ivs, t) <= n ==> v < t && (Index(ivs, t) < n ==> t <= hi))
  {
    var i := Index(ivs, t);
    if i < j { ContiguousAscends(ivs, i, j); }
    if j < i { ContiguousAscends(ivs, j, i); }
    if i < n { ContiguousAscends(ivs, i, n); }
    if n < i { ContiguousAscends(ivs, n, i); }
  }

  /** A finished walk, interval by interval, is the pointwise outcome. */
  lemma WalkedOutcome(ivs: seq<Interval>, ivs': seq<Interval>, tid: uint64, hi: uint64, isRead: bool,
                      n: nat, j: nat, curTs: uint64)
    requires WalkedBack(ivs, ivs', tid, hi, isRead, n, j, curTs)
    requires Takes(ivs[n].cell, isRead) ==> ivs[n].end == hi
    ensures Partition(ivs') && BackwardOutcome(ivs, ivs', tid, hi, isRead, curTs) && KeepsEnds(ivs, ivs')
    ensures CellAt(ivs, curTs) == ivs[j].cell && Index(ivs', curTs) == j && ivs'[j] == ivs[j]
  {
    var f := Locker(tid, isRead);
    MappedPartition(ivs, j + 1, n, f);
    if j < n { ContiguousAscends(ivs, j, n); }
    CellIn(ivs, j, curTs);
    CellIn(ivs', j, curTs);
    forall t: uint64
      ensures CellAt(ivs', t) == if curTs < t <= hi then LockCell(CellAt(ivs, t), tid, isRead) else CellAt(ivs, t)
      ensures curTs < t <= hi ==> !Stops(CellAt(ivs, t), isRead)
      ensures EndsAt(ivs, t) ==> EndsAt(ivs', t)
    {
      WalkRange(ivs, n, j, hi, t);
      MappedCell(ivs, j + 1, n, f, t);
    }
  }

  /** Cutting an interval first makes no difference to the outcome. */
  lemma BackwardPoints(ivs0: seq<Interval>, ivs: seq<Interval>, ivs': seq<Interval>, tid: uint64, hi: uint64,
                       isRead: bool,
                       n: nat, j: nat, curTs: uint64)
    requires SameCells(ivs0, ivs) && WalkedBack(ivs, ivs', tid, hi, isRead, n, j, curTs)
    requires Takes(ivs[n].cell, isRead) ==> ivs[n].end == hi
    ensures BackwardOutcome(ivs0, ivs', tid, hi, isRead, curTs) && KeepsEnds(ivs0, ivs')
    ensures CellAt(ivs0, curTs) == ivs[j].cell && StopsUpTo(ivs0, ivs', curTs, ivs[j].end)
  {
    WalkedOutcome(ivs, ivs', tid, hi, isRead, n, j, curTs);
    CellIn(ivs', j, ivs'[j].end);
    forall t: uint64 | curTs <= t <= ivs[j].end ensures CellAt(ivs0, t) == CellAt(ivs0, curTs) {
      CellIn(ivs, j, t);
    }
  }

  /** The lock that stopped a walk at `v` extends to `end`, where an interval ends. */
  ghost predicate StopsUpTo(ivs: seq<Interval>, ivs': seq<Interval>, v: uint64, end: uint64) {
    && Partition(ivs) && Partition(ivs') && EndsAt(ivs', end) && v <= end
    && forall t: uint64 | v <= t <= end :: CellAt(ivs, t) == CellAt(ivs, v)
  }

  /** The waiting requests of a key, by the end of the interval that blocks them, with one more. */
  function WithEvent(events: map<uint64, set<uint64>>, end: uint64, event: uint64): map<uint64, set<uint64>> {
    events[end := (if end in events then events[end] else {}) + {event}]
  }

  /** Everything a walk backwards does to a key, its waiting requests included. */
  ghost predicate KeyLockedBack(ivs: seq<Interval>, ivs': seq<Interval>, events: map<uint64, set<uint64>>,
                                events': map<uint64, set<uint64>>, tid: uint64, hi: uint64, isRead: bool, event: uint64,
                                res: bool, v: uint64, end: uint64)
  {
    && BackwardOutcome(ivs, ivs', tid, hi, isRead, v)
    && ivs'[0] == Interval(0, 0, SENTINEL_CELL) && KeepsEnds(ivs, ivs')
    && res == Frozen(CellAt(ivs, v)) && StopsUpTo(ivs, ivs', v, end)
    && events' == if res then events else WithEvent(events, end, event)
  }

  /** A walk backwards as a whole: the cut before it, the walk, and the event it may have left. */
  lemma BackwardDone(ivs0: seq<Interval>, ivs: seq<Interval>, ivs': seq<Interval>, events: map<uint64, set<uint64>>,
                     events': map<uint64, set<uint64>>, tid: uint64, hi: uint64, isRead: bool, event: uint64,
                     n: nat, j: nat, res: bool, v: uint64)
    requires SameCells(ivs0, ivs) && WalkedBack(ivs, ivs', tid, hi, isRead, n, j, v)
    requires Takes(ivs[n].cell, isRead) ==> ivs[n].end == hi
    requires j < |ivs'| && ivs'[0] == Interval(0, 0, SENTINEL_CELL) && res == Frozen(ivs'[j].cell)
    requires events' == if res then events else WithEvent(events, ivs'[j].end, event)
    ensures KeyLockedBack(ivs0, ivs', events, events', tid, hi, isRead, event, res, v, ivs'[j].end)
  {
    BackwardPoints(ivs0, ivs, ivs', tid, hi, isRead, n, j, v);
    assert ivs'[j] == ivs[j];
  }

  // ----- finishing a transaction

  function Finisher(tid: uint64, commit: bool): Cell -> Cell {
    (c: Cell) => FinishCell(c, tid, commit, false)
  }

  /** The requests waiting at the end of an interval, if releasing it wakes them. */
  function WokenAt(iv: Interval, events: map<uint64, set<uint64>>, tid: uint64, commit: bool): set<uint64> {
    if Wakes(iv.cell, tid, commit) && iv.end in events then events[iv.end] else {}
  }

  /** The requests woken by releasing the intervals from `lo` to `hi`. */
  function WokenIn(ivs: seq<Interval>, events: map<uint64, set<uint64>>, tid: uint64, commit: bool, lo: nat,
                   hi: int): set<uint64>
    requires hi < |ivs|
    decreases hi - lo
  {
    if hi < lo then {} else WokenAt(ivs[lo], events, tid, commit) + WokenIn(ivs, events, tid, commit, lo + 1, hi)
  }

  lemma {:induction false} WokenInMember(ivs: seq<Interval>, events: map<uint64, set<uint64>>, tid: uint64,
                                         commit: bool,
                                         lo: nat, hi: int, r: uint64)
    requires hi < |ivs|
    ensures r in WokenIn(ivs, events, tid, commit, lo, hi) <==>
            exists i :: lo <= i <= hi && r in WokenAt(ivs[i], events, tid, commit)
    decreases hi - lo
  {
    if lo <= hi {
      WokenInMember(ivs, events, tid, commit, lo + 1, hi, r);
    }
  }

  /** A walk down from the interval of `second`, about to look at interval `j`. */
  ghost predicate Releasing(ivs: seq<Interval>, ivs': seq<Interval>, tid: uint64, commit: bool, second: uint64,
                            n: nat, j: nat, tsEnd: uint64)
  {
    && Partition(ivs) && j <= n < |ivs| && n == Index(ivs, second)
    && ivs' == Mapped(ivs, j + 1, n, Finisher(tid, commit))
    && tsEnd == (if j == n then second else ivs[j].end)
  }

  lemma ReleaseStart(ivs: seq<Interval>, tid: uint64, commit: bool, second: uint64, n: nat)
    requires Partition(ivs) && n == Index(ivs, second)
    ensures Releasing(ivs, ivs, tid, commit, second, n, n, second)
  {
    assert ivs == Mapped(ivs, n + 1, n, Finisher(tid, commit));
  }

  /** The intervals after one of them was released. */
  function Released(ivs: seq<Interval>, j: nat, tid: uint64, commit: bool): seq<Interval>
    requires j < |ivs|
  {
    ivs[j := ivs[j].(cell := FinishCell(ivs[j].cell, tid, commit, false))]
  }

  lemma ReleaseTurn(ivs: seq<Interval>, ivs1: seq<Interval>, ivs2: seq<Interval>, tid: uint64, commit: bool,
                    second: uint64,
                    n: nat, j: nat, tsEnd: uint64, tsEnd': uint64)
    requires Releasing(ivs, ivs1, tid, commit, second, n, j, tsEnd) && 0 < j && ivs2 == Released(ivs1, j, tid, commit)
    requires tsEnd' == ivs1[j].start - 1
    ensures Releasing(ivs, ivs2, tid, commit, second, n, j - 1, tsEnd') && ivs1[j] == ivs[j]
  {
    assert ivs[j - 1].end + 1 == ivs[j - 1 + 1].start;
    MappedStep(ivs, j, n, Finisher(tid, commit));
  }

  /** Everything `tid` holds lies between the two times. */
  ghost predicate HullCovers(ivs: seq<Interval>, tid: uint64, first: uint64, second: uint64) {
    && Partition(ivs)
    && forall t: uint64 | Holds(CellAt(ivs, t), tid) :: first <= t <= second
  }

  /** A finished walk over the hull released every point that `tid` held, and no other. */
  lemma ReleasedPoints(ivs: seq<Interval>, ivs': seq<Interval>, tid: uint64, commit: bool, first: uint64,
                       second: uint64,
                       n: nat, j: nat, tsEnd: uint64)
    requires Releasing(ivs, ivs', tid, commit, second, n, j, tsEnd) && HullCovers(ivs, tid, first, second)
    requires tsEnd < first
    ensures Partition(ivs') && KeepsEnds(ivs, ivs')
    ensures forall t: uint64 :: CellAt(ivs', t) == FinishCell(CellAt(ivs, t), tid, commit, false)
    ensures forall i | 0 <= i < |ivs| && Holds(ivs[i].cell, tid) :: j < i <= n
  {
    MappedPartition(ivs, j + 1, n, Finisher(tid, commit));
    forall i | 0 <= i < |ivs| && Holds(ivs[i].cell, tid) ensures j < i <= n {
      CellIn(ivs, i, ivs[i].start);
      CellIn(ivs, i, ivs[i].end);
      if i < j { ContiguousAscends(ivs, i, j); }
      if n < i { ContiguousAscends(ivs, n, i); }
    }
    forall t: uint64
      ensures CellAt(ivs', t) == FinishCell(CellAt(ivs, t), tid, commit, false)
      ensures EndsAt(ivs, t) ==> EndsAt(ivs', t)
    {
      MappedCell(ivs, j + 1, n, Finisher(tid, commit), t);
    }
  }

  /** A request waits at a time where finishing `tid` ends the hold it waits for. */
  ghost predicate WokenIs(ivs: seq<Interval>, events: map<uint64, set<uint64>>, tid: uint64, commit: bool, r: uint64)
    requires Partition(ivs)
  {
    exists b :: b in events && r in events[b] && Wakes(CellAt(ivs, b), tid, commit)
  }

  /** The requests a finished walk wakes are those registered where it released the last hold. */
  lemma WokenPoints(ivs: seq<Interval>, events: map<uint64, set<uint64>>, tid: uint64, commit: bool, n: nat, j: nat,
                    r: uint64)
    requires Partition(ivs) && j <= n < |ivs|
    requires forall b | b in events :: EndsAt(ivs, b)
    requires forall i | 0 <= i < |ivs| && Holds(ivs[i].cell, tid) :: j < i <= n
    ensures r in WokenIn(ivs, events, tid, commit, j + 1, n) <==> WokenIs(ivs, events, tid, commit, r)
  {
    WokenInMember(ivs, events, tid, commit, j + 1, n, r);
    if i :| j + 1 <= i <= n && r in WokenAt(ivs[i], events, tid, commit) {
      WokenHere(ivs, events, tid, commit, i, r);
    }
    if WokenIs(ivs, events, tid, commit, r) {
      var i := WokenSomewhere(ivs, events, tid, commit, r);
    }
  }

  lemma WokenHere(ivs: seq<Interval>, events: map<uint64, set<uint64>>, tid: uint64, commit: bool, i: nat, r: uint64)
    requires Partition(ivs) && i < |ivs| && r in WokenAt(ivs[i], events, tid, commit)
    ensures WokenIs(ivs, events, tid, commit, r)
  {
    CellIn(ivs, i, ivs[i].end);
  }

  lemma WokenSomewhere(ivs: seq<Interval>, events: map<uint64, set<uint64>>, tid: uint64, commit: bool, r: uint64)
    returns (i: nat)
    requires Partition(ivs) && WokenIs(ivs, events, tid, commit, r) && forall b | b in events :: EndsAt(ivs, b)
    ensures i < |ivs| && Holds(ivs[i].cell, tid) && r in WokenAt(ivs[i], events, tid, commit)
  {
    var b :| b in events && r in events[b] && Wakes(CellAt(ivs, b), tid, commit);
    i := Index(ivs, b);
    assert EndsAt(ivs, b);
  }

  /** What finishing `tid` does to one key, point by point, and whom it wakes. */
  ghost predicate ReleaseOutcome(ivs: seq<Interval>, ivs': seq<Interval>, events: map<uint64, set<uint64>>,
                                 tid: uint64, commit: bool, woken: set<uint64>)
  {
    && Partition(ivs) && Partition(ivs') && KeepsEnds(ivs, ivs')
    && (forall t: uint64 :: CellAt(ivs', t) == FinishCell(CellAt(ivs, t), tid, commit, false))
    && forall r: uint64 :: r in woken <==> WokenIs(ivs, events, tid, commit, r)
  }

  lemma ReleaseDone(ivs: seq<Interval>, ivs': seq<Interval>, events: map<uint64, set<uint64>>, tid: uint64,
                    commit: bool,
                    first: uint64, second: uint64, n: nat, j: nat, tsEnd: uint64, woken: set<uint64>)
    requires Releasing(ivs, ivs', tid, commit, second, n, j, tsEnd) && HullCovers(ivs, tid, first, second)
             && tsEnd < first
    requires forall b | b in events :: EndsAt(ivs, b)
    requires woken == WokenIn(ivs, events, tid, commit, j + 1, n)
    ensures ReleaseOutcome(ivs, ivs', events, tid, commit, woken)
  {
    ReleasedPoints(ivs, ivs', tid, commit, first, second, n, j, tsEnd);
    forall r: uint64 ensures r in woken <==> WokenIs(ivs, events, tid, commit, r) {
      WokenPoints(ivs, events, tid, commit, n, j, r);
    }
  }

  // ----- locking a closed interval of time

  /** [lo, hi] becomes locked where it can be taken, and nothing else changes. */
  ghost predicate IntervalLocked(ivs: seq<Interval>, ivs': seq<Interval>, tid: uint64, lo: uint64, hi: uint64,
                                 isRead: bool)
  {
    && Partition(ivs) && Partition(ivs') && KeepsEnds(ivs, ivs')
    && forall t: uint64 ::
         CellAt(ivs', t) == if lo <= t <= hi then LockCell(CellAt(ivs, t), tid, isRead) else CellAt(ivs, t)
  }

  /** What a request for [lo, hi] does to a key: all of it is locked, or nothing is. */
  ghost predicate KeyLockedInterval(ivs: seq<Interval>, ivs': seq<Interval>, tid: uint64, lo: uint64, hi: uint64,
                                    isRead: bool, res: bool)
  {
    && Partition(ivs) && Partition(ivs') && ivs'[0] == Interval(0, 0, SENTINEL_CELL)
    && (res <==> forall t: uint64 | lo <= t <= hi :: !Stops(CellAt(ivs, t), isRead))
    && if res then IntervalLocked(ivs, ivs', tid, lo, hi, isRead) else ivs' == ivs
  }

  /** The part of [lo, hi] after the i-th interval is locked where it can be taken, and nothing else changed. */
  ghost predicate PartLocked(ivs: seq<Interval>, ivs': seq<Interval>, tid: uint64, i: int, lo: uint64, hi: uint64,
                             isRead: bool)
  {
    && Partition(ivs) && Partition(ivs') && KeepsEnds(ivs, ivs')
    && forall t: uint64 ::
         CellAt(ivs', t) ==
         if lo <= t <= hi && Index(ivs, t) > i then LockCell(CellAt(ivs, t), tid, isRead) else CellAt(ivs, t)
  }

  lemma PartStart(ivs: seq<Interval>, tid: uint64, n: nat, lo: uint64, hi: uint64, isRead: bool)
    requires Partition(ivs) && n == Index(ivs, hi)
    ensures PartLocked(ivs, ivs, tid, n, lo, hi, isRead)
  {
    forall t: uint64 | t <= hi ensures Index(ivs, t) <= n {
      IndexBefore(ivs, Index(ivs, t), hi);
    }
  }

  /** An interval that cannot be taken stays as it is. */
  lemma PartPass(ivs: seq<Interval>, ivs': seq<Interval>, tid: uint64, i: nat, lo: uint64, hi: uint64, isRead: bool)
    requires PartLocked(ivs, ivs', tid, i, lo, hi, isRead) && i < |ivs| && !Takes(ivs[i].cell, isRead)
    ensures PartLocked(ivs, ivs', tid, i - 1, lo, hi, isRead)
  {
  }

  /** Of an interval that can be taken, what overlaps [lo, hi] is locked. */
  lemma PartTake(ivs: seq<Interval>, ivs1: seq<Interval>, ivs2: seq<Interval>, tid: uint64, i: nat, lo: uint64,
                 hi: uint64,
                 isRead: bool)
    requires PartLocked(ivs, ivs1, tid, i, lo, hi, isRead) && i < |ivs|
    requires IntervalLocked(ivs1, ivs2, tid, Latest(ivs[i].start, lo), Earliest(ivs[i].end, hi), isRead)
    ensures PartLocked(ivs, ivs2, tid, i - 1, lo, hi, isRead)
  {
    forall t: uint64
      ensures CellAt(ivs2, t) ==
              if lo <= t <= hi && Index(ivs, t) > i - 1 then LockCell(CellAt(ivs, t), tid, isRead) else CellAt(ivs, t)
    {
      IndexBefore(ivs, i, t);
      if Contains(ivs[i], t) {
        CellIn(ivs, i, t);
      }
    }
  }

  lemma PartDone(ivs: seq<Interval>, ivs': seq<Interval>, tid: uint64, lo: uint64, hi: uint64, isRead: bool)
    requires Partition(ivs) && PartLocked(ivs, ivs', tid, Index(ivs, lo) - 1, lo, hi, isRead)
    ensures IntervalLocked(ivs, ivs', tid, lo, hi, isRead)
  {
    forall t: uint64 | lo <= t <= hi ensures Index(ivs, t) > Index(ivs, lo) - 1 {
      IndexBefore(ivs, Index(ivs, lo), t);
    }
  }

  function Latest(a: uint64, b: uint64): uint64 {
    if a < b then b else a
  }

  function Earliest(a: uint64, b: uint64): uint64 {
    if a > b then b else a
  }

  /** Locking the interval that is exactly [lo, hi]. */
  lemma LockedExactly(ivs0: seq<Interval>, ivs: seq<Interval>, i: nat, tid: uint64, lo: uint64, hi: uint64,
                      isRead: bool)
    requires SameCells(ivs0, ivs) && i < |ivs| && ivs[i].start == lo && ivs[i].end == hi
    ensures IntervalLocked(ivs0, Visited(ivs, i, tid, isRead), tid, lo, hi, isRead)
  {
    RecellKeeps(ivs, i, LockCell(ivs[i].cell, tid, isRead));
    forall t: uint64 ensures lo <= t <= hi <==> Index(ivs, t) == i {
      if lo <= t <= hi {
        CellIn(ivs, i, t);
      }
    }
  }

  /** What is left of one interval, and what stays before it, when it is cut. */
  /** What a split does to the list. */
  lemma SplitParts(ivs: seq<Interval>, i: nat, t: uint64)
    requires i < |ivs| && ivs[i].start <= t < ivs[i].end
    ensures var ivs' := SplitAt(ivs, i, t);
            && i + 1 < |ivs'| && ivs'[..i] == ivs[..i]
            && ivs'[i] == ivs[i].(end := t) && ivs'[i + 1] == ivs[i].(start := t + 1)
  {
  }

  lemma SplitSameCells(ivs: seq<Interval>, i: nat, t: uint64)
    requires Partition(ivs) && i < |ivs| && ivs[i].start <= t < ivs[i].end
    ensures SameCells(ivs, SplitAt(ivs, i, t))
  {
    SplitKeeps(ivs, i, t);
  }

  lemma SameCellsTrans(ivs0: seq<Interval>, ivs: seq<Interval>, ivs': seq<Interval>)
    requires SameCells(ivs0, ivs) && SameCells(ivs, ivs')
    ensures SameCells(ivs0, ivs')
  {
  }

  lemma SameCellsSplit(ivs0: seq<Interval>, ivs: seq<Interval>, i: nat, t: uint64)
    requires SameCells(ivs0, ivs) && i < |ivs| && ivs[i].start <= t < ivs[i].end
    ensures var ivs' := SplitAt(ivs, i, t);
            && SameCells(ivs0, ivs') && i + 1 < |ivs'| && ivs'[..i] == ivs[..i]
            && ivs'[i] == ivs[i].(end := t) && ivs'[i + 1] == ivs[i].(start := t + 1)
  {
    SplitSameCells(ivs, i, t);
    SameCellsTrans(ivs0, ivs, SplitAt(ivs, i, t));
    SplitParts(ivs, i, t);
  }
}
