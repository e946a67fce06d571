/**
 * The lock manager's state as values: the intervals of every key, the requests waiting on them,
 * and the stretch of time of each key that each transaction has locked something in.
 */
module LockTables {
  import opened LockTypes
  import opened VersionStore
  import opened Intervals
  import opened ServerSpec

  type Table = map<uint64, seq<Interval>>

  type Waiting = map<uint64, map<uint64, set<uint64>>>

  /** The least and the greatest time a transaction has locked of one key; empty if they cross. */
  datatype Hull = Hull(first: uint64, second: uint64)

  type Hulls = map<uint64, map<uint64, Hull>>

  predicate Known(table: Table, k: uint64) {
    k in table
  }

  ghost predicate TableOk(table: Table) {
    forall k {:trigger Known(table, k)} | Known(table, k) ::
      Partition(table[k]) && table[k][0] == Interval(0, 0, SENTINEL_CELL)
  }

  /** The lock of a point; a key nobody has touched looks like a new one. */
  ghost function LockOf(table: Table, k: uint64, t: uint64): Cell
    requires TableOk(table)
  {
    if Known(table, k) then CellAt(table[k], t) else if t == 0 then SENTINEL_CELL else FREE_CELL
  }

  ghost function LocksOf(table: Table): Locks
    requires TableOk(table)
  {
    (k: uint64, t: uint64) => LockOf(table, k, t)
  }

  lemma TableWith(table: Table, k: uint64, ivs: seq<Interval>)
    requires TableOk(table) && Partition(ivs) && ivs[0] == Interval(0, 0, SENTINEL_CELL)
    ensures TableOk(table[k := ivs])
    ensures forall k': uint64, t: uint64 ::
              LockOf(table[k := ivs], k', t) == if k' == k then CellAt(ivs, t) else LockOf(table, k', t)
  {
    var table' := table[k := ivs];
    forall k' | Known(table', k')
      ensures Partition(table'[k']) && table'[k'][0] == Interval(0, 0, SENTINEL_CELL)
    {
      assert k' != k ==> Known(table, k');
    }
    forall k': uint64, t: uint64
      ensures LockOf(table', k', t) == if k' == k then CellAt(ivs, t) else LockOf(table, k', t)
    {
      assert Known(table', k') <==> k' == k || Known(table, k');
    }
  }

  function WaitersAt(waiting: Waiting, k: uint64, b: uint64): set<uint64> {
    if k in waiting && b in waiting[k] then waiting[k][b] else {}
  }

  function EventsOf(waiting: Waiting): Events {
    (k: uint64, b: uint64) => WaitersAt(waiting, k, b)
  }

  /** The recorded hull contains the point. */
  predicate InHull(hulls: Hulls, tid: uint64, k: uint64, t: uint64) {
    tid in hulls && k in hulls[tid] && hulls[tid][k].first <= t <= hulls[tid][k].second
  }

  /** No hull starts at time 0. */
  ghost predicate HullsOk(hulls: Hulls) {
    forall tid, k | tid in hulls && k in hulls[tid] :: 1 <= hulls[tid][k].first
  }

  /** The hull invariant: whatever a transaction holds lies within what is recorded for it. */
  ghost predicate Covered(table: Table, hulls: Hulls)
    requires TableOk(table)
  {
    && HullsOk(hulls)
    && forall k: uint64, t: uint64, tid: uint64 | Holds(LockOf(table, k, t), tid) :: InHull(hulls, tid, k, t)
  }

  ghost predicate CellsOk(table: Table)
    requires TableOk(table)
  {
    forall k: uint64, t: uint64 :: CellOk(LockOf(table, k, t))
  }

  /** Record that `tid` locked [start, end] of a key: start a hull, or widen it to both ends. */
  function Widened(hulls: Hulls, tid: uint64, k: uint64, start: uint64, end: uint64): Hulls {
    var intervals := if tid in hulls then hulls[tid] else map[];
    var hull := if k in intervals then
                  Hull(if start < intervals[k].first then start else intervals[k].first,
                       if end > intervals[k].second then end else intervals[k].second)
                else Hull(start, end);
    hulls[tid := intervals[k := hull]]
  }

  /** What is recorded for a transaction in a key, if anything. */
  function HullOf(hulls: Hulls, tid: uint64, k: uint64): Option<Hull> {
    if tid in hulls && k in hulls[tid] then Some(hulls[tid][k]) else None
  }

  /** `t` is an end of the interval being recorded, or lies in what was recorded before. */
  predicate Recorded(hulls: Hulls, tid: uint64, k: uint64, start: uint64, end: uint64, t: uint64) {
    t == start || t == end || InHull(hulls, tid, k, t)
  }

  /**
   * Recording is tight: unless an empty hull was recorded before, a time is in the new hull if and only if
   * it lies between two times that have to be. Nothing else changes.
   */
  lemma WidenedTightly(hulls: Hulls, tid: uint64, k: uint64, start: uint64, end: uint64, t: uint64)
    requires start <= end
    requires HullOf(hulls, tid, k).Some? ==> hulls[tid][k].first <= hulls[tid][k].second
    ensures InHull(Widened(hulls, tid, k, start, end), tid, k, t) <==>
            exists a: uint64, b: uint64 ::
              Recorded(hulls, tid, k, start, end, a) && Recorded(hulls, tid, k, start, end, b) && a <= t <= b
    ensures forall tid', k' | tid' != tid || k' != k ::
              HullOf(Widened(hulls, tid, k, start, end), tid', k') == HullOf(hulls, tid', k')
  {
    var hull := Widened(hulls, tid, k, start, end)[tid][k];
    assert Recorded(hulls, tid, k, start, end, hull.first) && Recorded(hulls, tid, k, start, end, hull.second);
  }

  /** An empty hull that was recorded before, [first, first - 1], counts with both its ends. */
  lemma WidenedFromEmpty(hulls: Hulls, tid: uint64, k: uint64, start: uint64, end: uint64, t: uint64)
    requires start <= end && HullOf(hulls, tid, k).Some? && hulls[tid][k].second < hulls[tid][k].first
    ensures InHull(Widened(hulls, tid, k, start, end), tid, k, t) <==>
            && (start <= t || hulls[tid][k].first <= t)
            && (t <= end || t <= hulls[tid][k].second)
  {
  }

  lemma WidenedHull(hulls: Hulls, tid: uint64, k: uint64, start: uint64, end: uint64)
    requires HullsOk(hulls) && 1 <= start
    ensures HullsOk(Widened(hulls, tid, k, start, end))
    ensures forall t: uint64 | start <= t <= end :: InHull(Widened(hulls, tid, k, start, end), tid, k, t)
    ensures forall tid', k', t: uint64 | InHull(hulls, tid', k', t) ::
            InHull(Widened(hulls, tid, k, start, end), tid', k', t)
  {
  }

  /** Locking for `tid` between `start` and `end` of one key keeps the hull invariant if it is recorded. */
  lemma LockKeepsCovered(table: Table, table': Table, hulls: Hulls, tid: uint64, k: uint64, start: uint64, end: uint64,
                         isRead: bool)
    requires TableOk(table) && TableOk(table') && Covered(table, hulls) && CellsOk(table) && 1 <= start
    requires forall k': uint64, t: uint64 ::
               LockOf(table', k', t) ==
               if k' == k && start <= t <= end then LockCell(LockOf(table, k', t), tid, isRead)
                   else LockOf(table, k', t)
    ensures Covered(table', Widened(hulls, tid, k, start, end)) && CellsOk(table')
  {
    var hulls' := Widened(hulls, tid, k, start, end);
    WidenedHull(hulls, tid, k, start, end);
    forall k': uint64, t: uint64 ensures CellOk(LockOf(table', k', t)) {
      LockCellOk(LockOf(table, k', t), tid, isRead);
    }
    forall k': uint64, t: uint64, h: uint64 | Holds(LockOf(table', k', t), h) ensures InHull(hulls', h, k', t) {
      assert CellOk(LockOf(table, k', t));
      if Holds(LockOf(table, k', t), h) {
        assert InHull(hulls, h, k', t);
      } else {
        assert k' == k && start <= t <= end && h == tid;
      }
    }
  }

  /** Finishing `tid` everywhere leaves it nowhere, so its hulls can be forgotten. */
  lemma FinishKeepsCovered(table: Table, table': Table, hulls: Hulls, tid: uint64, commit: bool)
    requires TableOk(table) && TableOk(table') && Covered(table, hulls) && CellsOk(table)
    requires FinishLocked(LocksOf(table), LocksOf(table'), tid, commit, false)
    requires commit || SoleReader(LocksOf(table), tid)
    ensures Covered(table', hulls - {tid}) && CellsOk(table')
    ensures forall k: uint64, t: uint64 :: tid !in LockOf(table', k, t).tids
  {
    forall k: uint64, t: uint64 ensures CellOk(LockOf(table', k, t)) && tid !in LockOf(table', k, t).tids {
      assert CellOk(LockOf(table, k, t)) && LocksOf(table')(k, t) == LockOf(table', k, t);
      if commit {
        FreezeCellOk(LockOf(table, k, t), tid);
      } else {
        assert SoleReaderCell(LocksOf(table)(k, t), tid);
        UnlockCellOk(LockOf(table, k, t), tid, false);
      }
    }
    forall k: uint64, t: uint64, h: uint64 | Holds(LockOf(table', k, t), h) ensures InHull(hulls - {tid}, h, k, t) {
      assert LocksOf(table')(k, t) == LockOf(table', k, t);
      assert Holds(LockOf(table, k, t), h) && h != tid;
      assert InHull(hulls, h, k, t);
    }
  }

  /** An unknown transaction holds nothing, so finishing it does nothing. */
  lemma UnknownHoldsNothing(table: Table, hulls: Hulls, tid: uint64, commit: bool)
    requires TableOk(table) && Covered(table, hulls) && tid !in hulls
    ensures forall k: uint64, t: uint64 ::
              !Holds(LockOf(table, k, t), tid)
                  && FinishCell(LockOf(table, k, t), tid, commit, false) == LockOf(table, k, t)
  {
    forall k: uint64, t: uint64 ensures !Holds(LockOf(table, k, t), tid) {
      assert !InHull(hulls, tid, k, t);
    }
  }

  // ----- from one key to all keys

  /** No interval boundary of any key is lost. */
  ghost predicate KeepsAllEnds(table: Table, table': Table)
    requires TableOk(table) && TableOk(table')
  {
    forall k {:trigger Known(table, k)} | Known(table, k) :: Known(table', k) && KeepsEnds(table[k], table'[k])
  }

  /** The tables stand for the same locks and the same waiting requests. */
  ghost predicate SameMeaning(table: Table, table': Table, waiting: Waiting, waiting': Waiting) {
    && TableOk(table) && TableOk(table') && KeepsAllEnds(table, table')
    && (forall k: uint64, t: uint64 :: LockOf(table', k, t) == LockOf(table, k, t))
    && SameEvents(EventsOf(waiting), EventsOf(waiting'))
  }

  /** A new key changes the meaning of nothing. */
  lemma NewKey(table: Table, waiting: Waiting, k: uint64, ivs: seq<Interval>)
    requires TableOk(table) && k !in table && k !in waiting
    requires ivs == INITIAL_INTERVALS
    ensures SameMeaning(table, table[k := ivs], waiting, waiting[k := map[]])
  {
    assert Partition(ivs);
    TableWith(table, k, ivs);
    forall t: uint64 ensures CellAt(ivs, t) == if t == 0 then SENTINEL_CELL else FREE_CELL {
      CellIn(ivs, if t == 0 then 0 else 1, t);
    }
    assert !Known(table, k);
  }

  /** The lock that stopped a walk at `v` extends to `end`. */
  ghost predicate Stretch(m: Locks, key: uint64, v: uint64, end: uint64) {
    v <= end && forall t: uint64 | v <= t <= end :: m(key, t) == m(key, v)
  }

  /**
   * A walk backwards from `hi`, as a change of the locks and waiting requests of all keys: where
   * it stopped, what it locked, and whether it left its event at the end of what blocks it.
   */
  ghost predicate LockedBack(table: Table, table': Table, waiting: Waiting, waiting': Waiting, key: uint64, tid: uint64,
                             hi: uint64, isRead: bool, event: uint64, res: bool, v: uint64, end: uint64)
  {
    && TableOk(table) && TableOk(table') && KeepsAllEnds(table, table')
    && BackwardStop(LocksOf(table), key, hi, isRead, v)
    && BackwardLocked(LocksOf(table), LocksOf(table'), key, tid, hi, isRead, v)
    && res == Frozen(LockOf(table, key, v))
    && Stretch(LocksOf(table), key, v, end)
    && if res then SameEvents(EventsOf(waiting), EventsOf(waiting'))
       else Registered(EventsOf(waiting), EventsOf(waiting'), key, end, event)
  }

  /** What a walk backwards meets and leaves, by status. */
  lemma WalkByStatus(table: Table, table': Table, waiting: Waiting, waiting': Waiting, key: uint64, tid: uint64,
                     hi: uint64, isRead: bool, event: uint64, res: bool, v: uint64, end: uint64, t: uint64)
    requires LockedBack(table, table', waiting, waiting', key, tid, hi, isRead, event, res, v, end) && v < t <= hi
    ensures var c, c' := LockOf(table, key, t), LockOf(table', key, t);
            match c.status
            case Free => c' == Cell(if isRead then ReadLock else WriteLock, c.tids + {tid})
            case ReadLock => isRead && c' == Cell(ReadLock, c.tids + {tid})
            case FreezeReadLock => isRead && c' == c
            case _ => false
    ensures match LockOf(table, key, v).status
            case Free => false
            case ReadLock => !isRead && !res
            case WriteLock => !res
            case FreezeReadLock => !isRead && res
            case FreezeWriteLock => res
  {
    assert LocksOf(table)(key, t) == LockOf(table, key, t) && LocksOf(table)(key, v) == LockOf(table, key, v);
    assert LocksOf(table')(key, t) == LockOf(table', key, t);
  }

  /** Changing one key keeps the boundaries of the others. */
  lemma EndsOfKey(table: Table, key: uint64, ivs': seq<Interval>)
    requires TableOk(table) && Known(table, key) && Partition(ivs') && ivs'[0] == Interval(0, 0, SENTINEL_CELL)
    requires KeepsEnds(table[key], ivs')
    ensures TableOk(table[key := ivs']) && KeepsAllEnds(table, table[key := ivs'])
  {
    var table' := table[key := ivs'];
    TableWith(table, key, ivs');
    forall k | Known(table, k) ensures Known(table', k) && KeepsEnds(table[k], table'[k]) {
      assert k != key ==> table'[k] == table[k];
    }
  }

  lemma LocksOfKey(table: Table, key: uint64, ivs': seq<Interval>, tid: uint64, hi: uint64, isRead: bool, v: uint64)
    requires TableOk(table) && Known(table, key)
    requires BackwardOutcome(table[key], ivs', tid, hi, isRead, v) && ivs'[0] == Interval(0, 0, SENTINEL_CELL)
    ensures TableOk(table[key := ivs'])
    ensures BackwardStop(LocksOf(table), key, hi, isRead, v)
    ensures BackwardLocked(LocksOf(table), LocksOf(table[key := ivs']), key, tid, hi, isRead, v)
  {
    TableWith(table, key, ivs');
  }

  lemma StretchOfKey(table: Table, key: uint64, ivs': seq<Interval>, v: uint64, end: uint64)
    requires TableOk(table) && Known(table, key) && StopsUpTo(table[key], ivs', v, end)
    ensures Stretch(LocksOf(table), key, v, end) && LockOf(table, key, v) == CellAt(table[key], v)
  {
  }

  /** What a walk does to its key is what it does to all keys. */
  lemma LockedBackOfKey(table: Table, ivs': seq<Interval>, waiting: Waiting, events: map<uint64, set<uint64>>,
                        key: uint64,
                        tid: uint64, hi: uint64, isRead: bool, event: uint64, res: bool, v: uint64, end: uint64)
    requires TableOk(table) && Known(table, key) && key in waiting
    requires KeyLockedBack(table[key], ivs', waiting[key], events, tid, hi, isRead, event, res, v, end)
    ensures LockedBack(table, table[key := ivs'], waiting, waiting[key := events], key, tid, hi, isRead, event, res, v,
                       end)
  {
    EndsOfKey(table, key, ivs');
    LocksOfKey(table, key, ivs', tid, hi, isRead, v);
    StretchOfKey(table, key, ivs', v, end);
    if !res {
      WaiterAdded(waiting, key, events, end, event);
    }
  }

  /** Adding a waiting request. */
  lemma WaiterAdded(waiting: Waiting, key: uint64, events: map<uint64, set<uint64>>, end: uint64, event: uint64)
    requires key in waiting && events == WithEvent(waiting[key], end, event)
    ensures Registered(EventsOf(waiting), EventsOf(waiting[key := events]), key, end, event)
  {
  }

  /** A key that was created first makes no difference. */
  lemma LockedBackAfter(table0: Table, table: Table, table': Table, waiting0: Waiting, waiting: Waiting,
                        waiting': Waiting,
                        key: uint64, tid: uint64, hi: uint64, isRead: bool, event: uint64, res: bool, v: uint64,
                            end: uint64)
    requires SameMeaning(table0, table, waiting0, waiting)
    requires LockedBack(table, table', waiting, waiting', key, tid, hi, isRead, event, res, v, end)
    ensures LockedBack(table0, table', waiting0, waiting', key, tid, hi, isRead, event, res, v, end)
  {
    forall k: uint64, t: uint64
      ensures LocksOf(table0)(k, t) == LocksOf(table)(k, t) && EventsOf(waiting0)(k, t) == EventsOf(waiting)(k, t)
    {
      assert LockOf(table, k, t) == LockOf(table0, k, t);
    }
    forall k | Known(table0, k) ensures Known(table', k) && KeepsEnds(table0[k], table'[k]) {
      assert Known(table, k);
    }
  }

  /** A recorded walk keeps the holder discipline and the hull invariant. */
  lemma LockedBackKeeps(table: Table, table': Table, waiting: Waiting, waiting': Waiting, hulls: Hulls, key: uint64,
                        tid: uint64,
                        lo: uint64, hi: uint64, isRead: bool, event: uint64, res: bool, v: uint64, end: uint64)
    requires LockedBack(table, table', waiting, waiting', key, tid, hi, isRead, event, res, v, end) && lo == v + 1
    requires CellsOk(table) && Covered(table, hulls)
    ensures CellsOk(table') && Covered(table', Widened(hulls, tid, key, lo, hi))
  {
    forall k: uint64, t: uint64
      ensures LockOf(table', k, t) ==
              if k == key && lo <= t <= hi then LockCell(LockOf(table, k, t), tid, isRead) else LockOf(table, k, t)
    {
      assert LocksOf(table')(k, t) == LockOf(table', k, t);
    }
    LockKeepsCovered(table, table', hulls, tid, key, lo, hi, isRead);
  }

  // ----- locking a closed interval of time

  /** A request for [lo, hi] of a key: all of it is locked, or nothing is. */
  ghost predicate LockedInterval(table: Table, table': Table, waiting: Waiting, waiting': Waiting, key: uint64,
                                 tid: uint64,
                                 lo: uint64, hi: uint64, isRead: bool, res: bool)
  {
    && TableOk(table) && TableOk(table') && KeepsAllEnds(table, table')
    && (res <==> forall t: uint64 | lo <= t <= hi :: !Stops(LockOf(table, key, t), isRead))
    && (forall k: uint64, t: uint64 ::
          LockOf(table', k, t) ==
          if res && k == key && lo <= t <= hi then LockCell(LockOf(table, k, t), tid, isRead) else LockOf(table, k, t))
    && SameEvents(EventsOf(waiting), EventsOf(waiting'))
  }

  /** What the request does to its key is what it does to all keys. */
  lemma LockedIntervalOfKey(table: Table, ivs': seq<Interval>, waiting: Waiting, key: uint64, tid: uint64,
                            lo: uint64, hi: uint64, isRead: bool, res: bool)
    requires TableOk(table) && Known(table, key) && key in waiting
    requires KeyLockedInterval(table[key], ivs', tid, lo, hi, isRead, res)
    ensures LockedInterval(table, table[key := ivs'], waiting, waiting[key := waiting[key]], key, tid, lo, hi, isRead,
                           res)
  {
    TableWith(table, key, ivs');
    EndsOfKey(table, key, ivs');
    assert forall t: uint64 :: LockOf(table, key, t) == CellAt(table[key], t);
  }

  /** A key that was created first makes no difference. */
  lemma LockedIntervalAfter(table0: Table, table: Table, table': Table, waiting0: Waiting, waiting: Waiting,
                            waiting': Waiting,
                            key: uint64, tid: uint64, lo: uint64, hi: uint64, isRead: bool, res: bool)
    requires SameMeaning(table0, table, waiting0, waiting)
    requires LockedInterval(table, table', waiting, waiting', key, tid, lo, hi, isRead, res)
    ensures LockedInterval(table0, table', waiting0, waiting', key, tid, lo, hi, isRead, res)
  {
    forall k | Known(table0, k) ensures Known(table', k) && KeepsEnds(table0[k], table'[k]) {
      assert Known(table, k);
    }
    forall k: uint64, t: uint64 ensures EventsOf(waiting')(k, t) == EventsOf(waiting0)(k, t) {
      assert EventsOf(waiting)(k, t) == EventsOf(waiting0)(k, t);
    }
  }

  /** A recorded request keeps the holder discipline and the hull invariant. */
  lemma LockedIntervalKeeps(table: Table, table': Table, waiting: Waiting, waiting': Waiting, hulls: Hulls, key: uint64,
                            tid: uint64, lo: uint64, hi: uint64, isRead: bool, res: bool)
    requires LockedInterval(table, table', waiting, waiting', key, tid, lo, hi, isRead, res) && 1 <= lo
    requires CellsOk(table) && Covered(table, hulls)
    ensures CellsOk(table') && Covered(table', if res then Widened(hulls, tid, key, lo, hi) else hulls)
  {
    if res {
      LockKeepsCovered(table, table', hulls, tid, key, lo, hi, isRead);
    } else {
      SameLocksKeep(table, table', hulls);
    }
  }

  lemma SameLocksKeep(table: Table, table': Table, hulls: Hulls)
    requires TableOk(table) && TableOk(table') && CellsOk(table) && Covered(table, hulls)
    requires forall k: uint64, t: uint64 :: LockOf(table', k, t) == LockOf(table, k, t)
    ensures CellsOk(table') && Covered(table', hulls)
  {
  }

  // ----- finishing a transaction

  /** A request waits somewhere in one of the keys where finishing `tid` ends the hold it waits for. */
  ghost predicate WokenAmong(table: Table, waiting: Waiting, tid: uint64, commit: bool, keys: set<uint64>, r: uint64)
    requires TableOk(table)
  {
    exists k: uint64, b: uint64 :: k in keys && r in WaitersAt(waiting, k, b) && Wakes(LockOf(table, k, b), tid, commit)
  }

  /** `tid` is finished in the keys done so far, and nothing else changed. */
  ghost predicate ReleasedKeys(table: Table, table': Table, waiting: Waiting, tid: uint64, commit: bool,
                               done: set<uint64>,
                               woken: set<uint64>)
  {
    && TableOk(table) && TableOk(table') && KeepsAllEnds(table, table')
    && (forall k: uint64, t: uint64 ::
          LockOf(table', k, t)
          == if k in done then FinishCell(LockOf(table, k, t), tid, commit, false) else LockOf(table, k, t))
    && (forall r: uint64 :: r in woken <==> WokenAmong(table, waiting, tid, commit, done, r))
  }

  lemma NoneReleased(table: Table, waiting: Waiting, tid: uint64, commit: bool)
    requires TableOk(table)
    ensures ReleasedKeys(table, table, waiting, tid, commit, {}, {})
  {
  }

  /** What is left to release of a key is what its recorded hull covers. */
  lemma HullOfKey(table: Table, table': Table, waiting: Waiting, hulls: Hulls, tid: uint64, commit: bool,
                  done: set<uint64>,
                  woken: set<uint64>, key: uint64)
    requires ReleasedKeys(table, table', waiting, tid, commit, done, woken) && Covered(table, hulls)
    requires tid in hulls && key in hulls[tid] && key !in done && Known(table', key)
    ensures 1 <= hulls[tid][key].first && HullCovers(table'[key], tid, hulls[tid][key].first, hulls[tid][key].second)
  {
    forall t: uint64 | Holds(CellAt(table'[key], t), tid) ensures hulls[tid][key].first <= t <= hulls[tid][key].second {
      assert LockOf(table', key, t) == LockOf(table, key, t);
      assert InHull(hulls, tid, key, t);
    }
  }

  /** One more key. */
  lemma ReleasedOneMore(table: Table, table': Table, waiting: Waiting, tid: uint64, commit: bool, done: set<uint64>,
                        woken: set<uint64>, key: uint64, ivs': seq<Interval>, more: set<uint64>)
    requires ReleasedKeys(table, table', waiting, tid, commit, done, woken) && key !in done && Known(table', key)
             && key in waiting
    requires ReleaseOutcome(table'[key], ivs', waiting[key], tid, commit, more)
             && ivs'[0] == Interval(0, 0, SENTINEL_CELL)
    ensures ReleasedKeys(table, table'[key := ivs'], waiting, tid, commit, done + {key}, woken + more)
  {
    ReleasedLocks(table, table', waiting, tid, commit, done, woken, key, ivs', more);
    forall r: uint64 ensures r in woken + more <==> WokenAmong(table, waiting, tid, commit, done + {key}, r) {
      WokenOneMore(table, table', waiting, tid, commit, done, woken, key, ivs', more, r);
    }
  }

  lemma ReleasedLocks(table: Table, table': Table, waiting: Waiting, tid: uint64, commit: bool, done: set<uint64>,
                      woken: set<uint64>, key: uint64, ivs': seq<Interval>, more: set<uint64>)
    requires ReleasedKeys(table, table', waiting, tid, commit, done, woken) && key !in done && Known(table', key)
             && key in waiting
    requires ReleaseOutcome(table'[key], ivs', waiting[key], tid, commit, more)
             && ivs'[0] == Interval(0, 0, SENTINEL_CELL)
    ensures TableOk(table'[key := ivs']) && KeepsAllEnds(table, table'[key := ivs'])
    ensures forall k: uint64, t: uint64 ::
              LockOf(table'[key := ivs'], k, t) ==
              if k in done + {key} then FinishCell(LockOf(table, k, t), tid, commit, false) else LockOf(table, k, t)
  {
    var table2 := table'[key := ivs'];
    TableWith(table', key, ivs');
    EndsOfKey(table', key, ivs');
    forall k | Known(table, k) ensures Known(table2, k) && KeepsEnds(table[k], table2[k]) {
      assert Known(table', k);
    }
    forall k: uint64, t: uint64
      ensures LockOf(table2, k, t) ==
              if k in done + {key} then FinishCell(LockOf(table, k, t), tid, commit, false) else LockOf(table, k, t)
    {
      if k == key {
        assert LockOf(table', key, t) == CellAt(table'[key], t) == LockOf(table, key, t);
      }
    }
  }

  lemma WokenOneMore(table: Table, table': Table, waiting: Waiting, tid: uint64, commit: bool, done: set<uint64>,
                     woken: set<uint64>, key: uint64, ivs': seq<Interval>, more: set<uint64>, r: uint64)
    requires ReleasedKeys(table, table', waiting, tid, commit, done, woken) && key !in done && Known(table', key)
             && key in waiting
    requires ReleaseOutcome(table'[key], ivs', waiting[key], tid, commit, more)
    ensures r in woken + more <==> WokenAmong(table, waiting, tid, commit, done + {key}, r)
  {
    if r in more {
      var b :| b in waiting[key] && r in waiting[key][b] && Wakes(CellAt(table'[key], b), tid, commit);
      assert LockOf(table', key, b) == LockOf(table, key, b);
      assert r in WaitersAt(waiting, key, b) && key in done + {key};
    }
    if r in woken {
      var k: uint64, b: uint64 :| k in done && r in WaitersAt(waiting, k, b) && Wakes(LockOf(table, k, b), tid, commit);
      assert k in done + {key};
    }
    if WokenAmong(table, waiting, tid, commit, done + {key}, r) {
      var k: uint64, b: uint64 :| k in done + {key} && r in WaitersAt(waiting, k, b)
          && Wakes(LockOf(table, k, b), tid, commit);
      if k == key {
        assert LockOf(table', key, b) == LockOf(table, key, b);
      }
    }
  }

  /** A key that does not exist is done already. */
  lemma ReleasedUnknown(table: Table, table': Table, waiting: Waiting, tid: uint64, commit: bool, done: set<uint64>,
                        woken: set<uint64>, key: uint64)
    requires ReleasedKeys(table, table', waiting, tid, commit, done, woken) && !Known(table', key)
    ensures ReleasedKeys(table, table', waiting, tid, commit, done + {key}, woken)
  {
    assert !Known(table, key);
    assert forall t: uint64 :: !Holds(LockOf(table, key, t), tid);
    forall r: uint64
      ensures WokenAmong(table, waiting, tid, commit, done + {key}, r) <==>
              WokenAmong(table, waiting, tid, commit, done, r)
    {
      if k: uint64, b: uint64 :| (k in done + {key} && r in WaitersAt(waiting, k, b)
                                  && Wakes(LockOf(table, k, b), tid, commit))
      {
        assert k in done;
      }
      if k: uint64, b: uint64 :| k in done && r in WaitersAt(waiting, k, b) && Wakes(LockOf(table, k, b), tid, commit) {
        assert k in done + {key};
      }
    }
  }

  /** What finishing `tid` does to all keys, and whom it wakes. */
  ghost predicate Finished(table: Table, table': Table, waiting: Waiting, tid: uint64, commit: bool,
                           woken: set<uint64>)
  {
    && TableOk(table) && TableOk(table') && KeepsAllEnds(table, table')
    && FinishLocked(LocksOf(table), LocksOf(table'), tid, commit, false)
    && forall r: uint64 :: r in woken <==>
         exists k: uint64, b: uint64 :: r in EventsOf(waiting)(k, b) && Wakes(LocksOf(table)(k, b), tid, commit)
  }

  /** `r` waits at a point where `tid` was among the holders and nobody is any more. */
  ghost predicate HoldEndsFor(table: Table, table': Table, waiting: Waiting, tid: uint64, r: uint64)
    requires TableOk(table) && TableOk(table')
  {
    exists k: uint64, b: uint64 ::
      r in WaitersAt(waiting, k, b) && tid in LockOf(table, k, b).tids && LockOf(table', k, b).tids == {}
  }

  /** What finishing `tid` leaves at a point, by what was there. */
  function FinishedCell(c: Cell, tid: uint64, commit: bool): Cell {
    if tid !in c.tids then c
    else if !commit then Cell(Free, c.tids - {tid})
    else if c.status == ReadLock then Cell(FreezeReadLock, {})
    else Cell(FreezeWriteLock, {})
  }

  lemma FinishedPoints(table: Table, table': Table, waiting: Waiting, tid: uint64, commit: bool, woken: set<uint64>)
    requires Finished(table, table', waiting, tid, commit, woken) && CellsOk(table)
    ensures forall k: uint64, t: uint64 :: LockOf(table', k, t) == FinishedCell(LockOf(table, k, t), tid, commit)
  {
    forall k: uint64, t: uint64 ensures LockOf(table', k, t) == FinishedCell(LockOf(table, k, t), tid, commit) {
      assert CellOk(LockOf(table, k, t));
      assert LocksOf(table')(k, t) == FinishCell(LocksOf(table)(k, t), tid, commit, false);
    }
  }

  /** Whom finishing `tid` wakes, in terms of who holds what before and after it. */
  lemma FinishedWakes(table: Table, table': Table, waiting: Waiting, tid: uint64, commit: bool, woken: set<uint64>)
    requires Finished(table, table', waiting, tid, commit, woken) && CellsOk(table)
    ensures forall r: uint64 :: r in woken <==> HoldEndsFor(table, table', waiting, tid, r)
  {
    forall k: uint64, b: uint64
      ensures Wakes(LocksOf(table)(k, b), tid, commit) <==>
              tid in LockOf(table, k, b).tids && LockOf(table', k, b).tids == {}
    {
      WakesIffHoldEnds(LockOf(table, k, b), tid, commit, false);
      assert LocksOf(table')(k, b) == FinishCell(LocksOf(table)(k, b), tid, commit, false);
    }
    forall r: uint64 ensures r in woken <==> HoldEndsFor(table, table', waiting, tid, r) {
      if r in woken {
        var k: uint64, b: uint64 :| r in EventsOf(waiting)(k, b) && Wakes(LocksOf(table)(k, b), tid, commit);
        assert r in WaitersAt(waiting, k, b);
      }
      if k: uint64, b: uint64 :| (r in WaitersAt(waiting, k, b) && tid in LockOf(table, k, b).tids
                                  && LockOf(table', k, b).tids == {})
      {
        assert r in EventsOf(waiting)(k, b) && Wakes(LocksOf(table)(k, b), tid, commit);
      }
    }
  }

  /** Once every recorded key is done, `tid` is finished everywhere. */
  lemma AllReleased(table: Table, table': Table, waiting: Waiting, hulls: Hulls, tid: uint64, commit: bool,
                    done: set<uint64>,
                    woken: set<uint64>)
    requires ReleasedKeys(table, table', waiting, tid, commit, done, woken) && Covered(table, hulls)
    requires done == if tid in hulls then hulls[tid].Keys else {}
    ensures Finished(table, table', waiting, tid, commit, woken)
  {
    forall k: uint64, t: uint64 ensures Holds(LockOf(table, k, t), tid) ==> k in done {
      if Holds(LockOf(table, k, t), tid) {
        assert InHull(hulls, tid, k, t);
      }
    }
    forall k: uint64, t: uint64 ensures LocksOf(table')(k, t) == FinishCell(LocksOf(table)(k, t), tid, commit, false) {
      assert LockOf(table', k, t) == LocksOf(table')(k, t);
    }
    forall r: uint64
      ensures r in woken <==>
              exists k: uint64, b: uint64 :: r in EventsOf(waiting)(k, b) && Wakes(LocksOf(table)(k, b), tid, commit)
    {
      WokenEverywhere(table, waiting, tid, commit, done, r);
    }
  }

  lemma WokenEverywhere(table: Table, waiting: Waiting, tid: uint64, commit: bool, done: set<uint64>, r: uint64)
    requires TableOk(table) && forall k: uint64, t: uint64 :: Holds(LockOf(table, k, t), tid) ==> k in done
    ensures WokenAmong(table, waiting, tid, commit, done, r) <==>
            exists k: uint64, b: uint64 :: r in EventsOf(waiting)(k, b) && Wakes(LocksOf(table)(k, b), tid, commit)
  {
    if k: uint64, b: uint64 :| r in EventsOf(waiting)(k, b) && Wakes(LocksOf(table)(k, b), tid, commit) {
      assert Holds(LockOf(table, k, b), tid) && r in WaitersAt(waiting, k, b);
    }
    if k: uint64, b: uint64 :| k in done && r in WaitersAt(waiting, k, b) && Wakes(LockOf(table, k, b), tid, commit) {
      assert r in EventsOf(waiting)(k, b) && Wakes(LocksOf(table)(k, b), tid, commit);
    }
  }

  /** Unlocking keeps everything in order exactly when no read lock was shared. */
  lemma UnlockKeepsIff(table: Table, table': Table, hulls: Hulls, tid: uint64)
    requires TableOk(table) && TableOk(table') && Covered(table, hulls) && CellsOk(table)
    requires FinishLocked(LocksOf(table), LocksOf(table'), tid, false, false)
    ensures CellsOk(table') && Covered(table', hulls - {tid}) <==> SoleReader(LocksOf(table), tid)
  {
    forall k: uint64, t: uint64
      ensures LockOf(table', k, t) == FinishCell(LockOf(table, k, t), tid, false, false)
      ensures CellOk(LockOf(table', k, t)) <==> SoleReaderCell(LocksOf(table)(k, t), tid)
    {
      assert LocksOf(table')(k, t) == LockOf(table', k, t) && LocksOf(table)(k, t) == LockOf(table, k, t);
      UnlockCellOk(LockOf(table, k, t), tid, false);
    }
    if SoleReader(LocksOf(table), tid) {
      FinishKeepsCovered(table, table', hulls, tid, false);
    }
  }
}
