/**
 * The lock manager: interval trees per key, and per transaction the hull of what it locked.
 */
module AVLTreeLockManagers {
  import opened LockTypes
  import opened VersionStore
  import opened Intervals
  import opened AVLTreeLockNodes
  import opened KeyInfos
  import opened ServerSpec
  import opened LockTables

  type KeyMap = map<uint64, KeyInfo>

  // ----- the keys of a manager

  predicate Has(m: KeyMap, k: uint64) {
    k in m
  }

  /** The objects of one key. */
  ghost function ObjectsOf(info: KeyInfo): set<object>
    reads info`nodes
  {
    info.nodes + {info}
  }

  /** A key lives among `objs`, has a valid tree, and holds these intervals and waiting requests. */
  ghost predicate KeyIs(info: KeyInfo, objs: set<object>, ivs: seq<Interval>, events: map<uint64, set<uint64>>)
    reads objs
  {
    info in objs && ObjectsOf(info) <= objs && info.Valid() && info.ivs == ivs && info.events == events
  }

  /** Two keys share no object. */
  ghost predicate Disjoint(info: KeyInfo, info': KeyInfo)
    reads info`nodes, info'`nodes
  {
    ObjectsOf(info) !! ObjectsOf(info')
  }

  /** The keys of `m` live among `objs`, share no object, and hold what the tables say. */
  ghost predicate Forest(m: KeyMap, objs: set<object>, table: Table, waiting: Waiting)
    reads objs
  {
    && m.Keys == table.Keys && m.Keys == waiting.Keys
    && (forall k {:trigger Has(m, k)} | Has(m, k) :: KeyIs(m[k], objs, table[k], waiting[k]))
    && (forall k, k' {:trigger Has(m, k), Has(m, k')} | Has(m, k) && Has(m, k') && k != k' :: Disjoint(m[k], m[k']))
  }

  lemma ForestRest(m: KeyMap, objs: set<object>, table: Table, waiting: Waiting, key: uint64)
    requires Forest(m, objs, table, waiting)
    ensures key in m ==> KeyIs(m[key], objs, table[key], waiting[key])
    ensures Forest(m - {key}, if key in m then objs - ObjectsOf(m[key]) else objs, table - {key}, waiting - {key})
  {
    var rest := m - {key};
    assert key in m ==> Has(m, key);
    forall k | Has(rest, k)
      ensures Has(m, k)
    {
    }
  }

  lemma KeyAmongMore(info: KeyInfo, objs: set<object>, objs': set<object>, ivs: seq<Interval>,
                     events: map<uint64, set<uint64>>)
    requires KeyIs(info, objs, ivs, events) && objs <= objs'
    ensures KeyIs(info, objs', ivs, events)
  {
  }

  lemma KeyApart(info: KeyInfo, objs: set<object>, ivs: seq<Interval>, events: map<uint64, set<uint64>>, other: KeyInfo)
    requires KeyIs(info, objs, ivs, events) && ObjectsOf(other) !! objs
    ensures Disjoint(info, other) && Disjoint(other, info)
  {
  }

  lemma ForestJoin(m: KeyMap, objs: set<object>, table: Table, waiting: Waiting, key: uint64, info: KeyInfo)
    requires Forest(m - {key}, objs, table - {key}, waiting - {key}) && ObjectsOf(info) !! objs && info.Valid()
    ensures Forest(m[key := info], objs + ObjectsOf(info), table[key := info.ivs], waiting[key := info.events])
  {
    var rest, m' := m - {key}, m[key := info];
    var objs', table', waiting' := objs + ObjectsOf(info), table[key := info.ivs], waiting[key := info.events];
    JoinedKeys(m, table, waiting, key, info);
    forall k | Has(m', k)
      ensures KeyIs(m'[k], objs', table'[k], waiting'[k])
      ensures k != key ==> Has(rest, k) && Disjoint(m'[k], info) && Disjoint(info, m'[k])
    {
      if k != key {
        JoinedKey(m, table, waiting, key, k);
        KeyAmongMore(rest[k], objs, objs', table[k], waiting[k]);
        KeyApart(rest[k], objs, table[k], waiting[k], info);
      }
    }
  }

  lemma JoinedKey(m: KeyMap, table: Table, waiting: Waiting, key: uint64, k: uint64)
    requires (m - {key}).Keys == (table - {key}).Keys && (m - {key}).Keys == (waiting - {key}).Keys && Has(m, k)
             && k != key
    ensures k in table && k in waiting && Has(m - {key}, k)
    ensures (m - {key})[k] == m[k] && (table - {key})[k] == table[k] && (waiting - {key})[k] == waiting[k]
  {
    assert k in (m - {key}).Keys;
    assert k in (table - {key}).Keys && k in (waiting - {key}).Keys;
  }

  lemma JoinedKeys(m: KeyMap, table: Table, waiting: Waiting, key: uint64, info: KeyInfo)
    requires (m - {key}).Keys == (table - {key}).Keys && (m - {key}).Keys == (waiting - {key}).Keys
    ensures m[key := info].Keys == table[key := info.ivs].Keys
            && m[key := info].Keys == waiting[key := info.events].Keys
  {
    assert m[key := info].Keys == (m - {key}).Keys + {key};
    assert table[key := info.ivs].Keys == (table - {key}).Keys + {key};
    assert waiting[key := info.events].Keys == (waiting - {key}).Keys + {key};
  }

  /** Lock one key backwards; the other keys stay as they are. */
  method LockBackwardOf(info: KeyInfo, ghost rest: KeyMap, ghost objs: set<object>, ghost table: Table,
                        ghost waiting: Waiting,
                        tid: uint64, tsEnd: uint64, isRead: bool, event: uint64)
    returns (res: bool, curTs: uint64, ghost end: uint64)
    requires info.Valid() && Forest(rest, objs, table, waiting) && ObjectsOf(info) !! objs
    modifies info, info.nodes
    ensures info.Valid() && Forest(rest, objs, table, waiting)
    ensures ObjectsOf(info) !! objs && fresh(info.nodes - old(info.nodes))
    ensures KeyLockedBack(old(info.ivs), info.ivs, old(info.events), info.events, tid, tsEnd, isRead, event, res,
                          curTs, end)
  {
    ghost var calls;
    res, curTs, end, calls := info.LockBackward(tid, tsEnd, isRead, event);
    if !Forest(rest, objs, table, waiting) {
      assert false;
    }
  }

  /** Lock an interval of time of one key; the other keys stay as they are. */
  method LockIntervalOf(info: KeyInfo, ghost rest: KeyMap, ghost objs: set<object>, ghost table: Table,
                        ghost waiting: Waiting,
                        tid: uint64, tsStart: uint64, tsEnd: uint64, isRead: bool)
    returns (res: bool)
    requires info.Valid() && Forest(rest, objs, table, waiting) && ObjectsOf(info) !! objs
    requires info.ProbesExactly(tsStart, tsEnd)
    modifies info, info.nodes
    ensures info.Valid() && Forest(rest, objs, table, waiting)
    ensures ObjectsOf(info) !! objs && fresh(info.nodes - old(info.nodes)) && info.events == old(info.events)
    ensures KeyLockedInterval(old(info.ivs), info.ivs, tid, tsStart, tsEnd, isRead, res)
  {
    res := info.LockInterval(tid, tsStart, tsEnd, isRead);
    // The other keys live among other objects.
    if !Forest(rest, objs, table, waiting) {
      assert false;
    }
  }

  /** Lock one key of a forest backwards. */
  method LockBackwardIn(m: KeyMap, ghost objs: set<object>, ghost table: Table, ghost waiting: Waiting,
                        key: uint64, tid: uint64, tsEnd: uint64, isRead: bool, event: uint64)
    returns (res: bool, curTs: uint64, ghost end: uint64, ghost objs': set<object>, ghost ivs': seq<Interval>,
             ghost events': map<uint64, set<uint64>>)
    requires Forest(m, objs, table, waiting) && Has(m, key)
    modifies objs
    ensures Forest(m, objs', table[key := ivs'], waiting[key := events']) && fresh(objs' - objs)
    ensures KeyLockedBack(table[key], ivs', waiting[key], events', tid, tsEnd, isRead, event, res, curTs, end)
  {
    var info := m[key];
    ForestRest(m, objs, table, waiting, key);
    ghost var rest := objs - ObjectsOf(info);
    res, curTs, end := LockBackwardOf(info, m - {key}, rest, table - {key}, waiting - {key}, tid, tsEnd, isRead, event);
    ForestJoin(m, rest, table, waiting, key, info);
    assert m[key := info] == m;
    objs', ivs', events' := rest + ObjectsOf(info), info.ivs, info.events;
  }

  /** Lock an interval of time of one key of a forest. */
  method LockIntervalIn(m: KeyMap, ghost objs: set<object>, ghost table: Table, ghost waiting: Waiting,
                        key: uint64, tid: uint64, tsStart: uint64, tsEnd: uint64, isRead: bool)
    returns (res: bool, ghost objs': set<object>, ghost ivs': seq<Interval>)
    requires Forest(m, objs, table, waiting) && Has(m, key)
    requires m[key].ProbesExactly(tsStart, tsEnd)
    modifies objs
    ensures Forest(m, objs', table[key := ivs'], waiting[key := waiting[key]]) && fresh(objs' - objs)
    ensures KeyLockedInterval(table[key], ivs', tid, tsStart, tsEnd, isRead, res)
  {
    var info := m[key];
    ForestRest(m, objs, table, waiting, key);
    ghost var rest := objs - ObjectsOf(info);
    res := LockIntervalOf(info, m - {key}, rest, table - {key}, waiting - {key}, tid, tsStart, tsEnd, isRead);
    ForestJoin(m, rest, table, waiting, key, info);
    assert m[key := info] == m;
    objs', ivs' := rest + ObjectsOf(info), info.ivs;
  }

  /** Finish a transaction in one key; the other keys stay as they are. */
  method ReleaseHullOf(info: KeyInfo, ghost rest: KeyMap, ghost objs: set<object>, ghost table: Table,
                       ghost waiting: Waiting,
                       tid: uint64, first: uint64, second: uint64, commit: bool)
    returns (woken: set<uint64>)
    requires info.Valid() && Forest(rest, objs, table, waiting) && ObjectsOf(info) !! objs
    requires 1 <= first && HullCovers(info.ivs, tid, first, second)
    modifies info, info.nodes
    ensures info.Valid() && Forest(rest, objs, table, waiting)
    ensures ObjectsOf(info) == old(ObjectsOf(info)) && info.events == old(info.events)
    ensures ReleaseOutcome(old(info.ivs), info.ivs, info.events, tid, commit, woken)
  {
    ghost var calls;
    woken, calls := info.ReleaseHull(tid, first, second, commit);
    if !Forest(rest, objs, table, waiting) {
      assert false;
    }
  }

  /** Finish a transaction in one key of a forest. */
  method ReleaseHullIn(m: KeyMap, ghost objs: set<object>, ghost table: Table, ghost waiting: Waiting,
                       key: uint64, tid: uint64, first: uint64, second: uint64, commit: bool)
    returns (woken: set<uint64>, ghost ivs': seq<Interval>)
    requires Forest(m, objs, table, waiting) && Has(m, key)
    requires Known(table, key) && 1 <= first && HullCovers(table[key], tid, first, second)
    modifies objs
    ensures Forest(m, objs, table[key := ivs'], waiting) && ivs'[..1] == [Interval(0, 0, SENTINEL_CELL)]
    ensures key in waiting && ReleaseOutcome(table[key], ivs', waiting[key], tid, commit, woken)
  {
    var info := m[key];
    ForestRest(m, objs, table, waiting, key);
    ghost var rest := objs - ObjectsOf(info);
    woken := ReleaseHullOf(info, m - {key}, rest, table - {key}, waiting - {key}, tid, first, second, commit);
    ForestJoin(m, rest, table, waiting, key, info);
    assert m[key := info] == m && waiting[key := info.events] == waiting && rest + ObjectsOf(info) == objs;
    ivs' := info.ivs;
  }

  class AVLTreeLockManager {
    var keyMap: KeyMap
    var transactionMap: Hulls
    /** The objects of all keys, and their intervals and waiting requests as values. */
    ghost var repr: set<object>
    ghost var table: Table
    ghost var waiting: Waiting

    ghost predicate TreesOk()
      reads this`keyMap, this`repr, this`table, this`waiting, repr
    {
      this !in repr && Forest(keyMap, repr, table, waiting) && TableOk(table)
    }

    /** The trees are well formed, the holder discipline holds everywhere, and the hulls cover what is held. */
    ghost predicate Valid()
      reads this, repr
    {
      TreesOk() && CellsOk(table) && Covered(table, transactionMap)
    }

    constructor ()
      ensures Valid() && repr == {} && table == map[] && waiting == map[] && transactionMap == map[]
    {
      keyMap, transactionMap := map[], map[];
      repr, table, waiting := {}, map[], map[];
    }

    method CreateKeyInfo(key: uint64)
      requires TreesOk()
      modifies this`keyMap, this`repr, this`table, this`waiting
      ensures TreesOk() && Has(keyMap, key) && Known(table, key) && fresh(repr - old(repr))
      ensures SameMeaning(old(table), table, old(waiting), waiting)
      ensures if key in old(keyMap) then keyMap == old(keyMap) && repr == old(repr) && table == old(table)
              else table[key] == INITIAL_INTERVALS
    {
      if key in keyMap {
        assert Has(keyMap, key);
        return;
      }
      var info := NewKeyInfo();
      ghost var more := ObjectsOf(info);
      assert fresh(more);
      AddKey(key, info);
      assert repr - old(repr) <= more;
    }

    method AddKey(key: uint64, info: KeyInfo)
      requires TreesOk() && key !in keyMap && info.Valid() && ObjectsOf(info) !! repr && this !in ObjectsOf(info)
      requires info.ivs == INITIAL_INTERVALS && info.events == map[]
      modifies this`keyMap, this`repr, this`table, this`waiting
      ensures TreesOk() && Has(keyMap, key) && Known(table, key) && repr == old(repr) + ObjectsOf(info)
      ensures SameMeaning(old(table), table, old(waiting), waiting)
      ensures table[key] == INITIAL_INTERVALS && !Known(old(table), key)
    {
      NewKey(table, waiting, key, info.ivs);
      ForestRest(keyMap, repr, table, waiting, key);
      ForestJoin(keyMap, repr, table, waiting, key, info);
      SetKeys(keyMap[key := info], repr + ObjectsOf(info), table[key := info.ivs], waiting[key := info.events]);
    }

    method SetKeys(keyMap': KeyMap, ghost repr': set<object>, ghost table': Table, ghost waiting': Waiting)
      requires this !in repr' && Forest(keyMap', repr', table', waiting') && TableOk(table')
      modifies this`keyMap, this`repr, this`table, this`waiting
      ensures TreesOk() && keyMap == keyMap' && repr == repr' && table == table' && waiting == waiting'
    {
      keyMap := keyMap';
      SetTables(repr', table', waiting');
    }

    method CreateTransactionInfo(tid: uint64)
      modifies this`transactionMap
      ensures transactionMap
           == if tid in old(transactionMap) then old(transactionMap) else old(transactionMap)[tid := map[]]
    {
      if tid !in transactionMap {
        transactionMap := transactionMap[tid := map[]];
      }
    }

    method DeleteTransactionInfo(tid: uint64)
      modifies this`transactionMap
      ensures transactionMap == old(transactionMap) - {tid}
    {
      transactionMap := transactionMap - {tid};
    }

    method AddTransactionLock(tid: uint64, key: uint64, start: uint64, end: uint64)
      modifies this`transactionMap
      ensures transactionMap == Widened(old(transactionMap), tid, key, start, end)
      ensures HullOf(transactionMap, tid, key)
           == match HullOf(old(transactionMap), tid, key)
              case None => Some(Hull(start, end))
              case Some(h) => Some(Hull(Earliest(h.first, start), Latest(h.second, end)))
      ensures forall tid', key' | tid' != tid || key' != key ::
                HullOf(transactionMap, tid', key') == HullOf(old(transactionMap), tid', key')
    {
      CreateTransactionInfo(tid);
      var intervals := transactionMap[tid];
      if key !in intervals {
        intervals := intervals[key := Hull(start, end)];
      } else {
        var hull := intervals[key];
        if start < hull.first {
          hull := hull.(first := start);
        }
        if end > hull.second {
          hull := hull.(second := end);
        }
        intervals := intervals[key := hull];
      }
      transactionMap := transactionMap[tid := intervals];
    }

    /** Record a lock that was just made. */
    method Record(tid: uint64, key: uint64, start: uint64, end: uint64)
      requires TreesOk() && CellsOk(table) && Covered(table, Widened(transactionMap, tid, key, start, end))
      modifies this`transactionMap
      ensures Valid() && transactionMap == Widened(old(transactionMap), tid, key, start, end)
    {
      AddTransactionLock(tid, key, start, end);
    }

    /**
     * Lock everything from `tsEnd` backwards until a frozen lock, or a live one in the way, stops
     * the caller at `v`, right below `tsStart`. A caller stopped by a live lock fails, and its event
     * waits at the end of the interval that blocks it.
     */
    method TryBackwardLock(key: uint64, tid: uint64, tsEnd: uint64, isRead: bool, event: uint64)
      returns (res: bool, tsStart: uint64, ghost v: uint64, ghost end: uint64)
      requires Valid() && tsEnd < UINT64_MAX
      modifies this, repr
      ensures Valid() && fresh(repr - old(repr)) && tsStart == v + 1
      ensures transactionMap == Widened(old(transactionMap), tid, key, tsStart, tsEnd)
      ensures LockedBack(old(table), table, old(waiting), waiting, key, tid, tsEnd, isRead, event, res, v, end)
    {
      res, tsStart, v, end := WalkCovered(key, tid, tsEnd, isRead, event);
      Record(tid, key, tsStart, tsEnd);
    }

    /** The walk backwards, with the hull that covers what it locked. */
    method WalkCovered(key: uint64, tid: uint64, tsEnd: uint64, isRead: bool, event: uint64)
      returns (res: bool, tsStart: uint64, ghost v: uint64, ghost end: uint64)
      requires Valid() && tsEnd < UINT64_MAX
      modifies this`keyMap, this`repr, this`table, this`waiting, repr
      ensures TreesOk() && fresh(repr - old(repr)) && tsStart == v + 1
      ensures CellsOk(table) && Covered(table, Widened(transactionMap, tid, key, tsStart, tsEnd))
      ensures LockedBack(old(table), table, old(waiting), waiting, key, tid, tsEnd, isRead, event, res, v, end)
    {
      var curTs;
      res, curTs, end := WalkKeyBackward(key, tid, tsEnd, isRead, event);
      tsStart, v := curTs + 1, curTs;
      LockedBackKeeps(old(table), table, old(waiting), waiting, transactionMap, key, tid, tsStart, tsEnd, isRead,
                      event, res, v, end);
    }

    /** The walk backwards, in the tree of a key that may be new. */
    method WalkKeyBackward(key: uint64, tid: uint64, tsEnd: uint64, isRead: bool, event: uint64)
      returns (res: bool, curTs: uint64, ghost end: uint64)
      requires TreesOk()
      modifies this`keyMap, this`repr, this`table, this`waiting, repr
      ensures TreesOk() && fresh(repr - old(repr))
      ensures LockedBack(old(table), table, old(waiting), waiting, key, tid, tsEnd, isRead, event, res, curTs, end)
    {
      CreateKeyInfo(key);
      res, curTs, end := WalkExisting(key, tid, tsEnd, isRead, event, old(table), old(waiting));
    }

    /** The walk backwards, when the key may have been created a moment ago. */
    method WalkExisting(key: uint64, tid: uint64, tsEnd: uint64, isRead: bool, event: uint64, ghost table0: Table,
                        ghost waiting0: Waiting)
      returns (res: bool, curTs: uint64, ghost end: uint64)
      requires TreesOk() && Has(keyMap, key) && Known(table, key) && SameMeaning(table0, table, waiting0, waiting)
      modifies this`repr, this`table, this`waiting, repr
      ensures TreesOk() && fresh(repr - old(repr))
      ensures LockedBack(table0, table, waiting0, waiting, key, tid, tsEnd, isRead, event, res, curTs, end)
    {
      ghost var table1, waiting1 := table, waiting;
      res, curTs, end := LockKeyBackward(key, tid, tsEnd, isRead, event);
      LockedBackAfter(table0, table1, table, waiting0, waiting1, waiting, key, tid, tsEnd, isRead, event, res, curTs,
                      end);
    }

    /** The walk backwards in the tree of the key. */
    method LockKeyBackward(key: uint64, tid: uint64, tsEnd: uint64, isRead: bool, event: uint64)
      returns (res: bool, curTs: uint64, ghost end: uint64)
      requires TreesOk() && Has(keyMap, key) && Known(table, key)
      modifies this`repr, this`table, this`waiting, repr
      ensures TreesOk() && fresh(repr - old(repr))
      ensures LockedBack(old(table), table, old(waiting), waiting, key, tid, tsEnd, isRead, event, res, curTs, end)
    {
      ghost var objs', ivs', events';
      res, curTs, end, objs', ivs', events' :=
        LockBackwardIn(keyMap, repr, table, waiting, key, tid, tsEnd, isRead, event);
      LockedBackOfKey(table, ivs', waiting, events', key, tid, tsEnd, isRead, event, res, curTs, end);
      SetTables(objs', table[key := ivs'], waiting[key := events']);
    }

    /** A request for [lo, hi] of a key looks at exactly the intervals that overlap it. */
    ghost predicate ProbesExactly(key: uint64, lo: uint64, hi: uint64)
      reads this, repr
    {
      1 <= lo <= hi && (Has(keyMap, key) ==> keyMap[key] in repr && keyMap[key].ProbesExactly(lo, hi))
    }

    /** Every request for a single point does. */
    lemma PointProbesExactly(key: uint64, ts: uint64)
      requires TreesOk() && 1 <= ts
      ensures ProbesExactly(key, ts, ts)
    {
      if Has(keyMap, key) {
        assert KeyIs(keyMap[key], repr, table[key], waiting[key]);
        keyMap[key].OneIntervalProbesExactly(ts, ts);
      }
    }

    /**
     * Lock [tsStart, tsEnd] of a key if all of it can be locked. The request must look at exactly the
     * intervals that overlap it, as every request for a single point does; by Probes.VerdictRightIff
     * it can be given the wrong answer otherwise.
     */
    method TryLock(key: uint64, tid: uint64, tsStart: uint64, tsEnd: uint64, isRead: bool) returns (res: bool)
      requires Valid() && ProbesExactly(key, tsStart, tsEnd)
      modifies this, repr
      ensures Valid() && fresh(repr - old(repr))
      ensures LockedInterval(old(table), table, old(waiting), waiting, key, tid, tsStart, tsEnd, isRead, res)
      ensures transactionMap
           == if res then Widened(old(transactionMap), tid, key, tsStart, tsEnd) else old(transactionMap)
    {
      res := LockInterval(key, tid, tsStart, tsEnd, isRead);
      LockedIntervalKeeps(old(table), table, old(waiting), waiting, transactionMap, key, tid, tsStart, tsEnd, isRead,
                          res);
      if res {
        Record(tid, key, tsStart, tsEnd);
      }
    }

    /** Lock an interval of a key that may be new. */
    method LockInterval(key: uint64, tid: uint64, tsStart: uint64, tsEnd: uint64, isRead: bool) returns (res: bool)
      requires TreesOk() && ProbesExactly(key, tsStart, tsEnd)
      modifies this`keyMap, this`repr, this`table, this`waiting, repr
      ensures TreesOk() && fresh(repr - old(repr))
      ensures LockedInterval(old(table), table, old(waiting), waiting, key, tid, tsStart, tsEnd, isRead, res)
    {
      OpenInterval(key, tsStart, tsEnd);
      ghost var table1, waiting1 := table, waiting;
      res := LockKeyInterval(key, tid, tsStart, tsEnd, isRead);
      LockedIntervalAfter(old(table), table1, table, old(waiting), waiting1, waiting, key, tid, tsStart, tsEnd, isRead,
                          res);
    }

    /** Make sure that the key exists; all of time after 0 is one interval of a new key. */
    method OpenInterval(key: uint64, tsStart: uint64, tsEnd: uint64)
      requires TreesOk() && ProbesExactly(key, tsStart, tsEnd)
      modifies this`keyMap, this`repr, this`table, this`waiting
      ensures TreesOk() && Has(keyMap, key) && Known(table, key) && fresh(repr - old(repr))
      ensures SameMeaning(old(table), table, old(waiting), waiting) && ProbesExactly(key, tsStart, tsEnd)
    {
      CreateKeyInfo(key);
      assert KeyIs(keyMap[key], repr, table[key], waiting[key]);
      if table[key] == INITIAL_INTERVALS {
        keyMap[key].NewKeyProbesExactly(tsStart, tsEnd);
      }
    }

    method LockKeyInterval(key: uint64, tid: uint64, tsStart: uint64, tsEnd: uint64, isRead: bool) returns (res: bool)
      requires TreesOk() && Has(keyMap, key) && Known(table, key) && ProbesExactly(key, tsStart, tsEnd)
      modifies this`repr, this`table, this`waiting, repr
      ensures TreesOk() && fresh(repr - old(repr))
      ensures LockedInterval(old(table), table, old(waiting), waiting, key, tid, tsStart, tsEnd, isRead, res)
    {
      ghost var objs', ivs';
      res, objs', ivs' := LockIntervalIn(keyMap, repr, table, waiting, key, tid, tsStart, tsEnd, isRead);
      LockedIntervalOfKey(table, ivs', waiting, key, tid, tsStart, tsEnd, isRead, res);
      SetTables(objs', table[key := ivs'], waiting[key := waiting[key]]);
    }

    /** Make everything that `tid` holds permanent, and collect the requests that this wakes. */
    method Freeze(tid: uint64) returns (woken: set<uint64>)
      requires Valid()
      modifies this, repr
      ensures Valid() && repr == old(repr) && waiting == old(waiting)
      ensures Finished(old(table), table, waiting, tid, true, woken)
      ensures forall r: uint64 :: r in woken <==> HoldEndsFor(old(table), table, waiting, tid, r)
      ensures transactionMap == old(transactionMap) - {tid}
      ensures forall k: uint64, t: uint64 ::
                LockOf(table, k, t) == FinishedCell(LockOf(old(table), k, t), tid, true)
      ensures forall k: uint64, t: uint64 :: tid !in LockOf(table, k, t).tids
    {
      woken := ReleaseAll(tid, true);
      FinishKeepsCovered(old(table), table, transactionMap, tid, true);
      FinishedPoints(old(table), table, waiting, tid, true, woken);
      FinishedWakes(old(table), table, waiting, tid, true, woken);
      DeleteTransactionInfo(tid);
    }

    /** Release everything that `tid` holds, and collect the requests that this wakes. */
    method Unlock(tid: uint64) returns (woken: set<uint64>)
      requires Valid()
      modifies this, repr
      ensures TreesOk() && repr == old(repr) && waiting == old(waiting)
      ensures Finished(old(table), table, waiting, tid, false, woken)
      ensures forall r: uint64 :: r in woken <==> HoldEndsFor(old(table), table, waiting, tid, r)
      ensures transactionMap == old(transactionMap) - {tid}
      ensures forall k: uint64, t: uint64 ::
                LockOf(table, k, t) == FinishedCell(LockOf(old(table), k, t), tid, false)
      ensures Valid() <==> SoleReader(LocksOf(old(table)), tid)
    {
      woken := ReleaseAll(tid, false);
      UnlockKeepsIff(old(table), table, transactionMap, tid);
      FinishedPoints(old(table), table, waiting, tid, false, woken);
      FinishedWakes(old(table), table, waiting, tid, false, woken);
      DeleteTransactionInfo(tid);
    }

    /** Finish `tid` in every key that is recorded for it. */
    method ReleaseAll(tid: uint64, commit: bool) returns (woken: set<uint64>)
      requires TreesOk() && Covered(table, transactionMap)
      modifies this`table, repr
      ensures TreesOk() && Finished(old(table), table, waiting, tid, commit, woken)
    {
      woken := {};
      ghost var done: set<uint64> := {};
      NoneReleased(table, waiting, tid, commit);
      if tid in transactionMap {
        var intervals := transactionMap[tid];
        var keys := intervals.Keys;
        while keys != {}
          invariant TreesOk() && keys <= intervals.Keys && done == intervals.Keys - keys
          invariant ReleasedKeys(old(table), table, waiting, tid, commit, done, woken)
          decreases keys
        {
          var key :| key in keys;
          keys := keys - {key};
          var more := ReleaseKey(key, tid, commit, done, woken, old(table));
          done, woken := done + {key}, woken + more;
        }
      }
      AllReleased(old(table), table, waiting, transactionMap, tid, commit, done, woken);
    }

    /** Finish `tid` in one of its keys, if the key exists. */
    method ReleaseKey(key: uint64, tid: uint64, commit: bool, ghost done: set<uint64>, ghost woken: set<uint64>,
                      ghost table0: Table)
      returns (more: set<uint64>)
      requires TreesOk() && tid in transactionMap && key in transactionMap[tid] && key !in done
      requires TableOk(table0) && Covered(table0, transactionMap)
      requires ReleasedKeys(table0, table, waiting, tid, commit, done, woken)
      modifies this`table, repr
      ensures TreesOk() && ReleasedKeys(table0, table, waiting, tid, commit, done + {key}, woken + more)
    {
      if key !in keyMap {
        more := {};
        ReleasedUnknown(table0, table, waiting, tid, commit, done, woken, key);
      } else {
        var hull := transactionMap[tid][key];
        assert Has(keyMap, key) && Known(table, key);
        HullOfKey(table0, table, waiting, transactionMap, tid, commit, done, woken, key);
        ghost var ivs';
        more, ivs' := ReleaseHullIn(keyMap, repr, table, waiting, key, tid, hull.first, hull.second, commit);
        assert ivs'[0] == ivs'[..1][0];
        ReleasedOneMore(table0, table, waiting, tid, commit, done, woken, key, ivs', more);
        SetTable(table[key := ivs']);
      }
    }

    ghost method SetTable(table': Table)
      requires this !in repr && Forest(keyMap, repr, table', waiting) && TableOk(table')
      modifies this`table
      ensures TreesOk() && table == table'
    {
      table := table';
    }

    ghost method SetTables(repr': set<object>, table': Table, waiting': Waiting)
      requires this !in repr' && Forest(keyMap, repr', table', waiting') && TableOk(table')
      modifies this`repr, this`table, this`waiting
      ensures TreesOk() && repr == repr' && table == table' && waiting == waiting'
    {
      repr, table, waiting := repr', table', waiting';
      // The manager itself is not among the objects of its keys.
      if !Forest(keyMap, repr, table, waiting) {
        assert false;
      }
    }
  }
}
