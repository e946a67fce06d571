/**
 * The request handlers of a server: a read, a buffered write, and the two phases of commit. Each
 * is proved to be the step of the same name in ServerSpec.
 */
module ServerEvents {
  import opened LockTypes
  import opened VersionStore
  import opened Intervals
  import opened LockTables
  import opened AVLTreeLockManagers
  import opened ServerSpec
  import opened SimpleTServers

  /** What running a handler leads to; a handler that runs once too often ends the server process. */
  datatype Outcome = Waiting | Replied | Exited

  class ReadEvent {
    const server: SimpleTServer
    const rid: uint64
    const tid: uint64
    const key: uint64
    var phase: nat
    /** The timestamp to read below, moved back by every attempt. */
    var startTs: uint64
    var value: Option<Value>

    constructor (server: SimpleTServer, rid: uint64, tid: uint64, key: uint64, startTs: uint64)
      ensures this.server == server && this.rid == rid && this.tid == tid && this.key == key
      ensures phase == 0 && this.startTs == startTs && value == None
    {
      this.server, this.rid, this.tid, this.key := server, rid, tid, key;
      phase, this.startTs, value := 0, startTs, None;
    }

    ghost predicate Valid()
      reads this, server, server.lockManager, server.lockManager.repr
    {
      server.Valid() && this !in server.lockManager.repr && 1 <= startTs
    }

    /**
     * Attempt the read. It stops at version `v` and either replies with it or, blocked by a live
     * lock, waits at `end`; the next attempt then starts right above `v`.
     */
    method Run() returns (outcome: Outcome, ghost v: uint64, ghost end: uint64)
      requires Valid()
      modifies this`phase, this`startTs, this`value, server.lockManager, server.lockManager.repr
      ensures Valid() && fresh(server.lockManager.repr - old(server.lockManager.repr))
      ensures old(phase) == 0 ==>
                && RunRead(old(server.Abs()), server.Abs(), tid, key, old(startTs), rid, v, end)
                && startTs == v + 1
                && if Frozen(old(server.Abs()).locks(key, v))
                   then outcome == Replied && phase == 2 && value == Get(server.store, key, v)
                   else outcome == Waiting && phase == 0 && value == old(value)
      ensures old(phase) != 0 ==>
                && server.Abs() == old(server.Abs()) && startTs == old(startTs)
                && if old(phase) == 1 then
                     outcome == Replied && phase == 2 && value == Get(server.store, key, startTs - 1)
                   else outcome == Exited && phase == old(phase) && value == old(value)
    {
      v, end := 0, 0;
      match phase
      case 0 => outcome, v, end := FirstPhase();
      case 1 =>
        SecondPhase();
        outcome := Replied;
      case _ => outcome := Exited;
    }

    /** Lock backwards, move the timestamp back, and go on to the second phase if the walk ended at a frozen lock. */
    method FirstPhase() returns (outcome: Outcome, ghost v: uint64, ghost end: uint64)
      requires Valid() && phase == 0
      modifies this`phase, this`startTs, this`value, server.lockManager, server.lockManager.repr
      ensures Valid() && fresh(server.lockManager.repr - old(server.lockManager.repr))
      ensures RunRead(old(server.Abs()), server.Abs(), tid, key, old(startTs), rid, v, end) && startTs == v + 1
      ensures if Frozen(old(server.Abs()).locks(key, v))
              then outcome == Replied && phase == 2 && value == Get(server.store, key, v)
              else outcome == Waiting && phase == 0 && value == old(value)
    {
      var res, tsStart;
      res, tsStart, v, end := Attempt(startTs - 1, startTs);
      Proceed(res, tsStart, v);
      outcome := if res then Replied else Waiting;
    }

    /** After an attempt: the next one starts right above where this one stopped, unless it was the last. */
    method Proceed(res: bool, tsStart: uint64, ghost v: uint64)
      requires phase == 0 && tsStart == v + 1
      modifies this`phase, this`startTs, this`value
      ensures startTs == tsStart
      ensures if res then phase == 2 && value == Get(server.store, key, v) else phase == 0 && value == old(value)
    {
      startTs := tsStart;
      if res {
        phase := phase + 1;
        SecondPhase();
        assert startTs - 1 == v;
      }
    }

    /** Look the version up at which the walk ended. */
    method SecondPhase()
      requires 1 <= startTs && phase == 1
      modifies this`phase, this`value
      ensures phase == 2 && value == Get(server.store, key, startTs - 1)
    {
      phase := phase + 1;
      value := server.Get(key, startTs - 1);
    }

    /** Ask for read locks from `tsEnd` backwards. */
    method Attempt(tsEnd: uint64, ghost ts: uint64)
      returns (res: bool, tsStart: uint64, ghost v: uint64, ghost end: uint64)
      requires Valid() && ts == tsEnd + 1
      modifies server.lockManager, server.lockManager.repr
      ensures server.Valid() && fresh(server.lockManager.repr - old(server.lockManager.repr)) && tsStart == v + 1
      ensures RunRead(old(server.Abs()), server.Abs(), tid, key, ts, rid, v, end)
      ensures res == Frozen(old(server.Abs()).locks(key, v))
    {
      ghost var table, waiting := server.lockManager.table, server.lockManager.waiting;
      res, tsStart, v, end := server.lockManager.TryBackwardLock(key, tid, tsEnd, true, rid);
      AttemptIsRead(old(server.Abs()), server.Abs(), table, server.lockManager.table, waiting,
                    server.lockManager.waiting,
                    key, tid, tsEnd, ts, rid, res, v, end);
    }
  }

  /** A backward walk for reading is one attempt of a read. */
  lemma AttemptIsRead(sv: Server, sv': Server, table: Table, table': Table, waiting: Waiting, waiting': Waiting,
                      key: uint64, tid: uint64, hi: uint64, ts: uint64, rid: uint64, res: bool, v: uint64, end: uint64)
    requires LockedBack(table, table', waiting, waiting', key, tid, hi, true, rid, res, v, end) && ts == hi + 1
    requires sv.locks == LocksOf(table) && sv'.locks == LocksOf(table')
    requires sv.events == EventsOf(waiting) && sv'.events == EventsOf(waiting')
    requires sv'.store == sv.store && sv'.pend == sv.pend && sv'.rdy == sv.rdy
    ensures RunRead(sv, sv', tid, key, ts, rid, v, end)
    ensures res == Frozen(sv.locks(key, v))
  {
  }

  class WriteEvent {
    const server: SimpleTServer
    const rid: uint64
    const tid: uint64
    const key: uint64
    const value: Value
    var phase: nat

    constructor (server: SimpleTServer, rid: uint64, tid: uint64, key: uint64, value: Value)
      ensures this.server == server && this.rid == rid && this.tid == tid && this.key == key && this.value == value
      ensures phase == 0
    {
      this.server, this.rid, this.tid, this.key, this.value := server, rid, tid, key, value;
      phase := 0;
    }

    /** Buffer the write. */
    method Run() returns (outcome: Outcome)
      requires server.Valid() && this !in server.lockManager.repr
      modifies this`phase, server`pendWrites
      ensures server.Valid() && this !in server.lockManager.repr
      ensures if old(phase) == 0
              then outcome == Replied && phase == 1 && RunWrite(old(server.Abs()), server.Abs(), tid, key, value)
              else outcome == Exited && phase == old(phase) && server.Abs() == old(server.Abs())
    {
      if phase == 0 {
        phase := phase + 1;
        server.Add(tid, key, value);
        outcome := Replied;
      } else {
        outcome := Exited;
      }
    }
  }

  class P1CEvent {
    const server: SimpleTServer
    const rid: uint64
    const tid: uint64
    const startTs: uint64
    const commitTs: uint64
    var phase: nat
    var vote: bool

    /** Coordinators commit at their start timestamp. */
    constructor (server: SimpleTServer, rid: uint64, tid: uint64, startTs: uint64, commitTs: uint64)
      requires 1 <= startTs == commitTs
      ensures this.server == server && this.rid == rid && this.tid == tid && this.startTs == startTs
              && this.commitTs == commitTs
      ensures phase == 0
    {
      this.server, this.rid, this.tid, this.startTs, this.commitTs := server, rid, tid, startTs, commitTs;
      phase, vote := 0, false;
    }

    ghost predicate Valid()
      reads server, server.lockManager, server.lockManager.repr
    {
      server.Valid() && this !in server.lockManager.repr && 1 <= startTs == commitTs
    }

    /** Write-lock the buffered keys at the commit timestamp; `n` of them could be locked. */
    method Run() returns (outcome: Outcome, ghost n: nat)
      requires Valid()
      modifies this`phase, this`vote, server`rdyToCommit, server.lockManager, server.lockManager.repr
      ensures Valid() && fresh(server.lockManager.repr - old(server.lockManager.repr))
      ensures if old(phase) == 0
              then outcome == Replied && phase == 1
                  && RunPrepare(old(server.Abs()), server.Abs(), tid, commitTs, n, vote)
              else outcome == Exited && phase == old(phase) && vote == old(vote) && server.Abs() == old(server.Abs())
    {
      n := 0;
      if phase == 0 {
        phase := phase + 1;
        vote, n := LockAndPrepare();
        outcome := Replied;
      } else {
        outcome := Exited;
      }
    }

    /** Lock, and record that the transaction is ready to commit whatever the vote is. */
    method LockAndPrepare() returns (res: bool, ghost n: nat)
      requires Valid()
      modifies server`rdyToCommit, server.lockManager, server.lockManager.repr
      ensures Valid() && fresh(server.lockManager.repr - old(server.lockManager.repr))
      ensures RunPrepare(old(server.Abs()), server.Abs(), tid, commitTs, n, res)
    {
      res, n := LockAll();
      server.Prepare(tid, commitTs);
    }

    /** Write-lock the buffered keys at the commit timestamp, as far as possible. */
    method LockAll() returns (res: bool, ghost n: nat)
      requires Valid()
      modifies server.lockManager, server.lockManager.repr
      ensures Valid() && fresh(server.lockManager.repr - old(server.lockManager.repr))
      ensures AllLocked(old(server.Abs()), server.Abs(), tid, commitTs, n, res)
    {
      var keys := server.GetKeys(tid);
      res, n := LockKeys(keys);
    }

    /** Lock the keys one by one until one cannot be locked. */
    method LockKeys(keys: seq<uint64>) returns (res: bool, ghost n: nat)
      requires Valid() && |keys| == |PendOf(server.Abs(), tid)|
      requires forall i | 0 <= i < |keys| :: keys[i] == PendOf(server.Abs(), tid)[i].key
      modifies server.lockManager, server.lockManager.repr
      ensures Valid() && fresh(server.lockManager.repr - old(server.lockManager.repr))
      ensures SameEvents(old(server.Abs()).events, server.Abs().events)
      ensures var ws := PendOf(old(server.Abs()), tid);
              && PrepareStop(old(server.Abs()).locks, ws, commitTs, n) && res == (n == |ws|)
              && PrepareLocked(old(server.Abs()).locks, server.Abs().locks, tid, commitTs, ws[..n])
    {
      ghost var ws, m := PendOf(server.Abs(), tid), server.Abs().locks;
      res, n := true, 0;
      for i := 0 to |keys|
        invariant Valid() && fresh(server.lockManager.repr - old(server.lockManager.repr))
        invariant res && n == i && SameEvents(old(server.Abs()).events, server.Abs().events)
        invariant Preparing(m, server.Abs().locks, tid, commitTs, ws, i)
      {
        var locked := LockNext(keys[i], i, ws, m, old(server.Abs()).events);
        if !locked {
          res := false;
          break;
        }
        n := i + 1;
      }
    }

    /** Lock the next key, if it can be locked. */
    method LockNext(key: uint64, ghost i: nat, ghost ws: seq<Write>, ghost m: Locks, ghost events: Events)
      returns (locked: bool)
      requires Valid() && i < |ws| && key == ws[i].key
      requires SameEvents(events, server.Abs().events) && Preparing(m, server.Abs().locks, tid, commitTs, ws, i)
      modifies server.lockManager, server.lockManager.repr
      ensures Valid() && fresh(server.lockManager.repr - old(server.lockManager.repr))
      ensures SameEvents(events, server.Abs().events)
      ensures if locked then Preparing(m, server.Abs().locks, tid, commitTs, ws, i + 1)
              else PrepareStop(m, ws, commitTs, i) && PrepareLocked(m, server.Abs().locks, tid, commitTs, ws[..i])
    {
      ghost var m1, events1 := server.Abs().locks, server.Abs().events;
      locked := LockKey(key);
      PreparingStep(m, m1, server.Abs().locks, tid, commitTs, ws, i, locked);
      SameEventsTrans(events, events1, server.Abs().events);
    }

    /** Write-lock one key at the commit timestamp. */
    method LockKey(key: uint64) returns (res: bool)
      requires Valid()
      modifies server.lockManager, server.lockManager.repr
      ensures Valid() && fresh(server.lockManager.repr - old(server.lockManager.repr))
      ensures SameEvents(old(server.Abs()).events, server.Abs().events)
      ensures PointLocked(old(server.Abs()).locks, server.Abs().locks, tid, key, commitTs, res)
    {
      ghost var table, waiting := server.lockManager.table, server.lockManager.waiting;
      server.lockManager.PointProbesExactly(key, commitTs);
      res := server.lockManager.TryLock(key, tid, startTs, commitTs, false);
      IntervalIsPoint(table, server.lockManager.table, waiting, server.lockManager.waiting, key, tid, commitTs, res);
    }
  }

  /** The point becomes write-locked if it was free, and nothing else changes. */
  ghost predicate PointLocked(m: Locks, m': Locks, tid: uint64, key: uint64, ts: uint64, res: bool) {
    && res == (m(key, ts).status == Free)
    && forall k: uint64, t: uint64 ::
         m'(k, t) == if res && k == key && t == ts then LockCell(m(k, t), tid, false) else m(k, t)
  }

  lemma IntervalIsPoint(table: Table, table': Table, waiting: Waiting, waiting': Waiting, key: uint64, tid: uint64,
                        ts: uint64, res: bool)
    requires LockedInterval(table, table', waiting, waiting', key, tid, ts, ts, false, res)
    ensures PointLocked(LocksOf(table), LocksOf(table'), tid, key, ts, res)
    ensures SameEvents(EventsOf(waiting), EventsOf(waiting'))
  {
    assert LocksOf(table)(key, ts) == LockOf(table, key, ts);
  }

  lemma SameEventsTrans(e: Events, e': Events, e'': Events)
    requires SameEvents(e, e') && SameEvents(e', e'')
    ensures SameEvents(e, e'')
  {
  }

  /** Phase one of commit, without the record that the transaction is ready to commit. */
  ghost predicate AllLocked(sv: Server, sv': Server, tid: uint64, ts: uint64, n: nat, res: bool) {
    var ws := PendOf(sv, tid);
    && PrepareStop(sv.locks, ws, ts, n) && res == (n == |ws|)
    && PrepareLocked(sv.locks, sv'.locks, tid, ts, ws[..n])
    && SameEvents(sv.events, sv'.events)
    && sv'.store == sv.store && sv'.pend == sv.pend && sv'.rdy == sv.rdy
  }

  /** The first `i` buffered keys could be locked and are. */
  ghost predicate Preparing(m: Locks, m': Locks, tid: uint64, ts: uint64, ws: seq<Write>, i: nat) {
    && i <= |ws|
    && (forall j | 0 <= j < i :: m(ws[j].key, ts).status == Free && !Wrote(ws[..j], ws[j].key))
    && PrepareLocked(m, m', tid, ts, ws[..i])
  }

  /** One more key: it can be locked if it was free at first and does not come twice. */
  lemma PreparingStep(m: Locks, m1: Locks, m2: Locks, tid: uint64, ts: uint64, ws: seq<Write>, i: nat, res: bool)
    requires i < |ws| && Preparing(m, m1, tid, ts, ws, i) && PointLocked(m1, m2, tid, ws[i].key, ts, res)
    ensures res ==> Preparing(m, m2, tid, ts, ws, i + 1)
    ensures !res ==> PrepareStop(m, ws, ts, i) && PrepareLocked(m, m2, tid, ts, ws[..i])
  {
    var key := ws[i].key;
    if Wrote(ws[..i], key) {
      var j :| 0 <= j < i && ws[..i][j].key == key;
      assert m(ws[j].key, ts).status == Free;
    }
    assert ws[..i + 1] == ws[..i] + [ws[i]];
    forall k: uint64 ensures Wrote(ws[..i + 1], k) <==> Wrote(ws[..i], k) || k == key {
      WroteSnoc(ws[..i], ws[i], k);
    }
  }

  class P2CEvent {
    const server: SimpleTServer
    const rid: uint64
    const tid: uint64
    const vote: bool
    var phase: nat

    constructor (server: SimpleTServer, rid: uint64, tid: uint64, vote: bool)
      ensures this.server == server && this.rid == rid && this.tid == tid && this.vote == vote
      ensures phase == 0
    {
      this.server, this.rid, this.tid, this.vote := server, rid, tid, vote;
      phase := 0;
    }

    /**
     * Freeze or unlock what the transaction holds and finalize its writes. The events in `woken`
     * are due to run. The lock manager is left in order by every commit, and by an abort exactly
     * when the transaction shared none of its read locks.
     */
    method Run() returns (outcome: Outcome, woken: set<uint64>)
      requires server.Valid() && this !in server.lockManager.repr
      modifies this`phase, server`store, server`pendWrites, server`rdyToCommit, server.lockManager,
               server.lockManager.repr
      ensures server.TreesOk() && this !in server.lockManager.repr
              && server.lockManager.repr == old(server.lockManager.repr)
      ensures if old(phase) == 0
              then outcome == Replied && phase == 1
                  && RunFinish(old(server.Abs()), server.Abs(), tid, vote, false, woken)
              else outcome == Exited && phase == old(phase) && woken == {} && server.Abs() == old(server.Abs())
      ensures server.Valid() <==> old(phase) != 0 || vote || SoleReader(old(server.Abs()).locks, tid)
    {
      woken := {};
      if phase == 0 {
        phase := phase + 1;
        woken := Release();
        server.Finalize(tid, vote);
        outcome := Replied;
      } else {
        outcome := Exited;
      }
    }

    /** Freeze or unlock what the transaction holds. */
    method Release() returns (woken: set<uint64>)
      requires server.Valid() && this !in server.lockManager.repr
      modifies server.lockManager, server.lockManager.repr
      ensures server.TreesOk() && server.lockManager.repr == old(server.lockManager.repr)
      ensures LocksReleased(old(server.Abs()), server.Abs(), tid, vote, woken)
      ensures server.Valid() <==> vote || SoleReader(old(server.Abs()).locks, tid)
    {
      if vote {
        woken := server.lockManager.Freeze(tid);
      } else {
        woken := server.lockManager.Unlock(tid);
      }
    }
  }

  /** Phase two of commit up to, and not including, what it does to the store. */
  ghost predicate LocksReleased(sv: Server, sv': Server, tid: uint64, commit: bool, woken: set<uint64>) {
    && FinishLocked(sv.locks, sv'.locks, tid, commit, false)
    && SameEvents(sv.events, sv'.events)
    && sv'.store == sv.store && sv'.pend == sv.pend && sv'.rdy == sv.rdy
    && forall rid: uint64 :: rid in woken <==> WokenBy(sv, tid, commit, rid)
  }
}
