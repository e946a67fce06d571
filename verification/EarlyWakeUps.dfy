/**
 * Phase two freezes, runs the requests it woke, and only then stores the values. A read that runs in
 * between may stop at a version that is not stored yet; the source then dereferences a null value.
 */
module EarlyWakeUps {
  import opened LockTypes
  import opened VersionStore
  import opened SerialReplay
  import opened ServerSpec
  import opened Protocol
  import opened ProtocolInvariant
  import opened ProtocolCommit
  import opened RunProperties
  import opened WakeUps
  import opened Progress
  import opened StaleEvents

  /** The server between freezing what `h` holds and storing what it wrote. */
  ghost predicate HalfFinished(s: State, sv: Server, h: uint64, repaired: bool) {
    && h in s.txns && MayFinish(s.txns[h], true)
    && FinishLocked(s.sv.locks, sv.locks, h, true, repaired) && sv.store == s.sv.store
  }

  /**
   * Stopping at version `v` of the half-finished server, a read misses the lookup exactly when `v` is the
   * version being committed.
   */
  lemma EarlyWakeUpMisses(s: State, sv: Server, tid: uint64, repaired: bool, key: uint64, v: uint64)
    requires Inv(s) && HalfFinished(s, sv, tid, repaired)
    requires Frozen(sv.locks(key, v)) && Stops(sv.locks(key, v), true)
    ensures Get(sv.store, key, v).None? <==>
            s.txns[tid].phase.Prepared? && v == s.txns[tid].start && Wrote(Writes(s.txns[tid].log), key)
  {
    assert TxnOk(s, tid);
    assert HolderOk(s, key, v, tid);
    assert HasVersion(s.sv.store, key, v) <==> v > 0 && s.sv.locks(key, v).status == FreezeWriteLock;
  }

  /** `h` write-locks the first point that stops a read of `key` below `cursor`. */
  ghost predicate InTheWay(m: Locks, h: uint64, key: uint64, u: uint64, cursor: uint64) {
    && u < cursor && m(key, u).status == WriteLock && h in m(key, u).tids
    && forall t: uint64 | u < t < cursor :: !Stops(m(key, t), true)
  }

  /** What stopped readers still does once it is frozen, and nothing else begins to. */
  lemma FreezeKeepsStop(m: Locks, m': Locks, h: uint64, repaired: bool, key: uint64, hi: uint64, v: uint64)
    requires FinishLocked(m, m', h, true, repaired) && BackwardStop(m', key, hi, true, v)
    ensures BackwardStop(m, key, hi, true, v)
  {
    forall t: uint64 | v < t <= hi ensures !Stops(m(key, t), true) {
      assert !Stops(m'(key, t), true);
    }
  }

  /** `h` is in the way of a read exactly if the read stops at what `h` commits. */
  lemma EarlyStop(s: State, sv: Server, h: uint64, repaired: bool, key: uint64, cursor: uint64, v: uint64)
    requires Inv(s) && HalfFinished(s, sv, h, repaired)
    requires 1 <= cursor && BackwardStop(sv.locks, key, cursor - 1, true, v)
    ensures InTheWay(s.sv.locks, h, key, s.txns[h].start, cursor) ==> v == s.txns[h].start
    ensures v == s.txns[h].start && Holds(s.sv.locks(key, v), h) ==> InTheWay(s.sv.locks, h, key, v, cursor)
  {
    FreezeKeepsStop(s.sv.locks, sv.locks, h, repaired, key, cursor - 1, v);
    assert HolderOk(s, key, v, h);
  }

  /**
   * Exactly which reads miss: run on the half-finished server, an unanswered read ends at a version that
   * is not there if and only if the committing transaction's write lock is the first thing in its way.
   */
  lemma EarlyReadMissesIff(s: State, sv: Server, sv': Server, h: uint64, repaired: bool, tid: uint64, v: uint64,
                           end: uint64)
    requires Inv(s) && HalfFinished(s, sv, h, repaired)
    requires tid in s.txns && s.txns[tid].pending.Some?
    requires var p := s.txns[tid].pending.value; RunRead(sv, sv', tid, p.key, p.cursor, p.rid, v, end)
    ensures var p := s.txns[tid].pending.value;
            Frozen(sv.locks(p.key, v)) && Get(sv.store, p.key, v).None? <==>
            InTheWay(s.sv.locks, h, p.key, s.txns[h].start, p.cursor)
  {
    var p := s.txns[tid].pending.value;
    var u := s.txns[h].start;
    assert TxnOk(s, h);
    EarlyStop(s, sv, h, repaired, p.key, p.cursor, v);
    if Frozen(sv.locks(p.key, v)) {
      EarlyWakeUpMisses(s, sv, h, repaired, p.key, v);
    }
    assert HolderOk(s, p.key, u, h);
  }

  /** A transaction is in the way of every read that waits for it. */
  lemma WaitsInTheWay(s: State, h: uint64, tid: uint64)
    requires Inv(s) && tid in s.txns && s.txns[tid].pending.Some? && s.txns[tid].pending.value.rid !in s.ready
    requires Holds(s.sv.locks(s.txns[tid].pending.value.key, s.txns[tid].pending.value.cursor - 1), h)
    ensures h in s.txns && InTheWay(s.sv.locks, h, s.txns[tid].pending.value.key, s.txns[h].start,
                                    s.txns[tid].pending.value.cursor)
  {
    var voter := WaitsForVoter(s, tid);
    assert h == voter;
  }

  /** So every read that waits for the committing transaction misses, and stops at what it commits. */
  lemma WaitingReadMisses(s: State, sv: Server, sv': Server, h: uint64, repaired: bool, tid: uint64, v: uint64,
                          end: uint64)
    requires Inv(s) && HalfFinished(s, sv, h, repaired)
    requires tid in s.txns && s.txns[tid].pending.Some? && s.txns[tid].pending.value.rid !in s.ready
    requires var p := s.txns[tid].pending.value;
             Holds(s.sv.locks(p.key, p.cursor - 1), h) && RunRead(sv, sv', tid, p.key, p.cursor, p.rid, v, end)
    ensures var p := s.txns[tid].pending.value;
            v == s.txns[h].start && Frozen(sv.locks(p.key, v)) && Get(sv.store, p.key, v).None?
  {
    var p := s.txns[tid].pending.value;
    WaitsInTheWay(s, h, tid);
    EarlyStop(s, sv, h, repaired, p.key, p.cursor, v);
    EarlyReadMissesIff(s, sv, sv', h, repaired, tid, v, end);
  }

  /** A safe run gets there: in its last state a read waits for a transaction that voted yes. */
  lemma EarlyWakeUpReached() returns (sv: Server, sv': Server, v: uint64, end: uint64)
    ensures IsSafeRun(StaleRun()[..7], StaleActions()[..6], false)
    ensures var s := StaleRun()[6];
            && WaitsAt(s, 2, 1, 7, 5) && HalfFinished(s, sv, 1, false)
            && RunRead(sv, sv', 2, 7, 6, 1, v, end) && Frozen(sv.locks(7, v)) && Get(sv.store, 7, v).None?
  {
    AnsweredReadIsWokenAgain();
    var run, acts := StaleRun()[..7], StaleActions()[..6];
    forall i | 0 <= i < 6
      ensures Next(run[i], run[i + 1], acts[i], false) && Safe(run[i], acts[i], false)
    {
      StaleStep(i);
    }
    var s := run[6];
    RunInv(run, acts, false, 6);
    assert s == StaleState(6);
    sv := s.sv.(locks := FinishedLocks(s.sv.locks, 1, true, false));
    FinishLocksOk(s.sv.locks, sv.locks, 1, true, false);
    sv', v := ReadCanRun(sv, 2, 7, 6, 1);
    end := v;
    WaitingReadMisses(s, sv, sv', 1, false, 2, v, end);
  }
}
