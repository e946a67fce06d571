/**
 * The handlers of ServerEvents, run for coordinators that keep to the protocol, take steps of the
 * protocol: what is proved of all runs holds of a server that is made of those handlers.
 */
module Refinement {
  import opened LockTypes
  import opened VersionStore
  import opened SerialReplay
  import opened ServerSpec
  import opened Protocol
  import opened ProtocolInvariant
  import opened ProtocolCommit

  /** A new transaction. */
  lemma BeginIsStep(s: State, tid: uint64, ts: uint64) returns (s': State)
    requires Inv(s) && tid !in s.txns && 1 <= ts
    ensures Next(s, s', Begin(tid, ts), false) && Inv(s')
    ensures s'.sv == s.sv && s'.ready == s.ready && s'.rids == s.rids
    ensures s'.txns == s.txns[tid := Txn(ts, Active, [], None, map[])]
  {
    s' := s.(txns := s.txns[tid := Txn(ts, Active, [], None, map[])]);
    BeginInv(s, s', tid, ts);
  }

  /** Reading a key that the transaction wrote is a step. */
  lemma OwnReadIsStep(s: State, tid: uint64, key: uint64) returns (s': State)
    requires Inv(s) && Idle(s, tid) && Wrote(Writes(s.txns[tid].log), key)
    ensures Next(s, s', OwnRead(tid, key), false) && Inv(s')
    ensures s'.sv == s.sv && s'.ready == s.ready && s'.rids == s.rids
    ensures var log := s.txns[tid].log;
            s'.txns == s.txns[tid := s.txns[tid].(log := log + [ReadOp(key, LastValue(Writes(log), key))])]
  {
    var log := s.txns[tid].log;
    s' := s.(txns := s.txns[tid := s.txns[tid].(log := log + [ReadOp(key, LastValue(Writes(log), key))])]);
    OwnReadInv(s, s', tid, key);
  }

  /** Sending any other read is a step. */
  lemma IssueReadIsStep(s: State, tid: uint64, key: uint64, rid: uint64) returns (s': State)
    requires Inv(s) && Idle(s, tid) && !Wrote(Writes(s.txns[tid].log), key) && rid !in s.rids
    ensures Next(s, s', IssueRead(tid, key, rid), false) && Inv(s')
    ensures s'.sv == s.sv && s'.ready == s.ready + {rid} && s'.rids == s.rids + {rid}
    ensures s'.txns == s.txns[tid := s.txns[tid].(pending := Some(Pending(key, s.txns[tid].start, rid, 0)))]
  {
    s' := s.(txns := s.txns[tid := s.txns[tid].(pending := Some(Pending(key, s.txns[tid].start, rid, 0)))],
             ready := s.ready + {rid}, rids := s.rids + {rid});
    IssueReadInv(s, s', tid, key, rid);
  }

  /**
   * Running a read that is due is a step, whether it is answered or blocked. The lookup that follows
   * a successful walk finds a version, so the coordinator is answered with a value.
   */
  lemma ReadIsStep(s: State, sv': Server, tid: uint64, v: uint64, end: uint64) returns (s': State)
    requires Inv(s) && tid in s.txns && s.txns[tid].pending.Some? && s.txns[tid].pending.value.rid in s.ready
    requires var p := s.txns[tid].pending.value; RunRead(s.sv, sv', tid, p.key, p.cursor, p.rid, v, end)
    ensures s'.sv == sv' && Next(s, s', AttemptRead(tid, v, end), false) && Inv(s')
    ensures var x, p := s.txns[tid], s.txns[tid].pending.value;
            if Frozen(s.sv.locks(p.key, v)) then
              && Get(sv'.store, p.key, v).Some?
              && s'.txns == s.txns[tid := Answered(x, p.key, v, Get(sv'.store, p.key, v).value)]
            else
              s'.txns == s.txns[tid := x.(pending := Some(p.(cursor := v + 1, end := end)))]
    ensures s'.ready == s.ready - {s.txns[tid].pending.value.rid} && s'.rids == s.rids
  {
    var x, p := s.txns[tid], s.txns[tid].pending.value;
    assert HasVersion(s.sv.store, p.key, v) <==> v > 0 && s.sv.locks(p.key, v).status == FreezeWriteLock;
    var x' := if Frozen(s.sv.locks(p.key, v)) then Answered(x, p.key, v, Get(s.sv.store, p.key, v).value)
              else x.(pending := Some(p.(cursor := v + 1, end := end)));
    s' := State(sv', s.txns[tid := x'], s.ready - {p.rid}, s.rids);
    AttemptReadInv(s, s', tid, v, end);
  }

  /** Buffering a write is a step. */
  lemma WriteIsStep(s: State, sv': Server, tid: uint64, key: uint64, value: Value) returns (s': State)
    requires Inv(s) && Idle(s, tid) && RunWrite(s.sv, sv', tid, key, value)
    ensures s'.sv == sv' && Next(s, s', BufferWrite(tid, key, value), false) && Inv(s')
    ensures s'.txns == s.txns[tid := s.txns[tid].(log := s.txns[tid].log + [WriteOp(key, value)])]
    ensures s'.ready == s.ready && s'.rids == s.rids
  {
    s' := State(sv', s.txns[tid := s.txns[tid].(log := s.txns[tid].log + [WriteOp(key, value)])], s.ready, s.rids);
    BufferWriteInv(s, s', tid, key, value);
  }

  /** Phase one, at the transaction's start timestamp, is a step. */
  lemma PrepareIsStep(s: State, sv': Server, tid: uint64, n: nat, vote: bool) returns (s': State)
    requires Inv(s) && Idle(s, tid) && Writes(s.txns[tid].log) != []
    requires RunPrepare(s.sv, sv', tid, s.txns[tid].start, n, vote)
    ensures s'.sv == sv' && Next(s, s', Prepare(tid, n, vote), false) && Inv(s')
    ensures s'.txns == s.txns[tid := s.txns[tid].(phase := Prepared(vote))] && s'.ready == s.ready && s'.rids == s.rids
  {
    s' := State(sv', s.txns[tid := s.txns[tid].(phase := Prepared(vote))], s.ready, s.rids);
    PrepareInv(s, s', tid, n, vote);
  }

  /**
   * Phase two is a step, which makes the requests it wakes due to run. It leads to a state of a safe
   * run, and leaves the lock manager valid, unless it is an abort that shares a read lock.
   */
  lemma FinishIsStep(s: State, sv': Server, tid: uint64, commit: bool, woken: set<uint64>) returns (s': State)
    requires Inv(s) && tid in s.txns && MayFinish(s.txns[tid], commit)
    requires RunFinish(s.sv, sv', tid, commit, false, woken)
    ensures s'.sv == sv' && s'.ready == s.ready + woken && s'.rids == s.rids
    ensures s'.txns == s.txns[tid := s.txns[tid].(phase := if commit then Committed else Aborted)]
    ensures Next(s, s', Finish(tid, commit, woken), false)
    ensures Inv(s') <==> commit || SoleReader(s.sv.locks, tid)
  {
    s' := State(sv', s.txns[tid := s.txns[tid].(phase := if commit then Committed else Aborted)], s.ready + woken,
                s.rids);
    if commit || SoleReader(s.sv.locks, tid) {
      FinishInv(s, s', tid, commit, woken, false);
    } else {
      UnlockKeepsLocksOkIff(s.sv.locks, s'.sv.locks, tid);
    }
  }
}
