/**
 * Nobody waits for ever for lack of a step: a read that waits, waits for a transaction that does not wait
 * itself and whose last step is always possible; and a read that is due to run can run.
 */
module Progress {
  import opened LockTypes
  import opened VersionStore
  import opened SerialReplay
  import opened ServerSpec
  import opened Protocol
  import opened ProtocolInvariant
  import opened ProtocolCommit
  import opened RunProperties
  import opened WakeUps

  // ----- a read can always be attempted

  /** Where a walk back from `hi` stops. Time 0 stops every walk. */
  ghost function StopOf(m: Locks, key: uint64, hi: uint64): (v: uint64)
    requires m(key, 0) == SENTINEL_CELL
    ensures BackwardStop(m, key, hi, true, v)
    decreases hi
  {
    if Stops(m(key, hi), true) then hi else StopOf(m, key, hi - 1)
  }

  ghost function LockedBack(m: Locks, key: uint64, tid: uint64, hi: uint64, v: uint64): Locks {
    (k: uint64, t: uint64) => if k == key && v < t <= hi then LockCell(m(k, t), tid, true) else m(k, t)
  }

  ghost function WithRequest(e: Events, key: uint64, end: uint64, rid: uint64): Events {
    (k: uint64, t: uint64) => if k == key && t == end then e(k, t) + {rid} else e(k, t)
  }

  lemma ReadCanRun(sv: Server, tid: uint64, key: uint64, ts: uint64, rid: uint64) returns (sv': Server, v: uint64)
    requires LocksOk(sv.locks) && 1 <= ts
    ensures RunRead(sv, sv', tid, key, ts, rid, v, v)
  {
    v := StopOf(sv.locks, key, ts - 1);
    sv' := sv.(locks := LockedBack(sv.locks, key, tid, ts - 1, v));
    if !Frozen(sv.locks(key, v)) {
      sv' := sv'.(events := WithRequest(sv.events, key, v, rid));
    }
  }

  /** An unanswered read that is due to run takes a step. */
  lemma DueReadCanStep(s: State, tid: uint64, repaired: bool) returns (s': State, a: Action)
    requires Inv(s) && tid in s.txns && s.txns[tid].pending.Some? && s.txns[tid].pending.value.rid in s.ready
    ensures a.AttemptRead? && a.tid == tid && Next(s, s', a, repaired) && Safe(s, a, repaired)
  {
    assert TxnOk(s, tid);
    var x, p := s.txns[tid], s.txns[tid].pending.value;
    var sv', v := ReadCanRun(s.sv, tid, p.key, p.cursor, p.rid);
    assert HasVersion(s.sv.store, p.key, v) <==> v > 0 && s.sv.locks(p.key, v).status == FreezeWriteLock;
    var x' := if Frozen(s.sv.locks(p.key, v)) then Answered(x, p.key, v, Get(s.sv.store, p.key, v).value)
              else x.(pending := Some(p.(cursor := v + 1, end := v)));
    s', a := State(sv', s.txns[tid := x'], s.ready - {p.rid}, s.rids), AttemptRead(tid, v, v);
    assert AttemptReadStep(s, s', tid, v, v);
  }

  // ----- a transaction that voted can always finish

  ghost function FinishedLocks(m: Locks, tid: uint64, commit: bool, repaired: bool): Locks {
    (k: uint64, t: uint64) => FinishCell(m(k, t), tid, commit, repaired)
  }

  lemma WokenRequests(s: State, tid: uint64, commit: bool) returns (woken: set<uint64>)
    requires forall k: uint64, t: uint64 :: s.sv.events(k, t) <= s.rids
    ensures forall rid: uint64 :: rid in woken <==> WokenBy(s.sv, tid, commit, rid)
  {
    woken := set rid | rid in s.rids && WokenBy(s.sv, tid, commit, rid);
    forall rid: uint64 | WokenBy(s.sv, tid, commit, rid) ensures rid in s.rids {
      var k: uint64, t: uint64 :| rid in s.sv.events(k, t) && Wakes(s.sv.locks(k, t), tid, commit);
      assert s.sv.events(k, t) <= s.rids;
    }
  }

  /** The state after phase two. */
  lemma FinishTo(s: State, tid: uint64, commit: bool, repaired: bool, woken: set<uint64>) returns (s': State)
    requires tid in s.txns && MayFinish(s.txns[tid], commit)
    requires forall rid: uint64 :: rid in woken <==> WokenBy(s.sv, tid, commit, rid)
    ensures Next(s, s', Finish(tid, commit, woken), repaired)
    ensures s'.txns == s.txns[tid := s.txns[tid].(phase := if commit then Committed else Aborted)]
    ensures tid in s.sv.rdy && commit ==> s'.sv.store == SetAll(s.sv.store, s.sv.rdy[tid], PendOf(s.sv, tid))
  {
    var sv' := s.sv.(locks := FinishedLocks(s.sv.locks, tid, commit, repaired));
    if tid in s.sv.rdy {
      sv' := sv'.(store := if commit then SetAll(s.sv.store, s.sv.rdy[tid], PendOf(s.sv, tid)) else s.sv.store,
                  pend := s.sv.pend - {tid}, rdy := s.sv.rdy - {tid});
    }
    s' := State(sv', s.txns[tid := s.txns[tid].(phase := if commit then Committed else Aborted)], s.ready + woken,
                s.rids);
    assert FinishStep(s, s', tid, commit, woken, repaired);
  }

  lemma FinishCanStep(s: State, tid: uint64, commit: bool, repaired: bool) returns (s': State, woken: set<uint64>)
    requires RegistryInv(s) && tid in s.txns && MayFinish(s.txns[tid], commit)
    ensures Next(s, s', Finish(tid, commit, woken), repaired)
  {
    woken := WokenRequests(s, tid, commit);
    s' := FinishTo(s, tid, commit, repaired, woken);
  }

  /**
   * Waits do not form cycles. A read that waits, waits for a transaction that has voted, so that waits for
   * nothing; that transaction can finish the way it voted, and doing so makes the read due to run.
   */
  lemma WaitsEnd(run: seq<State>, acts: seq<Action>, repaired: bool, i: nat, tid: uint64)
    returns (h: uint64, s': State, woken: set<uint64>)
    requires IsSafeRun(run, acts, repaired) && i < |run|
    requires tid in run[i].txns && run[i].txns[tid].pending.Some? && run[i].txns[tid].pending.value.rid !in run[i].ready
    ensures h in run[i].txns && run[i].txns[h].phase.Prepared? && run[i].txns[h].pending.None?
    ensures Next(run[i], s', Finish(h, run[i].txns[h].phase.vote, woken), repaired)
    ensures run[i].txns[tid].pending.value.rid in s'.ready
  {
    RegistryRun(run, acts, repaired, i);
    h, s', woken := WaitEnds(run[i], tid, repaired);
  }

  lemma WaitEnds(s: State, tid: uint64, repaired: bool) returns (h: uint64, s': State, woken: set<uint64>)
    requires Inv(s) && RegistryInv(s)
    requires tid in s.txns && s.txns[tid].pending.Some? && s.txns[tid].pending.value.rid !in s.ready
    ensures h in s.txns && s.txns[h].phase.Prepared? && s.txns[h].pending.None?
    ensures Next(s, s', Finish(h, s.txns[h].phase.vote, woken), repaired)
    ensures s.txns[tid].pending.value.rid in s'.ready
  {
    h := WaitsForVoter(s, tid);
    assert TxnOk(s, h);
    var vote := s.txns[h].phase.vote;
    s', woken := FinishCanStep(s, h, vote, repaired);
    VoterWakes(s, s', h, vote, woken, repaired, tid);
  }
}
