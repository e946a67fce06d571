/**
 * Which requests a phase two wakes. Requests are never taken off the lock manager's lists, so phase two
 * can wake a read that was answered before, and running that read again ends the server process (see
 * ServerEvents.ReadEvent.Run). Here is exactly when that happens, per step and over whole runs.
 */
module WakeUps {
  import opened LockTypes
  import opened VersionStore
  import opened ServerSpec
  import opened Protocol
  import opened ProtocolInvariant
  import opened ProtocolCommit
  import opened RunProperties

  /** `rid` is the unanswered read of `tid`. */
  predicate Pends(s: State, tid: uint64, rid: uint64) {
    tid in s.txns && s.txns[tid].pending.Some? && s.txns[tid].pending.value.rid == rid
  }

  predicate Unanswered(s: State, rid: uint64) {
    exists tid :: Pends(s, tid, rid)
  }

  /** `rid` is an unanswered read that is not due to run, because it was stopped at (k, t). */
  predicate WaitsAt(s: State, tid: uint64, rid: uint64, k: uint64, t: uint64) {
    && Pends(s, tid, rid) && rid !in s.ready
    && s.txns[tid].pending.value.key == k && s.txns[tid].pending.value.cursor == t + 1
  }

  // ----- where requests are registered

  /** An unanswered read is only registered between where it got to and its transaction's timestamp. */
  ghost predicate RegisteredAbove(s: State, tid: uint64, k: uint64, t: uint64) {
    tid in s.txns && s.txns[tid].pending.Some? && s.txns[tid].pending.value.rid in s.sv.events(k, t) ==>
      k == s.txns[tid].pending.value.key && s.txns[tid].pending.value.cursor - 1 <= t < s.txns[tid].start
  }

  ghost predicate RegistryInv(s: State) {
    && (forall k: uint64, t: uint64 :: s.sv.events(k, t) <= s.rids)
    && (forall tid, k: uint64, t: uint64 :: RegisteredAbove(s, tid, k, t))
  }

  /** A blocked read is stopped by a write lock of one point, and registers at that point. */
  lemma BlockedAtPoint(s: State, s': State, tid: uint64, v: uint64, end: uint64)
    requires Inv(s) && AttemptReadStep(s, s', tid, v, end)
    requires !Frozen(s.sv.locks(s.txns[tid].pending.value.key, v))
    ensures end == v && s.sv.locks(s.txns[tid].pending.value.key, v).status == WriteLock
  {
    var key := s.txns[tid].pending.value.key;
    var c := s.sv.locks(key, v);
    assert CellOk(c);
    var h :| h in c.tids;
    assert HolderOk(s, key, v, h) && HolderOk(s, key, end, h);
  }

  lemma AttemptRegistry(s: State, s': State, tid: uint64, v: uint64, end: uint64)
    requires Inv(s) && RegistryInv(s) && AttemptReadStep(s, s', tid, v, end)
    ensures RegistryInv(s')
  {
    var x, p := s.txns[tid], s.txns[tid].pending.value;
    assert TxnOk(s, tid);
    if !Frozen(s.sv.locks(p.key, v)) {
      BlockedAtPoint(s, s', tid, v, end);
    }
    forall other, k: uint64, t: uint64 ensures RegisteredAbove(s', other, k, t) {
      assert RegisteredAbove(s, other, k, t);
    }
  }

  /** The other steps register nobody, and what they ask for is new. */
  lemma OtherRegistry(s: State, s': State, a: Action, repaired: bool, other: uint64, k: uint64, t: uint64)
    requires Next(s, s', a, repaired) && !a.AttemptRead?
    requires RegisteredAbove(s, other, k, t) && s.sv.events(k, t) <= s.rids
    ensures RegisteredAbove(s', other, k, t) && s'.sv.events(k, t) <= s'.rids
  {
  }

  lemma RegistryStep(s: State, s': State, a: Action, repaired: bool)
    requires Inv(s) && RegistryInv(s) && Next(s, s', a, repaired)
    ensures RegistryInv(s')
  {
    if a.AttemptRead? {
      AttemptRegistry(s, s', a.tid, a.v, a.end);
    } else {
      forall other, k: uint64, t: uint64 ensures RegisteredAbove(s', other, k, t) && s'.sv.events(k, t) <= s'.rids {
        assert RegisteredAbove(s, other, k, t) && s.sv.events(k, t) <= s.rids;
        OtherRegistry(s, s', a, repaired, other, k, t);
      }
    }
  }

  lemma {:induction false} RegistryRun(run: seq<State>, acts: seq<Action>, repaired: bool, i: nat)
    requires IsSafeRun(run, acts, repaired) && i < |run|
    ensures Inv(run[i]) && RegistryInv(run[i])
  {
    RunInv(run, acts, repaired, i);
    if i > 0 {
      RegistryRun(run, acts, repaired, i - 1);
      assert Next(run[i - 1], run[i - 1 + 1], acts[i - 1], repaired);
      RegistryStep(run[i - 1], run[i], acts[i - 1], repaired);
    }
  }

  /** Only requests that were sent are ever due to run. */
  lemma ReadyStep(s: State, s': State, a: Action, repaired: bool)
    requires RegistryInv(s) && s.ready <= s.rids && Next(s, s', a, repaired)
    ensures s'.ready <= s'.rids
  {
    if a.Finish? {
      forall rid | rid in a.woken ensures rid in s.rids {
        var k: uint64, t: uint64 :| rid in s.sv.events(k, t) && Wakes(s.sv.locks(k, t), a.tid, a.commit);
        assert s.sv.events(k, t) <= s.rids;
      }
    }
  }

  lemma ReadyAt(run: seq<State>, acts: seq<Action>, repaired: bool, i: nat)
    requires IsSafeRun(run, acts, repaired) && i < |acts| && run[i].ready <= run[i].rids
    ensures run[i + 1].ready <= run[i + 1].rids
  {
    RegistryRun(run, acts, repaired, i);
    StepAt(run, acts, repaired, i);
    ReadyStep(run[i], run[i + 1], acts[i], repaired);
  }

  lemma {:induction false} ReadyRun(run: seq<State>, acts: seq<Action>, repaired: bool, i: nat)
    requires IsSafeRun(run, acts, repaired) && i < |run|
    ensures run[i].ready <= run[i].rids
  {
    if i > 0 {
      ReadyRun(run, acts, repaired, i - 1);
      ReadyAt(run, acts, repaired, i - 1);
    }
  }

  // ----- one step

  /** An answered request is registered at a point that `tid` holds. */
  ghost predicate HoldsAnswered(s: State, tid: uint64, rid: uint64) {
    !Unanswered(s, rid) && exists k: uint64, t: uint64 :: rid in s.sv.events(k, t) && Holds(s.sv.locks(k, t), tid)
  }

  /**
   * Per step: with unlock as the source writes it, phase two of a safe step wakes an answered request
   * if and only if that request is registered at a point which the transaction holds.
   */
  lemma WakesAnsweredIff(s: State, s': State, tid: uint64, commit: bool, woken: set<uint64>, rid: uint64)
    requires FinishStep(s, s', tid, commit, woken, false) && Safe(s, Finish(tid, commit, woken), false)
    ensures rid in woken && !Unanswered(s, rid) <==> HoldsAnswered(s, tid, rid)
  {
    forall k: uint64, t: uint64 | Holds(s.sv.locks(k, t), tid)
      ensures Wakes(s.sv.locks(k, t), tid, commit)
    {
      assert !commit ==> SoleReaderCell(s.sv.locks(k, t), tid);
    }
    if HoldsAnswered(s, tid, rid) {
      var k: uint64, t: uint64 :| rid in s.sv.events(k, t) && Holds(s.sv.locks(k, t), tid);
      assert WokenBy(s.sv, tid, commit, rid);
    }
  }

  // ----- runs in which no abort wakes anybody

  /** Every registration is at a frozen write, or belongs to a read that waits right there. */
  ghost predicate FreshAt(s: State, rid: uint64, k: uint64, t: uint64) {
    rid in s.sv.events(k, t) ==>
      || s.sv.locks(k, t).status == FreezeWriteLock
      || (s.sv.locks(k, t).status == WriteLock && exists tid :: WaitsAt(s, tid, rid, k, t))
  }

  ghost predicate FreshInv(s: State) {
    forall rid, k: uint64, t: uint64 :: FreshAt(s, rid, k, t)
  }

  lemma WaitsOnce(s: State, rid: uint64, tid: uint64, k: uint64, t: uint64, tid': uint64, k': uint64, t': uint64)
    requires RidsInv(s) && WaitsAt(s, tid, rid, k, t) && WaitsAt(s, tid', rid, k', t')
    ensures k == k' && t == t'
  {
  }

  lemma FinishFresh(s: State, s': State, tid: uint64, commit: bool, woken: set<uint64>, repaired: bool,
                    rid: uint64, k: uint64, t: uint64)
    requires RidsInv(s) && FreshInv(s) && FinishStep(s, s', tid, commit, woken, repaired)
    requires !commit ==> woken == {}
    ensures FreshAt(s', rid, k, t)
  {
    assert FreshAt(s, rid, k, t);
    if rid in s.sv.events(k, t) && s.sv.locks(k, t).status == WriteLock {
      var h :| WaitsAt(s, h, rid, k, t);
      if Holds(s.sv.locks(k, t), tid) {
        assert WokenBy(s.sv, tid, commit, rid);
      } else {
        if WokenBy(s.sv, tid, commit, rid) {
          WokenWaits(s, tid, commit, rid, k, t, h);
        }
        assert tid != h || s'.txns[h].pending == s.txns[h].pending;
        assert WaitsAt(s', h, rid, k, t);
      }
    }
  }

  /** What wakes a waiting request is the end of the hold that it waits for. */
  lemma WokenWaits(s: State, tid: uint64, commit: bool, rid: uint64, k: uint64, t: uint64, h: uint64)
    requires RidsInv(s) && FreshInv(s) && WaitsAt(s, h, rid, k, t) && WokenBy(s.sv, tid, commit, rid)
    ensures Holds(s.sv.locks(k, t), tid)
  {
    var k': uint64, t': uint64 :| rid in s.sv.events(k', t') && Wakes(s.sv.locks(k', t'), tid, commit);
    assert FreshAt(s, rid, k', t');
    var h' :| WaitsAt(s, h', rid, k', t');
    WaitsOnce(s, rid, h, k, t, h', k', t');
  }

  lemma AttemptFresh(s: State, s': State, tid: uint64, v: uint64, end: uint64, rid: uint64, k: uint64, t: uint64)
    requires Inv(s) && FreshAt(s, rid, k, t) && AttemptReadStep(s, s', tid, v, end)
    ensures FreshAt(s', rid, k, t)
  {
    var p := s.txns[tid].pending.value;
    if !Frozen(s.sv.locks(p.key, v)) {
      BlockedAtPoint(s, s', tid, v, end);
    }
    if rid in s.sv.events(k, t) {
      if s.sv.locks(k, t).status == WriteLock {
        var h :| WaitsAt(s, h, rid, k, t);
        assert WaitsAt(s', h, rid, k, t);
      }
    } else if rid in s'.sv.events(k, t) {
      assert WaitsAt(s', tid, rid, k, t);
    }
  }

  /** The other steps do not touch the lists, nor write locks, nor who waits. */
  lemma OtherStep(s: State, s': State, a: Action, repaired: bool, k: uint64, t: uint64)
    requires Next(s, s', a, repaired) && !a.AttemptRead? && !a.Finish?
    ensures s'.sv.events(k, t) == s.sv.events(k, t)
    ensures s.sv.locks(k, t).status in {WriteLock, FreezeWriteLock} ==>
            s'.sv.locks(k, t).status == s.sv.locks(k, t).status
  {
  }

  lemma OtherWaits(s: State, s': State, a: Action, repaired: bool, h: uint64, rid: uint64, k: uint64, t: uint64)
    requires Next(s, s', a, repaired) && !a.AttemptRead? && !a.Finish?
    requires h in s.txns && TxnOk(s, h) && rid in s.rids && WaitsAt(s, h, rid, k, t)
    ensures WaitsAt(s', h, rid, k, t)
  {
  }

  lemma OtherFresh(s: State, s': State, a: Action, repaired: bool, rid: uint64, k: uint64, t: uint64)
    requires Inv(s) && RegistryInv(s) && FreshAt(s, rid, k, t) && Next(s, s', a, repaired)
    requires !a.AttemptRead? && !a.Finish?
    ensures FreshAt(s', rid, k, t)
  {
    OtherStep(s, s', a, repaired, k, t);
    if rid in s.sv.events(k, t) && s.sv.locks(k, t).status == WriteLock {
      var h :| WaitsAt(s, h, rid, k, t);
      assert s.sv.events(k, t) <= s.rids;
      OtherWaits(s, s', a, repaired, h, rid, k, t);
    }
  }

  lemma FreshStep(s: State, s': State, a: Action, repaired: bool)
    requires Inv(s) && RegistryInv(s) && FreshInv(s) && Next(s, s', a, repaired)
    requires a.Finish? && !a.commit ==> a.woken == {}
    ensures FreshInv(s')
  {
    forall rid, k: uint64, t: uint64 ensures FreshAt(s', rid, k, t) {
      assert FreshAt(s, rid, k, t);
      if a.AttemptRead? {
        AttemptFresh(s, s', a.tid, a.v, a.end, rid, k, t);
      } else if a.Finish? {
        FinishFresh(s, s', a.tid, a.commit, a.woken, repaired, rid, k, t);
      } else {
        OtherFresh(s, s', a, repaired, rid, k, t);
      }
    }
  }

  lemma {:induction false} FreshRun(run: seq<State>, acts: seq<Action>, repaired: bool, i: nat)
    requires IsSafeRun(run, acts, repaired) && i < |run|
    requires forall m | 0 <= m < i && acts[m].Finish? && !acts[m].commit :: acts[m].woken == {}
    ensures FreshInv(run[i])
  {
    if i > 0 {
      FreshRun(run, acts, repaired, i - 1);
      RegistryRun(run, acts, repaired, i - 1);
      assert Next(run[i - 1], run[i - 1 + 1], acts[i - 1], repaired);
      FreshStep(run[i - 1], run[i], acts[i - 1], repaired);
    }
  }

  /** As long as no abort wakes anybody, every request that is woken is a read that waits. */
  lemma OnlyWaitingReadsAreWoken(run: seq<State>, acts: seq<Action>, repaired: bool, i: nat, rid: uint64)
    returns (tid: uint64)
    requires IsSafeRun(run, acts, repaired) && i < |acts| && acts[i].Finish? && rid in acts[i].woken
    requires forall m | 0 <= m <= i && acts[m].Finish? && !acts[m].commit :: acts[m].woken == {}
    ensures Pends(run[i], tid, rid) && rid !in run[i].ready
  {
    FreshRun(run, acts, repaired, i);
    assert Next(run[i], run[i + 1], acts[i], repaired);
    var s, h := run[i], acts[i].tid;
    assert WokenBy(s.sv, h, acts[i].commit, rid);
    var k: uint64, t: uint64 :| rid in s.sv.events(k, t) && Wakes(s.sv.locks(k, t), h, acts[i].commit);
    assert FreshAt(s, rid, k, t);
    tid :| WaitsAt(s, tid, rid, k, t);
  }

  // ----- a whole run, from the answer on

  /** Request `rid`, which was answered, is registered at (k, t) and its transaction reads that point. */
  ghost predicate ReadLockedAt(s: State, tid: uint64, rid: uint64, k: uint64, t: uint64) {
    && rid in s.sv.events(k, t)
    && s.sv.locks(k, t).status == ReadLock && tid in s.sv.locks(k, t).tids
  }

  /** A point stays read-locked by a transaction until a step wakes what is registered there. */
  lemma ReadLockedFinish(s: State, s': State, a: Action, repaired: bool, tid: uint64, rid: uint64, k: uint64, t: uint64)
    requires ReadLockedAt(s, tid, rid, k, t) && Safe(s, a, repaired)
    requires a.Finish? && FinishStep(s, s', a.tid, a.commit, a.woken, repaired)
    requires repaired ==> a.commit || a.tid != tid
    ensures ReadLockedAt(s', tid, rid, k, t) || rid in a.woken
  {
    assert !a.commit && !repaired ==> SoleReaderCell(s.sv.locks(k, t), a.tid);
    if Wakes(s.sv.locks(k, t), a.tid, a.commit) {
      assert WokenBy(s.sv, a.tid, a.commit, rid);
    }
  }

  lemma ReadLockedStep(s: State, s': State, a: Action, repaired: bool, tid: uint64, rid: uint64, k: uint64, t: uint64)
    requires ReadLockedAt(s, tid, rid, k, t) && Next(s, s', a, repaired) && Safe(s, a, repaired)
    requires repaired ==> !(a.Finish? && a.tid == tid && !a.commit)
    ensures ReadLockedAt(s', tid, rid, k, t) || (a.Finish? && rid in a.woken)
  {
    if a.Finish? {
      ReadLockedFinish(s, s', a, repaired, tid, rid, k, t);
    }
  }

  /** Steps from `i` on that wake `rid`. */
  ghost predicate WokenBetween(acts: seq<Action>, i: nat, j: nat, rid: uint64) {
    exists m :: i <= m < j && m < |acts| && acts[m].Finish? && rid in acts[m].woken
  }

  lemma ReadLockedNext(run: seq<State>, acts: seq<Action>, repaired: bool, i: nat,
                       tid: uint64, rid: uint64, k: uint64, t: uint64)
    requires IsSafeRun(run, acts, repaired) && i < |acts| && ReadLockedAt(run[i], tid, rid, k, t)
    requires repaired ==> !(acts[i].Finish? && acts[i].tid == tid && !acts[i].commit)
    ensures ReadLockedAt(run[i + 1], tid, rid, k, t) || (acts[i].Finish? && rid in acts[i].woken)
  {
    StepAt(run, acts, repaired, i);
    ReadLockedStep(run[i], run[i + 1], acts[i], repaired, tid, rid, k, t);
  }

  lemma {:induction false} ReadLockedRun(run: seq<State>, acts: seq<Action>, repaired: bool, i: nat, j: nat,
                                         tid: uint64, rid: uint64, k: uint64, t: uint64)
    requires IsSafeRun(run, acts, repaired) && i <= j < |run| && ReadLockedAt(run[i], tid, rid, k, t)
    requires repaired ==> forall m | i <= m < j :: !(acts[m].Finish? && acts[m].tid == tid && !acts[m].commit)
    ensures ReadLockedAt(run[j], tid, rid, k, t) || WokenBetween(acts, i, j, rid)
    decreases j - i
  {
    if i < j {
      ReadLockedNext(run, acts, repaired, i, tid, rid, k, t);
      if ReadLockedAt(run[i + 1], tid, rid, k, t) {
        ReadLockedRun(run, acts, repaired, i + 1, j, tid, rid, k, t);
        WokenEarlier(acts, i, j, rid);
      }
    }
  }

  lemma WokenEarlier(acts: seq<Action>, i: nat, j: nat, rid: uint64)
    ensures WokenBetween(acts, i + 1, j, rid) ==> WokenBetween(acts, i, j, rid)
  {
  }

  /** Step `i` answers the read of a transaction with the version at which it stopped. */
  ghost predicate Answers(s: State, a: Action) {
    && a.AttemptRead? && a.tid in s.txns && s.txns[a.tid].pending.Some?
    && Frozen(s.sv.locks(s.txns[a.tid].pending.value.key, a.v))
  }

  /**
   * A read was blocked at a point above the version `v` that answers it (whoever wrote there has aborted),
   * and nobody has frozen that point for reads so far.
   */
  ghost predicate PassedRegistration(s: State, key: uint64, v: uint64, rid: uint64) {
    exists t: uint64 :: v < t && rid in s.sv.events(key, t) && s.sv.locks(key, t).status != FreezeReadLock
  }

  /** What the answer leaves behind: the point is held by the reader, who is registered there itself. */
  lemma AnswerLeaves(s: State, s': State, a: Action, t: uint64)
    requires Inv(s) && RegistryInv(s) && Answers(s, a) && AttemptReadStep(s, s', a.tid, a.v, a.end)
    requires var p := s.txns[a.tid].pending.value;
             a.v < t && p.rid in s.sv.events(p.key, t) && s.sv.locks(p.key, t).status != FreezeReadLock
    ensures var p := s.txns[a.tid].pending.value; ReadLockedAt(s', a.tid, p.rid, p.key, t)
  {
    var x, p := s.txns[a.tid], s.txns[a.tid].pending.value;
    assert TxnOk(s, a.tid);
    assert RegisteredAbove(s, a.tid, p.key, t);
    AttemptGuards(s.sv.locks, s'.sv.locks, a.tid, x, a.v);
    assert Guarded(s'.sv.locks(p.key, t), a.tid, true);
  }

  /** A request that was answered: its number is used, and no list changes under it any more. */
  ghost predicate Settled(s: State, rid: uint64) {
    rid in s.rids && !Unanswered(s, rid)
  }

  lemma SettledStep(s: State, s': State, a: Action, repaired: bool, rid: uint64)
    requires Settled(s, rid) && Next(s, s', a, repaired)
    ensures Settled(s', rid)
    ensures forall k: uint64, t: uint64 :: rid in s'.sv.events(k, t) <==> rid in s.sv.events(k, t)
  {
    forall tid ensures !Pends(s', tid, rid) {
      assert !Pends(s, tid, rid);
    }
    if a.AttemptRead? {
      assert !Pends(s, a.tid, rid);
    }
  }

  lemma {:induction false} SettledRun(run: seq<State>, acts: seq<Action>, repaired: bool, i: nat, j: nat, rid: uint64)
    requires IsSafeRun(run, acts, repaired) && i <= j < |run| && Settled(run[i], rid)
    ensures Settled(run[j], rid)
    ensures forall k: uint64, t: uint64 :: rid in run[j].sv.events(k, t) <==> rid in run[i].sv.events(k, t)
  {
    if i < j {
      SettledRun(run, acts, repaired, i, j - 1, rid);
      assert Next(run[j - 1], run[j - 1 + 1], acts[j - 1], repaired);
      SettledStep(run[j - 1], run[j], acts[j - 1], repaired, rid);
    }
  }

  lemma AnswerSettles(s: State, s': State, a: Action)
    requires Inv(s) && Answers(s, a) && AttemptReadStep(s, s', a.tid, a.v, a.end)
    ensures Settled(s', s.txns[a.tid].pending.value.rid)
    ensures forall k: uint64, t: uint64 :: s'.sv.events(k, t) == s.sv.events(k, t)
  {
    var rid := s.txns[a.tid].pending.value.rid;
    forall tid ensures !Pends(s', tid, rid) {
    }
  }

  lemma AnswerAt(run: seq<State>, acts: seq<Action>, repaired: bool, i: nat)
    requires IsSafeRun(run, acts, repaired) && i < |acts| && Answers(run[i], acts[i])
    ensures Settled(run[i + 1], run[i].txns[acts[i].tid].pending.value.rid)
    ensures forall k: uint64, t: uint64 :: run[i + 1].sv.events(k, t) == run[i].sv.events(k, t)
    ensures BackwardStop(run[i].sv.locks, run[i].txns[acts[i].tid].pending.value.key,
                         run[i].txns[acts[i].tid].pending.value.cursor - 1, true, acts[i].v)
  {
    StepAt(run, acts, repaired, i);
    AnswerSettles(run[i], run[i + 1], acts[i]);
  }

  lemma WokenAtPoint(run: seq<State>, acts: seq<Action>, repaired: bool, m: nat, rid: uint64)
    returns (k: uint64, t: uint64)
    requires IsSafeRun(run, acts, repaired) && m < |acts| && acts[m].Finish? && rid in acts[m].woken
    ensures rid in run[m].sv.events(k, t) && Holds(run[m].sv.locks(k, t), acts[m].tid)
  {
    StepAt(run, acts, repaired, m);
    assert WokenBy(run[m].sv, acts[m].tid, acts[m].commit, rid);
    k, t :| rid in run[m].sv.events(k, t) && Wakes(run[m].sv.locks(k, t), acts[m].tid, acts[m].commit);
  }

  /** A later wake-up comes from a point above the version that was not frozen when the read was answered. */
  lemma WokenFromPassed(run: seq<State>, acts: seq<Action>, repaired: bool, i: nat, m: nat)
    requires IsSafeRun(run, acts, repaired) && i < m < |acts| && Answers(run[i], acts[i])
    requires acts[m].Finish? && run[i].txns[acts[i].tid].pending.value.rid in acts[m].woken
    ensures var p := run[i].txns[acts[i].tid].pending.value; PassedRegistration(run[i], p.key, acts[i].v, p.rid)
  {
    var a, p := acts[i], run[i].txns[acts[i].tid].pending.value;
    RegistryRun(run, acts, repaired, i);
    AnswerAt(run, acts, repaired, i);
    SettledRun(run, acts, repaired, i + 1, m, p.rid);
    var k, t := WokenAtPoint(run, acts, repaired, m, p.rid);
    assert RegisteredAbove(run[i], a.tid, k, t);
    if Frozen(run[i].sv.locks(k, t)) {
      FrozenForever(run, acts, repaired, i, m, k, t);
    }
  }

  /** Once its transaction is done, a read that passed a registration of its own was woken again. */
  lemma PassedIsWoken(run: seq<State>, acts: seq<Action>, repaired: bool, i: nat, j: nat)
    requires IsSafeRun(run, acts, repaired) && i < j < |run| && Answers(run[i], acts[i])
    requires acts[i].tid in run[j].txns
    requires run[j].txns[acts[i].tid].phase.Committed? || (run[j].txns[acts[i].tid].phase.Aborted? && !repaired)
    requires var p := run[i].txns[acts[i].tid].pending.value; PassedRegistration(run[i], p.key, acts[i].v, p.rid)
    ensures WokenBetween(acts, i + 1, j, run[i].txns[acts[i].tid].pending.value.rid)
  {
    var a, p := acts[i], run[i].txns[acts[i].tid].pending.value;
    RegistryRun(run, acts, repaired, i);
    assert Next(run[i], run[i + 1], a, repaired);
    var t: uint64 :| a.v < t && p.rid in run[i].sv.events(p.key, t)
        && run[i].sv.locks(p.key, t).status != FreezeReadLock;
    AnswerLeaves(run[i], run[i + 1], a, t);
    if repaired {
      CommittedNeverAborts(run, acts, repaired, i + 1, j, a.tid);
    }
    ReadLockedRun(run, acts, repaired, i + 1, j, a.tid, p.rid, p.key, t);
    RunInv(run, acts, repaired, j);
    assert HolderOk(run[j], p.key, t, a.tid);
  }

  lemma AbortsAt(run: seq<State>, acts: seq<Action>, repaired: bool, i: nat)
    requires IsSafeRun(run, acts, repaired) && i < |acts| && acts[i].Finish? && !acts[i].commit
    ensures acts[i].tid in run[i + 1].txns && run[i + 1].txns[acts[i].tid].phase.Aborted?
  {
    StepAt(run, acts, repaired, i);
  }

  lemma CommittedNeverAborts(run: seq<State>, acts: seq<Action>, repaired: bool, i: nat, j: nat, tid: uint64)
    requires IsSafeRun(run, acts, repaired) && i <= j < |run| && tid in run[j].txns && run[j].txns[tid].phase.Committed?
    ensures forall m | i <= m < j :: !(acts[m].Finish? && acts[m].tid == tid && !acts[m].commit)
  {
    forall m | i <= m < j ensures !(acts[m].Finish? && acts[m].tid == tid && !acts[m].commit) {
      if acts[m].Finish? && acts[m].tid == tid && !acts[m].commit {
        AbortsAt(run, acts, repaired, m);
        StaysAborted(run, acts, repaired, m + 1, j, tid);
      }
    }
  }

  lemma AbortedStep(s: State, s': State, a: Action, repaired: bool, tid: uint64)
    requires Next(s, s', a, repaired) && tid in s.txns && TxnOk(s, tid) && s.txns[tid].phase.Aborted?
    ensures tid in s'.txns && s'.txns[tid].phase.Aborted?
  {
  }

  lemma AbortedAt(run: seq<State>, acts: seq<Action>, repaired: bool, i: nat, tid: uint64)
    requires IsSafeRun(run, acts, repaired) && i < |acts| && tid in run[i].txns && run[i].txns[tid].phase.Aborted?
    ensures tid in run[i + 1].txns && run[i + 1].txns[tid].phase.Aborted?
  {
    StepAt(run, acts, repaired, i);
    AbortedStep(run[i], run[i + 1], acts[i], repaired, tid);
  }

  lemma {:induction false} StaysAborted(run: seq<State>, acts: seq<Action>, repaired: bool, i: nat, j: nat, tid: uint64)
    requires IsSafeRun(run, acts, repaired) && i <= j < |run| && tid in run[i].txns && run[i].txns[tid].phase.Aborted?
    ensures tid in run[j].txns && run[j].txns[tid].phase.Aborted?
  {
    if i < j {
      StaysAborted(run, acts, repaired, i, j - 1, tid);
      AbortedAt(run, acts, repaired, j - 1, tid);
    }
  }

  /**
   * Over whole runs: a read is run again after it was answered, before its transaction is done, if and
   * only if it is answered below a point at which it was blocked and which nobody has frozen yet.
   */
  lemma AnsweredReadRunsAgainIff(run: seq<State>, acts: seq<Action>, repaired: bool, i: nat, j: nat)
    requires IsSafeRun(run, acts, repaired) && i < j < |run| && Answers(run[i], acts[i])
    requires acts[i].tid in run[j].txns
    requires run[j].txns[acts[i].tid].phase.Committed? || (run[j].txns[acts[i].tid].phase.Aborted? && !repaired)
    ensures var p := run[i].txns[acts[i].tid].pending.value;
            WokenBetween(acts, i + 1, j, p.rid) <==> PassedRegistration(run[i], p.key, acts[i].v, p.rid)
  {
    var p := run[i].txns[acts[i].tid].pending.value;
    if WokenBetween(acts, i + 1, j, p.rid) {
      var m :| i + 1 <= m < j && m < |acts| && acts[m].Finish? && p.rid in acts[m].woken;
      WokenFromPassed(run, acts, repaired, i, m);
    } else if PassedRegistration(run[i], p.key, acts[i].v, p.rid) {
      PassedIsWoken(run, acts, repaired, i, j);
    }
  }
}
