/**
 * Properties of whole runs beside serializability: what never changes once it happened, and what
 * every reachable state guarantees to readers, writers and waiting requests.
 */
module RunProperties {
  import opened LockTypes
  import opened VersionStore
  import opened SerialReplay
  import opened ServerSpec
  import opened Protocol
  import opened ProtocolInvariant
  import opened ProtocolCommit
  import opened Serializability

  // ----- what never changes

  lemma FrozenStep(s: State, s': State, a: Action, repaired: bool)
    requires Next(s, s', a, repaired)
    ensures forall k: uint64, t: uint64 | Frozen(s.sv.locks(k, t)) :: s'.sv.locks(k, t) == s.sv.locks(k, t)
  {
  }

  /** Once a point is frozen it keeps its status, in every run, safe or not, under either unlock rule. */
  lemma {:induction false} FrozenForever(run: seq<State>, acts: seq<Action>, repaired: bool, i: nat, j: nat,
                                         k: uint64, t: uint64)
    requires IsRun(run, acts, repaired) && i <= j < |run| && Frozen(run[i].sv.locks(k, t))
    ensures run[j].sv.locks(k, t) == run[i].sv.locks(k, t)
  {
    if i < j {
      FrozenForever(run, acts, repaired, i, j - 1, k, t);
      assert Next(run[j - 1], run[j - 1 + 1], acts[j - 1], repaired);
      FrozenStep(run[j - 1], run[j], acts[j - 1], repaired);
    }
  }

  /** The invariant and the step at one position of a safe run. */
  lemma StepAt(run: seq<State>, acts: seq<Action>, repaired: bool, i: nat)
    requires IsSafeRun(run, acts, repaired) && i < |acts|
    ensures Inv(run[i]) && Next(run[i], run[i + 1], acts[i], repaired) && Safe(run[i], acts[i], repaired)
  {
    RunInv(run, acts, repaired, i);
  }

  lemma StoredStep(s: State, s': State, a: Action, repaired: bool)
    requires Inv(s) && Next(s, s', a, repaired)
    ensures forall k: uint64, t: uint64 | HasVersion(s.sv.store, k, t) ::
              Lookup(s'.sv.store, k, t) == Lookup(s.sv.store, k, t)
  {
    if a.Finish? {
      assert TxnOk(s, a.tid);
      FinishStoreGrows(s, s', a.tid, a.commit, a.woken, repaired);
    }
  }

  lemma StoredAt(run: seq<State>, acts: seq<Action>, repaired: bool, i: nat, k: uint64, t: uint64)
    requires IsSafeRun(run, acts, repaired) && i < |acts| && HasVersion(run[i].sv.store, k, t)
    ensures Lookup(run[i + 1].sv.store, k, t) == Lookup(run[i].sv.store, k, t)
  {
    StepAt(run, acts, repaired, i);
    StoredStep(run[i], run[i + 1], acts[i], repaired);
  }

  /** A stored version is never overwritten or removed. */
  lemma {:induction false} StoredForever(run: seq<State>, acts: seq<Action>, repaired: bool, i: nat, j: nat,
                                         k: uint64, t: uint64)
    requires IsSafeRun(run, acts, repaired) && i <= j < |run| && HasVersion(run[i].sv.store, k, t)
    ensures Lookup(run[j].sv.store, k, t) == Lookup(run[i].sv.store, k, t)
  {
    if i < j {
      StoredForever(run, acts, repaired, i, j - 1, k, t);
      StoredAt(run, acts, repaired, j - 1, k, t);
    }
  }

  /** A transaction keeps its timestamp and every version it has seen. */
  ghost predicate Remembers(s: State, s': State, tid: uint64) {
    tid in s.txns ==>
      && tid in s'.txns && s'.txns[tid].start == s.txns[tid].start
      && forall k | k in s.txns[tid].seen :: k in s'.txns[tid].seen && s'.txns[tid].seen[k] == s.txns[tid].seen[k]
  }

  lemma RemembersStep(s: State, s': State, a: Action, repaired: bool, tid: uint64)
    requires Next(s, s', a, repaired) && (tid in s.txns ==> TxnOk(s, tid))
    ensures Remembers(s, s', tid)
  {
    if a.AttemptRead? && a.tid == tid {
      var x := s.txns[tid];
      if x.pending.value.key in x.seen && Frozen(s.sv.locks(x.pending.value.key, a.v)) {
        RepeatedRead(s.sv.locks, tid, x, a.v);
      }
    }
  }

  lemma RemembersAt(run: seq<State>, acts: seq<Action>, repaired: bool, i: nat, tid: uint64)
    requires IsSafeRun(run, acts, repaired) && i < |acts|
    ensures Remembers(run[i], run[i + 1], tid)
  {
    StepAt(run, acts, repaired, i);
    RemembersStep(run[i], run[i + 1], acts[i], repaired, tid);
  }

  lemma RemembersTrans(s: State, s': State, s'': State, tid: uint64)
    requires Remembers(s, s', tid) && Remembers(s', s'', tid)
    ensures Remembers(s, s'', tid)
  {
  }

  lemma {:induction false} RemembersRun(run: seq<State>, acts: seq<Action>, repaired: bool, i: nat, j: nat, tid: uint64)
    requires IsSafeRun(run, acts, repaired) && i <= j < |run|
    ensures Remembers(run[i], run[j], tid)
    decreases j - i
  {
    if i < j {
      RemembersAt(run, acts, repaired, i, tid);
      RemembersRun(run, acts, repaired, i + 1, j, tid);
      RemembersTrans(run[i], run[i + 1], run[j], tid);
    }
  }

  // ----- readers

  /**
   * No version slips under a read. Once a transaction saw version `v` of a key, in every later
   * state in which it has not aborted there is neither a version nor a write lock strictly
   * between `v` and its timestamp.
   */
  lemma NoVersionSlips(run: seq<State>, acts: seq<Action>, repaired: bool, i: nat, j: nat, tid: uint64, k: uint64,
                       t: uint64)
    requires IsSafeRun(run, acts, repaired) && i <= j < |run|
    requires tid in run[i].txns && k in run[i].txns[tid].seen
    requires run[i].txns[tid].seen[k] < t < run[i].txns[tid].start
    requires tid in run[j].txns ==> run[j].txns[tid].phase != Aborted
    ensures !HasVersion(run[j].sv.store, k, t) && run[j].sv.locks(k, t).status != WriteLock
  {
    RemembersRun(run, acts, repaired, i, j, tid);
    RunInv(run, acts, repaired, j);
    assert TxnOk(run[j], tid);
    assert Guarded(run[j].sv.locks(k, t), tid, Live(run[j].txns[tid].phase));
  }

  /** A read that reaches a frozen write finds the version there: the lookup never fails. */
  lemma ReadFindsVersion(run: seq<State>, acts: seq<Action>, repaired: bool, i: nat, sv': Server,
                         tid: uint64, key: uint64, ts: uint64, rid: uint64, v: uint64, end: uint64)
    requires IsSafeRun(run, acts, repaired) && i < |run|
    requires RunRead(run[i].sv, sv', tid, key, ts, rid, v, end) && Frozen(run[i].sv.locks(key, v))
    ensures Get(run[i].sv.store, key, v).Some?
  {
    RunInv(run, acts, repaired, i);
    assert HasVersion(run[i].sv.store, key, v) <==> v > 0;
  }

  /**
   * However often it was blocked and moved back, a read is answered with the newest version below
   * its transaction's own timestamp, and with the same version each time.
   */
  lemma AnswerIsNewest(run: seq<State>, acts: seq<Action>, repaired: bool, i: nat)
    requires IsSafeRun(run, acts, repaired) && i < |acts| && acts[i].AttemptRead?
    ensures var s, a := run[i], acts[i];
            a.tid in s.txns && s.txns[a.tid].pending.Some? &&
            var x := s.txns[a.tid]; var key := x.pending.value.key;
            Frozen(s.sv.locks(key, a.v)) ==>
              && NewestBelow(s.sv.store, key, a.v, x.start)
              && NewestBelow(run[i + 1].sv.store, key, a.v, x.start)
              && (key in x.seen ==> a.v == x.seen[key])
  {
    var s, a := run[i], acts[i];
    StepAt(run, acts, repaired, i);
    var x := s.txns[a.tid];
    var p := x.pending.value;
    assert TxnOk(s, a.tid);
    AttemptClear(s.sv.locks, a.tid, x, a.v);
    if Frozen(s.sv.locks(p.key, a.v)) {
      assert HasVersion(s.sv.store, p.key, a.v) <==> a.v > 0;
      forall t: uint64 | a.v < t < x.start ensures !HasVersion(s.sv.store, p.key, t) {
        assert !Stops(s.sv.locks(p.key, t), true);
      }
      if p.key in x.seen {
        RepeatedRead(s.sv.locks, a.tid, x, a.v);
      }
    }
  }

  /**
   * Across blocked attempts a pending read keeps everything from its cursor to its timestamp
   * read-locked by itself or frozen for reads.
   */
  lemma BlockedReadKeepsItsGround(run: seq<State>, acts: seq<Action>, repaired: bool, i: nat, tid: uint64, t: uint64)
    requires IsSafeRun(run, acts, repaired) && i < |run|
    requires tid in run[i].txns && run[i].txns[tid].pending.Some?
    requires run[i].txns[tid].pending.value.cursor <= t < run[i].txns[tid].start
    ensures var c := run[i].sv.locks(run[i].txns[tid].pending.value.key, t);
            c.status == FreezeReadLock || (c.status == ReadLock && tid in c.tids)
  {
    RunInv(run, acts, repaired, i);
    assert TxnOk(run[i], tid);
    assert Guarded(run[i].sv.locks(run[i].txns[tid].pending.value.key, t), tid, true);
  }

  /** What a log says of its j-th entry. */
  lemma {:induction false} LogOkUpTo(store: Store, log: seq<Op>, seen: map<uint64, uint64>, j: nat)
    requires LogOk(store, log, seen) && j <= |log|
    ensures LogOk(store, log[..j], seen)
  {
    if j < |log| {
      LogOkUpTo(store, log[..|log| - 1], seen, j);
      assert log[..|log| - 1][..j] == log[..j];
    } else {
      assert log[..j] == log;
    }
  }

  /** A read of a key that no committed transaction below it wrote, nor the reader itself, returned "0". */
  lemma UnwrittenReadsZero(run: seq<State>, acts: seq<Action>, repaired: bool, i: nat, tid: uint64, j: nat)
    requires IsSafeRun(run, acts, repaired) && i < |run|
    requires tid in run[i].txns && !run[i].txns[tid].phase.Aborted?
    requires j < |run[i].txns[tid].log| && run[i].txns[tid].log[j].ReadOp?
    requires !Wrote(Writes(run[i].txns[tid].log[..j]), run[i].txns[tid].log[j].key)
    requires forall w | w in run[i].txns && run[i].txns[w].phase.Committed?
                        && run[i].txns[w].start < run[i].txns[tid].start ::
               !Wrote(Writes(run[i].txns[w].log), run[i].txns[tid].log[j].key)
    ensures run[i].txns[tid].log[j].value == "0"
  {
    RunInv(run, acts, repaired, i);
    var s, x := run[i], run[i].txns[tid];
    var k, upTo := x.log[j].key, x.log[..j + 1];
    assert TxnOk(s, tid);
    LogOkUpTo(s.sv.store, x.log, x.seen, j + 1);
    assert upTo[..|upTo| - 1] == x.log[..j];
    var v := x.seen[k];
    assert HasVersion(s.sv.store, k, v) <==> v > 0;
    assert forall w :: !CommittedWriter(s.txns, w, k, v);
    assert !HasVersion(s.sv.store, k, v);
  }

  // ----- holders

  /** No two transactions hold conflicting modes at one point, and only live ones hold anything. */
  lemma NoConflictingHolders(run: seq<State>, acts: seq<Action>, repaired: bool, i: nat,
                             k: uint64, t: uint64, a: uint64, b: uint64)
    requires IsSafeRun(run, acts, repaired) && i < |run|
    requires a in run[i].sv.locks(k, t).tids && b in run[i].sv.locks(k, t).tids && a != b
    ensures run[i].sv.locks(k, t).status == ReadLock
    ensures a in run[i].txns && Live(run[i].txns[a].phase) && b in run[i].txns && Live(run[i].txns[b].phase)
  {
    RunInv(run, acts, repaired, i);
    assert HolderOk(run[i], k, t, a) && HolderOk(run[i], k, t, b);
    assert CellOk(run[i].sv.locks(k, t));
  }

  /** Between steps the frozen writes above time 0 are exactly the stored versions. */
  lemma LocksAndStoreAgree(run: seq<State>, acts: seq<Action>, repaired: bool, i: nat, k: uint64, t: uint64)
    requires IsSafeRun(run, acts, repaired) && i < |run|
    ensures HasVersion(run[i].sv.store, k, t) <==> t > 0 && run[i].sv.locks(k, t).status == FreezeWriteLock
  {
    RunInv(run, acts, repaired, i);
  }

  // ----- waiting requests

  /** A read that waits does so behind the write lock of one transaction, which has voted. */
  lemma WaitsForVoter(s: State, tid: uint64) returns (h: uint64)
    requires Inv(s) && tid in s.txns && s.txns[tid].pending.Some? && s.txns[tid].pending.value.rid !in s.ready
    ensures var p := s.txns[tid].pending.value;
            && p.cursor >= 1 && s.sv.locks(p.key, p.cursor - 1) == Cell(WriteLock, {h})
            && p.rid in s.sv.events(p.key, p.end) && s.sv.locks(p.key, p.end) == Cell(WriteLock, {h})
            && h in s.txns && s.txns[h].phase.Prepared? && s.txns[h].start == p.cursor - 1
  {
    var p := s.txns[tid].pending.value;
    assert TxnOk(s, tid);
    var c := s.sv.locks(p.key, p.cursor - 1);
    assert CellOk(c);
    h :| h in c.tids;
    assert c.tids == {h};
    assert HolderOk(s, p.key, p.cursor - 1, h);
  }

  /** Finishing that transaction wakes the read. */
  lemma VoterWakes(s: State, s': State, h: uint64, commit: bool, woken: set<uint64>, repaired: bool, tid: uint64)
    requires FinishStep(s, s', h, commit, woken, repaired) && tid in s.txns && s.txns[tid].pending.Some?
    requires var p := s.txns[tid].pending.value;
             p.rid in s.sv.events(p.key, p.end) && s.sv.locks(p.key, p.end) == Cell(WriteLock, {h})
    ensures s.txns[tid].pending.value.rid in s'.ready
  {
    var p := s.txns[tid].pending.value;
    assert Wakes(s.sv.locks(p.key, p.end), h, commit);
    assert WokenBy(s.sv, h, commit, p.rid);
  }

  /**
   * No lost wake-up. A read that is neither answered nor due to run waits behind a write lock of
   * a live transaction that has voted, and the step that finishes that transaction, either way,
   * makes the read due to run.
   */
  lemma NoLostWakeUp(run: seq<State>, acts: seq<Action>, repaired: bool, i: nat, tid: uint64) returns (h: uint64)
    requires IsSafeRun(run, acts, repaired) && i < |run|
    requires tid in run[i].txns && run[i].txns[tid].pending.Some? && run[i].txns[tid].pending.value.rid !in run[i].ready
    ensures var p := run[i].txns[tid].pending.value;
            && p.cursor >= 1 && run[i].sv.locks(p.key, p.cursor - 1) == Cell(WriteLock, {h})
            && h in run[i].txns && run[i].txns[h].phase.Prepared? && run[i].txns[h].start == p.cursor - 1
            && (i < |acts| && acts[i].Finish? && acts[i].tid == h ==> p.rid in run[i + 1].ready)
  {
    RunInv(run, acts, repaired, i);
    h := WaitsForVoter(run[i], tid);
    if i < |acts| && acts[i].Finish? && acts[i].tid == h {
      StepAt(run, acts, repaired, i);
      VoterWakes(run[i], run[i + 1], h, acts[i].commit, acts[i].woken, repaired, tid);
    }
  }

  // ----- atomicity

  /**
   * Phase two is atomic: a commit makes every buffered write visible at the transaction's one
   * timestamp and touches no other version, an abort leaves the store as it was.
   */
  lemma FinishIsAtomic(run: seq<State>, acts: seq<Action>, repaired: bool, i: nat, k: uint64, t: uint64)
    requires IsSafeRun(run, acts, repaired) && i < |acts| && acts[i].Finish?
    ensures acts[i].tid in run[i].txns
    ensures var x := run[i].txns[acts[i].tid];
            Lookup(run[i + 1].sv.store, k, t) ==
            if acts[i].commit && t == x.start && Wrote(Writes(x.log), k) then Some(LastValue(Writes(x.log), k))
            else Lookup(run[i].sv.store, k, t)
  {
    StepAt(run, acts, repaired, i);
    assert TxnOk(run[i], acts[i].tid);
    FinishStore(run[i], run[i + 1], acts[i].tid, acts[i].commit, acts[i].woken, repaired);
  }

  /** A transaction that voted yes holds a write lock at its timestamp on every key it wrote. */
  lemma YesVoteHoldsItsKeys(run: seq<State>, acts: seq<Action>, repaired: bool, i: nat, tid: uint64, k: uint64)
    requires IsSafeRun(run, acts, repaired) && i < |run|
    requires tid in run[i].txns && run[i].txns[tid].phase == Prepared(true) && Wrote(Writes(run[i].txns[tid].log), k)
    ensures run[i].sv.locks(k, run[i].txns[tid].start) == Cell(WriteLock, {tid})
  {
    RunInv(run, acts, repaired, i);
    assert TxnOk(run[i], tid);
  }

  /** Two transactions never commit the same key at the same timestamp, even when their timestamps tie. */
  lemma OneCommitPerVersion(run: seq<State>, acts: seq<Action>, repaired: bool, i: nat,
                            w: uint64, w': uint64, k: uint64, t: uint64)
    requires IsSafeRun(run, acts, repaired) && i < |run|
    requires CommittedWriter(run[i].txns, w, k, t) && CommittedWriter(run[i].txns, w', k, t)
    ensures w == w'
    ensures Lookup(run[i].sv.store, k, t) == Some(LastValue(Writes(run[i].txns[w].log), k))
  {
    RunInv(run, acts, repaired, i);
  }

  /**
   * For the unlock rule as the source writes it, aborting keeps the invariant exactly when the
   * aborting transaction shares none of its read locks.
   */
  lemma AbortKeepsInvariantIff(s: State, s': State, tid: uint64, woken: set<uint64>)
    requires Inv(s) && FinishStep(s, s', tid, false, woken, false)
    ensures Inv(s') <==> SoleReader(s.sv.locks, tid)
  {
    if SoleReader(s.sv.locks, tid) {
      FinishInv(s, s', tid, false, woken, false);
    }
    UnlockKeepsLocksOkIff(s.sv.locks, s'.sv.locks, tid);
  }
}
