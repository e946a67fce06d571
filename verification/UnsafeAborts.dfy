/**
 * With unlock as the source writes it, an abort that shares a read lock gives up more than the model's
 * invariant: whatever state it happens in, a new transaction can then commit a version under the read of
 * a transaction that still relies on the lock.
 */
module UnsafeAborts {
  import opened LockTypes
  import opened VersionStore
  import opened SerialReplay
  import opened ServerSpec
  import opened Protocol
  import opened ProtocolInvariant
  import opened ProtocolCommit
  import opened RunProperties
  import opened WakeUps
  import opened Progress

  /** What is at (k, t) matters to what a transaction has read, or is about to read. */
  predicate ReadsAcross(x: Txn, k: uint64, t: uint64) {
    || (k in x.seen && x.seen[k] < t < x.start)
    || (x.pending.Some? && x.pending.value.key == k && x.pending.value.cursor <= t < x.start)
  }

  /** Whoever read-locks a point has read across it, or is about to. */
  ghost predicate ReaderOk(s: State, k: uint64, t: uint64, h: uint64) {
    s.sv.locks(k, t).status == ReadLock && h in s.sv.locks(k, t).tids ==> h in s.txns && ReadsAcross(s.txns[h], k, t)
  }

  ghost predicate ReadersInv(s: State) {
    forall k: uint64, t: uint64, h: uint64 :: ReaderOk(s, k, t, h)
  }

  lemma AttemptReaders(s: State, s': State, tid: uint64, v: uint64, end: uint64, k: uint64, t: uint64, h: uint64)
    requires Inv(s) && ReaderOk(s, k, t, h) && AttemptReadStep(s, s', tid, v, end)
    ensures ReaderOk(s', k, t, h)
  {
    var x, p := s.txns[tid], s.txns[tid].pending.value;
    assert TxnOk(s, tid);
    assert CellOk(s.sv.locks(k, t));
    if Frozen(s.sv.locks(p.key, v)) && p.key in x.seen {
      RepeatedRead(s.sv.locks, tid, x, v);
    }
  }

  lemma OtherReaders(s: State, s': State, a: Action, repaired: bool, k: uint64, t: uint64, h: uint64)
    requires Inv(s) && ReaderOk(s, k, t, h) && Next(s, s', a, repaired) && !a.AttemptRead? && !a.Finish?
    ensures ReaderOk(s', k, t, h)
  {
    assert HolderOk(s, k, t, h) && CellOk(s.sv.locks(k, t));
  }

  lemma FinishReaders(s: State, s': State, tid: uint64, commit: bool, woken: set<uint64>, repaired: bool,
                      k: uint64, t: uint64, h: uint64)
    requires ReaderOk(s, k, t, h) && FinishStep(s, s', tid, commit, woken, repaired)
    ensures ReaderOk(s', k, t, h)
  {
  }

  lemma ReadersStep(s: State, s': State, a: Action, repaired: bool)
    requires Inv(s) && ReadersInv(s) && Next(s, s', a, repaired)
    ensures ReadersInv(s')
  {
    forall k: uint64, t: uint64, h: uint64 ensures ReaderOk(s', k, t, h) {
      assert ReaderOk(s, k, t, h);
      if a.AttemptRead? {
        AttemptReaders(s, s', a.tid, a.v, a.end, k, t, h);
      } else if a.Finish? {
        FinishReaders(s, s', a.tid, a.commit, a.woken, repaired, k, t, h);
      } else {
        OtherReaders(s, s', a, repaired, k, t, h);
      }
    }
  }

  lemma ReadersAt(run: seq<State>, acts: seq<Action>, repaired: bool, i: nat)
    requires IsSafeRun(run, acts, repaired) && i < |acts| && ReadersInv(run[i])
    ensures ReadersInv(run[i + 1])
  {
    StepAt(run, acts, repaired, i);
    ReadersStep(run[i], run[i + 1], acts[i], repaired);
  }

  lemma {:induction false} ReadersRun(run: seq<State>, acts: seq<Action>, repaired: bool, i: nat)
    requires IsSafeRun(run, acts, repaired) && i < |run|
    ensures ReadersInv(run[i])
  {
    if i > 0 {
      ReadersRun(run, acts, repaired, i - 1);
      ReadersAt(run, acts, repaired, i - 1);
    }
  }

  // ----- the steps of a transaction that writes one key

  lemma BeginCanStep(s: State, w: uint64, ts: uint64) returns (s': State)
    requires w !in s.txns && 1 <= ts
    ensures Next(s, s', Begin(w, ts), false) && s'.sv == s.sv
    ensures s'.txns == s.txns[w := Txn(ts, Active, [], None, map[])] && s'.rids == s.rids
  {
    s' := s.(txns := s.txns[w := Txn(ts, Active, [], None, map[])]);
  }

  lemma WriteCanStep(s: State, w: uint64, key: uint64, value: Value) returns (s': State)
    requires w in s.txns && Idle(s, w) && s.txns[w].log == [] && PendOf(s.sv, w) == []
    ensures Next(s, s', BufferWrite(w, key, value), false)
    ensures s'.sv == s.sv.(pend := s.sv.pend[w := [Write(key, value)]]) && s'.rids == s.rids
    ensures s'.txns == s.txns[w := s.txns[w].(log := [WriteOp(key, value)])]
  {
    assert [] + [Write(key, value)] == [Write(key, value)] && [] + [WriteOp(key, value)] == [WriteOp(key, value)];
    s' := s.(sv := s.sv.(pend := s.sv.pend[w := [Write(key, value)]]),
             txns := s.txns[w := s.txns[w].(log := [WriteOp(key, value)])]);
    assert BufferWriteStep(s, s', w, key, value);
  }

  lemma OneWrite(key: uint64, value: Value)
    ensures Writes([WriteOp(key, value)]) == [Write(key, value)]
    ensures forall k: uint64 :: Wrote([Write(key, value)], k) <==> k == key
    ensures [Write(key, value)][..1] == [Write(key, value)] && LastValue([Write(key, value)], key) == value
  {
    WritesSnoc([], WriteOp(key, value));
    assert [] + [WriteOp(key, value)] == [WriteOp(key, value)];
    assert [Write(key, value)][0] == Write(key, value);
  }

  ghost function WriteLocked(m: Locks, key: uint64, ts: uint64, w: uint64): Locks {
    (k: uint64, t: uint64) => if k == key && t == ts then LockCell(m(k, t), w, false) else m(k, t)
  }

  lemma PrepareCanStep(s: State, w: uint64, key: uint64, value: Value) returns (s': State)
    requires w in s.txns && Idle(s, w) && s.txns[w].log == [WriteOp(key, value)]
             && PendOf(s.sv, w) == [Write(key, value)]
    requires s.sv.locks(key, s.txns[w].start).status == Free
    ensures Next(s, s', Prepare(w, 1, true), false)
    ensures s'.txns == s.txns[w := s.txns[w].(phase := Prepared(true))] && s'.rids == s.rids
    ensures PendOf(s'.sv, w) == [Write(key, value)] && w in s'.sv.rdy && s'.sv.rdy[w] == s.txns[w].start
    ensures s'.sv.events == s.sv.events
  {
    OneWrite(key, value);
    var ts := s.txns[w].start;
    s' := s.(sv := s.sv.(locks := WriteLocked(s.sv.locks, key, ts, w), rdy := s.sv.rdy[w := ts]),
             txns := s.txns[w := s.txns[w].(phase := Prepared(true))]);
    assert RunPrepare(s.sv, s'.sv, w, ts, 1, true);
    assert PrepareStep(s, s', w, 1, true);
  }

  lemma CommitCanStep(s: State, w: uint64, key: uint64, value: Value) returns (s': State, woken: set<uint64>)
    requires w in s.txns && s.txns[w].phase == Prepared(true) && PendOf(s.sv, w) == [Write(key, value)]
    requires w in s.sv.rdy && s.sv.rdy[w] == s.txns[w].start
    requires forall k: uint64, t: uint64 :: s.sv.events(k, t) <= s.rids
    ensures Next(s, s', Finish(w, true, woken), false)
    ensures s'.txns == s.txns[w := s.txns[w].(phase := Committed)]
    ensures Lookup(s'.sv.store, key, s.txns[w].start) == Some(value)
  {
    woken := WokenRequests(s, w, true);
    OneWrite(key, value);
    SetAllLookup(s.sv.store, s.txns[w].start, [Write(key, value)], key, s.txns[w].start);
    s' := FinishTo(s, w, true, false, woken);
  }

  // ----- the theorem

  /**
   * Abort `tid` while another transaction reads a point with it. In three safe steps and a commit, a new
   * transaction that starts at this point stores a version there, strictly between what the reader saw, or
   * got to so far, and the reader's timestamp.
   */
  lemma UnsafeAbortLetsVersionSlip(run: seq<State>, acts: seq<Action>, i: nat, s0: State, tid: uint64,
                                   woken0: set<uint64>,
                                   k: uint64, t: uint64, h: uint64, w: uint64, value: Value)
    returns (s1: State, s2: State, s3: State, s4: State, woken: set<uint64>)
    requires IsSafeRun(run, acts, false) && i < |run|
    requires FinishStep(run[i], s0, tid, false, woken0, false)
    requires var c := run[i].sv.locks(k, t); c.status == ReadLock && tid in c.tids && h in c.tids && h != tid
    requires w !in run[i].txns
    ensures Next(s0, s1, Begin(w, t), false) && Next(s1, s2, BufferWrite(w, k, value), false)
    ensures Next(s2, s3, Prepare(w, 1, true), false) && Next(s3, s4, Finish(w, true, woken), false)
    ensures Lookup(s4.sv.store, k, t) == Some(value)
    ensures h in s4.txns && Live(s4.txns[h].phase) && ReadsAcross(s4.txns[h], k, t)
  {
    var s := run[i];
    RegistryRun(run, acts, false, i);
    ReadersRun(run, acts, false, i);
    assert HolderOk(s, k, t, h) && ReaderOk(s, k, t, h);
    assert s.sv.locks(k, 0) == SENTINEL_CELL;
    AbortFrees(s, s0, tid, woken0, k, t, w);
    s1 := BeginCanStep(s0, w, t);
    s2 := WriteCanStep(s1, w, k, value);
    s3 := PrepareCanStep(s2, w, k, value);
    s4, woken := CommitCanStep(s3, w, k, value);
  }

  /** The point is free after the abort, although its other holders are still recorded. */
  lemma AbortFrees(s: State, s0: State, tid: uint64, woken: set<uint64>, k: uint64, t: uint64, w: uint64)
    requires Inv(s) && RegistryInv(s) && FinishStep(s, s0, tid, false, woken, false) && w !in s.txns
    requires s.sv.locks(k, t).status == ReadLock && tid in s.sv.locks(k, t).tids
    ensures s0.sv.locks(k, t).status == Free && w !in s0.txns && PendOf(s0.sv, w) == []
    ensures forall k: uint64, t: uint64 :: s0.sv.events(k, t) <= s0.rids
    ensures forall h | h in s.txns && h != tid :: h in s0.txns && s0.txns[h] == s.txns[h]
  {
    forall k: uint64, t: uint64 ensures s0.sv.events(k, t) <= s0.rids {
      assert s.sv.events(k, t) <= s.rids;
    }
  }
}
