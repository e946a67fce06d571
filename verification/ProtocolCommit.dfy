/**
 * Two-phase commit keeps the protocol invariant: phase one for every vote, phase two for commits
 * always and for aborts under the condition Protocol.Safe.
 */
module ProtocolCommit {
  import opened LockTypes
  import opened VersionStore
  import opened SerialReplay
  import opened ServerSpec
  import opened Protocol
  import opened ProtocolInvariant

  // ----- phase one

  /** Phase one turns free points at `ts` into write locks of `tid`, and does nothing else. */
  ghost predicate OnlyWrites(m: Locks, m': Locks, tid: uint64, ts: uint64, ws: seq<Write>) {
    forall k: uint64, t: uint64 ::
      if t == ts && Wrote(ws, k) then m(k, t) == FREE_CELL && m'(k, t) == Cell(WriteLock, {tid})
      else m'(k, t) == m(k, t)
  }

  lemma PrepareOnlyWrites(m: Locks, m': Locks, tid: uint64, ts: uint64, ws: seq<Write>, n: nat)
    requires LocksOk(m) && ts >= 1
    requires PrepareStop(m, ws, ts, n) && PrepareLocked(m, m', tid, ts, ws[..n])
    ensures OnlyWrites(m, m', tid, ts, ws[..n])
  {
    forall k: uint64 | Wrote(ws[..n], k) ensures m(k, ts) == FREE_CELL {
      var i :| 0 <= i < n && ws[..n][i].key == k;
      assert CellOk(m(ws[i].key, ts));
    }
  }

  lemma OnlyWritesKeeps(m: Locks, m': Locks, tid: uint64, ts: uint64, ws: seq<Write>, other: uint64)
    requires LocksOk(m) && ts >= 1 && OnlyWrites(m, m', tid, ts, ws)
    ensures LocksOk(m') && Keeps(m, m', other)
  {
  }

  lemma PrepareTxn(s: State, s': State, tid: uint64, n: nat, vote: bool, other: uint64)
    requires LocksOk(s.sv.locks) && PrepareStep(s, s', tid, n, vote)
    requires other in s.txns && TxnOk(s, tid) && TxnOk(s, other)
    ensures TxnOk(s', other)
  {
    var ws := PendOf(s.sv, tid);
    var ts := s.txns[tid].start;
    PrepareOnlyWrites(s.sv.locks, s'.sv.locks, tid, ts, ws, n);
    OnlyWritesKeeps(s.sv.locks, s'.sv.locks, tid, ts, ws[..n], other);
    KeepsReads(s.sv.locks, s'.sv.locks, other, s.txns[other]);
    if other == tid && vote {
      assert ws[..n] == ws;
    }
  }

  lemma PrepareHolders(s: State, s': State, tid: uint64, ws: seq<Write>)
    requires tid in s.txns && s.txns[tid].phase.Active?
    requires HoldersInv(s) && OnlyWrites(s.sv.locks, s'.sv.locks, tid, s.txns[tid].start, ws)
    requires tid in s'.txns && s'.txns[tid].phase.Prepared?
    requires s'.txns == s.txns[tid := s.txns[tid].(phase := s'.txns[tid].phase)]
    requires forall k: uint64 | Wrote(ws, k) :: Wrote(Writes(s.txns[tid].log), k)
    ensures HoldersInv(s')
  {
    forall k: uint64, t: uint64, h: uint64 ensures HolderOk(s', k, t, h) {
      assert HolderOk(s, k, t, h);
    }
  }

  lemma PrepareCore(s: State, s': State, tid: uint64, n: nat, vote: bool)
    requires CoreOk(s) && PrepareStep(s, s', tid, n, vote) && TxnOk(s, tid)
    ensures CoreOk(s')
  {
    var ws := PendOf(s.sv, tid);
    var ts := s.txns[tid].start;
    PrepareOnlyWrites(s.sv.locks, s'.sv.locks, tid, ts, ws, n);
    OnlyWritesKeeps(s.sv.locks, s'.sv.locks, tid, ts, ws[..n], tid);
    SameCommits(s, s', tid);
    forall k: uint64 | Wrote(ws[..n], k) ensures Wrote(ws, k) {
      var i :| 0 <= i < n && ws[..n][i].key == k;
      assert ws[i].key == k;
    }
    PrepareHolders(s, s', tid, ws[..n]);
  }

  lemma PrepareInv(s: State, s': State, tid: uint64, n: nat, vote: bool)
    requires Inv(s) && PrepareStep(s, s', tid, n, vote)
    ensures Inv(s')
  {
    assert TxnOk(s, tid);
    PrepareCore(s, s', tid, n, vote);
    forall other | other in s'.txns ensures TxnOk(s', other) {
      PrepareTxn(s, s', tid, n, vote, other);
    }
  }

  // ----- phase two: locks

  lemma FinishLocksOk(m: Locks, m': Locks, tid: uint64, commit: bool, repaired: bool)
    requires LocksOk(m) && FinishLocked(m, m', tid, commit, repaired)
    requires commit || repaired || SoleReader(m, tid)
    ensures LocksOk(m')
    ensures forall k: uint64, t: uint64 :: tid !in m'(k, t).tids
  {
    forall k: uint64, t: uint64 ensures CellOk(m'(k, t)) && tid !in m'(k, t).tids {
      if commit {
        FreezeCellOk(m(k, t), tid);
      } else {
        UnlockCellOk(m(k, t), tid, repaired);
      }
    }
  }

  lemma FinishKeeps(m: Locks, m': Locks, tid: uint64, commit: bool, repaired: bool, other: uint64)
    requires FinishLocked(m, m', tid, commit, repaired) && other != tid
    requires commit || repaired || SoleReader(m, tid)
    ensures Keeps(m, m', other)
  {
    forall k: uint64, t: uint64 | Guarded(m(k, t), other, true) ensures Guarded(m'(k, t), other, true) {
      if !commit && !repaired {
        assert SoleReaderCell(m(k, t), tid);
      }
    }
  }

  /** Committing turns what the transaction guarded into frozen reads. */
  lemma CommitReads(m: Locks, m': Locks, tid: uint64, x: Txn, repaired: bool)
    requires FinishLocked(m, m', tid, true, repaired) && ReadsOk(m, tid, x) && Live(x.phase)
    ensures ReadsOk(m', tid, x.(phase := Committed))
  {
    forall k | k in x.seen
      ensures m'(k, x.seen[k]).status == FreezeWriteLock
      ensures GuardedBetween(m', k, x.seen[k], x.start, tid, false)
    {
      assert GuardedBetween(m, k, x.seen[k], x.start, tid, true);
    }
  }

  lemma FinishHolders(s: State, s': State, tid: uint64, commit: bool, repaired: bool)
    requires HoldersInv(s) && LocksOk(s.sv.locks)
    requires FinishLocked(s.sv.locks, s'.sv.locks, tid, commit, repaired)
    requires commit || repaired || SoleReader(s.sv.locks, tid)
    requires tid in s'.txns && s'.txns == s.txns[tid := s'.txns[tid]]
    ensures HoldersInv(s')
  {
    FinishLocksOk(s.sv.locks, s'.sv.locks, tid, commit, repaired);
    forall k: uint64, t: uint64, h: uint64 ensures HolderOk(s', k, t, h) {
      assert HolderOk(s, k, t, h);
    }
  }

  /** A waiting read stays registered at a write lock, or is woken. */
  lemma FinishWaits(s: State, s': State, tid: uint64, commit: bool, woken: set<uint64>, repaired: bool, x: Txn)
    requires FinishStep(s, s', tid, commit, woken, repaired) && WaitOk(s, x)
    ensures WaitOk(s', x)
  {
    if x.pending.Some? && x.pending.value.rid !in s'.ready {
      var p := x.pending.value;
      assert p.rid in s.sv.events(p.key, p.end);
      assert !WokenBy(s.sv, tid, commit, p.rid);
      assert !Wakes(s.sv.locks(p.key, p.end), tid, commit);
    }
  }

  // ----- phase two: the store

  /** The store after phase two. */
  lemma FinishStore(s: State, s': State, tid: uint64, commit: bool, woken: set<uint64>, repaired: bool)
    requires FinishStep(s, s', tid, commit, woken, repaired) && TxnOk(s, tid)
    ensures var x := s.txns[tid];
            forall k: uint64, t: uint64 ::
              Lookup(s'.sv.store, k, t) ==
              if commit && t == x.start && Wrote(Writes(x.log), k) then Some(LastValue(Writes(x.log), k))
              else Lookup(s.sv.store, k, t)
  {
    var x := s.txns[tid];
    if tid in s.sv.rdy && commit {
      forall k: uint64, t: uint64
        ensures Lookup(s'.sv.store, k, t) ==
                if t == x.start && Wrote(Writes(x.log), k) then Some(LastValue(Writes(x.log), k))
                else Lookup(s.sv.store, k, t)
      {
        SetAllLookup(s.sv.store, x.start, Writes(x.log), k, t);
      }
    }
  }

  /** A version is never overwritten: the timestamps at which `tid` stores were still unfrozen. */
  lemma FinishStoreGrows(s: State, s': State, tid: uint64, commit: bool, woken: set<uint64>, repaired: bool)
    requires FinishStep(s, s', tid, commit, woken, repaired) && TxnOk(s, tid) && StoreInv(s.sv)
    ensures forall k: uint64, t: uint64 | HasVersion(s.sv.store, k, t) ::
              Lookup(s'.sv.store, k, t) == Lookup(s.sv.store, k, t)
    ensures var x := s.txns[tid];
            commit ==> forall k: uint64 | Wrote(Writes(x.log), k) :: !HasVersion(s.sv.store, k, x.start)
  {
    FinishStore(s, s', tid, commit, woken, repaired);
  }

  lemma FinishStoreInv(s: State, s': State, tid: uint64, commit: bool, woken: set<uint64>, repaired: bool)
    requires FinishStep(s, s', tid, commit, woken, repaired) && TxnOk(s, tid)
    requires StoreInv(s.sv) && HoldersInv(s)
    ensures StoreInv(s'.sv)
  {
    FinishStore(s, s', tid, commit, woken, repaired);
    var x := s.txns[tid];
    forall k: uint64, t: uint64
      ensures HasVersion(s'.sv.store, k, t) <==> t > 0 && s'.sv.locks(k, t).status == FreezeWriteLock
    {
      assert HolderOk(s, k, t, tid);
      assert HasVersion(s.sv.store, k, t) <==> t > 0 && s.sv.locks(k, t).status == FreezeWriteLock;
    }
  }

  lemma FinishVersions(s: State, s': State, tid: uint64, commit: bool, woken: set<uint64>, repaired: bool)
    requires FinishStep(s, s', tid, commit, woken, repaired) && TxnOk(s, tid) && VersionsInv(s)
    ensures VersionsInv(s')
  {
    var x := s.txns[tid];
    FinishStore(s, s', tid, commit, woken, repaired);
    forall k: uint64, t: uint64 | HasVersion(s'.sv.store, k, t)
      ensures exists w :: CommittedWriter(s'.txns, w, k, t)
    {
      if commit && t == x.start && Wrote(Writes(x.log), k) {
        assert CommittedWriter(s'.txns, tid, k, t);
      } else {
        assert HasVersion(s.sv.store, k, t);
        var w :| CommittedWriter(s.txns, w, k, t);
        assert CommittedWriter(s'.txns, w, k, t);
      }
    }
  }

  lemma FinishCommits(s: State, s': State, tid: uint64, commit: bool, woken: set<uint64>, repaired: bool)
    requires FinishStep(s, s', tid, commit, woken, repaired) && TxnOk(s, tid)
    requires StoreInv(s.sv) && CommitsInv(s) && WritersUnique(s)
    ensures CommitsInv(s') && WritersUnique(s')
  {
    FinishStore(s, s', tid, commit, woken, repaired);
    FinishStoreGrows(s, s', tid, commit, woken, repaired);
    forall w, k: uint64, t: uint64 | CommittedWriter(s'.txns, w, k, t)
      ensures Lookup(s'.sv.store, k, t) == Some(LastValue(Writes(s'.txns[w].log), k))
      ensures w != tid ==> HasVersion(s.sv.store, k, t) && CommittedWriter(s.txns, w, k, t)
      ensures w == tid ==> !HasVersion(s.sv.store, k, t)
    {
      if w != tid {
        assert CommittedWriter(s.txns, w, k, t);
      }
    }
  }

  // ----- phase two: transactions

  lemma FinishOther(s: State, s': State, tid: uint64, commit: bool, woken: set<uint64>, repaired: bool, other: uint64)
    requires FinishStep(s, s', tid, commit, woken, repaired) && Safe(s, Finish(tid, commit, woken), repaired)
    requires StoreInv(s.sv) && TxnOk(s, tid)
    requires other in s.txns && other != tid && TxnOk(s, other)
    ensures TxnOk(s', other)
  {
    var x := s.txns[other];
    FinishKeeps(s.sv.locks, s'.sv.locks, tid, commit, repaired, other);
    KeepsReads(s.sv.locks, s'.sv.locks, other, x);
    FinishWaits(s, s', tid, commit, woken, repaired, x);
    FinishStoreGrows(s, s', tid, commit, woken, repaired);
    LogOkGrows(s.sv.store, s'.sv.store, x.log, x.seen);
  }

  lemma FinishSelf(s: State, s': State, tid: uint64, commit: bool, woken: set<uint64>, repaired: bool)
    requires FinishStep(s, s', tid, commit, woken, repaired)
    requires StoreInv(s.sv) && TxnOk(s, tid)
    ensures TxnOk(s', tid)
  {
    var x := s.txns[tid];
    if commit {
      CommitReads(s.sv.locks, s'.sv.locks, tid, x, repaired);
    }
    FinishStoreGrows(s, s', tid, commit, woken, repaired);
    LogOkGrows(s.sv.store, s'.sv.store, x.log, x.seen);
  }

  lemma FinishCore(s: State, s': State, tid: uint64, commit: bool, woken: set<uint64>, repaired: bool)
    requires FinishStep(s, s', tid, commit, woken, repaired) && TxnOk(s, tid) && CoreOk(s)
    requires Safe(s, Finish(tid, commit, woken), repaired)
    ensures CoreOk(s')
  {
    FinishLocksOk(s.sv.locks, s'.sv.locks, tid, commit, repaired);
    FinishHolders(s, s', tid, commit, repaired);
    FinishStoreInv(s, s', tid, commit, woken, repaired);
    FinishVersions(s, s', tid, commit, woken, repaired);
    FinishCommits(s, s', tid, commit, woken, repaired);
  }

  lemma FinishInv(s: State, s': State, tid: uint64, commit: bool, woken: set<uint64>, repaired: bool)
    requires Inv(s)
    requires FinishStep(s, s', tid, commit, woken, repaired) && Safe(s, Finish(tid, commit, woken), repaired)
    ensures Inv(s')
  {
    assert TxnOk(s, tid);
    FinishCore(s, s', tid, commit, woken, repaired);
    FinishSelf(s, s', tid, commit, woken, repaired);
    forall other | other in s.txns && other != tid ensures TxnOk(s', other) {
      FinishOther(s, s', tid, commit, woken, repaired, other);
    }
  }

  // ----- every step, every run

  lemma NextInv(s: State, s': State, a: Action, repaired: bool)
    requires Inv(s) && Next(s, s', a, repaired) && Safe(s, a, repaired)
    ensures Inv(s')
  {
    match a
    case Begin(tid, ts) => BeginInv(s, s', tid, ts);
    case OwnRead(tid, key) => OwnReadInv(s, s', tid, key);
    case IssueRead(tid, key, rid) => IssueReadInv(s, s', tid, key, rid);
    case AttemptRead(tid, v, end) => AttemptReadInv(s, s', tid, v, end);
    case BufferWrite(tid, key, value) => BufferWriteInv(s, s', tid, key, value);
    case Prepare(tid, n, vote) => PrepareInv(s, s', tid, n, vote);
    case Finish(tid, commit, woken) => FinishInv(s, s', tid, commit, woken, repaired);
  }

  /** The invariant holds in every state of every safe run. */
  lemma {:induction false} RunInv(run: seq<State>, acts: seq<Action>, repaired: bool, i: nat)
    requires IsSafeRun(run, acts, repaired) && i < |run|
    ensures Inv(run[i])
  {
    if i == 0 {
      InitInv(run[0]);
    } else {
      RunInv(run, acts, repaired, i - 1);
      assert Next(run[i - 1], run[i - 1 + 1], acts[i - 1], repaired) && Safe(run[i - 1], acts[i - 1], repaired);
      NextInv(run[i - 1], run[i], acts[i - 1], repaired);
    }
  }
}
