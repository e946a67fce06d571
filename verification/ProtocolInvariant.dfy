/**
 * The invariant of the protocol, one clause per concern, and its preservation by every step.
 */
module ProtocolInvariant {
  import opened LockTypes
  import opened VersionStore
  import opened SerialReplay
  import opened ServerSpec
  import opened Protocol

  /** No writer can ever get this point while `tid` is live (or ever, once the point is frozen). */
  predicate Guarded(c: Cell, tid: uint64, live: bool) {
    c.status == FreezeReadLock || (live && c.status == ReadLock && tid in c.tids)
  }

  ghost predicate GuardedBetween(m: Locks, key: uint64, lo: int, hi: int, tid: uint64, live: bool) {
    forall t: uint64 | lo < t < hi :: Guarded(m(key, t), tid, live)
  }

  /** Holders are live transactions; a write lock sits at its holder's own timestamp, reads below it. */
  ghost predicate HolderOk(s: State, k: uint64, t: uint64, h: uint64) {
    h in s.sv.locks(k, t).tids ==>
      && h in s.txns && Live(s.txns[h].phase)
      && (s.sv.locks(k, t).status == WriteLock ==>
            s.txns[h].phase.Prepared? && t == s.txns[h].start && Wrote(Writes(s.txns[h].log), k))
  }

  ghost predicate HoldersInv(s: State) {
    forall k: uint64, t: uint64, h: uint64 :: HolderOk(s, k, t, h)
  }

  /** Frozen writes above time 0 are exactly the stored versions. */
  ghost predicate StoreInv(sv: Server) {
    forall k: uint64, t: uint64 ::
      HasVersion(sv.store, k, t) <==> t > 0 && sv.locks(k, t).status == FreezeWriteLock
  }

  /** `w` committed at timestamp `t` and wrote `k`. */
  predicate CommittedWriter(txns: map<uint64, Txn>, w: uint64, k: uint64, t: uint64) {
    w in txns && txns[w].phase.Committed? && txns[w].start == t && Wrote(Writes(txns[w].log), k)
  }

  /** Every stored version was written by a committed transaction, with the value of its last write. */
  ghost predicate VersionsInv(s: State) {
    forall k: uint64, t: uint64 | HasVersion(s.sv.store, k, t) :: exists w :: CommittedWriter(s.txns, w, k, t)
  }

  ghost predicate CommitsInv(s: State) {
    forall w, k: uint64, t: uint64 | CommittedWriter(s.txns, w, k, t) ::
      Lookup(s.sv.store, k, t) == Some(LastValue(Writes(s.txns[w].log), k))
  }

  /** Two transactions never commit the same (key, timestamp). */
  ghost predicate WritersUnique(s: State) {
    forall w, w', k: uint64, t: uint64 |
      CommittedWriter(s.txns, w, k, t) && CommittedWriter(s.txns, w', k, t) :: w == w'
  }

  /** Each version a transaction read is frozen, with nothing but guarded points up to its timestamp. */
  ghost predicate ReadsOk(m: Locks, tid: uint64, x: Txn) {
    x.phase != Aborted ==>
      forall k | k in x.seen ::
        && x.seen[k] < x.start
        && m(k, x.seen[k]).status == FreezeWriteLock
        && GuardedBetween(m, k, x.seen[k], x.start, tid, Live(x.phase))
  }

  /** A pending read already guards everything from its cursor up. */
  ghost predicate PendingOk(m: Locks, tid: uint64, x: Txn) {
    x.pending.Some? ==>
      var p := x.pending.value;
      && x.phase.Active? && 1 <= p.cursor <= x.start
      && !Wrote(Writes(x.log), p.key)
      && GuardedBetween(m, p.key, p.cursor - 1, x.start, tid, true)
  }

  /** The server buffers exactly the writes of live transactions. */
  ghost predicate BufferOk(sv: Server, tid: uint64, x: Txn) {
    && PendOf(sv, tid) == (if Live(x.phase) then Writes(x.log) else [])
    && (tid in sv.rdy <==> x.phase.Prepared?)
    && (tid in sv.rdy ==> sv.rdy[tid] == x.start)
    && x.start >= 1
  }

  /** A yes vote means every buffered key is write-locked at the transaction's timestamp. */
  ghost predicate VoteOk(m: Locks, tid: uint64, x: Txn) {
    x.phase == Prepared(true) ==>
      forall k: uint64 | Wrote(Writes(x.log), k) :: m(k, x.start) == Cell(WriteLock, {tid})
  }

  /** Each read in the log returned the transaction's own latest write, or the version it saw. */
  ghost predicate LogOk(store: Store, log: seq<Op>, seen: map<uint64, uint64>) {
    log == [] ||
    (var front := log[..|log| - 1];
     && LogOk(store, front, seen)
     && match log[|log| - 1]
        case WriteOp(_, _) => true
        case ReadOp(k, value) =>
          if Wrote(Writes(front), k) then value == LastValue(Writes(front), k)
          else k in seen && Get(store, k, seen[k]) == Some(value))
  }

  /** A blocked read waits at a write lock, and is registered where releasing that lock wakes it. */
  ghost predicate WaitOk(s: State, x: Txn) {
    x.pending.Some? && x.pending.value.rid !in s.ready ==>
      var p := x.pending.value;
      && p.cursor >= 2
      && s.sv.locks(p.key, p.cursor - 1).status == WriteLock
      && s.sv.locks(p.key, p.end) == s.sv.locks(p.key, p.cursor - 1)
      && p.rid in s.sv.events(p.key, p.end)
  }

  ghost predicate RidsInv(s: State) {
    && (forall a | a in s.txns && s.txns[a].pending.Some? :: s.txns[a].pending.value.rid in s.rids)
    && (forall a, b | a in s.txns && b in s.txns && s.txns[a].pending.Some? && s.txns[b].pending.Some? && a != b ::
          s.txns[a].pending.value.rid != s.txns[b].pending.value.rid)
  }

  ghost predicate TxnOk(s: State, tid: uint64)
    requires tid in s.txns
  {
    var x := s.txns[tid];
    && ReadsOk(s.sv.locks, tid, x) && PendingOk(s.sv.locks, tid, x) && BufferOk(s.sv, tid, x)
    && VoteOk(s.sv.locks, tid, x) && LogOk(s.sv.store, x.log, x.seen) && WaitOk(s, x)
  }

  ghost predicate UnknownOk(sv: Server, txns: map<uint64, Txn>) {
    (forall tid | tid in sv.pend :: tid in txns) && (forall tid | tid in sv.rdy :: tid in txns)
  }

  ghost predicate TxnsOk(s: State) {
    forall tid | tid in s.txns :: TxnOk(s, tid)
  }

  /** The clauses that are not about one transaction. */
  ghost predicate CoreOk(s: State) {
    && LocksOk(s.sv.locks)
    && HoldersInv(s)
    && StoreInv(s.sv)
    && VersionsInv(s)
    && CommitsInv(s)
    && WritersUnique(s)
    && RidsInv(s)
    && UnknownOk(s.sv, s.txns)
  }

  ghost predicate Inv(s: State) {
    CoreOk(s) && TxnsOk(s)
  }

  lemma InitInv(s: State)
    requires Init(s)
    ensures Inv(s)
  {
  }

  // ----- what server steps leave alone

  /** Frozen points never change and points guarded by a live `tid` stay guarded by it. */
  ghost predicate Keeps(m: Locks, m': Locks, tid: uint64) {
    forall k: uint64, t: uint64 ::
      && (Frozen(m(k, t)) ==> m'(k, t) == m(k, t))
      && (Guarded(m(k, t), tid, true) ==> Guarded(m'(k, t), tid, true))
  }

  lemma KeepsReads(m: Locks, m': Locks, tid: uint64, x: Txn)
    requires Keeps(m, m', tid) && ReadsOk(m, tid, x) && PendingOk(m, tid, x)
    ensures ReadsOk(m', tid, x) && PendingOk(m', tid, x)
  {
    if x.phase != Aborted {
      forall k | k in x.seen
        ensures m'(k, x.seen[k]).status == FreezeWriteLock
        ensures GuardedBetween(m', k, x.seen[k], x.start, tid, Live(x.phase))
      {
        assert Frozen(m(k, x.seen[k]));
        forall t: uint64 | x.seen[k] < t < x.start
          ensures Guarded(m'(k, t), tid, Live(x.phase))
        {
          assert Guarded(m(k, t), tid, Live(x.phase));
        }
      }
    }
    if x.pending.Some? {
      var p := x.pending.value;
      forall t: uint64 | p.cursor - 1 < t < x.start
        ensures Guarded(m'(p.key, t), tid, true)
      {
        assert Guarded(m(p.key, t), tid, true);
      }
    }
  }

  /** Stored versions are never overwritten, so what a log read stays what the store holds. */
  lemma {:induction false} LogOkGrows(store: Store, store': Store, log: seq<Op>, seen: map<uint64, uint64>)
    requires LogOk(store, log, seen)
    requires forall k: uint64, t: uint64 | HasVersion(store, k, t) :: Lookup(store', k, t) == Lookup(store, k, t)
    ensures LogOk(store', log, seen)
  {
    if log != [] {
      LogOkGrows(store, store', log[..|log| - 1], seen);
    }
  }

  /** Reading one more key does not disturb the log, provided a known key keeps its version. */
  lemma {:induction false} LogOkSees(store: Store, log: seq<Op>, seen: map<uint64, uint64>, seen': map<uint64, uint64>)
    requires LogOk(store, log, seen)
    requires forall k | k in seen :: k in seen' && seen'[k] == seen[k]
    ensures LogOk(store, log, seen')
  {
    if log != [] {
      LogOkSees(store, log[..|log| - 1], seen, seen');
    }
  }

  lemma {:induction false} LogOkSnoc(store: Store, log: seq<Op>, seen: map<uint64, uint64>, op: Op)
    requires LogOk(store, log, seen)
    requires op.ReadOp? ==>
               if Wrote(Writes(log), op.key) then op.value == LastValue(Writes(log), op.key)
               else op.key in seen && Get(store, op.key, seen[op.key]) == Some(op.value)
    ensures LogOk(store, log + [op], seen)
  {
    var all := log + [op];
    assert all[..|all| - 1] == log && all[|all| - 1] == op;
  }

  // ----- coordinator steps that leave the server alone

  /** Whatever only adds a transaction, or grows a log without touching the server, keeps the clauses. */
  lemma SameServerTxn(s: State, s': State, tid: uint64)
    requires SameServer(s.sv, s'.sv) && tid in s.txns && tid in s'.txns && s'.txns[tid] == s.txns[tid]
    requires TxnOk(s, tid)
    requires s.ready <= s'.ready
    ensures TxnOk(s', tid)
  {
    var x := s.txns[tid];
    assert Keeps(s.sv.locks, s'.sv.locks, tid);
    KeepsReads(s.sv.locks, s'.sv.locks, tid, x);
    assert PendOf(s'.sv, tid) == PendOf(s.sv, tid);
  }

  /** A step of an uncommitted transaction that does not touch the store keeps the commit history. */
  lemma SameCommits(s: State, s': State, tid: uint64)
    requires VersionsInv(s) && CommitsInv(s) && WritersUnique(s)
    requires s'.sv.store == s.sv.store
    requires tid in s'.txns && s'.txns == s.txns[tid := s'.txns[tid]]
    requires !s'.txns[tid].phase.Committed? && (tid in s.txns ==> !s.txns[tid].phase.Committed?)
    ensures VersionsInv(s') && CommitsInv(s') && WritersUnique(s')
  {
    assert forall w, k: uint64, t: uint64 ::
        CommittedWriter(s'.txns, w, k, t) <==> CommittedWriter(s.txns, w, k, t);
    forall k: uint64, t: uint64 | HasVersion(s'.sv.store, k, t)
      ensures exists w :: CommittedWriter(s'.txns, w, k, t)
    {
      var w :| CommittedWriter(s.txns, w, k, t);
      assert CommittedWriter(s'.txns, w, k, t);
    }
    forall w, k: uint64, t: uint64 | CommittedWriter(s'.txns, w, k, t)
      ensures Lookup(s'.sv.store, k, t) == Some(LastValue(Writes(s'.txns[w].log), k))
    {
      assert CommittedWriter(s.txns, w, k, t);
    }
  }

  /** A transaction that stays active holds no write lock, so its log may change freely. */
  lemma SameHolders(s: State, s': State, tid: uint64)
    requires HoldersInv(s) && SameLocks(s.sv.locks, s'.sv.locks)
    requires tid in s'.txns && s'.txns == s.txns[tid := s'.txns[tid]] && s'.txns[tid].phase.Active?
    requires tid in s.txns ==> s.txns[tid].phase.Active?
    ensures HoldersInv(s')
  {
    forall k: uint64, t: uint64, h: uint64 ensures HolderOk(s', k, t, h) {
      assert HolderOk(s, k, t, h);
    }
  }

  /** The transactions that do not take part in a step of `tid` which leaves the server alone. */
  lemma SameServerOthers(s: State, s': State, tid: uint64)
    requires SameServer(s.sv, s'.sv) && s.ready <= s'.ready
    requires tid in s'.txns && s'.txns == s.txns[tid := s'.txns[tid]]
    requires TxnsOk(s)
    ensures forall other | other in s.txns && other != tid :: TxnOk(s', other)
  {
    forall other | other in s.txns && other != tid ensures TxnOk(s', other) {
      SameServerTxn(s, s', other);
    }
  }

  /** The shared clauses survive a step of an active transaction that leaves the server alone. */
  lemma SameServerCore(s: State, s': State, tid: uint64)
    requires CoreOk(s) && SameServer(s.sv, s'.sv) && RidsInv(s')
    requires tid in s'.txns && s'.txns == s.txns[tid := s'.txns[tid]] && s'.txns[tid].phase.Active?
    requires tid in s.txns ==> s.txns[tid].phase.Active?
    ensures CoreOk(s')
  {
    SameCommits(s, s', tid);
    SameHolders(s, s', tid);
  }

  lemma BeginInv(s: State, s': State, tid: uint64, ts: uint64)
    requires Inv(s) && BeginStep(s, s', tid, ts)
    ensures Inv(s')
  {
    SameServerOthers(s, s', tid);
    SameServerCore(s, s', tid);
    assert TxnOk(s', tid);
  }

  lemma OwnReadTxn(s: State, s': State, tid: uint64, key: uint64)
    requires OwnReadStep(s, s', tid, key) && TxnOk(s, tid) && LocksOk(s.sv.locks)
    ensures TxnOk(s', tid)
  {
    var x := s.txns[tid];
    var op := ReadOp(key, LastValue(Writes(x.log), key));
    LogOkSnoc(s.sv.store, x.log, x.seen, op);
    WritesSnoc(x.log, op);
    assert Keeps(s.sv.locks, s'.sv.locks, tid);
    KeepsReads(s.sv.locks, s'.sv.locks, tid, x);
  }

  lemma OwnReadInv(s: State, s': State, tid: uint64, key: uint64)
    requires Inv(s) && OwnReadStep(s, s', tid, key)
    ensures Inv(s')
  {
    SameServerOthers(s, s', tid);
    SameServerCore(s, s', tid);
    OwnReadTxn(s, s', tid, key);
  }

  lemma IssueReadTxn(s: State, s': State, tid: uint64, key: uint64, rid: uint64)
    requires IssueReadStep(s, s', tid, key, rid) && TxnOk(s, tid)
    ensures TxnOk(s', tid)
  {
    assert Keeps(s.sv.locks, s'.sv.locks, tid);
    KeepsReads(s.sv.locks, s'.sv.locks, tid, s.txns[tid]);
  }

  lemma IssueReadInv(s: State, s': State, tid: uint64, key: uint64, rid: uint64)
    requires Inv(s) && IssueReadStep(s, s', tid, key, rid)
    ensures Inv(s')
  {
    SameServerOthers(s, s', tid);
    SameServerCore(s, s', tid);
    IssueReadTxn(s, s', tid, key, rid);
  }

  lemma BufferWriteCore(s: State, s': State, tid: uint64, key: uint64, value: Value)
    requires CoreOk(s) && BufferWriteStep(s, s', tid, key, value)
    ensures CoreOk(s')
  {
    SameCommits(s, s', tid);
    SameHolders(s, s', tid);
  }

  lemma BufferWriteInv(s: State, s': State, tid: uint64, key: uint64, value: Value)
    requires Inv(s) && BufferWriteStep(s, s', tid, key, value)
    ensures Inv(s')
  {
    BufferWriteCore(s, s', tid, key, value);
    BufferWriteTxns(s, s', tid, key, value);
  }

  lemma BufferWriteTxns(s: State, s': State, tid: uint64, key: uint64, value: Value)
    requires TxnsOk(s) && BufferWriteStep(s, s', tid, key, value)
    ensures TxnsOk(s')
  {
    forall other | other in s'.txns ensures TxnOk(s', other) {
      assert TxnOk(s, other);
      var x := s.txns[other];
      assert Keeps(s.sv.locks, s'.sv.locks, other);
      KeepsReads(s.sv.locks, s'.sv.locks, other, x);
      if other == tid {
        WritesSnoc(x.log, WriteOp(key, value));
        LogOkSnoc(s.sv.store, x.log, x.seen, WriteOp(key, value));
      }
    }
  }

  // ----- a read attempt

  /** The only effect of a read attempt on locks: some points become, or stay, read-locked by `tid`. */
  ghost predicate OnlyReads(m: Locks, m': Locks, tid: uint64) {
    forall k: uint64, t: uint64 ::
      || m'(k, t) == m(k, t)
      || (t > 0 && Takes(m(k, t), true) && m'(k, t) == Cell(ReadLock, m(k, t).tids + {tid}))
  }

  lemma BackwardOnlyReads(m: Locks, m': Locks, key: uint64, tid: uint64, hi: uint64, v: uint64)
    requires LocksOk(m) && BackwardLocked(m, m', key, tid, hi, true, v)
    ensures OnlyReads(m, m', tid) && LocksOk(m')
    ensures forall other: uint64 :: Keeps(m, m', other)
  {
    forall k: uint64, t: uint64 ensures CellOk(m'(k, t)) {
      LockCellOk(m(k, t), tid, true);
    }
  }

  lemma OnlyReadsHolders(s: State, s': State, tid: uint64)
    requires HoldersInv(s) && OnlyReads(s.sv.locks, s'.sv.locks, tid)
    requires tid in s.txns && s.txns[tid].phase.Active? && tid in s'.txns && s'.txns[tid].phase.Active?
    requires s'.txns == s.txns[tid := s'.txns[tid]]
    ensures HoldersInv(s')
  {
    forall k: uint64, t: uint64, h: uint64 ensures HolderOk(s', k, t, h) {
      assert HolderOk(s, k, t, h);
    }
  }

  lemma AttemptReadOther(s: State, s': State, tid: uint64, v: uint64, end: uint64, other: uint64)
    requires LocksOk(s.sv.locks) && RidsInv(s) && AttemptReadStep(s, s', tid, v, end)
    requires other in s.txns && other != tid && TxnOk(s, other)
    ensures TxnOk(s', other)
  {
    var x, p := s.txns[other], s.txns[tid].pending.value;
    BackwardOnlyReads(s.sv.locks, s'.sv.locks, p.key, tid, p.cursor - 1, v);
    KeepsReads(s.sv.locks, s'.sv.locks, other, x);
    AttemptReadWaits(s, s', tid, v, end, other);
  }

  lemma AttemptReadWaits(s: State, s': State, tid: uint64, v: uint64, end: uint64, other: uint64)
    requires RidsInv(s) && AttemptReadStep(s, s', tid, v, end)
    requires other in s.txns && other != tid && WaitOk(s, s.txns[other])
    ensures WaitOk(s', s.txns[other])
  {
  }

  /** Nothing that stops a reader lies strictly between the stopping point and the timestamp. */
  lemma AttemptClear(m: Locks, tid: uint64, x: Txn, v: uint64)
    requires x.pending.Some? && PendingOk(m, tid, x)
    requires BackwardStop(m, x.pending.value.key, x.pending.value.cursor - 1, true, v)
    ensures forall t: uint64 | v < t < x.start :: !Stops(m(x.pending.value.key, t), true)
  {
    var p := x.pending.value;
    forall t: uint64 | v < t < x.start ensures !Stops(m(p.key, t), true) {
      if t > p.cursor - 1 {
        assert Guarded(m(p.key, t), tid, true);
      }
    }
  }

  /** After the attempt everything strictly between the stopping point and the timestamp is guarded. */
  lemma AttemptGuards(m: Locks, m': Locks, tid: uint64, x: Txn, v: uint64)
    requires x.pending.Some? && PendingOk(m, tid, x)
    requires var p := x.pending.value;
             && BackwardStop(m, p.key, p.cursor - 1, true, v)
             && BackwardLocked(m, m', p.key, tid, p.cursor - 1, true, v)
    ensures GuardedBetween(m', x.pending.value.key, v, x.start, tid, true)
  {
    var p := x.pending.value;
    forall t: uint64 | v < t < x.start ensures Guarded(m'(p.key, t), tid, true) {
      if t > p.cursor - 1 {
        assert Guarded(m(p.key, t), tid, true);
      }
    }
  }

  /** A repeated read of a key stops at the version it saw before. */
  lemma RepeatedRead(m: Locks, tid: uint64, x: Txn, v: uint64)
    requires x.pending.Some? && PendingOk(m, tid, x) && ReadsOk(m, tid, x)
    requires BackwardStop(m, x.pending.value.key, x.pending.value.cursor - 1, true, v)
    requires x.pending.value.key in x.seen
    ensures v == x.seen[x.pending.value.key]
  {
    var key, u := x.pending.value.key, x.seen[x.pending.value.key];
    AttemptClear(m, tid, x, v);
    assert Stops(m(key, u), true) && Stops(m(key, v), true);
    forall t: uint64 | u < t < x.start ensures !Stops(m(key, t), true) {
      assert Guarded(m(key, t), tid, Live(x.phase));
    }
  }

  /** The transaction whose read was answered with version `v`. */
  lemma AnsweredOk(s: State, s': State, tid: uint64, v: uint64, end: uint64)
    requires LocksOk(s.sv.locks) && AttemptReadStep(s, s', tid, v, end) && TxnOk(s, tid)
    requires Frozen(s.sv.locks(s.txns[tid].pending.value.key, v))
    ensures TxnOk(s', tid)
  {
    var x, p := s.txns[tid], s.txns[tid].pending.value;
    BackwardOnlyReads(s.sv.locks, s'.sv.locks, p.key, tid, p.cursor - 1, v);
    KeepsReads(s.sv.locks, s'.sv.locks, tid, x);
    AttemptGuards(s.sv.locks, s'.sv.locks, tid, x, v);
    if p.key in x.seen {
      RepeatedRead(s.sv.locks, tid, x, v);
    }
    var op := ReadOp(p.key, Get(s.sv.store, p.key, v).value);
    LogOkSees(s.sv.store, x.log, x.seen, x.seen[p.key := v]);
    LogOkSnoc(s.sv.store, x.log, x.seen[p.key := v], op);
    WritesSnoc(x.log, op);
  }

  /** The transaction whose read was blocked at `v`. */
  lemma BlockedOk(s: State, s': State, tid: uint64, v: uint64, end: uint64)
    requires LocksOk(s.sv.locks) && AttemptReadStep(s, s', tid, v, end) && TxnOk(s, tid)
    requires !Frozen(s.sv.locks(s.txns[tid].pending.value.key, v))
    ensures TxnOk(s', tid)
  {
    var x, p := s.txns[tid], s.txns[tid].pending.value;
    BackwardOnlyReads(s.sv.locks, s'.sv.locks, p.key, tid, p.cursor - 1, v);
    KeepsReads(s.sv.locks, s'.sv.locks, tid, x);
    AttemptGuards(s.sv.locks, s'.sv.locks, tid, x, v);
  }

  lemma AttemptReadTxns(s: State, s': State, tid: uint64, v: uint64, end: uint64)
    requires LocksOk(s.sv.locks) && RidsInv(s) && AttemptReadStep(s, s', tid, v, end)
    requires TxnsOk(s)
    ensures TxnsOk(s')
  {
    if Frozen(s.sv.locks(s.txns[tid].pending.value.key, v)) {
      AnsweredOk(s, s', tid, v, end);
    } else {
      BlockedOk(s, s', tid, v, end);
    }
    forall other | other in s.txns && other != tid ensures TxnOk(s', other) {
      AttemptReadOther(s, s', tid, v, end, other);
    }
  }

  lemma AttemptReadCore(s: State, s': State, tid: uint64, v: uint64, end: uint64)
    requires CoreOk(s) && AttemptReadStep(s, s', tid, v, end)
    requires s.txns[tid].phase.Active?
    ensures CoreOk(s')
  {
    var p := s.txns[tid].pending.value;
    SameCommits(s, s', tid);
    BackwardOnlyReads(s.sv.locks, s'.sv.locks, p.key, tid, p.cursor - 1, v);
    OnlyReadsHolders(s, s', tid);
  }

  lemma AttemptReadInv(s: State, s': State, tid: uint64, v: uint64, end: uint64)
    requires Inv(s) && AttemptReadStep(s, s', tid, v, end)
    ensures Inv(s')
  {
    assert TxnOk(s, tid);
    AttemptReadCore(s, s', tid, v, end);
    AttemptReadTxns(s, s', tid, v, end);
  }
}
