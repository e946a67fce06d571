/**
 * Safe runs of the protocol as a type, and how each kind of step extends one: the lemmas of Refinement
 * along a whole history.
 */
module Histories {
  import opened LockTypes
  import opened VersionStore
  import opened SerialReplay
  import opened ServerSpec
  import opened Protocol
  import opened ProtocolInvariant
  import opened ProtocolCommit
  import opened Serializability
  import opened WakeUps
  import opened Refinement

  datatype Trace = Trace(run: seq<State>, acts: seq<Action>)

  /** What a new server stands for. */
  ghost const NEW_SERVER := Server((k: uint64, t: uint64) => if t == 0 then SENTINEL_CELL else FREE_CELL,
                                   (k: uint64, t: uint64) => {}, map[], map[], map[])

  /** Safe runs, with unlock as the source writes it. */
  type SafeRun = h: Trace | IsSafeRun(h.run, h.acts, false)
    ghost witness Trace([State(NEW_SERVER, map[], {}, {})], [])

  ghost function Last(h: SafeRun): State {
    h.run[|h.acts|]
  }

  /** `h'` is `h` and one more step, to `s'`. */
  ghost predicate Extends(h: SafeRun, h': SafeRun, s': State, a: Action) {
    h'.run == h.run + [s'] && h'.acts == h.acts + [a] && Last(h') == s'
  }

  /** The run of a new server. */
  lemma NewHistory(sv: Server) returns (h: SafeRun)
    requires Init(State(sv, map[], {}, {}))
    ensures h.acts == [] && Last(h) == State(sv, map[], {}, {})
  {
    h := Trace([State(sv, map[], {}, {})], []);
  }

  /** A safe run goes on with a safe step. */
  lemma NextState(h: SafeRun, s': State, a: Action) returns (h': SafeRun)
    requires Next(Last(h), s', a, false) && Safe(Last(h), a, false)
    ensures Extends(h, h', s', a)
  {
    var run', acts' := h.run + [s'], h.acts + [a];
    forall i | 0 <= i < |acts'| ensures Next(run'[i], run'[i + 1], acts'[i], false) && Safe(run'[i], acts'[i], false) {
      if i < |h.acts| {
        assert run'[i] == h.run[i] && run'[i + 1] == h.run[i + 1] && acts'[i] == h.acts[i];
      }
    }
    h' := Trace(run', acts');
  }

  lemma LastInv(h: SafeRun)
    ensures Inv(Last(h))
  {
    RunInv(h.run, h.acts, false, |h.acts|);
  }

  lemma LastReady(h: SafeRun)
    ensures Last(h).ready <= Last(h).rids
  {
    ReadyRun(h.run, h.acts, false, |h.acts|);
  }

  /** A log that is not empty has a write, or a read that came before any write of its key. */
  lemma {:induction false} FirstEntry(log: seq<Op>)
    requires log != []
    ensures Writes(log) != [] || exists k :: AskedInLog(log, k)
  {
    var front, op := log[..|log| - 1], log[|log| - 1];
    assert log == front + [op];
    WritesSnoc(front, op);
    AskedSnoc(front, op, op.key);
    if front != [] {
      FirstEntry(front);
      if Writes(front) == [] {
        var k :| AskedInLog(front, k);
        AskedSnoc(front, op, k);
      }
    }
  }

  /** A transaction has logged anything exactly if it wrote a key or a server answered it. */
  lemma LoggedIffSent(h: SafeRun, tid: uint64)
    requires tid in Last(h).txns
    ensures Last(h).txns[tid].log != [] <==> SentAnything(Last(h).txns[tid])
  {
    LastInv(h);
    SeenRun(h.run, h.acts, false, |h.acts|);
    var s, x := Last(h), Last(h).txns[tid];
    assert TxnOk(s, tid) && SeenInLog(x.log, x.seen);
    if x.log != [] {
      FirstEntry(x.log);
      if Writes(x.log) == [] {
        var k :| AskedInLog(x.log, k);
        AskedIsSeen(s.sv.store, x.log, x.seen, k);
      }
    }
  }

  /** The transaction wrote a key, or a server answered a read of it. */
  predicate SentAnything(x: Txn) {
    Writes(x.log) != [] || x.seen != map[]
  }

  // ----- the changes of one transaction

  function Started(ts: uint64): Txn {
    Txn(ts, Active, [], None, map[])
  }

  function WithRead(x: Txn, key: uint64, value: Value): Txn {
    x.(log := x.log + [ReadOp(key, value)])
  }

  function WithWrite(x: Txn, key: uint64, value: Value): Txn {
    x.(log := x.log + [WriteOp(key, value)])
  }

  /** A transaction that sent a read. */
  function Asking(x: Txn, key: uint64, rid: uint64): Txn {
    x.(pending := Some(Pending(key, x.start, rid, 0)))
  }

  /** A transaction whose read was stopped at `v`. */
  function Stopped(x: Txn, v: uint64, end: uint64): Txn
    requires x.pending.Some? && v < UINT64_MAX
  {
    x.(pending := Some(x.pending.value.(cursor := v + 1, end := end)))
  }

  function Done(commit: bool): Phase {
    if commit then Committed else Aborted
  }

  /** Transaction `tid` changes and the rest of the state but for the server is as told. */
  ghost function Changed(s: State, sv': Server, tid: uint64, x': Txn, ready': set<uint64>, rids': set<uint64>): State {
    State(sv', s.txns[tid := x'], ready', rids')
  }

  // ----- the steps

  lemma BeginExtends(h: SafeRun, tid: uint64, ts: uint64) returns (h': SafeRun)
    requires tid !in Last(h).txns && 1 <= ts
    ensures var s := Last(h); Extends(h, h', Changed(s, s.sv, tid, Started(ts), s.ready, s.rids), Begin(tid, ts))
  {
    LastInv(h);
    var s' := BeginIsStep(Last(h), tid, ts);
    h' := NextState(h, s', Begin(tid, ts));
  }

  lemma OwnReadExtends(h: SafeRun, tid: uint64, key: uint64, value: Value) returns (h': SafeRun)
    requires Idle(Last(h), tid)
    requires var ws := Writes(Last(h).txns[tid].log); Wrote(ws, key) && value == LastValue(ws, key)
    ensures var s := Last(h);
            Extends(h, h', Changed(s, s.sv, tid, WithRead(s.txns[tid], key, value), s.ready, s.rids), OwnRead(tid, key))
  {
    LastInv(h);
    var s' := OwnReadIsStep(Last(h), tid, key);
    h' := NextState(h, s', OwnRead(tid, key));
  }

  lemma IssueReadExtends(h: SafeRun, tid: uint64, key: uint64, rid: uint64) returns (h': SafeRun)
    requires Idle(Last(h), tid) && !Wrote(Writes(Last(h).txns[tid].log), key) && rid !in Last(h).rids
    ensures var s := Last(h);
            Extends(h, h', Changed(s, s.sv, tid, Asking(s.txns[tid], key, rid), s.ready + {rid}, s.rids + {rid}),
                    IssueRead(tid, key, rid))
    ensures 1 <= Last(h).txns[tid].start
  {
    LastInv(h);
    assert TxnOk(Last(h), tid);
    var s' := IssueReadIsStep(Last(h), tid, key, rid);
    h' := NextState(h, s', IssueRead(tid, key, rid));
  }

  lemma AttemptExtends(h: SafeRun, sv': Server, tid: uint64, v: uint64, end: uint64) returns (h': SafeRun, x': Txn)
    requires tid in Last(h).txns && Last(h).txns[tid].pending.Some?
    requires Last(h).txns[tid].pending.value.rid in Last(h).ready
    requires var p := Last(h).txns[tid].pending.value;
             RunRead(Last(h).sv, sv', tid, p.key, p.cursor, p.rid, v, end)
    ensures var s := Last(h);
            Extends(h, h', Changed(s, sv', tid, x', s.ready - {s.txns[tid].pending.value.rid}, s.rids),
                    AttemptRead(tid, v, end))
    ensures var s := Last(h); var x := s.txns[tid]; var p := x.pending.value;
            if Frozen(s.sv.locks(p.key, v)) then
              Get(sv'.store, p.key, v).Some? && x' == Answered(x, p.key, v, Get(sv'.store, p.key, v).value)
            else
              v < UINT64_MAX && x' == Stopped(x, v, end)
    ensures var x := Last(h).txns[tid]; x.phase.Active? && !Wrote(Writes(x.log), x.pending.value.key)
  {
    LastInv(h);
    assert TxnOk(Last(h), tid);
    var s' := ReadIsStep(Last(h), sv', tid, v, end);
    x' := s'.txns[tid];
    h' := NextState(h, s', AttemptRead(tid, v, end));
  }

  lemma WriteExtends(h: SafeRun, sv': Server, tid: uint64, key: uint64, value: Value) returns (h': SafeRun)
    requires Idle(Last(h), tid) && RunWrite(Last(h).sv, sv', tid, key, value)
    ensures var s := Last(h);
            Extends(h, h', Changed(s, sv', tid, WithWrite(s.txns[tid], key, value), s.ready, s.rids),
                    BufferWrite(tid, key, value))
  {
    LastInv(h);
    var s' := WriteIsStep(Last(h), sv', tid, key, value);
    h' := NextState(h, s', BufferWrite(tid, key, value));
  }

  lemma PrepareExtends(h: SafeRun, sv': Server, tid: uint64, n: nat, vote: bool) returns (h': SafeRun)
    requires Idle(Last(h), tid) && Writes(Last(h).txns[tid].log) != []
    requires RunPrepare(Last(h).sv, sv', tid, Last(h).txns[tid].start, n, vote)
    ensures var s := Last(h);
            Extends(h, h', Changed(s, sv', tid, s.txns[tid].(phase := Prepared(vote)), s.ready, s.rids),
                    Prepare(tid, n, vote))
  {
    LastInv(h);
    var s' := PrepareIsStep(Last(h), sv', tid, n, vote);
    h' := NextState(h, s', Prepare(tid, n, vote));
  }

  lemma FinishExtends(h: SafeRun, sv': Server, tid: uint64, commit: bool, woken: set<uint64>) returns (h': SafeRun)
    requires tid in Last(h).txns && MayFinish(Last(h).txns[tid], commit)
    requires RunFinish(Last(h).sv, sv', tid, commit, false, woken)
    requires commit || SoleReader(Last(h).sv.locks, tid)
    ensures var s := Last(h);
            Extends(h, h', Changed(s, sv', tid, s.txns[tid].(phase := Done(commit)), s.ready + woken, s.rids),
                    Finish(tid, commit, woken))
  {
    LastInv(h);
    var s' := FinishIsStep(Last(h), sv', tid, commit, woken);
    h' := NextState(h, s', Finish(tid, commit, woken));
  }
}
