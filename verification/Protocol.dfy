/**
 * The multi-version timestamp-ordering protocol: coordinators that run one request at a time
 * against a server, as a state machine whose server steps are the relations of ServerSpec.
 */
module Protocol {
  import opened LockTypes
  import opened VersionStore
  import opened SerialReplay
  import opened ServerSpec

  datatype Phase = Active | Prepared(vote: bool) | Committed | Aborted

  /**
   * A read that was sent and not answered. `cursor` is the timestamp of its next attempt: the
   * server moves it back each time the read is blocked, and then `end` is where it waits.
   */
  datatype Pending = Pending(key: uint64, cursor: uint64, rid: uint64, end: uint64)

  /** A coordinator: `seen` remembers which version each server read returned. */
  datatype Txn = Txn(
    start: uint64,
    phase: Phase,
    log: seq<Op>,
    pending: Option<Pending>,
    seen: map<uint64, uint64>)

  /** `ready` are the unanswered requests due to run, `rids` all request ids used so far. */
  datatype State = State(sv: Server, txns: map<uint64, Txn>, ready: set<uint64>, rids: set<uint64>)

  datatype Action =
    | Begin(tid: uint64, ts: uint64)
    | OwnRead(tid: uint64, key: uint64)
    | IssueRead(tid: uint64, key: uint64, rid: uint64)
    | AttemptRead(tid: uint64, v: uint64, end: uint64)
    | BufferWrite(tid: uint64, key: uint64, value: Value)
    | Prepare(tid: uint64, n: nat, vote: bool)
    | Finish(tid: uint64, commit: bool, woken: set<uint64>)

  predicate Live(p: Phase) {
    p.Active? || p.Prepared?
  }

  /** The transaction may send its next request. */
  predicate Idle(s: State, tid: uint64) {
    tid in s.txns && s.txns[tid].phase.Active? && s.txns[tid].pending.None?
  }

  ghost predicate Init(s: State) {
    && (forall k: uint64, t: uint64 :: s.sv.locks(k, t) == if t == 0 then SENTINEL_CELL else FREE_CELL)
    && (forall k: uint64, t: uint64 :: s.sv.events(k, t) == {})
    && s.sv.store == map[] && s.sv.pend == map[] && s.sv.rdy == map[]
    && s.txns == map[] && s.ready == {} && s.rids == {}
  }

  ghost predicate SameServer(sv: Server, sv': Server) {
    && SameLocks(sv.locks, sv'.locks) && SameEvents(sv.events, sv'.events)
    && sv'.store == sv.store && sv'.pend == sv.pend && sv'.rdy == sv.rdy
  }

  ghost predicate BeginStep(s: State, s': State, tid: uint64, ts: uint64) {
    && tid !in s.txns && 1 <= ts
    && SameServer(s.sv, s'.sv)
    && s'.txns == s.txns[tid := Txn(ts, Active, [], None, map[])]
    && s'.ready == s.ready && s'.rids == s.rids
  }

  /** A read of a key the transaction wrote is answered from its own buffer. */
  ghost predicate OwnReadStep(s: State, s': State, tid: uint64, key: uint64) {
    && Idle(s, tid) && Wrote(Writes(s.txns[tid].log), key)
    && SameServer(s.sv, s'.sv)
    && s'.txns == s.txns[tid := s.txns[tid].(
                         log := s.txns[tid].log + [ReadOp(key, LastValue(Writes(s.txns[tid].log), key))])]
    && s'.ready == s.ready && s'.rids == s.rids
  }

  ghost predicate IssueReadStep(s: State, s': State, tid: uint64, key: uint64, rid: uint64) {
    && Idle(s, tid) && !Wrote(Writes(s.txns[tid].log), key) && rid !in s.rids
    && SameServer(s.sv, s'.sv)
    && s'.txns == s.txns[tid := s.txns[tid].(pending := Some(Pending(key, s.txns[tid].start, rid, 0)))]
    && s'.ready == s.ready + {rid} && s'.rids == s.rids + {rid}
  }

  /** The coordinator after its read was answered with version `v`. */
  function Answered(x: Txn, key: uint64, v: uint64, value: Value): Txn {
    x.(log := x.log + [ReadOp(key, value)], pending := None, seen := x.seen[key := v])
  }

  /** A waiting or fresh read runs: it is answered with a version, or blocked further back. */
  ghost predicate AttemptReadStep(s: State, s': State, tid: uint64, v: uint64, end: uint64) {
    && tid in s.txns && s.txns[tid].pending.Some? && s.txns[tid].pending.value.rid in s.ready
    && var x := s.txns[tid]; var p := x.pending.value;
    && RunRead(s.sv, s'.sv, tid, p.key, p.cursor, p.rid, v, end)
    && (if Frozen(s.sv.locks(p.key, v)) then
          && Get(s.sv.store, p.key, v).Some?
          && s'.txns == s.txns[tid := Answered(x, p.key, v, Get(s.sv.store, p.key, v).value)]
        else
          && v < UINT64_MAX
          && s'.txns == s.txns[tid := x.(pending := Some(p.(cursor := v + 1, end := end)))])
    && s'.ready == s.ready - {p.rid} && s'.rids == s.rids
  }

  ghost predicate BufferWriteStep(s: State, s': State, tid: uint64, key: uint64, value: Value) {
    && Idle(s, tid)
    && RunWrite(s.sv, s'.sv, tid, key, value)
    && s'.txns == s.txns[tid := s.txns[tid].(log := s.txns[tid].log + [WriteOp(key, value)])]
    && s'.ready == s.ready && s'.rids == s.rids
  }

  /** Phase one is only asked of servers that hold buffered writes. */
  ghost predicate PrepareStep(s: State, s': State, tid: uint64, n: nat, vote: bool) {
    && Idle(s, tid) && Writes(s.txns[tid].log) != []
    && RunPrepare(s.sv, s'.sv, tid, s.txns[tid].start, n, vote)
    && s'.txns == s.txns[tid := s.txns[tid].(phase := Prepared(vote))]
    && s'.ready == s.ready && s'.rids == s.rids
  }

  /** Commit needs a yes vote, or no writes to vote on; abort is possible whatever the vote was. */
  predicate MayFinish(x: Txn, commit: bool) {
    || (x.phase.Prepared? && (commit ==> x.phase.vote))
    || (x.phase.Active? && x.pending.None? && Writes(x.log) == [])
  }

  ghost predicate FinishStep(s: State, s': State, tid: uint64, commit: bool, woken: set<uint64>, repaired: bool) {
    && tid in s.txns && MayFinish(s.txns[tid], commit)
    && RunFinish(s.sv, s'.sv, tid, commit, repaired, woken)
    && s'.txns == s.txns[tid := s.txns[tid].(phase := if commit then Committed else Aborted)]
    && s'.ready == s.ready + woken && s'.rids == s.rids
  }

  /** One step; `repaired` selects the unlock rule (see LockTypes.UnlockCell). */
  ghost predicate Next(s: State, s': State, a: Action, repaired: bool) {
    match a
    case Begin(tid, ts) => BeginStep(s, s', tid, ts)
    case OwnRead(tid, key) => OwnReadStep(s, s', tid, key)
    case IssueRead(tid, key, rid) => IssueReadStep(s, s', tid, key, rid)
    case AttemptRead(tid, v, end) => AttemptReadStep(s, s', tid, v, end)
    case BufferWrite(tid, key, value) => BufferWriteStep(s, s', tid, key, value)
    case Prepare(tid, n, vote) => PrepareStep(s, s', tid, n, vote)
    case Finish(tid, commit, woken) => FinishStep(s, s', tid, commit, woken, repaired)
  }

  /**
   * What a caller can check before an abort: either unlock follows the documented rule, or the
   * aborting transaction shares none of its read locks.
   */
  ghost predicate Safe(s: State, a: Action, repaired: bool) {
    a.Finish? && !a.commit ==> repaired || SoleReader(s.sv.locks, a.tid)
  }

  ghost predicate IsRun(run: seq<State>, acts: seq<Action>, repaired: bool) {
    && |run| == |acts| + 1
    && Init(run[0])
    && forall i | 0 <= i < |acts| :: Next(run[i], run[i + 1], acts[i], repaired)
  }

  ghost predicate IsSafeRun(run: seq<State>, acts: seq<Action>, repaired: bool) {
    && IsRun(run, acts, repaired)
    && forall i | 0 <= i < |acts| :: Safe(run[i], acts[i], repaired)
  }
}
