/**
 * What the protocol is for: committed transactions are serializable in timestamp order.
 */
module Serializability {
  import opened LockTypes
  import opened VersionStore
  import opened SerialReplay
  import opened ServerSpec
  import opened Protocol
  import opened ProtocolInvariant
  import opened ProtocolCommit

  /** `order` lists the committed transactions, each once, by start timestamp, ties in any order. */
  ghost predicate TimeOrder(s: State, order: seq<uint64>) {
    && (forall tid :: tid in order <==> tid in s.txns && s.txns[tid].phase.Committed?)
    && (forall i, j | 0 <= i < j < |order| ::
          order[i] != order[j] && s.txns[order[i]].start <= s.txns[order[j]].start)
  }

  /** `order` lists the committed transactions by strictly increasing start timestamp. */
  ghost predicate SerialOrder(s: State, order: seq<uint64>) {
    && (forall tid :: tid in order <==> tid in s.txns && s.txns[tid].phase.Committed?)
    && (forall i, j | 0 <= i < j < |order| :: s.txns[order[i]].start < s.txns[order[j]].start)
  }

  function Logs(txns: map<uint64, Txn>, order: seq<uint64>): seq<seq<Op>>
    requires forall tid | tid in order :: tid in txns
  {
    if order == [] then [] else Logs(txns, order[..|order| - 1]) + [txns[order[|order| - 1]].log]
  }

  ghost function WritesAt(s: State, order: seq<uint64>, j: nat): seq<Write>
    requires TimeOrder(s, order) && j < |order|
  {
    Writes(s.txns[order[j]].log)
  }

  /** The serial database after the first `n` transactions. */
  ghost function DbAt(s: State, order: seq<uint64>, n: nat): Db
    requires TimeOrder(s, order) && n <= |order|
  {
    AfterAll(Logs(s.txns, order[..n]))
  }

  lemma DbSnoc(s: State, order: seq<uint64>, n: nat)
    requires TimeOrder(s, order) && n < |order|
    ensures DbAt(s, order, n + 1) == After(s.txns[order[n]].log, DbAt(s, order, n))
    ensures Logs(s.txns, order[..n + 1]) == Logs(s.txns, order[..n]) + [s.txns[order[n]].log]
  {
    assert order[..n + 1][..n] == order[..n];
    var logs := Logs(s.txns, order[..n + 1]);
    assert logs[..|logs| - 1] == Logs(s.txns, order[..n]);
  }

  /** The last of the first `n` transactions that wrote `k`, or -1. */
  ghost function LastWriter(s: State, order: seq<uint64>, n: nat, k: uint64): (j: int)
    requires TimeOrder(s, order) && n <= |order|
    ensures -1 <= j < n
    ensures j >= 0 ==> Wrote(WritesAt(s, order, j), k)
    ensures forall i | j < i < n :: !Wrote(WritesAt(s, order, i), k)
  {
    if n == 0 then -1
    else if Wrote(WritesAt(s, order, n - 1), k) then n - 1
    else LastWriter(s, order, n - 1, k)
  }

  /** The serial database holds, for each key, what its last writer so far wrote. */
  lemma {:induction false} DbHolds(s: State, order: seq<uint64>, n: nat, k: uint64)
    requires TimeOrder(s, order) && n <= |order|
    ensures var j := LastWriter(s, order, n, k);
            Current(DbAt(s, order, n), k) == if j < 0 then INITIAL_VALUE else LastValue(WritesAt(s, order, j), k)
  {
    if n > 0 {
      DbHolds(s, order, n - 1, k);
      DbSnoc(s, order, n - 1);
      AfterCurrent(s.txns[order[n - 1]].log, DbAt(s, order, n - 1), k);
    }
  }

  /** The writers of `k` that start below `ts` are among the first `n` transactions, and no others are. */
  ghost predicate Below(s: State, order: seq<uint64>, n: nat, k: uint64, ts: int)
    requires TimeOrder(s, order) && n <= |order|
  {
    forall j | 0 <= j < |order| && Wrote(WritesAt(s, order, j), k) :: j < n <==> s.txns[order[j]].start < ts
  }

  /** `v` is the newest version of `k` below `ts`. */
  ghost predicate NewestBelow(store: Store, k: uint64, v: uint64, ts: int) {
    && v < ts
    && (v == 0 || HasVersion(store, k, v))
    && forall t: uint64 | v < t < ts :: !HasVersion(store, k, t)
  }

  /** A committed writer of `k` below `ts` is not newer than the newest version. */
  lemma WriterNotNewer(s: State, order: seq<uint64>, j: nat, k: uint64, v: uint64, ts: int)
    requires CommitsInv(s) && TimeOrder(s, order) && j < |order|
    requires Wrote(WritesAt(s, order, j), k) && s.txns[order[j]].start < ts
    requires NewestBelow(s.sv.store, k, v, ts)
    ensures s.txns[order[j]].start <= v
  {
    var t := s.txns[order[j]].start;
    assert CommittedWriter(s.txns, order[j], k, t);
    assert HasVersion(s.sv.store, k, t);
  }

  /** The writer of a version below `ts` is among the first `n` transactions. */
  lemma WriterIndex(s: State, order: seq<uint64>, n: nat, k: uint64, v: uint64, ts: int) returns (j: nat)
    requires VersionsInv(s) && CommitsInv(s)
    requires TimeOrder(s, order) && n <= |order| && Below(s, order, n, k, ts)
    requires HasVersion(s.sv.store, k, v) && v < ts
    ensures j < n && s.txns[order[j]].start == v && Wrote(WritesAt(s, order, j), k)
    ensures Lookup(s.sv.store, k, v) == Some(LastValue(WritesAt(s, order, j), k))
  {
    var w :| CommittedWriter(s.txns, w, k, v);
    assert w in order;
    j :| 0 <= j < |order| && order[j] == w;
  }

  /** Of the transactions at one timestamp, at most one wrote a key. */
  lemma OneWriter(s: State, order: seq<uint64>, i: nat, j: nat, k: uint64)
    requires WritersUnique(s) && TimeOrder(s, order) && i < |order| && j < |order|
    requires s.txns[order[i]].start == s.txns[order[j]].start
    requires Wrote(WritesAt(s, order, i), k) && Wrote(WritesAt(s, order, j), k)
    ensures i == j
  {
    var t := s.txns[order[i]].start;
    assert order[i] in order && order[j] in order;
    assert CommittedWriter(s.txns, order[i], k, t) && CommittedWriter(s.txns, order[j], k, t);
  }

  /**
   * The multi-version store agrees with the serial execution: the newest version of a key below
   * a timestamp is what the database holds after the transactions below that timestamp.
   */
  lemma NewestIsSerial(s: State, order: seq<uint64>, n: nat, k: uint64, v: uint64, ts: int)
    requires Inv(s)
    requires TimeOrder(s, order) && n <= |order| && Below(s, order, n, k, ts)
    requires NewestBelow(s.sv.store, k, v, ts)
    ensures Get(s.sv.store, k, v) == Some(Current(DbAt(s, order, n), k))
  {
    DbHolds(s, order, n, k);
    var last := LastWriter(s, order, n, k);
    if last >= 0 {
      WriterNotNewer(s, order, last, k, v, ts);
      assert TxnOk(s, order[last]);
    }
    if v != 0 {
      var j := WriterIndex(s, order, n, k, v, ts);
      OneWriter(s, order, j, last, k);
    }
  }

  /** The versions a committed transaction read are the newest below its timestamp. */
  lemma SeenIsNewest(s: State, tid: uint64, k: uint64)
    requires Inv(s) && tid in s.txns && s.txns[tid].phase.Committed? && k in s.txns[tid].seen
    ensures NewestBelow(s.sv.store, k, s.txns[tid].seen[k], s.txns[tid].start)
  {
    var x := s.txns[tid];
    assert TxnOk(s, tid);
    var v := x.seen[k];
    forall t: uint64 | v < t < x.start ensures !HasVersion(s.sv.store, k, t) {
      assert Guarded(s.sv.locks(k, t), tid, false);
    }
    assert HasVersion(s.sv.store, k, v) <==> v > 0;
  }

  // ----- ties

  /** The i-th transaction comes before the n-th one, at the same timestamp, and wrote a key that it read. */
  ghost predicate TiedWriter(s: State, order: seq<uint64>, i: nat, n: nat, k: uint64)
    requires TimeOrder(s, order) && i < n < |order|
  {
    && s.txns[order[i]].start == s.txns[order[n]].start
    && k in s.txns[order[n]].seen && Wrote(WritesAt(s, order, i), k)
  }

  /** The version that the n-th transaction read of `k` has the value that the i-th one wrote. */
  ghost predicate SameValue(s: State, order: seq<uint64>, i: nat, n: nat, k: uint64)
    requires TimeOrder(s, order) && i < n < |order| && TiedWriter(s, order, i, n, k)
  {
    Get(s.sv.store, k, s.txns[order[n]].seen[k]) == Some(LastValue(WritesAt(s, order, i), k))
  }

  /** What the n-th transaction read is not contradicted by a transaction it ties with. */
  ghost predicate TiesAgree(s: State, order: seq<uint64>, n: nat)
    requires TimeOrder(s, order) && n < |order|
  {
    forall i, k: uint64 | 0 <= i < n && TiedWriter(s, order, i, n, k) :: SameValue(s, order, i, n, k)
  }

  /** No writer of `k` before the n-th transaction ties with it: the database holds what it read. */
  lemma UntiedAgrees(s: State, order: seq<uint64>, n: nat, k: uint64)
    requires Inv(s) && TimeOrder(s, order) && n < |order| && k in s.txns[order[n]].seen
    requires forall i | 0 <= i < n :: !TiedWriter(s, order, i, n, k)
    ensures Get(s.sv.store, k, s.txns[order[n]].seen[k]) == Some(Current(DbAt(s, order, n), k))
  {
    SeenIsNewest(s, order[n], k);
    forall j | 0 <= j < |order| && Wrote(WritesAt(s, order, j), k)
      ensures j < n <==> s.txns[order[j]].start < s.txns[order[n]].start
    {
      assert j < n ==> !TiedWriter(s, order, j, n, k);
    }
    NewestIsSerial(s, order, n, k, s.txns[order[n]].seen[k], s.txns[order[n]].start);
  }

  /** A writer of `k` that ties is the last one: the database holds what it wrote. */
  lemma TiedHolds(s: State, order: seq<uint64>, i: nat, n: nat, k: uint64)
    requires Inv(s) && TimeOrder(s, order) && i < n < |order| && TiedWriter(s, order, i, n, k)
    ensures Current(DbAt(s, order, n), k) == LastValue(WritesAt(s, order, i), k)
  {
    DbHolds(s, order, n, k);
    OneWriter(s, order, i, LastWriter(s, order, n, k), k);
  }

  /** The database before the n-th transaction holds what that transaction read of `k`. */
  ghost predicate HoldsSeen(s: State, order: seq<uint64>, n: nat, k: uint64)
    requires TimeOrder(s, order) && n < |order| && k in s.txns[order[n]].seen
  {
    Get(s.sv.store, k, s.txns[order[n]].seen[k]) == Some(Current(DbAt(s, order, n), k))
  }

  lemma CurrentIff(s: State, order: seq<uint64>, n: nat)
    requires Inv(s) && TimeOrder(s, order) && n < |order|
    ensures TiesAgree(s, order, n) <==> forall k | k in s.txns[order[n]].seen :: HoldsSeen(s, order, n, k)
  {
    forall i, k: uint64 | 0 <= i < n && TiedWriter(s, order, i, n, k)
      ensures SameValue(s, order, i, n, k) <==> HoldsSeen(s, order, n, k)
    {
      TiedHolds(s, order, i, n, k);
    }
    if TiesAgree(s, order, n) {
      forall k | k in s.txns[order[n]].seen ensures HoldsSeen(s, order, n, k) {
        if i: nat :| i < n && TiedWriter(s, order, i, n, k) {
          assert SameValue(s, order, i, n, k);
        } else {
          UntiedAgrees(s, order, n, k);
        }
      }
    }
  }

  // ----- replaying one transaction

  /** Every version that a transaction saw answers a read in its log. */
  ghost predicate SeenInLog(log: seq<Op>, seen: map<uint64, uint64>) {
    forall k | k in seen :: AskedInLog(log, k)
  }

  /** The log has a read of `k` before any write of it. */
  predicate AskedInLog(log: seq<Op>, k: uint64) {
    log != [] &&
    (var front := log[..|log| - 1];
     || AskedInLog(front, k)
     || (log[|log| - 1].ReadOp? && log[|log| - 1].key == k && !Wrote(Writes(front), k)))
  }

  ghost predicate SeenInv(s: State) {
    forall tid | tid in s.txns :: SeenInLog(s.txns[tid].log, s.txns[tid].seen)
  }

  lemma AskedSnoc(log: seq<Op>, op: Op, k: uint64)
    ensures AskedInLog(log + [op], k) <==> AskedInLog(log, k) || (op.ReadOp? && op.key == k && !Wrote(Writes(log), k))
  {
    var all := log + [op];
    assert all[..|all| - 1] == log && all[|all| - 1] == op;
  }

  predicate LogsOp(x: Txn, x': Txn, op: Op) {
    x'.log == x.log + [op] && x'.seen == x.seen
  }

  predicate LogsAnswer(x: Txn, x': Txn, k: uint64, v: uint64, value: Value) {
    !Wrote(Writes(x.log), k) && x'.log == x.log + [ReadOp(k, value)] && x'.seen == x.seen[k := v]
  }

  /** A log only grows by one entry at a time, and only an answer adds a version. */
  ghost predicate GrownBy(x: Txn, x': Txn) {
    || (x'.log == x.log && x'.seen == x.seen)
    || (exists op :: LogsOp(x, x', op))
    || (exists k: uint64, v: uint64, value :: LogsAnswer(x, x', k, v, value))
  }

  lemma StepGrows(s: State, s': State, a: Action, repaired: bool, tid: uint64)
    requires TxnsOk(s) && Next(s, s', a, repaired) && tid in s'.txns
    ensures tid in s.txns ==> GrownBy(s.txns[tid], s'.txns[tid])
    ensures tid !in s.txns ==> s'.txns[tid].seen == map[]
  {
    if tid in s.txns && a.tid == tid {
      assert TxnOk(s, tid);
      var x, x' := s.txns[tid], s'.txns[tid];
      match a
      case OwnRead(_, key) => assert LogsOp(x, x', ReadOp(key, LastValue(Writes(x.log), key)));
      case BufferWrite(_, key, value) => assert LogsOp(x, x', WriteOp(key, value));
      case AttemptRead(_, v, end) => AttemptGrows(s, s', tid, v, end);
      case _ =>
    }
  }

  lemma AttemptGrows(s: State, s': State, tid: uint64, v: uint64, end: uint64)
    requires AttemptReadStep(s, s', tid, v, end) && PendingOk(s.sv.locks, tid, s.txns[tid])
    ensures GrownBy(s.txns[tid], s'.txns[tid])
  {
    var x, key := s.txns[tid], s.txns[tid].pending.value.key;
    if Frozen(s.sv.locks(key, v)) {
      assert LogsAnswer(x, s'.txns[tid], key, v, Get(s.sv.store, key, v).value);
    }
  }

  lemma GrownSeen(x: Txn, x': Txn)
    requires GrownBy(x, x') && SeenInLog(x.log, x.seen)
    ensures SeenInLog(x'.log, x'.seen)
  {
    if x'.log != x.log {
      var op := x'.log[|x.log|];
      assert x'.log == x.log + [op];
      forall k | k in x'.seen ensures AskedInLog(x'.log, k) {
        AskedSnoc(x.log, op, k);
      }
    }
  }

  lemma SeenStep(s: State, s': State, a: Action, repaired: bool)
    requires TxnsOk(s) && SeenInv(s) && Next(s, s', a, repaired)
    ensures SeenInv(s')
  {
    forall tid | tid in s'.txns ensures SeenInLog(s'.txns[tid].log, s'.txns[tid].seen) {
      StepGrows(s, s', a, repaired, tid);
      if tid in s.txns {
        GrownSeen(s.txns[tid], s'.txns[tid]);
      }
    }
  }

  lemma SeenAt(run: seq<State>, acts: seq<Action>, repaired: bool, i: nat)
    requires IsSafeRun(run, acts, repaired) && i < |acts| && SeenInv(run[i])
    ensures SeenInv(run[i + 1])
  {
    RunInv(run, acts, repaired, i);
    SeenStep(run[i], run[i + 1], acts[i], repaired);
  }

  lemma {:induction false} SeenRun(run: seq<State>, acts: seq<Action>, repaired: bool, i: nat)
    requires IsSafeRun(run, acts, repaired) && i < |run|
    ensures SeenInv(run[i])
  {
    if i > 0 {
      SeenRun(run, acts, repaired, i - 1);
      SeenAt(run, acts, repaired, i - 1);
    }
  }

  /**
   * A log whose reads came from versions agrees with a database if and only if the database holds each
   * version that the log asked for.
   */
  lemma {:induction false} LogAgreesIff(store: Store, log: seq<Op>, seen: map<uint64, uint64>, db: Db)
    requires LogOk(store, log, seen)
    ensures ReadsAgree(log, db) <==>
            forall k | AskedInLog(log, k) :: k in seen && Get(store, k, seen[k]) == Some(Current(db, k))
  {
    if log != [] {
      var front, op := log[..|log| - 1], log[|log| - 1];
      LogAgreesIff(store, front, seen, db);
      AfterCurrent(front, db, op.key);
      assert log == front + [op];
      forall k ensures AskedInLog(log, k) <==>
                       AskedInLog(front, k) || (op.ReadOp? && op.key == k && !Wrote(Writes(front), k))
      {
        AskedSnoc(front, op, k);
      }
    }
  }

  /** Only keys that were seen are asked for. */
  lemma {:induction false} AskedIsSeen(store: Store, log: seq<Op>, seen: map<uint64, uint64>, k: uint64)
    requires LogOk(store, log, seen) && AskedInLog(log, k)
    ensures k in seen
  {
    if AskedInLog(log[..|log| - 1], k) {
      AskedIsSeen(store, log[..|log| - 1], seen, k);
    }
  }

  /** Replaying the n-th transaction after those before it reproduces its reads exactly if its ties agree. */
  lemma CommittedAgreesIff(s: State, order: seq<uint64>, n: nat)
    requires Inv(s) && SeenInv(s) && TimeOrder(s, order) && n < |order|
    ensures ReadsAgree(s.txns[order[n]].log, DbAt(s, order, n)) <==> TiesAgree(s, order, n)
  {
    var x := s.txns[order[n]];
    assert TxnOk(s, order[n]);
    CurrentIff(s, order, n);
    LogAgreesIff(s.sv.store, x.log, x.seen, DbAt(s, order, n));
    forall k ensures k in x.seen <==> AskedInLog(x.log, k) {
      if AskedInLog(x.log, k) {
        AskedIsSeen(s.sv.store, x.log, x.seen, k);
      }
    }
    assert forall k | k in x.seen ::
        HoldsSeen(s, order, n, k) <==> Get(s.sv.store, k, x.seen[k]) == Some(Current(DbAt(s, order, n), k));
  }

  /** One more transaction can be replayed exactly if its ties agree. */
  ghost predicate GoesOnIff(s: State, order: seq<uint64>, n: nat)
    requires TimeOrder(s, order) && n < |order|
  {
    SerialRun(Logs(s.txns, order[..n + 1])) <==> SerialRun(Logs(s.txns, order[..n])) && TiesAgree(s, order, n)
  }

  lemma SerialSnocIff(s: State, order: seq<uint64>, n: nat)
    requires Inv(s) && SeenInv(s) && TimeOrder(s, order) && n < |order|
    ensures GoesOnIff(s, order, n)
  {
    CommittedAgreesIff(s, order, n);
    SerialSnoc(s, order, n);
  }

  lemma {:induction false} SerialPrefixIff(s: State, order: seq<uint64>, n: nat)
    requires TimeOrder(s, order) && n <= |order| && forall m: nat | m < |order| :: GoesOnIff(s, order, m)
    ensures SerialRun(Logs(s.txns, order[..n])) <==> forall i | 0 <= i < n :: TiesAgree(s, order, i)
  {
    if n > 0 {
      var m: nat := n - 1;
      SerialPrefixIff(s, order, m);
      assert GoesOnIff(s, order, m);
    }
  }

  /** Replaying one more transaction. */
  lemma SerialSnoc(s: State, order: seq<uint64>, n: nat)
    requires TimeOrder(s, order) && n < |order|
    ensures SerialRun(Logs(s.txns, order[..n + 1])) <==>
            SerialRun(Logs(s.txns, order[..n])) && ReadsAgree(s.txns[order[n]].log, DbAt(s, order, n))
  {
    DbSnoc(s, order, n);
    var logs := Logs(s.txns, order[..n + 1]);
    assert logs[..|logs| - 1] == Logs(s.txns, order[..n]);
  }

  /**
   * The exact extent of serializability, ties or not. In every state of every safe run, for every order of
   * the committed transactions by start timestamp: replaying them one at a time reproduces every value
   * they read if and only if no transaction read, of a key that one it ties with wrote before it in the
   * order, a version with another value.
   */
  lemma SerializableIffTiesAgree(run: seq<State>, acts: seq<Action>, repaired: bool, i: nat, order: seq<uint64>)
    requires IsSafeRun(run, acts, repaired) && i < |run|
    requires TimeOrder(run[i], order)
    ensures SerialRun(Logs(run[i].txns, order)) <==> forall n | 0 <= n < |order| :: TiesAgree(run[i], order, n)
  {
    RunInv(run, acts, repaired, i);
    SeenRun(run, acts, repaired, i);
    forall m: nat | m < |order| ensures GoesOnIff(run[i], order, m) {
      SerialSnocIff(run[i], order, m);
    }
    SerialPrefixIff(run[i], order, |order|);
    assert order[..|order|] == order;
  }

  /**
   * Timestamp-order serializability. In every state of every safe run, replaying the committed
   * transactions one at a time by start timestamp reproduces every value they read.
   */
  lemma TimestampOrderSerializable(run: seq<State>, acts: seq<Action>, repaired: bool, i: nat, order: seq<uint64>)
    requires IsSafeRun(run, acts, repaired) && i < |run|
    requires SerialOrder(run[i], order)
    ensures SerialRun(Logs(run[i].txns, order))
  {
    SerializableIffTiesAgree(run, acts, repaired, i, order);
  }

  /** And the database the replay ends with is the newest version of every key, ties or not. */
  lemma FinalStateSerializable(run: seq<State>, acts: seq<Action>, repaired: bool, i: nat, order: seq<uint64>,
                               k: uint64, v: uint64)
    requires IsSafeRun(run, acts, repaired) && i < |run|
    requires TimeOrder(run[i], order) && NewestBelow(run[i].sv.store, k, v, UINT64_MAX + 1)
    ensures Get(run[i].sv.store, k, v) == Some(Current(AfterAll(Logs(run[i].txns, order)), k))
  {
    RunInv(run, acts, repaired, i);
    NewestIsSerial(run[i], order, |order|, k, v, UINT64_MAX + 1);
    assert order[..|order|] == order;
  }
}
