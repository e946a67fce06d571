/**
 * Start timestamps are whole seconds, so two transactions can have the same one. Then timestamp
 * order does not say which comes first, and neither order may explain what they read.
 */
module TiedTimestamps {
  import opened LockTypes
  import opened VersionStore
  import opened SerialReplay
  import opened ServerSpec
  import opened Protocol

  // Transactions 1 and 2 both start at 10. Transaction 1 reads key 1 and writes key 2, transaction 2
  // reads key 2 and writes key 1. Reads lock what lies below 10, writes lock 10 itself, so neither
  // is in the way of the other and both commit.

  ghost function TiedLocks(i: nat): Locks {
    (k: uint64, t: uint64) =>
      if t == 0 then SENTINEL_CELL
      else if t > 10 || (k != 1 && k != 2) then FREE_CELL
      else if k == 1 && t < 10 then
        if i < 4 then FREE_CELL else if i < 11 then Cell(ReadLock, {1}) else Cell(FreezeReadLock, {})
      else if k == 1 then
        if i < 10 then FREE_CELL else if i < 12 then Cell(WriteLock, {2}) else Cell(FreezeWriteLock, {})
      else if t < 10 then
        if i < 6 then FREE_CELL else if i < 12 then Cell(ReadLock, {2}) else Cell(FreezeReadLock, {})
      else
        if i < 9 then FREE_CELL else if i < 11 then Cell(WriteLock, {1}) else Cell(FreezeWriteLock, {})
  }

  function TiedPending(i: nat): map<uint64, seq<Write>> {
    if i < 7 then map[]
    else if i == 7 then map[1 := [Write(2, "x")]]
    else if i < 11 then map[1 := [Write(2, "x")], 2 := [Write(1, "y")]]
    else if i == 11 then map[2 := [Write(1, "y")]]
    else map[]
  }

  ghost function TiedServer(i: nat): Server {
    Server(TiedLocks(i), (k: uint64, t: uint64) => {},
           if i < 11 then map[]
           else if i == 11 then map[2 := map[10 := "x"]]
           else map[2 := map[10 := "x"], 1 := map[10 := "y"]],
           TiedPending(i),
           if i < 9 then map[] else if i == 9 then map[1 := 10] else if i == 10 then map[1 := 10, 2 := 10]
           else if i == 11 then map[2 := 10] else map[])
  }

  /** The coordinator of one of the two, by the steps at which it reads, writes, prepares and commits. */
  function TiedTxn(i: nat, rid: uint64, own: uint64, other: uint64, value: Value, read: nat, write: nat, prepare: nat,
                   commit: nat): Txn
    requires read > 0
  {
    Txn(10,
        if i < prepare then Active else if i < commit then Prepared(true) else Committed,
        if i < read then []
        else if i < write then [ReadOp(own, INITIAL_VALUE)]
        else [ReadOp(own, INITIAL_VALUE), WriteOp(other, value)],
        if i == read - 1 then Some(Pending(own, 10, rid, 0)) else None,
        if i < read then map[] else map[own := 0])
  }

  function TiedTxns(i: nat): map<uint64, Txn> {
    var first := TiedTxn(i, 1, 1, 2, "x", 4, 7, 9, 11);
    var second := TiedTxn(i, 2, 2, 1, "y", 6, 8, 10, 12);
    if i == 0 then map[] else if i == 1 then map[1 := first] else map[1 := first, 2 := second]
  }

  ghost function TiedState(i: nat): State {
    State(TiedServer(i), TiedTxns(i),
          if i == 3 then {1} else if i == 5 then {2} else {},
          if i < 3 then {} else if i < 5 then {1} else {1, 2})
  }

  function TiedAction(i: nat): Action {
    match i
    case 0 => Begin(1, 10)
    case 1 => Begin(2, 10)
    case 2 => IssueRead(1, 1, 1)
    case 3 => AttemptRead(1, 0, 0)
    case 4 => IssueRead(2, 2, 2)
    case 5 => AttemptRead(2, 0, 0)
    case 6 => BufferWrite(1, 2, "x")
    case 7 => BufferWrite(2, 1, "y")
    case 8 => Prepare(1, 1, true)
    case 9 => Prepare(2, 1, true)
    case 10 => Finish(1, true, {})
    case _ => Finish(2, true, {})
  }

  lemma TiedBegins()
    ensures Next(TiedState(0), TiedState(1), TiedAction(0), false)
    ensures Next(TiedState(1), TiedState(2), TiedAction(1), false)
  {
  }

  lemma TiedIssues()
    ensures Next(TiedState(2), TiedState(3), TiedAction(2), false)
    ensures Next(TiedState(4), TiedState(5), TiedAction(4), false)
  {
  }

  lemma TiedRead1()
    ensures Next(TiedState(3), TiedState(4), TiedAction(3), false)
  {
    assert [] + [ReadOp(1, INITIAL_VALUE)] == [ReadOp(1, INITIAL_VALUE)];
    assert {} + {1} == {1};
  }

  lemma TiedRead2()
    ensures Next(TiedState(5), TiedState(6), TiedAction(5), false)
  {
    assert [] + [ReadOp(2, INITIAL_VALUE)] == [ReadOp(2, INITIAL_VALUE)];
    assert {} + {2} == {2};
  }

  lemma TiedWrite1()
    ensures Next(TiedState(6), TiedState(7), TiedAction(6), false)
  {
    assert [] + [Write(2, "x")] == [Write(2, "x")];
    assert [ReadOp(1, INITIAL_VALUE)] + [WriteOp(2, "x")] == [ReadOp(1, INITIAL_VALUE), WriteOp(2, "x")];
  }

  lemma TiedWrite2()
    ensures Next(TiedState(7), TiedState(8), TiedAction(7), false)
  {
    assert [] + [Write(1, "y")] == [Write(1, "y")];
    assert [ReadOp(2, INITIAL_VALUE)] + [WriteOp(1, "y")] == [ReadOp(2, INITIAL_VALUE), WriteOp(1, "y")];
  }

  /** What a coordinator that read one key and wrote another has written. */
  lemma TiedWrites(own: uint64, other: uint64, value: Value)
    ensures Writes([ReadOp(own, INITIAL_VALUE), WriteOp(other, value)]) == [Write(other, value)]
    ensures forall k: uint64 :: Wrote([Write(other, value)], k) <==> k == other
    ensures [Write(other, value)][..1] == [Write(other, value)] && [Write(other, value)][..0] == []
  {
    var read, write := ReadOp(own, INITIAL_VALUE), WriteOp(other, value);
    WritesSnoc([], read);
    WritesSnoc([read], write);
    assert [] + [read] == [read] && [read] + [write] == [read, write];
    assert [Write(other, value)][0] == Write(other, value);
  }

  /** What the two phase ones do to locks. */
  lemma TiedLockPoints(k: uint64, t: uint64)
    ensures TiedLocks(9)(k, t) == if t == 10 && k == 2 then LockCell(TiedLocks(8)(k, t), 1, false)
            else TiedLocks(8)(k, t)
    ensures TiedLocks(10)(k, t) == if t == 10 && k == 1 then LockCell(TiedLocks(9)(k, t), 2, false)
            else TiedLocks(9)(k, t)
    ensures TiedLocks(8)(2, 10) == FREE_CELL && TiedLocks(9)(1, 10) == FREE_CELL
  {
    assert {} + {1} == {1} && {} + {2} == {2};
  }

  /** Phase one for one buffered write. */
  lemma OneKeyPrepared(sv: Server, sv': Server, tid: uint64, key: uint64, value: Value)
    requires PendOf(sv, tid) == [Write(key, value)] && sv.locks(key, 10).status == Free
    requires forall k: uint64, t: uint64 ::
               sv'.locks(k, t) == if t == 10 && k == key then LockCell(sv.locks(k, t), tid, false) else sv.locks(k, t)
    requires SameEvents(sv.events, sv'.events) && sv'.rdy == sv.rdy[tid := 10] && sv'.store == sv.store
             && sv'.pend == sv.pend
    ensures RunPrepare(sv, sv', tid, 10, 1, true)
  {
    TiedWrites(key, key, value);
  }

  lemma TiedLock1()
    ensures RunPrepare(TiedServer(8), TiedServer(9), 1, 10, 1, true)
  {
    forall k: uint64, t: uint64
      ensures TiedLocks(9)(k, t) == if t == 10 && k == 2 then LockCell(TiedLocks(8)(k, t), 1, false)
              else TiedLocks(8)(k, t)
    {
      TiedLockPoints(k, t);
    }
    TiedLockPoints(2, 10);
    OneKeyPrepared(TiedServer(8), TiedServer(9), 1, 2, "x");
  }

  lemma TiedVotes()
    ensures TiedTxns(9) == TiedTxns(8)[1 := TiedTxns(8)[1].(phase := Prepared(true))]
    ensures TiedTxns(10) == TiedTxns(9)[2 := TiedTxns(9)[2].(phase := Prepared(true))]
    ensures Idle(TiedState(8), 1) && Writes(TiedTxns(8)[1].log) != [] && TiedTxns(8)[1].start == 10
    ensures Idle(TiedState(9), 2) && Writes(TiedTxns(9)[2].log) != [] && TiedTxns(9)[2].start == 10
  {
    TiedWrites(1, 2, "x");
    TiedWrites(2, 1, "y");
  }

  lemma TiedPrepare(i: nat, tid: uint64)
    requires (i == 8 && tid == 1) || (i == 9 && tid == 2)
    requires RunPrepare(TiedServer(i), TiedServer(i + 1), tid, 10, 1, true)
    ensures Next(TiedState(i), TiedState(i + 1), TiedAction(i), false)
  {
    TiedVotes();
    assert PrepareStep(TiedState(i), TiedState(i + 1), tid, 1, true);
  }

  lemma TiedLock2()
    ensures RunPrepare(TiedServer(9), TiedServer(10), 2, 10, 1, true)
  {
    forall k: uint64, t: uint64
      ensures TiedLocks(10)(k, t) == if t == 10 && k == 1 then LockCell(TiedLocks(9)(k, t), 2, false)
              else TiedLocks(9)(k, t)
    {
      TiedLockPoints(k, t);
    }
    TiedLockPoints(1, 10);
    OneKeyPrepared(TiedServer(9), TiedServer(10), 2, 1, "y");
  }

  lemma TiedFinish1()
    ensures RunFinish(TiedServer(10), TiedServer(11), 1, true, false, {})
  {
    var ws := [Write(2, "x")];
    assert ws[..0] == [] && SetAll(map[], 10, ws) == Set(map[], 2, 10, "x") == map[2 := map[10 := "x"]];
  }

  lemma TiedCommit1()
    ensures Next(TiedState(10), TiedState(11), TiedAction(10), false)
  {
    TiedFinish1();
    assert FinishStep(TiedState(10), TiedState(11), 1, true, {}, false);
  }

  lemma TiedCommit2()
    ensures Next(TiedState(11), TiedState(12), TiedAction(11), false)
  {
    assert [Write(1, "y")][..0] == [];
  }

  lemma TiedStep(i: nat)
    requires i < 12
    ensures Next(TiedState(i), TiedState(i + 1), TiedAction(i), false)
  {
    match i
    case 0 => TiedBegins();
    case 1 => TiedBegins();
    case 2 => TiedIssues();
    case 3 => TiedRead1();
    case 4 => TiedIssues();
    case 5 => TiedRead2();
    case 6 => TiedWrite1();
    case 7 => TiedWrite2();
    case 8 =>
      TiedLock1();
      TiedPrepare(8, 1);
    case 9 =>
      TiedLock2();
      TiedPrepare(9, 2);
    case 10 => TiedCommit1();
    case _ => TiedCommit2();
  }

  ghost function TiedRun(): seq<State> {
    seq(13, i requires i >= 0 => TiedState(i))
  }

  function TiedActions(): seq<Action> {
    seq(12, i requires i >= 0 => TiedAction(i))
  }

  lemma TiedIsSafeRun()
    ensures IsSafeRun(TiedRun(), TiedActions(), false)
  {
    forall i | 0 <= i < 12
      ensures Next(TiedRun()[i], TiedRun()[i + 1], TiedActions()[i], false)
              && Safe(TiedRun()[i], TiedActions()[i], false)
    {
      TiedStep(i);
    }
  }

  /** Whoever comes second read a key that the first had written. */
  lemma SecondReadsStale(first: seq<Op>, second: seq<Op>, k: uint64, value: Value, other: uint64, value': Value)
    requires first == [ReadOp(other, INITIAL_VALUE), WriteOp(k, value)] && value != INITIAL_VALUE
    requires second == [ReadOp(k, INITIAL_VALUE), WriteOp(other, value')]
    ensures !SerialRun([first, second])
  {
    var db := map[k := value];
    assert [first, second][..1] == [first] && [first][..0] == [];
    WritesSnoc([], first[0]);
    WritesSnoc([first[0]], first[1]);
    assert [] + [first[0]] == [first[0]] && [first[0]] + [first[1]] == first;
    assert AfterAll([first]) == After(first, map[]) == db;
    assert second[..1] == [second[0]] && [second[0]][..0] == [];
    assert !ReadsAgree([second[0]], db);
  }

  /** Both transactions of a safe run commit at the same timestamp, and neither order explains what they read. */
  lemma TiesBreakSerializability()
    ensures IsSafeRun(TiedRun(), TiedActions(), false)
    ensures var txns := TiedRun()[12].txns;
            && txns.Keys == {1, 2} && txns[1].phase.Committed? && txns[2].phase.Committed?
                && txns[1].start == txns[2].start
            && !SerialRun([txns[1].log, txns[2].log]) && !SerialRun([txns[2].log, txns[1].log])
  {
    TiedIsSafeRun();
    SecondReadsStale([ReadOp(1, INITIAL_VALUE), WriteOp(2, "x")], [ReadOp(2, INITIAL_VALUE), WriteOp(1, "y")], 2, "x",
                     1, "y");
    SecondReadsStale([ReadOp(2, INITIAL_VALUE), WriteOp(1, "y")], [ReadOp(1, INITIAL_VALUE), WriteOp(2, "x")], 1, "y",
                     2, "x");
  }
}
