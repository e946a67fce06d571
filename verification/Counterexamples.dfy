/**
 * With unlock as the source writes it, one abort that shares a read lock can break serializability.
 */
module Counterexamples {
  import opened LockTypes
  import opened VersionStore
  import opened SerialReplay
  import opened ServerSpec
  import opened Protocol
  import opened Serializability

  // ----- an abort that frees a point another reader still needs

  // Transactions 1 and 2 read key 7 at timestamps 10 and 20; transaction 1 aborts, which frees the
  // points below 10 although transaction 2 still relies on them; transaction 3 then commits a
  // write of key 7 at timestamp 5, under the read that transaction 2 goes on to commit.

  ghost function SharedLocks(i: nat): Locks {
    (k: uint64, t: uint64) =>
      if t == 0 then SENTINEL_CELL
      else if k != 7 || t >= 20 then FREE_CELL
      else if t >= 10 then
        if i < 6 then FREE_CELL else if i < 12 then Cell(ReadLock, {2}) else Cell(FreezeReadLock, {})
      else if i < 3 then FREE_CELL
      else if i < 6 then Cell(ReadLock, {1})
      else if i == 6 then Cell(ReadLock, {1, 2})
      else if t == 5 && i == 10 then Cell(WriteLock, {2, 3})
      else if t == 5 && i > 10 then Cell(FreezeWriteLock, {})
      else Cell(Free, {2})
  }

  ghost function SharedServer(i: nat): Server {
    Server(SharedLocks(i), (k: uint64, t: uint64) => {},
           if i < 11 then map[] else map[7 := map[5 := "x"]],
           if 9 <= i < 11 then map[3 := [Write(7, "x")]] else map[],
           if i == 10 then map[3 := 5] else map[])
  }

  function ReaderAt(start: uint64, rid: uint64, i: int, last: Phase): Txn {
    if i == 0 then Txn(start, Active, [], None, map[])
    else if i == 1 then Txn(start, Active, [], Some(Pending(7, start, rid, 0)), map[])
    else Txn(start, if i == 2 then Active else last, [ReadOp(7, INITIAL_VALUE)], None, map[7 := 0])
  }

  function WriterAt(i: int): Txn {
    Txn(5, if i < 2 then Active else if i == 2 then Prepared(true) else Committed,
        if i == 0 then [] else [WriteOp(7, "x")], None, map[])
  }

  /** The coordinators: transaction 1 acts at steps 0-2 and 6, 2 at 3-5 and 11, 3 at 7-10. */
  function SharedTxns(i: nat): map<uint64, Txn> {
    var first := ReaderAt(10, 1, if i <= 3 then i - 1 else if i < 7 then 2 else 3, Aborted);
    var second := ReaderAt(20, 2, if i <= 6 then i - 4 else if i < 12 then 2 else 3, Committed);
    var third := WriterAt(if i <= 11 then i - 8 else 3);
    if i == 0 then map[]
    else if i < 4 then map[1 := first]
    else if i < 8 then map[1 := first, 2 := second]
    else map[1 := first, 2 := second, 3 := third]
  }

  ghost function SharedState(i: nat): State {
    State(SharedServer(i), SharedTxns(i),
          if i == 2 then {1} else if i == 5 then {2} else {},
          if i < 2 then {} else if i < 5 then {1} else {1, 2})
  }

  function SharedAction(i: nat): Action {
    match i
    case 0 => Begin(1, 10)
    case 1 => IssueRead(1, 7, 1)
    case 2 => AttemptRead(1, 0, 0)
    case 3 => Begin(2, 20)
    case 4 => IssueRead(2, 7, 2)
    case 5 => AttemptRead(2, 0, 0)
    case 6 => Finish(1, false, {})
    case 7 => Begin(3, 5)
    case 8 => BufferWrite(3, 7, "x")
    case 9 => Prepare(3, 1, true)
    case 10 => Finish(3, true, {})
    case _ => Finish(2, true, {})
  }

  lemma SharedStep0()
    ensures Next(SharedState(0), SharedState(1), SharedAction(0), false)
  {
  }

  lemma SharedStep1()
    ensures Next(SharedState(1), SharedState(2), SharedAction(1), false)
  {
  }

  lemma SharedStep2()
    ensures Next(SharedState(2), SharedState(3), SharedAction(2), false)
  {
    assert [] + [ReadOp(7, INITIAL_VALUE)] == [ReadOp(7, INITIAL_VALUE)];
  }

  lemma SharedStep3()
    ensures Next(SharedState(3), SharedState(4), SharedAction(3), false)
  {
  }

  lemma SharedStep4()
    ensures Next(SharedState(4), SharedState(5), SharedAction(4), false)
  {
  }

  lemma SharedStep5()
    ensures Next(SharedState(5), SharedState(6), SharedAction(5), false)
  {
    assert [] + [ReadOp(7, INITIAL_VALUE)] == [ReadOp(7, INITIAL_VALUE)];
    forall k: uint64, t: uint64
      ensures SharedLocks(6)(k, t) ==
              if k == 7 && 0 < t <= 19 then LockCell(SharedLocks(5)(k, t), 2, true) else SharedLocks(5)(k, t)
    {
      assert {1} + {2} == {1, 2} && {} + {2} == {2};
    }
  }

  lemma SharedStep6()
    ensures Next(SharedState(6), SharedState(7), SharedAction(6), false)
  {
  }

  lemma SharedStep7()
    ensures Next(SharedState(7), SharedState(8), SharedAction(7), false)
  {
  }

  lemma SharedStep8()
    ensures Next(SharedState(8), SharedState(9), SharedAction(8), false)
  {
    assert [] + [Write(7, "x")] == [Write(7, "x")];
    assert [] + [WriteOp(7, "x")] == [WriteOp(7, "x")];
  }

  lemma SharedStep9()
    ensures Next(SharedState(9), SharedState(10), SharedAction(9), false)
  {
    var ws := [Write(7, "x")];
    assert ws[0] == Write(7, "x") && ws[..1] == ws;
    assert forall k: uint64 :: Wrote(ws, k) <==> k == 7;
    assert {2} + {3} == {2, 3};
  }

  lemma SharedStep10()
    ensures Next(SharedState(10), SharedState(11), SharedAction(10), false)
  {
  }

  lemma SharedStep11()
    ensures Next(SharedState(11), SharedState(12), SharedAction(11), false)
  {
  }

  lemma SharedStep(i: nat)
    requires i < 12
    ensures Next(SharedState(i), SharedState(i + 1), SharedAction(i), false)
  {
    match i
    case 0 => SharedStep0();
    case 1 => SharedStep1();
    case 2 => SharedStep2();
    case 3 => SharedStep3();
    case 4 => SharedStep4();
    case 5 => SharedStep5();
    case 6 => SharedStep6();
    case 7 => SharedStep7();
    case 8 => SharedStep8();
    case 9 => SharedStep9();
    case 10 => SharedStep10();
    case _ => SharedStep11();
  }

  /** Replaying the write before the read contradicts a read of the initial value. */
  lemma ReplayFails()
    ensures !SerialRun([[WriteOp(7, "x")], [ReadOp(7, INITIAL_VALUE)]])
  {
    var first, second := [WriteOp(7, "x")], [ReadOp(7, INITIAL_VALUE)];
    assert [first, second][..1] == [first];
    assert first[..0] == [] && second[..0] == [];
    assert AfterAll([first]) == After(first, map[]) == map[7 := "x"];
  }

  lemma SharedOrder()
    ensures SerialOrder(SharedState(12), [3, 2])
    ensures Logs(SharedTxns(12), [3, 2]) == [[WriteOp(7, "x")], [ReadOp(7, INITIAL_VALUE)]]
  {
    assert [3, 2][..1] == [3];
    assert Logs(SharedTxns(12), [3]) == [[WriteOp(7, "x")]];
  }

  ghost function SharedRun(): seq<State> {
    seq(13, i requires i >= 0 => SharedState(i))
  }

  function SharedActions(): seq<Action> {
    seq(12, i requires i >= 0 => SharedAction(i))
  }

  lemma SharedIsRun()
    ensures IsRun(SharedRun(), SharedActions(), false)
  {
    forall i | 0 <= i < 12 ensures Next(SharedRun()[i], SharedRun()[i + 1], SharedActions()[i], false) {
      SharedStep(i);
    }
  }

  /**
   * With unlock as the source writes it, one abort that shares a read lock is enough to commit a
   * history that no serial execution in timestamp order explains.
   */
  lemma SharedReaderBreaksSerializability()
    ensures IsRun(SharedRun(), SharedActions(), false)
    ensures forall i | 0 <= i < 12 && i != 6 :: Safe(SharedRun()[i], SharedActions()[i], false)
    ensures SerialOrder(SharedRun()[12], [3, 2])
    ensures !SerialRun(Logs(SharedRun()[12].txns, [3, 2]))
  {
    SharedIsRun();
    SharedOrder();
    ReplayFails();
  }
}
