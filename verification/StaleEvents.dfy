/**
 * Events are not taken off the lock manager's lists when they run. A read that was answered can
 * therefore be run once more, which ends the server process (see ServerEvents.ReadEvent.Run).
 */
module StaleEvents {
  import opened LockTypes
  import opened VersionStore
  import opened SerialReplay
  import opened ServerSpec
  import opened Protocol

  // Transaction 1 is about to commit a write of key 7 at timestamp 5. Transaction 2 reads key 7 below
  // 20 and is blocked at 5. Transaction 1 aborts, which wakes the read; the read goes on, locks what
  // it was blocked at and is answered. When transaction 2 commits, what it holds at 5 is frozen, and
  // that runs the event that is still registered there: its own, answered, read.

  ghost function StaleLocks(i: nat): Locks {
    (k: uint64, t: uint64) =>
      if t == 0 then SENTINEL_CELL
      else if k != 7 || t >= 20 then FREE_CELL
      else if t > 5 then
        if i < 6 then FREE_CELL else if i < 9 then Cell(ReadLock, {2}) else Cell(FreezeReadLock, {})
      else if t == 5 && 3 <= i < 7 then Cell(WriteLock, {1})
      else if i < 8 then FREE_CELL
      else if i == 8 then Cell(ReadLock, {2})
      else Cell(FreezeReadLock, {})
  }

  ghost function StaleServer(i: nat): Server {
    Server(StaleLocks(i), (k: uint64, t: uint64) => if i >= 6 && k == 7 && t == 5 then {1} else {}, map[],
           if 2 <= i < 7 then map[1 := [Write(7, "x")]] else map[],
           if 3 <= i < 7 then map[1 := 5] else map[])
  }

  function StaleTxns(i: nat): map<uint64, Txn> {
    var first := Txn(5, if i < 3 then Active else if i < 7 then Prepared(true) else Aborted,
                     if i < 2 then [] else [WriteOp(7, "x")], None, map[]);
    var second := Txn(20, if i < 9 then Active else Committed,
                      if i < 8 then [] else [ReadOp(7, INITIAL_VALUE)],
                      if i == 5 then Some(Pending(7, 20, 1, 0))
                      else if 6 <= i < 8 then Some(Pending(7, 6, 1, 5))
                      else None,
                      if i < 8 then map[] else map[7 := 0]);
    if i == 0 then map[] else if i < 4 then map[1 := first] else map[1 := first, 2 := second]
  }

  ghost function StaleState(i: nat): State {
    State(StaleServer(i), StaleTxns(i),
          if i == 5 || i == 7 || i == 9 then {1} else {},
          if i < 5 then {} else {1})
  }

  function StaleAction(i: nat): Action {
    match i
    case 0 => Begin(1, 5)
    case 1 => BufferWrite(1, 7, "x")
    case 2 => Prepare(1, 1, true)
    case 3 => Begin(2, 20)
    case 4 => IssueRead(2, 7, 1)
    case 5 => AttemptRead(2, 5, 5)
    case 6 => Finish(1, false, {1})
    case 7 => AttemptRead(2, 0, 0)
    case _ => Finish(2, true, {1})
  }

  lemma StaleStarts()
    ensures Next(StaleState(0), StaleState(1), StaleAction(0), false)
    ensures Next(StaleState(3), StaleState(4), StaleAction(3), false)
    ensures Next(StaleState(4), StaleState(5), StaleAction(4), false)
  {
  }

  lemma StaleWrite()
    ensures Next(StaleState(1), StaleState(2), StaleAction(1), false)
  {
    assert [] + [Write(7, "x")] == [Write(7, "x")];
    assert [] + [WriteOp(7, "x")] == [WriteOp(7, "x")];
  }

  lemma StaleWrites()
    ensures Writes([WriteOp(7, "x")]) == [Write(7, "x")] && [Write(7, "x")][..1] == [Write(7, "x")]
    ensures forall k: uint64 :: Wrote([Write(7, "x")], k) <==> k == 7
  {
    assert [WriteOp(7, "x")][..0] == [];
    assert [Write(7, "x")][0] == Write(7, "x");
  }

  lemma StalePrepare()
    ensures Next(StaleState(2), StaleState(3), StaleAction(2), false)
  {
    StaleWrites();
    assert {} + {1} == {1};
  }

  lemma StaleBlocked()
    ensures Next(StaleState(5), StaleState(6), StaleAction(5), false)
  {
    assert {} + {2} == {2} && {} + {1} == {1};
  }

  lemma StaleAbort()
    ensures Next(StaleState(6), StaleState(7), StaleAction(6), false)
    ensures Safe(StaleState(6), StaleAction(6), false)
  {
    var sv := StaleServer(6);
    assert {1} - {1} == {};
    assert 1 in sv.events(7, 5) && Wakes(sv.locks(7, 5), 1, false);
  }

  lemma StaleAnswered()
    ensures Next(StaleState(7), StaleState(8), StaleAction(7), false)
  {
    assert {} + {2} == {2};
    assert [] + [ReadOp(7, INITIAL_VALUE)] == [ReadOp(7, INITIAL_VALUE)];
  }

  lemma StaleCommit()
    ensures Next(StaleState(8), StaleState(9), StaleAction(8), false)
  {
    var sv := StaleServer(8);
    assert Writes([ReadOp(7, INITIAL_VALUE)]) == [] by {
      assert [ReadOp(7, INITIAL_VALUE)][..0] == [];
    }
    assert 1 in sv.events(7, 5) && Wakes(sv.locks(7, 5), 2, true);
  }

  lemma StaleStep(i: nat)
    requires i < 9
    ensures Next(StaleState(i), StaleState(i + 1), StaleAction(i), false)
    ensures Safe(StaleState(i), StaleAction(i), false)
  {
    match i
    case 0 => StaleStarts();
    case 1 => StaleWrite();
    case 2 => StalePrepare();
    case 3 => StaleStarts();
    case 4 => StaleStarts();
    case 5 => StaleBlocked();
    case 6 => StaleAbort();
    case 7 => StaleAnswered();
    case _ => StaleCommit();
  }

  ghost function StaleRun(): seq<State> {
    seq(10, i requires i >= 0 => StaleState(i))
  }

  function StaleActions(): seq<Action> {
    seq(9, i requires i >= 0 => StaleAction(i))
  }

  /** A safe run in which the last step wakes a request that was answered before: the only request there is. */
  lemma AnsweredReadIsWokenAgain()
    ensures IsSafeRun(StaleRun(), StaleActions(), false)
    ensures StaleRun()[8].rids == {1} && forall tid | tid in StaleRun()[8].txns :: StaleRun()[8].txns[tid].pending.None?
    ensures StaleActions()[8].woken == {1} && 1 in StaleRun()[9].ready
  {
    forall i | 0 <= i < 9
      ensures Next(StaleRun()[i], StaleRun()[i + 1], StaleActions()[i], false)
              && Safe(StaleRun()[i], StaleActions()[i], false)
    {
      StaleStep(i);
    }
  }
}
