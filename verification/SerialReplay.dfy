/**
 * What a client sees of a transaction (its log of reads and writes), and the single-version
 * database on which a serial execution of transactions is replayed.
 */
module SerialReplay {
  import opened LockTypes
  import opened VersionStore

  datatype Op = ReadOp(key: uint64, value: Value) | WriteOp(key: uint64, value: Value)

  type Db = map<uint64, Value>

  function Current(db: Db, key: uint64): Value {
    if key in db then db[key] else INITIAL_VALUE
  }

  /** The database after the writes of a log. */
  function After(log: seq<Op>, db: Db): Db {
    if log == [] then db
    else
      var rest := After(log[..|log| - 1], db);
      match log[|log| - 1]
      case WriteOp(k, v) => rest[k := v]
      case ReadOp(_, _) => rest
  }

  /** Every read of the log returns what the database holds at that moment. */
  predicate ReadsAgree(log: seq<Op>, db: Db) {
    log == [] ||
    (var front := log[..|log| - 1];
     && ReadsAgree(front, db)
     && match log[|log| - 1]
        case ReadOp(k, v) => Current(After(front, db), k) == v
        case WriteOp(_, _) => true)
  }

  /** The database after running whole transactions one at a time. */
  function AfterAll(logs: seq<seq<Op>>): Db {
    if logs == [] then map[] else After(logs[|logs| - 1], AfterAll(logs[..|logs| - 1]))
  }

  /** Running the transactions one at a time, on a fresh database, reproduces every read. */
  predicate SerialRun(logs: seq<seq<Op>>) {
    logs == [] ||
    (SerialRun(logs[..|logs| - 1]) && ReadsAgree(logs[|logs| - 1], AfterAll(logs[..|logs| - 1])))
  }

  /** The writes of a log, in order. */
  function Writes(log: seq<Op>): seq<Write> {
    if log == [] then []
    else
      var front := Writes(log[..|log| - 1]);
      match log[|log| - 1]
      case WriteOp(k, v) => front + [Write(k, v)]
      case ReadOp(_, _) => front
  }

  lemma {:induction false} WritesSnoc(log: seq<Op>, op: Op)
    ensures Writes(log + [op]) == Writes(log) + (if op.WriteOp? then [Write(op.key, op.value)] else [])
    ensures forall db ::
              After(log + [op], db) == if op.WriteOp? then After(log, db)[op.key := op.value] else After(log, db)
  {
    var all := log + [op];
    assert all[..|all| - 1] == log && all[|all| - 1] == op;
  }

  /** A database after a log holds the log's last write, or what it held before. */
  lemma {:induction false} AfterCurrent(log: seq<Op>, db: Db, k: uint64)
    ensures Current(After(log, db), k) == if Wrote(Writes(log), k) then LastValue(Writes(log), k) else Current(db, k)
  {
    if log != [] {
      var front, op := log[..|log| - 1], log[|log| - 1];
      AfterCurrent(front, db, k);
      assert log == front + [op];
      WritesSnoc(front, op);
      if op.WriteOp? {
        var ws, w := Writes(front), Write(op.key, op.value);
        WroteSnoc(ws, w, k);
        assert (ws + [w])[..|ws|] == ws;
      }
    }
  }
}
