/**
 * The coordinator of one transaction: which requests it sends, to which nodes, and which reads it
 * answers itself. Replies are parameters; the log of what the transaction read and wrote is the
 * log of the protocol's coordinator.
 */
module Coordinators {
  import opened LockTypes
  import opened VersionStore
  import opened SerialReplay

  datatype Request =
    | ReadRequest(tid: uint64, startTs: uint64, key: uint64)
    | WriteRequest(tid: uint64, key: uint64, value: Value)
    | PrepareRequest(tid: uint64, startTs: uint64, commitTs: uint64)
    | FinishRequest(tid: uint64, vote: bool)

  /** A request and the nodes it goes to. */
  datatype Message = Message(nodes: set<uint64>, request: Request)

  /** The keys that a log wrote. */
  ghost function WrittenKeys(log: seq<Op>): set<uint64> {
    if log == [] then {}
    else
      var op := log[|log| - 1];
      WrittenKeys(log[..|log| - 1]) + (if op.WriteOp? then {op.key} else {})
  }

  /** The keys that a log read before writing them, which only a server can answer. */
  ghost function AskedKeys(log: seq<Op>): set<uint64> {
    if log == [] then {}
    else
      var front, op := log[..|log| - 1], log[|log| - 1];
      AskedKeys(front) + (if op.ReadOp? && op.key !in WrittenKeys(front) then {op.key} else {})
  }

  lemma {:induction false} WrittenIsWrote(log: seq<Op>, key: uint64)
    ensures key in WrittenKeys(log) <==> Wrote(Writes(log), key)
  {
    if log != [] {
      var front, op := log[..|log| - 1], log[|log| - 1];
      WrittenIsWrote(front, key);
      assert log == front + [op];
      WritesSnoc(front, op);
      if op.WriteOp? {
        WroteSnoc(Writes(front), Write(op.key, op.value), key);
      }
    }
  }

  /** A buffer holds the last value of every key that a list of writes wrote. */
  ghost predicate BufferIs(buffer: map<uint64, Value>, ws: seq<Write>) {
    && (forall k: uint64 :: k in buffer <==> Wrote(ws, k))
    && (forall k: uint64 | k in buffer :: buffer[k] == LastValue(ws, k))
  }

  lemma BufferMore(buffer: map<uint64, Value>, ws: seq<Write>, w: Write)
    requires BufferIs(buffer, ws)
    ensures BufferIs(buffer[w.key := w.value], ws + [w])
  {
    assert (ws + [w])[..|ws|] == ws;
    forall k: uint64 ensures Wrote(ws + [w], k) <==> Wrote(ws, k) || k == w.key {
      WroteSnoc(ws, w, k);
    }
  }

  /** What one more entry adds to a log. */
  lemma LogMore(log: seq<Op>, op: Op)
    ensures WrittenKeys(log + [op]) == if op.WriteOp? then WrittenKeys(log) + {op.key} else WrittenKeys(log)
    ensures AskedKeys(log + [op]) ==
            if op.ReadOp? && !Wrote(Writes(log), op.key) then AskedKeys(log) + {op.key} else AskedKeys(log)
    ensures Writes(log + [op]) == if op.WriteOp? then Writes(log) + [Write(op.key, op.value)] else Writes(log)
  {
    var log' := log + [op];
    assert log'[..|log'| - 1] == log && log'[|log'| - 1] == op;
    WrittenIsWrote(log, op.key);
    WritesSnoc(log, op);
  }

  class Coordinator {
    const tid: uint64
    const startTs: uint64
    /** Which node holds a key. */
    const getNode: uint64 -> uint64
    var readNodes: set<uint64>
    var writeNodes: set<uint64>
    var pendWrites: map<uint64, Value>
    ghost var log: seq<Op>

    ghost function NodesOf(keys: set<uint64>): set<uint64> {
      set k | k in keys :: getNode(k)
    }

    /** The buffer holds the last write of every key written, the node sets the nodes of the keys sent. */
    ghost predicate Valid()
      reads this
    {
      && BufferIs(pendWrites, Writes(log))
      && readNodes == NodesOf(AskedKeys(log)) && writeNodes == NodesOf(WrittenKeys(log))
    }

    lemma NodesOfMore(keys: set<uint64>, key: uint64)
      ensures NodesOf(keys + {key}) == NodesOf(keys) + {getNode(key)}
    {
    }

    constructor (tid: uint64, startTs: uint64, getNode: uint64 -> uint64)
      ensures this.tid == tid && this.startTs == startTs && this.getNode == getNode
      ensures Valid() && log == []
    {
      this.tid, this.startTs, this.getNode := tid, startTs, getNode;
      readNodes, writeNodes, pendWrites, log := {}, {}, map[], [];
    }

    /** Read a key: its own latest write if it has one, else what the server replies. */
    method Read(key: uint64, reply: Value) returns (value: Value, sent: seq<Message>)
      requires Valid()
      modifies this`readNodes, this`log
      ensures Valid() && log == old(log) + [ReadOp(key, value)]
      ensures if Wrote(Writes(old(log)), key) then value == LastValue(Writes(old(log)), key) && sent == []
              else value == reply && sent == [Message({getNode(key)}, ReadRequest(tid, startTs, key))]
    {
      if key in pendWrites {
        value, sent := pendWrites[key], [];
      } else {
        var node := getNode(key);
        sent := [Message({node}, ReadRequest(tid, startTs, key))];
        readNodes := readNodes + {node};
        value := reply;
      }
      LogMore(log, ReadOp(key, value));
      NodesOfMore(AskedKeys(log), key);
      log := log + [ReadOp(key, value)];
    }

    /** Buffer a write, here and at the node of the key. */
    method Write(key: uint64, value: Value) returns (sent: seq<Message>)
      requires Valid()
      modifies this`writeNodes, this`pendWrites, this`log
      ensures Valid() && log == old(log) + [WriteOp(key, value)]
      ensures sent == [Message({getNode(key)}, WriteRequest(tid, key, value))]
    {
      var node := getNode(key);
      BufferMore(pendWrites, Writes(log), VersionStore.Write(key, value));
      pendWrites := pendWrites[key := value];
      sent := [Message({node}, WriteRequest(tid, key, value))];
      writeNodes := writeNodes + {node};
      LogMore(log, WriteOp(key, value));
      NodesOfMore(WrittenKeys(log), key);
      log := log + [WriteOp(key, value)];
    }

    /**
     * Ask the nodes written to for their votes at the start timestamp, and tell every node the
     * transaction sent anything to the outcome: commit if all votes were yes, abort otherwise.
     */
    method Commit(votes: map<uint64, bool>) returns (vote: bool, sent: seq<Message>)
      requires Valid() && writeNodes <= votes.Keys
      ensures vote <==> forall k: uint64 | Wrote(Writes(log), k) :: getNode(k) in votes && votes[getNode(k)]
      ensures sent == [Message(NodesOf(WrittenKeys(log)), PrepareRequest(tid, startTs, startTs)),
                       Message(NodesOf(WrittenKeys(log) + AskedKeys(log)), FinishRequest(tid, vote))]
    {
      var nodes := writeNodes;
      sent := [Message(nodes, PrepareRequest(tid, startTs, startTs))];
      vote := AllYes(nodes, votes);
      nodes := nodes + readNodes;
      sent := sent + [Message(nodes, FinishRequest(tid, vote))];
      assert NodesOf(WrittenKeys(log) + AskedKeys(log)) == NodesOf(WrittenKeys(log)) + NodesOf(AskedKeys(log));
      VotesOfKeys(votes);
    }

    /** Phase one is gone through, whatever it brings, and then every node is told to abort. */
    method Abort() returns (sent: seq<Message>)
      requires Valid()
      ensures sent == [Message(NodesOf(WrittenKeys(log)), PrepareRequest(tid, startTs, startTs)),
                       Message(NodesOf(WrittenKeys(log) + AskedKeys(log)), FinishRequest(tid, false))]
    {
      var nodes := writeNodes;
      sent := [Message(nodes, PrepareRequest(tid, startTs, startTs))];
      nodes := nodes + readNodes;
      sent := sent + [Message(nodes, FinishRequest(tid, false))];
      assert NodesOf(WrittenKeys(log) + AskedKeys(log)) == NodesOf(WrittenKeys(log)) + NodesOf(AskedKeys(log));
    }

    lemma VotesOfKeys(votes: map<uint64, bool>)
      requires Valid() && writeNodes <= votes.Keys
      ensures (forall n | n in writeNodes :: votes[n]) <==>
              forall k: uint64 | Wrote(Writes(log), k) :: getNode(k) in votes && votes[getNode(k)]
    {
      forall k: uint64 ensures k in WrittenKeys(log) <==> Wrote(Writes(log), k) {
        WrittenIsWrote(log, k);
      }
    }
  }

  /** The conjunction of the votes of some nodes; yes when there are none to ask. */
  method AllYes(nodes: set<uint64>, votes: map<uint64, bool>) returns (vote: bool)
    requires nodes <= votes.Keys
    ensures vote <==> forall n | n in nodes :: votes[n]
  {
    vote := true;
    var rest := nodes;
    while rest != {}
      invariant rest <= nodes && (vote <==> forall n | n in nodes - rest :: votes[n])
      decreases rest
    {
      var n :| n in rest;
      assert nodes - (rest - {n}) == (nodes - rest) + {n};
      rest := rest - {n};
      vote := vote && votes[n];
    }
  }
}
