/**
 * A server together with the coordinators that use it: their objects, run in any interleaving, go through
 * a safe run of the protocol. What is proved of all safe runs therefore holds of these objects.
 */
module Deployments {
  import opened LockTypes
  import opened VersionStore
  import opened SerialReplay
  import opened ServerSpec
  import opened SimpleTServers
  import opened ServerEvents
  import opened Coordinators
  import opened Protocol
  import opened Histories
  import opened Serializability

  type Txns = map<uint64, Txn>

  /** All keys live on one node. */
  const NODE: uint64 := 0

  function OneNode(key: uint64): uint64 { NODE }

  // ----- coordinators

  /** The coordinator of a transaction. */
  ghost predicate ClientOk(c: Coordinator, tid: uint64, x: Txn)
    reads c
  {
    && c.Valid() && c.tid == tid && c.startTs == x.start && c.log == x.log && c.getNode == OneNode && 1 <= c.startTs
    && (x.phase.Prepared? ==> Writes(x.log) != [])
  }

  /** The coordinators, which are among `objs`, show what their transactions have got to. */
  ghost predicate ClientsOk(cs: map<uint64, Coordinator>, objs: set<Coordinator>, txns: Txns)
    reads objs
  {
    cs.Keys == txns.Keys && forall tid | tid in cs :: cs[tid] in objs && ClientOk(cs[tid], tid, txns[tid])
  }

  lemma ClientsRest(cs: map<uint64, Coordinator>, objs: set<Coordinator>, txns: Txns, tid: uint64)
    requires ClientsOk(cs, objs, txns)
    ensures ClientsOk(cs - {tid}, if tid in cs then objs - {cs[tid]} else objs, txns - {tid})
  {
  }

  lemma ClientsJoin(cs: map<uint64, Coordinator>, objs: set<Coordinator>, txns: Txns, tid: uint64, c: Coordinator,
                    x: Txn)
    requires ClientsOk(cs - {tid}, objs, txns - {tid}) && ClientOk(c, tid, x)
    ensures ClientsOk(cs[tid := c], objs + {c}, txns[tid := x])
  {
    var cs', txns' := cs[tid := c], txns[tid := x];
    assert cs'.Keys == (cs - {tid}).Keys + {tid} && txns'.Keys == (txns - {tid}).Keys + {tid};
    forall k | k in cs' ensures cs'[k] in objs + {c} && ClientOk(cs'[k], k, txns'[k]) {
      if k != tid {
        assert k in (cs - {tid}).Keys && k in (txns - {tid}).Keys;
        assert ClientOk((cs - {tid})[k], k, (txns - {tid})[k]);
      }
    }
  }

  /** A transaction changes in a way that its coordinator need not know about. */
  lemma ClientsKept(cs: map<uint64, Coordinator>, objs: set<Coordinator>, txns: Txns, tid: uint64, x: Txn)
    requires ClientsOk(cs, objs, txns) && tid in txns && x.start == txns[tid].start && x.log == txns[tid].log
    requires x.phase.Prepared? ==> Writes(x.log) != []
    ensures ClientsOk(cs, objs, txns[tid := x])
  {
    forall k | k in cs ensures ClientOk(cs[k], k, txns[tid := x][k]) {
      assert ClientOk(cs[k], k, txns[k]);
    }
  }

  /** The votes that coordinators were given. */
  ghost predicate VotesOk(votes: map<uint64, bool>, txns: Txns) {
    forall tid | tid in txns && txns[tid].phase.Prepared? :: tid in votes && votes[tid] == txns[tid].phase.vote
  }

  lemma VotesKept(votes: map<uint64, bool>, txns: Txns, tid: uint64, x: Txn)
    requires VotesOk(votes, txns)
    requires x.phase.Prepared? ==> tid in votes && votes[tid] == x.phase.vote
    ensures VotesOk(votes, txns[tid := x])
  {
  }

  lemma SameEntry(cs: map<uint64, Coordinator>, objs: set<Coordinator>, tid: uint64, c: Coordinator)
    requires tid in cs && cs[tid] == c && c in objs
    ensures cs[tid := c] == cs && objs - {c} + {c} == objs
  {
  }

  lemma VotesMore(votes: map<uint64, bool>, txns: Txns, tid: uint64, x: Txn, vote: bool)
    requires VotesOk(votes, txns) && x.phase == Prepared(vote)
    ensures VotesOk(votes[tid := vote], txns[tid := x])
  {
  }

  method NewCoordinator(tid: uint64, ts: uint64) returns (c: Coordinator)
    requires 1 <= ts
    ensures fresh(c) && ClientOk(c, tid, Started(ts))
  {
    c := new Coordinator(tid, ts, OneNode);
  }

  /** What a coordinator answers when it reads: what it buffered, or the reply. */
  ghost predicate ReadAnswer(c: Coordinator, key: uint64, reply: Value, answer: Value)
    reads c
  {
    answer == if key in c.pendWrites then c.pendWrites[key] else reply
  }

  lemma BufferedIsWritten(c: Coordinator, tid: uint64, x: Txn, key: uint64)
    requires ClientOk(c, tid, x)
    ensures key in c.pendWrites <==> Wrote(Writes(x.log), key)
    ensures key in c.pendWrites ==> c.pendWrites[key] == LastValue(Writes(x.log), key)
  {
  }

  predicate ReadOnce(x: Txn, x': Txn, key: uint64, answer: Value) {
    x'.start == x.start && x'.phase.Active? && x'.log == x.log + [ReadOp(key, answer)]
  }

  /** The last entry of the transaction's log is now a read of `key` that returned `value`. */
  predicate LogsRead(s: State, s': State, tid: uint64, key: uint64, value: Value) {
    tid in s.txns && tid in s'.txns && s'.txns[tid].log == s.txns[tid].log + [ReadOp(key, value)]
  }

  predicate WroteOnce(x: Txn, x': Txn, key: uint64, value: Value) {
    x'.start == x.start && x'.phase.Active? && x'.log == x.log + [WriteOp(key, value)]
  }

  /** The client gets the version at which its read stopped, and logs it, if and only if the read was answered. */
  predicate GetsReply(s: State, s': State, tid: uint64, key: uint64, v: uint64, outcome: Outcome,
                      value: Option<Value>)
  {
    if outcome == Replied then
      value.Some? && value == Get(s.sv.store, key, v) && LogsRead(s, s', tid, key, value.value)
    else value == None
  }

  /** The reply to a read of a key that the transaction did not write. */
  predicate Replies(x: Txn, x': Txn, key: uint64, reply: Value) {
    !Wrote(Writes(x.log), key) && ReadOnce(x, x', key, reply)
  }

  /** The transaction has changed in a way that its coordinator need not know about. */
  predicate SameForClient(x: Txn, x': Txn) {
    x'.start == x.start && x'.log == x.log && x'.phase.Active?
  }

  /** A transaction may commit or abort: it has a vote, or nothing to vote on. */
  predicate CanFinish(s: State, tid: uint64) {
    tid in s.txns && (s.txns[tid].phase.Prepared? || (Idle(s, tid) && Writes(s.txns[tid].log) == []))
  }

  predicate VoteOf(s: State, tid: uint64)
    requires tid in s.txns
  {
    s.txns[tid].phase.Prepared? ==> s.txns[tid].phase.vote
  }

  /** A coordinator decides by the vote of the one node, if it wrote anything. */
  method CoordinatorDecides(c: Coordinator, replies: map<uint64, bool>) returns (vote: bool, nodes: set<uint64>)
    requires c.Valid() && c.getNode == OneNode && (Writes(c.log) != [] ==> NODE in replies)
    ensures vote == (Writes(c.log) == [] || replies[NODE])
    ensures nodes != {} <==> c.log != []
  {
    OneNodeOnly(c);
    TellsSomebody(c);
    ghost var ws := Writes(c.log);
    assert ws != [] ==> Wrote(ws, ws[0].key);
    var sent;
    vote, sent := c.Commit(replies);
    nodes := sent[1].nodes;
  }

  /** Whom a coordinator tells that it aborts. */
  method CoordinatorAborts(c: Coordinator) returns (nodes: set<uint64>)
    requires c.Valid()
    ensures nodes != {} <==> c.log != []
  {
    TellsSomebody(c);
    var sent := c.Abort();
    nodes := sent[1].nodes;
  }

  /** A coordinator has somebody to tell exactly if its log has an entry. */
  lemma TellsSomebody(c: Coordinator)
    ensures c.NodesOf(WrittenKeys(c.log) + AskedKeys(c.log)) != {} <==> c.log != []
  {
    var keys := WrittenKeys(c.log) + AskedKeys(c.log);
    if c.log != [] {
      var k := SentKey(c.log);
      assert k in keys && c.getNode(k) in c.NodesOf(keys);
    }
  }

  /** The first entry of a log is about a key that was sent to its node. */
  lemma {:induction false} SentKey(log: seq<Op>) returns (k: uint64)
    requires log != []
    ensures k in WrittenKeys(log) + AskedKeys(log)
  {
    var front := log[..|log| - 1];
    if front == [] {
      k := log[0].key;
    } else {
      k := SentKey(front);
    }
  }

  /** A coordinator has only ever sent anything to the one node. */
  lemma OneNodeOnly(c: Coordinator)
    requires c.Valid() && c.getNode == OneNode
    ensures c.writeNodes <= {NODE} && (Writes(c.log) == [] ==> c.writeNodes == {})
  {
    forall k: uint64 ensures k in WrittenKeys(c.log) <==> Wrote(Writes(c.log), k) {
      WrittenIsWrote(c.log, k);
    }
  }

  // ----- the handlers of reads

  /** `rid` is the unanswered read of `tid`. */
  predicate Asks(txns: Txns, tid: uint64, rid: uint64) {
    tid in txns && txns[tid].pending.Some? && txns[tid].pending.value.rid == rid
  }

  /** The handler of a read: about to run from where the read got to, or done. */
  ghost predicate HandlerOk(ev: ReadEvent, server: SimpleTServer, rid: uint64, txns: Txns)
    reads ev
  {
    && ev.server == server && ev.rid == rid && 1 <= ev.startTs
    && if Asks(txns, ev.tid, rid) then
         ev.phase == 0 && ev.key == txns[ev.tid].pending.value.key && ev.startTs == txns[ev.tid].pending.value.cursor
       else ev.phase == 2
  }

  ghost predicate HandlersOk(evs: map<uint64, ReadEvent>, objs: set<ReadEvent>, server: SimpleTServer, txns: Txns)
    reads objs
  {
    forall rid | rid in evs :: evs[rid] in objs && HandlerOk(evs[rid], server, rid, txns)
  }

  /** Every read that was sent has a handler, which knows whose read it is. */
  ghost predicate Routed(evs: map<uint64, ReadEvent>, txns: Txns, rids: set<uint64>) {
    evs.Keys == rids && forall tid, rid | Asks(txns, tid, rid) :: rid in evs && evs[rid].tid == tid
  }

  /** A transaction changes, and not in what it has asked for. */
  lemma HandlersKept(evs: map<uint64, ReadEvent>, objs: set<ReadEvent>, server: SimpleTServer, txns: Txns,
                     rids: set<uint64>,
                     tid: uint64, x': Txn)
    requires HandlersOk(evs, objs, server, txns) && Routed(evs, txns, rids)
    requires x'.pending == if tid in txns then txns[tid].pending else None
    ensures HandlersOk(evs, objs, server, txns[tid := x']) && Routed(evs, txns[tid := x'], rids)
  {
    var txns' := txns[tid := x'];
    forall t, rid ensures Asks(txns', t, rid) <==> Asks(txns, t, rid) {
    }
    forall rid | rid in evs ensures HandlerOk(evs[rid], server, rid, txns') {
      assert HandlerOk(evs[rid], server, rid, txns);
    }
  }

  /** A transaction sends a read, for which there is a new handler. */
  lemma HandlersMore(evs: map<uint64, ReadEvent>, objs: set<ReadEvent>, server: SimpleTServer, txns: Txns,
                     rids: set<uint64>,
                     tid: uint64, x': Txn, rid: uint64, ev: ReadEvent)
    requires HandlersOk(evs, objs, server, txns) && Routed(evs, txns, rids) && rid !in evs
    requires tid in txns && txns[tid].pending.None? && x'.pending.Some? && x'.pending.value.rid == rid
    requires ev.tid == tid && HandlerOk(ev, server, rid, txns[tid := x'])
    ensures HandlersOk(evs[rid := ev], objs + {ev}, server, txns[tid := x'])
    ensures Routed(evs[rid := ev], txns[tid := x'], rids + {rid})
  {
    var evs', txns' := evs[rid := ev], txns[tid := x'];
    forall r | r in evs' ensures HandlerOk(evs'[r], server, r, txns') {
      if r != rid {
        assert HandlerOk(evs[r], server, r, txns);
        assert Asks(txns', evs[r].tid, r) <==> Asks(txns, evs[r].tid, r);
      }
    }
    forall t, r | Asks(txns', t, r) ensures r in evs' && evs'[r].tid == t {
      assert t != tid ==> Asks(txns, t, r);
    }
  }

  lemma HandlersRest(evs: map<uint64, ReadEvent>, objs: set<ReadEvent>, server: SimpleTServer, txns: Txns, rid: uint64)
    requires HandlersOk(evs, objs, server, txns) && rid in evs
    ensures HandlersOk(evs - {rid}, objs - {evs[rid]}, server, txns)
    ensures evs[rid] in objs && HandlerOk(evs[rid], server, rid, txns)
  {
    forall r | r in evs - {rid} ensures evs[r] in objs - {evs[rid]} && HandlerOk(evs[r], server, r, txns) {
      assert r in evs && HandlerOk(evs[r], server, r, txns) && HandlerOk(evs[rid], server, rid, txns);
    }
  }

  /** The handler of a transaction's read ran, and the transaction has got as far as its handler. */
  lemma HandlersJoin(evs: map<uint64, ReadEvent>, objs: set<ReadEvent>, server: SimpleTServer, txns: Txns,
                     rids: set<uint64>,
                     tid: uint64, x': Txn, rid: uint64)
    requires rid in evs && evs[rid] in objs && HandlersOk(evs - {rid}, objs - {evs[rid]}, server, txns)
    requires Routed(evs, txns, rids) && Asks(txns, tid, rid)
    requires x'.pending.Some? ==> x'.pending.value.rid == rid
    requires HandlerOk(evs[rid], server, rid, txns[tid := x'])
    ensures HandlersOk(evs, objs, server, txns[tid := x']) && Routed(evs, txns[tid := x'], rids)
  {
    var txns' := txns[tid := x'];
    forall r | r in evs ensures evs[r] in objs && HandlerOk(evs[r], server, r, txns') {
      if r != rid {
        assert r in (evs - {rid}) && HandlerOk((evs - {rid})[r], server, r, txns);
        assert Asks(txns', evs[r].tid, r) <==> Asks(txns, evs[r].tid, r);
      }
    }
    forall t, r | Asks(txns', t, r) ensures r in evs && evs[r].tid == t {
      assert Asks(txns, t, r);
    }
  }

  class Deployment {
    const server: SimpleTServer
    var coordinators: map<uint64, Coordinator>
    /** The handlers of all reads that were ever sent, by request id. */
    var handlers: map<uint64, ReadEvent>
    /** The reads that arrived, or were woken, and have to run. */
    var due: set<uint64>
    var votes: map<uint64, bool>
    /** The objects in these maps. */
    ghost var clients: set<Coordinator>
    ghost var readers: set<ReadEvent>
    /** What happened so far. */
    ghost var history: SafeRun

    /** The objects are apart from those of the lock manager. */
    ghost predicate ObjectsApart()
      reads this`clients, this`readers, server, server.lockManager
    {
      && this !in server.lockManager.repr
      && clients !! server.lockManager.repr && readers !! server.lockManager.repr
    }

    ghost predicate ServerOk()
      reads this`clients, this`readers, server, server.lockManager, server.lockManager.repr
    {
      ObjectsApart() && server.Valid()
    }

    ghost predicate ServerShows(sv: Server)
      reads this`clients, this`readers, server, server.lockManager, server.lockManager.repr
    {
      ServerOk() && sv == server.Abs()
    }

    ghost predicate ClientsShow(txns: Txns)
      reads this`coordinators, this`clients, clients
    {
      ClientsOk(coordinators, clients, txns)
    }

    ghost predicate HandlersShow(txns: Txns, rids: set<uint64>)
      reads this`handlers, this`readers, readers
    {
      HandlersOk(handlers, readers, server, txns) && Routed(handlers, txns, rids)
    }

    /** The last state of the history. */
    ghost function Now(): State
      reads this`history
    {
      Last(history)
    }

    /** The objects show the last state of a safe run. */
    ghost predicate Valid()
      reads this, server, server.lockManager, server.lockManager.repr, clients, readers
    {
      && ServerShows(Now().sv) && ClientsShow(Now().txns) && HandlersShow(Now().txns, Now().rids)
      && due == Now().ready && VotesOk(votes, Now().txns)
    }

    constructor ()
      ensures Valid() && coordinators == map[] && handlers == map[] && history.acts == []
      ensures fresh(server) && fresh(server.lockManager) && server.lockManager.repr == {} && clients == {}
              && readers == {}
    {
      server := new SimpleTServer();
      coordinators, handlers, due, votes := map[], map[], {}, map[];
      clients, readers := {}, {};
      new;
      history := NewHistory(server.Abs());
    }

    /** The objects show the state after one more step, given what is due to run after it. */
    method TakeStep(ghost h': SafeRun, due': set<uint64>, votes': map<uint64, bool>)
      requires var s' := Last(h');
               && ServerShows(s'.sv) && ClientsShow(s'.txns) && HandlersShow(s'.txns, s'.rids)
               && due' == s'.ready && VotesOk(votes', s'.txns)
      modifies this`history, this`due, this`votes
      ensures Valid() && history == h'
    {
      history, due, votes := h', due', votes';
    }

    /** A client starts a transaction with an id of its own. */
    method Begin(tid: uint64, ts: uint64)
      requires Valid() && tid !in coordinators && 1 <= ts
      modifies this`coordinators, this`clients, this`history, this`due, this`votes
      ensures Valid() && fresh(clients - old(clients))
      ensures Extends(old(history), history, Now(), Protocol.Begin(tid, ts))
    {
      ghost var h' := BeginNext(tid, ts);
      Join(tid, ts, h', Now().sv, Now().txns, Now().rids, Now().txns[tid := Started(ts)]);
    }

    /** A new transaction is a step, and all but its coordinator is as it will be. */
    lemma BeginNext(tid: uint64, ts: uint64) returns (h': SafeRun)
      requires Valid() && tid !in coordinators && 1 <= ts
      ensures var s := Now();
              && Extends(history, h', Changed(s, s.sv, tid, Started(ts), s.ready, s.rids), Protocol.Begin(tid, ts))
              && HandlersShow(s.txns[tid := Started(ts)], s.rids) && VotesOk(votes, s.txns[tid := Started(ts)])
    {
      h' := BeginExtends(history, tid, ts);
      HandlersKept(handlers, readers, server, Now().txns, Now().rids, tid, Started(ts));
      VotesKept(votes, Now().txns, tid, Started(ts));
    }

    method Join(tid: uint64, ts: uint64, ghost h': SafeRun, ghost sv: Server, ghost txns: Txns, ghost rids: set<uint64>,
                ghost txns': Txns)
      requires ServerShows(sv) && ClientsShow(txns) && HandlersShow(txns', rids) && VotesOk(votes, txns')
      requires tid !in coordinators && 1 <= ts && txns' == txns[tid := Started(ts)]
               && Last(h') == State(sv, txns', due, rids)
      modifies this`coordinators, this`clients, this`history, this`due, this`votes
      ensures Valid() && fresh(clients - old(clients)) && history == h'
    {
      AddClient(tid, ts, txns);
      TakeStep(h', due, votes);
    }

    method AddClient(tid: uint64, ts: uint64, ghost txns: Txns)
      requires ObjectsApart() && ClientsShow(txns) && tid !in coordinators && 1 <= ts
      modifies this`coordinators, this`clients
      ensures ObjectsApart() && fresh(clients - old(clients)) && ClientsShow(txns[tid := Started(ts)])
    {
      var c := NewCoordinator(tid, ts);
      ClientsRest(coordinators, clients, txns, tid);
      ClientsJoin(coordinators, clients, txns, tid, c, Started(ts));
      coordinators, clients := coordinators[tid := c], clients + {c};
    }

    // ----- reads

    /** A client reads a key: its own write at once, else it asks the server. */
    method Read(tid: uint64, key: uint64, rid: uint64) returns (value: Option<Value>)
      requires Valid() && tid in coordinators && Idle(Now(), tid) && rid !in handlers
      modifies this`history, this`due, this`votes, this`handlers, this`readers, clients
      ensures Valid() && fresh(readers - old(readers))
      ensures Extends(old(history), history, Now(), if value.Some? then OwnRead(tid, key) else IssueRead(tid, key, rid))
      ensures value.Some? <==> Wrote(Writes(old(Now()).txns[tid].log), key)
      ensures value.Some? ==>
                && value.value == LastValue(Writes(old(Now()).txns[tid].log), key)
                && LogsRead(old(Now()), Now(), tid, key, value.value)
    {
      var c := coordinators[tid];
      assert ClientOk(c, tid, Now().txns[tid]);
      BufferedIsWritten(c, tid, Now().txns[tid], key);
      if key in c.pendWrites {
        var v := ReadOwn(c, tid, key);
        value := Some(v);
      } else {
        Ask(c, tid, key, rid);
        value := None;
      }
    }

    /** A read of an own write is a step, and all but its coordinator is as it will be. */
    lemma OwnReadNext(c: Coordinator, tid: uint64, key: uint64, answer: Value) returns (h': SafeRun, x': Txn)
      requires Valid() && tid in coordinators && coordinators[tid] == c && Idle(Now(), tid)
      requires key in c.pendWrites && answer == c.pendWrites[key]
      ensures var s := Now();
              && Extends(history, h', Changed(s, s.sv, tid, x', s.ready, s.rids), OwnRead(tid, key))
              && HandlersShow(s.txns[tid := x'], s.rids) && VotesOk(votes, s.txns[tid := x'])
      ensures ReadOnce(Now().txns[tid], x', key, answer)
      ensures var ws := Writes(Now().txns[tid].log); Wrote(ws, key) && answer == LastValue(ws, key)
    {
      var s := Now();
      assert ClientOk(c, tid, s.txns[tid]);
      BufferedIsWritten(c, tid, s.txns[tid], key);
      x' := WithRead(s.txns[tid], key, answer);
      h' := OwnReadExtends(history, tid, key, answer);
      HandlersKept(handlers, readers, server, s.txns, s.rids, tid, x');
      VotesKept(votes, s.txns, tid, x');
    }

    method ReadOwn(c: Coordinator, tid: uint64, key: uint64) returns (value: Value)
      requires Valid() && tid in coordinators && coordinators[tid] == c
      requires Idle(Now(), tid) && key in c.pendWrites
      modifies this`history, this`due, this`votes, c
      ensures Valid() && Extends(old(history), history, Now(), OwnRead(tid, key))
      ensures var ws := Writes(old(Now()).txns[tid].log); Wrote(ws, key) && value == LastValue(ws, key)
      ensures LogsRead(old(Now()), Now(), tid, key, value)
    {
      ghost var answer := c.pendWrites[key];
      ghost var h', x' := OwnReadNext(c, tid, key, answer);
      value := ClientGetsOn(c, tid, key, "", Now().sv, Now().txns, Now().rids, answer, x', Now().txns[tid := x']);
      TakeStep(h', due, votes);
    }

    /** The coordinator reads, and everything else is already as it will be. */
    method ClientGetsOn(c: Coordinator, tid: uint64, key: uint64, reply: Value, ghost sv: Server,
                        ghost txns: Txns, ghost rids: set<uint64>, ghost answer: Value, ghost x': Txn,
                            ghost txns': Txns)
      returns (value: Value)
      requires tid in coordinators && coordinators[tid] == c && ClientsShow(txns) && txns' == txns[tid := x']
      requires ReadAnswer(c, key, reply, answer) && ReadOnce(txns[tid], x', key, answer)
      requires ServerShows(sv) && HandlersShow(txns', rids)
      modifies c
      ensures ServerShows(sv) && ClientsShow(txns') && HandlersShow(txns', rids)
      ensures value == answer
    {
      value := ClientReads(c, tid, key, reply, txns, answer, x', txns');
    }

    /** The coordinator reads, from its buffer or what the server replied. */
    method ClientReads(c: Coordinator, tid: uint64, key: uint64, reply: Value, ghost txns: Txns, ghost answer: Value,
                       ghost x': Txn, ghost txns': Txns)
      returns (value: Value)
      requires tid in coordinators && coordinators[tid] == c && ClientsShow(txns) && ServerOk()
      requires txns' == txns[tid := x']
      requires ReadAnswer(c, key, reply, answer) && ReadOnce(txns[tid], x', key, answer)
      modifies c
      ensures ClientsShow(txns') && value == answer && ServerOk() && server.Abs() == old(server.Abs())
    {
      assert ClientOk(c, tid, txns[tid]);
      ClientsRest(coordinators, clients, txns, tid);
      value := CoordinatorReads(c, tid, txns[tid], key, reply, answer, x');
      ClientsJoin(coordinators, clients - {c}, txns, tid, c, x');
      SameEntry(coordinators, clients, tid, c);
    }

    /** Sending a read is a step that coordinators need not know about. */
    lemma AskNext(c: Coordinator, tid: uint64, key: uint64, rid: uint64) returns (h': SafeRun, x': Txn)
      requires Valid() && tid in coordinators && coordinators[tid] == c
      requires Idle(Now(), tid) && !Wrote(Writes(Now().txns[tid].log), key) && rid !in handlers
      ensures var s := Now();
              && Extends(history, h', Changed(s, s.sv, tid, x', s.ready + {rid}, s.rids + {rid}),
                         IssueRead(tid, key, rid))
              && ClientsShow(s.txns[tid := x']) && VotesOk(votes, s.txns[tid := x'])
      ensures x'.pending == Some(Pending(key, c.startTs, rid, 0)) && 1 <= c.startTs
    {
      var s := Now();
      x' := Asking(s.txns[tid], key, rid);
      assert ClientOk(c, tid, s.txns[tid]);
      h' := IssueReadExtends(history, tid, key, rid);
      ClientsKept(coordinators, clients, s.txns, tid, x');
      VotesKept(votes, s.txns, tid, x');
    }

    method CoordinatorReads(c: Coordinator, tid: uint64, ghost x: Txn, key: uint64, reply: Value, ghost answer: Value,
                            ghost x': Txn)
      returns (value: Value)
      requires ServerOk() && c in clients && ClientOk(c, tid, x) && ReadAnswer(c, key, reply, answer)
               && ReadOnce(x, x', key, answer)
      modifies c
      ensures ServerOk() && server.Abs() == old(server.Abs()) && ClientOk(c, tid, x') && value == answer
    {
      BufferedIsWritten(c, tid, x, key);
      var sent;
      value, sent := c.Read(key, reply);
    }

    /** The server gets a read request. */
    method Ask(c: Coordinator, tid: uint64, key: uint64, rid: uint64)
      requires Valid() && tid in coordinators && coordinators[tid] == c
      requires Idle(Now(), tid) && !Wrote(Writes(Now().txns[tid].log), key) && rid !in handlers
      modifies this`history, this`due, this`votes, this`handlers, this`readers
      ensures Valid() && fresh(readers - old(readers))
      ensures Extends(old(history), history, Now(), IssueRead(tid, key, rid))
    {
      ghost var h', x' := AskNext(c, tid, key, rid);
      ghost var ev := Arrive(tid, c.startTs, key, rid, h', Now().sv, Now().txns, Now().rids, x', Now().txns[tid := x']);
    }

    /** The request arrives, and coordinators are already as they will be. */
    method Arrive(tid: uint64, startTs: uint64, key: uint64, rid: uint64, ghost h': SafeRun, ghost sv: Server,
                  ghost txns: Txns, ghost rids: set<uint64>, ghost x': Txn, ghost txns': Txns)
      returns (ghost ev: ReadEvent)
      requires ServerShows(sv) && ClientsShow(txns') && HandlersShow(txns, rids) && VotesOk(votes, txns')
               && rid !in handlers
      requires tid in txns && txns[tid].pending.None? && txns' == txns[tid := x']
      requires x'.pending == Some(Pending(key, startTs, rid, 0)) && 1 <= startTs
      requires Last(h') == State(sv, txns', due + {rid}, rids + {rid})
      modifies this`history, this`due, this`votes, this`handlers, this`readers
      ensures Valid() && fresh(ev) && readers == old(readers) + {ev} && history == h'
    {
      ev := AddHandler(tid, startTs, key, rid, txns, rids, x');
      TakeStep(h', due + {rid}, votes);
    }

    method AddHandler(tid: uint64, startTs: uint64, key: uint64, rid: uint64, ghost txns: Txns, ghost rids: set<uint64>,
                      ghost x': Txn)
      returns (ev: ReadEvent)
      requires ServerOk() && HandlersShow(txns, rids) && rid !in handlers
      requires tid in txns && txns[tid].pending.None? && x'.pending == Some(Pending(key, startTs, rid, 0))
               && 1 <= startTs
      modifies this`handlers, this`readers
      ensures ServerOk() && server.Abs() == old(server.Abs())
      ensures HandlersShow(txns[tid := x'], rids + {rid}) && fresh(ev) && readers == old(readers) + {ev}
    {
      ev := new ReadEvent(server, rid, tid, key, startTs);
      HandlersMore(handlers, readers, server, txns, rids, tid, x', rid, ev);
      handlers, readers := handlers[rid := ev], readers + {ev};
    }

    /** What running a handler did: an attempt of its transaction's read, or nothing. */
    ghost predicate Ran(ev: ReadEvent, rid: uint64, sv: Server, sv': Server, txns: Txns, outcome: Outcome, v: uint64,
                        end: uint64)
      reads ev
    {
      if Asks(txns, ev.tid, rid) then
        var p := txns[ev.tid].pending.value;
        && RunRead(sv, sv', ev.tid, p.key, p.cursor, rid, v, end) && ev.startTs == v + 1 && ev.key == p.key
        && if Frozen(sv.locks(p.key, v)) then
             outcome == Replied && ev.phase == 2 && ev.value == Get(sv'.store, p.key, v)
           else outcome == Waiting && ev.phase == 0
      else outcome == Exited && sv' == sv && HandlerOk(ev, server, rid, txns)
    }

    /** Between running the handler of a read and settling what it did. */
    ghost predicate JustRan(ev: ReadEvent, rid: uint64, txns: Txns, rids: set<uint64>)
      reads this, server, server.lockManager, server.lockManager.repr, clients, readers
    {
      && ServerOk() && ClientsShow(txns) && Routed(handlers, txns, rids)
      && rid in handlers && handlers[rid] == ev && ev in readers && ev.server == server && ev.rid == rid
      && HandlersOk(handlers - {rid}, readers - {ev}, server, txns)
    }

    method HandlerRuns(ev: ReadEvent, rid: uint64, ghost sv: Server, ghost txns: Txns, ghost rids: set<uint64>)
      returns (outcome: Outcome, ghost v: uint64, ghost end: uint64, ghost more: set<object>)
      requires ServerShows(sv) && ClientsShow(txns) && HandlersShow(txns, rids)
      requires rid in handlers && handlers[rid] == ev
      modifies ev, server.lockManager, server.lockManager.repr
      ensures JustRan(ev, rid, txns, rids)
      ensures fresh(more) && server.lockManager.repr <= old(server.lockManager.repr) + more
      ensures Ran(ev, rid, sv, server.Abs(), txns, outcome, v, end)
    {
      HandlersRest(handlers, readers, server, txns, rid);
      outcome, v, end := ev.Run();
      if !ClientsShow(txns) || !HandlersOk(handlers - {rid}, readers - {ev}, server, txns) {
        assert false;
      }
      more := server.lockManager.repr - old(server.lockManager.repr);
    }

    /** A handler that had nothing to do leaves everything as it was. */
    lemma NothingDone(ev: ReadEvent, rid: uint64, txns: Txns, rids: set<uint64>)
      requires JustRan(ev, rid, txns, rids) && HandlerOk(ev, server, rid, txns)
      ensures HandlersShow(txns, rids)
    {
      forall r | r in handlers ensures handlers[r] in readers && HandlerOk(handlers[r], server, r, txns) {
        assert r != rid ==> r in (handlers - {rid}) && HandlerOk((handlers - {rid})[r], server, r, txns);
      }
    }

    /** An attempt is a step, and the handlers already show it. */
    lemma AttemptNext(ev: ReadEvent, rid: uint64, outcome: Outcome, v: uint64, end: uint64)
      returns (h': SafeRun, x': Txn)
      requires JustRan(ev, rid, Now().txns, Now().rids) && rid in Now().ready && Asks(Now().txns, ev.tid, rid)
      requires Ran(ev, rid, Now().sv, server.Abs(), Now().txns, outcome, v, end) && VotesOk(votes, Now().txns)
      ensures var s := Now();
              && Extends(history, h', Changed(s, server.Abs(), ev.tid, x', s.ready - {rid}, s.rids),
                         AttemptRead(ev.tid, v, end))
              && HandlersShow(s.txns[ev.tid := x'], s.rids) && VotesOk(votes, s.txns[ev.tid := x'])
      ensures outcome == Replied ==> ev.value.Some? && Replies(Now().txns[ev.tid], x', ev.key, ev.value.value)
      ensures outcome == Replied ==> ev.value == Get(Now().sv.store, ev.key, v)
      ensures outcome != Replied ==> SameForClient(Now().txns[ev.tid], x')
    {
      var s := Now();
      h', x' := AttemptExtends(history, server.Abs(), ev.tid, v, end);
      HandlersJoin(handlers, readers, server, s.txns, s.rids, ev.tid, x', rid);
      VotesKept(votes, s.txns, ev.tid, x');
    }

    /** A coordinator gets the reply to its read. */
    method Reply(tid: uint64, key: uint64, reply: Value, ghost sv: Server, ghost txns: Txns, ghost rids: set<uint64>,
                 ghost x': Txn, ghost txns': Txns)
      returns (value: Value)
      requires tid in coordinators && ClientsShow(txns) && txns' == txns[tid := x']
               && Replies(txns[tid], x', key, reply)
      requires ServerShows(sv) && HandlersShow(txns', rids)
      modifies coordinators[tid]
      ensures ServerShows(sv) && ClientsShow(txns') && HandlersShow(txns', rids) && value == reply
    {
      var c := coordinators[tid];
      assert ClientOk(c, tid, txns[tid]);
      BufferedIsWritten(c, tid, txns[tid], key);
      value := ClientGetsOn(c, tid, key, reply, sv, txns, rids, reply, x', txns');
    }

    /** If the read was answered, its coordinator gets the reply. */
    method PassOn(ev: ReadEvent, rid: uint64, outcome: Outcome, ghost h': SafeRun, ghost sv: Server, ghost txns: Txns,
                  ghost rids: set<uint64>, ghost x': Txn, ghost txns': Txns)
      returns (value: Option<Value>)
      requires ev.tid in coordinators && ClientsShow(txns) && txns' == txns[ev.tid := x']
      requires outcome == Replied ==> ev.value.Some? && Replies(txns[ev.tid], x', ev.key, ev.value.value)
      requires outcome != Replied ==> SameForClient(txns[ev.tid], x')
      requires ServerShows(sv) && HandlersShow(txns', rids) && VotesOk(votes, txns')
      requires Last(h') == State(sv, txns', due - {rid}, rids)
      modifies this`history, this`due, this`votes, clients
      ensures Valid() && history == h'
      ensures value == if outcome == Replied then ev.value else None
    {
      value := None;
      if outcome == Replied {
        var got := Reply(ev.tid, ev.key, ev.value.value, sv, txns, rids, x', txns');
        value := Some(got);
      } else {
        ClientsKept(coordinators, clients, txns, ev.tid, x');
      }
      TakeStep(h', due - {rid}, votes);
    }

    /** A read was attempted; if it was answered, its coordinator gets the reply. */
    method Settle(ev: ReadEvent, rid: uint64, outcome: Outcome, ghost v: uint64, ghost end: uint64)
      returns (value: Option<Value>)
      requires JustRan(ev, rid, Now().txns, Now().rids) && due == Now().ready && VotesOk(votes, Now().txns)
               && rid in due && Asks(Now().txns, ev.tid, rid)
      requires Ran(ev, rid, Now().sv, server.Abs(), Now().txns, outcome, v, end)
      modifies this`history, this`due, this`votes, clients
      ensures Valid() && Extends(old(history), history, Now(), AttemptRead(ev.tid, v, end))
      ensures GetsReply(old(Now()), Now(), ev.tid, ev.key, v, outcome, value)
    {
      ghost var s := Now();
      ghost var h', x' := AttemptNext(ev, rid, outcome, v, end);
      value := PassOn(ev, rid, outcome, h', server.Abs(), s.txns, s.rids, x', s.txns[ev.tid := x']);
    }

    lemma DueHasHandler(rid: uint64)
      requires Valid() && rid in due
      ensures rid in handlers
    {
      LastReady(history);
    }

    /**
     * Run a read that is due. A read that was answered before ends the server process; any other takes a
     * step, in which it is answered or waits.
     */
    method RunDue(rid: uint64)
      returns (outcome: Outcome, value: Option<Value>, ghost v: uint64, ghost end: uint64, ghost more: set<object>)
      requires Valid() && rid in due
      modifies this`history, this`due, this`votes, readers, clients, server.lockManager, server.lockManager.repr
      ensures Valid() && fresh(more) && server.lockManager.repr <= old(server.lockManager.repr) + more
      ensures rid in handlers
      ensures outcome == Exited <==> !Asks(old(Now()).txns, handlers[rid].tid, rid)
      ensures if outcome == Exited then history == old(history)
              else Extends(old(history), history, Now(), AttemptRead(handlers[rid].tid, v, end))
      ensures outcome != Exited ==> (outcome == Replied <==> Frozen(old(Now()).sv.locks(handlers[rid].key, v)))
      ensures GetsReply(old(Now()), Now(), handlers[rid].tid, handlers[rid].key, v, outcome, value)
    {
      DueHasHandler(rid);
      var ev := handlers[rid];
      outcome, v, end, more := HandlerRuns(ev, rid, Now().sv, Now().txns, Now().rids);
      value := Conclude(ev, rid, outcome, v, end);
    }

    method Conclude(ev: ReadEvent, rid: uint64, outcome: Outcome, ghost v: uint64, ghost end: uint64)
      returns (value: Option<Value>)
      requires JustRan(ev, rid, Now().txns, Now().rids) && due == Now().ready && VotesOk(votes, Now().txns)
               && rid in due
      requires Ran(ev, rid, Now().sv, server.Abs(), Now().txns, outcome, v, end)
      modifies this`history, this`due, this`votes, clients
      ensures Valid()
      ensures if outcome == Exited then history == old(history)
              else Extends(old(history), history, Now(), AttemptRead(ev.tid, v, end))
      ensures GetsReply(old(Now()), Now(), ev.tid, ev.key, v, outcome, value)
    {
      value := None;
      if outcome == Exited {
        NothingDone(ev, rid, Now().txns, Now().rids);
      } else {
        value := Settle(ev, rid, outcome, v, end);
      }
    }

    // ----- writes

    /** A client writes a key: the coordinator remembers the value, and the server buffers it. */
    method Write(tid: uint64, key: uint64, value: Value, rid: uint64)
      requires Valid() && tid in coordinators && Idle(Now(), tid)
      modifies this`history, this`due, this`votes, server`pendWrites, coordinators[tid]
      ensures Valid() && Extends(old(history), history, Now(), BufferWrite(tid, key, value))
    {
      WriteRuns(tid, key, value, rid, Now().sv, Now().txns, Now().rids);
      Remember(coordinators[tid], tid, key, value);
    }

    /** After the write was buffered by the server, the coordinator remembers it. */
    method Remember(c: Coordinator, tid: uint64, key: uint64, value: Value)
      requires ServerOk() && ClientsShow(Now().txns) && HandlersShow(Now().txns, Now().rids) && due == Now().ready
      requires VotesOk(votes, Now().txns) && tid in coordinators && coordinators[tid] == c && Idle(Now(), tid)
      requires RunWrite(Now().sv, server.Abs(), tid, key, value)
      modifies this`history, this`due, this`votes, c
      ensures Valid() && Extends(old(history), history, Now(), BufferWrite(tid, key, value))
    {
      ghost var s := Now();
      ghost var h', x' := WriteNext(tid, key, value);
      ClientWritesOn(c, tid, key, value, server.Abs(), s.txns, s.rids, x', s.txns[tid := x']);
      TakeStep(h', due, votes);
    }

    /** The handler of the write buffers it. */
    method WriteRuns(tid: uint64, key: uint64, value: Value, rid: uint64, ghost sv: Server, ghost txns: Txns,
                     ghost rids: set<uint64>)
      requires ServerShows(sv) && ClientsShow(txns) && HandlersShow(txns, rids)
      modifies server`pendWrites
      ensures ServerOk() && ClientsShow(txns) && HandlersShow(txns, rids)
      ensures RunWrite(sv, server.Abs(), tid, key, value)
    {
      var ev := new WriteEvent(server, rid, tid, key, value);
      var outcome := ev.Run();
    }

    lemma WriteNext(tid: uint64, key: uint64, value: Value) returns (h': SafeRun, x': Txn)
      requires ServerOk() && HandlersShow(Now().txns, Now().rids) && VotesOk(votes, Now().txns)
      requires Idle(Now(), tid) && RunWrite(Now().sv, server.Abs(), tid, key, value)
      ensures var s := Now();
              && Extends(history, h', Changed(s, server.Abs(), tid, x', s.ready, s.rids), BufferWrite(tid, key, value))
              && HandlersShow(s.txns[tid := x'], s.rids) && VotesOk(votes, s.txns[tid := x'])
      ensures WroteOnce(Now().txns[tid], x', key, value)
    {
      var s := Now();
      x' := WithWrite(s.txns[tid], key, value);
      h' := WriteExtends(history, server.Abs(), tid, key, value);
      HandlersKept(handlers, readers, server, s.txns, s.rids, tid, x');
      VotesKept(votes, s.txns, tid, x');
    }

    /** The coordinator writes, and everything else is already as it will be. */
    method ClientWritesOn(c: Coordinator, tid: uint64, key: uint64, value: Value, ghost sv: Server, ghost txns: Txns,
                          ghost rids: set<uint64>, ghost x': Txn, ghost txns': Txns)
      requires tid in coordinators && coordinators[tid] == c && ClientsShow(txns) && txns' == txns[tid := x']
      requires WroteOnce(txns[tid], x', key, value) && ServerShows(sv) && HandlersShow(txns', rids)
      modifies c
      ensures ServerShows(sv) && ClientsShow(txns') && HandlersShow(txns', rids)
    {
      ClientWrites(c, tid, key, value, txns, x', txns');
    }

    method ClientWrites(c: Coordinator, tid: uint64, key: uint64, value: Value, ghost txns: Txns, ghost x': Txn,
                        ghost txns': Txns)
      requires tid in coordinators && coordinators[tid] == c && ClientsShow(txns) && ServerOk()
      requires WroteOnce(txns[tid], x', key, value) && txns' == txns[tid := x']
      modifies c
      ensures ClientsShow(txns') && ServerOk() && server.Abs() == old(server.Abs())
    {
      assert ClientOk(c, tid, txns[tid]);
      ClientsRest(coordinators, clients, txns, tid);
      CoordinatorWrites(c, tid, txns[tid], key, value, x');
      ClientsJoin(coordinators, clients - {c}, txns, tid, c, x');
      SameEntry(coordinators, clients, tid, c);
    }

    method CoordinatorWrites(c: Coordinator, tid: uint64, ghost x: Txn, key: uint64, value: Value, ghost x': Txn)
      requires ServerOk() && c in clients && ClientOk(c, tid, x) && WroteOnce(x, x', key, value)
      modifies c
      ensures ServerOk() && server.Abs() == old(server.Abs()) && ClientOk(c, tid, x')
    {
      var sent := c.Write(key, value);
    }

    // ----- two-phase commit

    /** Phase one, at the server: the coordinator gets the vote. `more` are new objects of the lock manager. */
    method Prepare(tid: uint64, rid: uint64) returns (vote: bool, ghost n: nat, ghost more: set<object>)
      requires Valid() && tid in coordinators && Idle(Now(), tid) && Writes(Now().txns[tid].log) != []
      modifies this`history, this`due, this`votes, server`rdyToCommit, server.lockManager, server.lockManager.repr
      ensures Valid() && fresh(more) && server.lockManager.repr <= old(server.lockManager.repr) + more
      ensures Extends(old(history), history, Now(), Protocol.Prepare(tid, n, vote))
    {
      var ts := StartOf(tid, Now().txns);
      vote, n, more := PrepareRuns(tid, ts, rid, Now().sv, Now().txns, Now().rids);
      TakeVote(tid, n, vote);
    }

    method TakeVote(tid: uint64, ghost n: nat, vote: bool)
      requires ServerOk() && ClientsShow(Now().txns) && HandlersShow(Now().txns, Now().rids) && due == Now().ready
      requires VotesOk(votes, Now().txns) && Idle(Now(), tid) && Writes(Now().txns[tid].log) != []
      requires RunPrepare(Now().sv, server.Abs(), tid, Now().txns[tid].start, n, vote)
      modifies this`history, this`due, this`votes
      ensures Valid() && Extends(old(history), history, Now(), Protocol.Prepare(tid, n, vote))
    {
      ghost var h' := PrepareNext(tid, n, vote);
      TakeStep(h', due, votes[tid := vote]);
    }

    /** Requests carry the start timestamp of the transaction. */
    method StartOf(tid: uint64, ghost txns: Txns) returns (ts: uint64)
      requires ClientsShow(txns) && tid in coordinators
      ensures ts == txns[tid].start && 1 <= ts
    {
      assert ClientOk(coordinators[tid], tid, txns[tid]);
      ts := coordinators[tid].startTs;
    }

    /** The handler of phase one locks what the transaction wrote. */
    method PrepareRuns(tid: uint64, ts: uint64, rid: uint64, ghost sv: Server, ghost txns: Txns,
                       ghost rids: set<uint64>)
      returns (vote: bool, ghost n: nat, ghost more: set<object>)
      requires ServerShows(sv) && ClientsShow(txns) && HandlersShow(txns, rids) && 1 <= ts
      modifies server`rdyToCommit, server.lockManager, server.lockManager.repr
      ensures ServerOk() && ClientsShow(txns) && HandlersShow(txns, rids)
      ensures RunPrepare(sv, server.Abs(), tid, ts, n, vote)
      ensures fresh(more) && server.lockManager.repr <= old(server.lockManager.repr) + more
    {
      var ev := new P1CEvent(server, rid, tid, ts, ts);
      var outcome;
      outcome, n := ev.Run();
      if !ClientsShow(txns) || !HandlersShow(txns, rids) {
        assert false;
      }
      vote, more := ev.vote, server.lockManager.repr - old(server.lockManager.repr);
    }

    lemma PrepareNext(tid: uint64, n: nat, vote: bool) returns (h': SafeRun)
      requires ServerOk() && ClientsShow(Now().txns) && HandlersShow(Now().txns, Now().rids)
      requires VotesOk(votes, Now().txns) && Idle(Now(), tid) && Writes(Now().txns[tid].log) != []
      requires RunPrepare(Now().sv, server.Abs(), tid, Now().txns[tid].start, n, vote)
      ensures var s := Now(); var x' := s.txns[tid].(phase := Prepared(vote));
              && Extends(history, h', Changed(s, server.Abs(), tid, x', s.ready, s.rids),
                         Protocol.Prepare(tid, n, vote))
              && ClientsShow(s.txns[tid := x']) && HandlersShow(s.txns[tid := x'], s.rids)
              && VotesOk(votes[tid := vote], s.txns[tid := x'])
    {
      var s := Now();
      var x' := s.txns[tid].(phase := Prepared(vote));
      h' := PrepareExtends(history, server.Abs(), tid, n, vote);
      ClientsKept(coordinators, clients, s.txns, tid, x');
      HandlersKept(handlers, readers, server, s.txns, s.rids, tid, x');
      VotesMore(votes, s.txns, tid, x', vote);
    }

    /**
     * Phase two: the coordinator decides by the vote, and tells the server, if it has sent it anything.
     * `told` says so; then the requests in `woken` are due to run.
     */
    method Commit(tid: uint64, rid: uint64) returns (vote: bool, told: bool, ghost woken: set<uint64>)
      requires Valid() && tid in coordinators && CanFinish(Now(), tid)
      requires VoteOf(Now(), tid) || SoleReader(Now().sv.locks, tid)
      modifies this`history, this`due, this`votes
      modifies server`store, server`pendWrites, server`rdyToCommit, server.lockManager, server.lockManager.repr
      ensures Valid() && server.lockManager.repr == old(server.lockManager.repr) && vote == VoteOf(old(Now()), tid)
      ensures if told then Extends(old(history), history, Now(), Protocol.Finish(tid, vote, woken))
              else history == old(history)
      ensures told <==> SentAnything(old(Now()).txns[tid])
      ensures told ==> tid in Now().txns && Now().txns[tid].phase == if vote then Committed else Aborted
    {
      LoggedIffSent(history, tid);
      var nodes;
      vote, nodes := Decide(coordinators[tid], tid, Now().txns);
      told, woken := nodes != {}, {};
      if told {
        woken := Finish(tid, vote, rid);
      }
    }

    /** Phase two of a transaction that its client aborts. */
    method Abort(tid: uint64, rid: uint64) returns (told: bool, ghost woken: set<uint64>)
      requires Valid() && tid in coordinators && CanFinish(Now(), tid) && SoleReader(Now().sv.locks, tid)
      modifies this`history, this`due, this`votes
      modifies server`store, server`pendWrites, server`rdyToCommit, server.lockManager, server.lockManager.repr
      ensures Valid() && server.lockManager.repr == old(server.lockManager.repr)
      ensures if told then Extends(old(history), history, Now(), Protocol.Finish(tid, false, woken))
              else history == old(history)
      ensures told <==> SentAnything(old(Now()).txns[tid])
      ensures told ==> tid in Now().txns && Now().txns[tid].phase == Aborted
    {
      LoggedIffSent(history, tid);
      assert ClientOk(coordinators[tid], tid, Now().txns[tid]);
      var nodes := CoordinatorAborts(coordinators[tid]);
      told, woken := nodes != {}, {};
      if told {
        woken := Finish(tid, false, rid);
      }
    }

    /** The coordinator's decision, and whom it tells. */
    method Decide(c: Coordinator, tid: uint64, ghost txns: Txns) returns (vote: bool, nodes: set<uint64>)
      requires ClientsShow(txns) && VotesOk(votes, txns) && tid in coordinators && coordinators[tid] == c
      requires txns[tid].phase.Prepared? || Writes(txns[tid].log) == []
      ensures vote == (txns[tid].phase.Prepared? ==> txns[tid].phase.vote)
      ensures nodes != {} <==> txns[tid].log != []
    {
      assert ClientOk(c, tid, txns[tid]);
      vote, nodes := CoordinatorDecides(c, if tid in votes then map[NODE := votes[tid]] else map[]);
    }

    /** Phase two at the server. */
    method Finish(tid: uint64, commit: bool, rid: uint64) returns (woken: set<uint64>)
      requires Valid() && tid in coordinators && MayFinish(Now().txns[tid], commit)
      requires commit || SoleReader(Now().sv.locks, tid)
      modifies this`history, this`due, this`votes
      modifies server`store, server`pendWrites, server`rdyToCommit, server.lockManager, server.lockManager.repr
      ensures Valid() && server.lockManager.repr == old(server.lockManager.repr)
      ensures Extends(old(history), history, Now(), Protocol.Finish(tid, commit, woken))
      ensures tid in Now().txns && Now().txns[tid].phase == if commit then Committed else Aborted
    {
      woken := FinishRuns(tid, commit, rid, Now().sv, Now().txns, Now().rids);
      Wake(tid, commit, woken);
    }

    /** The handler of phase two releases what the transaction holds, and stores or drops its writes. */
    method FinishRuns(tid: uint64, commit: bool, rid: uint64, ghost sv: Server, ghost txns: Txns,
                      ghost rids: set<uint64>)
      returns (woken: set<uint64>)
      requires ServerShows(sv) && ClientsShow(txns) && HandlersShow(txns, rids) && (commit || SoleReader(sv.locks, tid))
      modifies server`store, server`pendWrites, server`rdyToCommit, server.lockManager, server.lockManager.repr
      ensures ServerOk() && ClientsShow(txns) && HandlersShow(txns, rids)
      ensures RunFinish(sv, server.Abs(), tid, commit, false, woken)
              && server.lockManager.repr == old(server.lockManager.repr)
    {
      var ev := new P2CEvent(server, rid, tid, commit);
      var outcome;
      outcome, woken := ev.Run();
      if !ClientsShow(txns) || !HandlersShow(txns, rids) {
        assert false;
      }
    }

    /** What phase two wakes is due to run. */
    method Wake(tid: uint64, commit: bool, woken: set<uint64>)
      requires ServerOk() && ClientsShow(Now().txns) && HandlersShow(Now().txns, Now().rids) && due == Now().ready
      requires VotesOk(votes, Now().txns) && tid in Now().txns && MayFinish(Now().txns[tid], commit)
      requires RunFinish(Now().sv, server.Abs(), tid, commit, false, woken)
               && (commit || SoleReader(Now().sv.locks, tid))
      modifies this`history, this`due, this`votes
      ensures Valid() && Extends(old(history), history, Now(), Protocol.Finish(tid, commit, woken))
      ensures tid in Now().txns && Now().txns[tid].phase == if commit then Committed else Aborted
    {
      ghost var h' := FinishNext(tid, commit, woken);
      TakeStep(h', due + woken, votes);
    }

    lemma FinishNext(tid: uint64, commit: bool, woken: set<uint64>) returns (h': SafeRun)
      requires ServerOk() && ClientsShow(Now().txns) && HandlersShow(Now().txns, Now().rids)
      requires VotesOk(votes, Now().txns) && tid in Now().txns && MayFinish(Now().txns[tid], commit)
      requires RunFinish(Now().sv, server.Abs(), tid, commit, false, woken)
               && (commit || SoleReader(Now().sv.locks, tid))
      ensures var s := Now(); var x' := s.txns[tid].(phase := Done(commit));
              && Extends(history, h', Changed(s, server.Abs(), tid, x', s.ready + woken, s.rids),
                         Protocol.Finish(tid, commit, woken))
              && ClientsShow(s.txns[tid := x']) && HandlersShow(s.txns[tid := x'], s.rids)
              && VotesOk(votes, s.txns[tid := x'])
    {
      var s := Now();
      var x' := s.txns[tid].(phase := Done(commit));
      h' := FinishExtends(history, server.Abs(), tid, commit, woken);
      ClientsKept(coordinators, clients, s.txns, tid, x');
      HandlersKept(handlers, readers, server, s.txns, s.rids, tid, x');
      VotesKept(votes, s.txns, tid, x');
    }

    // ----- what this is for

    /** What the coordinators of some transactions logged. */
    ghost function LogsOf(order: seq<uint64>): seq<seq<Op>>
      requires forall tid | tid in order :: tid in coordinators && coordinators[tid] in clients
      reads this`coordinators, this`clients, clients
    {
      if order == [] then [] else LogsOf(order[..|order| - 1]) + [coordinators[order[|order| - 1]].log]
    }

    lemma {:induction false} LogsAgree(order: seq<uint64>)
      requires Valid() && forall tid | tid in order :: tid in coordinators
      ensures forall tid | tid in order :: coordinators[tid] in clients && tid in Now().txns
      ensures LogsOf(order) == Logs(Now().txns, order)
    {
      forall tid | tid in order ensures coordinators[tid] in clients && tid in Now().txns {
        assert ClientOk(coordinators[tid], tid, Now().txns[tid]);
      }
      if order != [] {
        var last := order[|order| - 1];
        LogsAgree(order[..|order| - 1]);
        assert ClientOk(coordinators[last], last, Now().txns[last]);
      }
    }

    /**
     * Whatever was called in whatever order: replaying the logs of the coordinators that committed, by
     * start timestamp, reproduces every value that they read if and only if ties agree.
     */
    lemma LogsSerializable(order: seq<uint64>)
      requires Valid() && TimeOrder(Now(), order)
      ensures forall tid | tid in order :: tid in coordinators && coordinators[tid] in clients
      ensures SerialRun(LogsOf(order)) <==> forall n | 0 <= n < |order| :: TiesAgree(Now(), order, n)
    {
      forall tid | tid in order ensures tid in coordinators {
        assert tid in Now().txns;
      }
      LogsAgree(order);
      SerializableIffTiesAgree(history.run, history.acts, false, |history.acts|, order);
    }
  }
}
