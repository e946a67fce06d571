/**
 * What one request does to a server, as relations between the server's abstract state before
 * and after: locks as a function of (key, time), and the maps of the store.
 * The classes that implement the requests are proved against these relations, and the
 * transaction protocol takes them as its steps.
 */
module ServerSpec {
  import opened LockTypes
  import opened VersionStore

  type Locks = (uint64, uint64) -> Cell

  /** The requests waiting at a (key, interval end). */
  type Events = (uint64, uint64) -> set<uint64>

  datatype Server = Server(
    locks: Locks,
    events: Events,
    store: Store,
    pend: map<uint64, seq<Write>>,
    rdy: map<uint64, uint64>)

  /** The writes a transaction has buffered. */
  function Buffered(pend: map<uint64, seq<Write>>, tid: uint64): seq<Write> {
    if tid in pend then pend[tid] else []
  }

  function PendOf(sv: Server, tid: uint64): seq<Write> {
    Buffered(sv.pend, tid)
  }

  ghost predicate SameLocks(m: Locks, m': Locks) {
    forall k: uint64, t: uint64 :: m'(k, t) == m(k, t)
  }

  ghost predicate SameEvents(e: Events, e': Events) {
    forall k: uint64, t: uint64 :: e'(k, t) == e(k, t)
  }

  ghost predicate Registered(e: Events, e': Events, key: uint64, end: uint64, rid: uint64) {
    forall k: uint64, t: uint64 :: e'(k, t) == if k == key && t == end then e(k, t) + {rid} else e(k, t)
  }

  /** `v` is where a walk back from `hi` stops: the greatest stopping time not after `hi`. */
  ghost predicate BackwardStop(m: Locks, key: uint64, hi: uint64, isRead: bool, v: uint64) {
    && v <= hi
    && Stops(m(key, v), isRead)
    && forall t: uint64 | v < t <= hi :: !Stops(m(key, t), isRead)
  }

  /** Everything the walk may take in (v, hi] is taken, nothing else changes. */
  ghost predicate BackwardLocked(m: Locks, m': Locks, key: uint64, tid: uint64, hi: uint64, isRead: bool, v: uint64) {
    forall k: uint64, t: uint64 ::
      m'(k, t) == if k == key && v < t <= hi then LockCell(m(k, t), tid, isRead) else m(k, t)
  }

  /** A walk stopped by a live lock leaves its event at the end of the blocking interval. */
  ghost predicate BlockedAt(sv: Server, sv': Server, key: uint64, rid: uint64, v: uint64, end: uint64) {
    && Registered(sv.events, sv'.events, key, end, rid)
    && v <= end
    && forall t: uint64 | v <= t <= end :: sv.locks(key, t) == sv.locks(key, v)
  }

  /** One attempt of a read below `ts`, stopped at `v`. */
  ghost predicate RunRead(sv: Server, sv': Server, tid: uint64, key: uint64, ts: uint64, rid: uint64,
                          v: uint64, end: uint64)
  {
    && 1 <= ts
    && BackwardStop(sv.locks, key, ts - 1, true, v)
    && BackwardLocked(sv.locks, sv'.locks, key, tid, ts - 1, true, v)
    && (if Frozen(sv.locks(key, v)) then SameEvents(sv.events, sv'.events) else BlockedAt(sv, sv', key, rid, v, end))
    && sv'.store == sv.store && sv'.pend == sv.pend && sv'.rdy == sv.rdy
  }

  /** A write is buffered. */
  ghost predicate RunWrite(sv: Server, sv': Server, tid: uint64, key: uint64, value: Value) {
    && SameLocks(sv.locks, sv'.locks) && SameEvents(sv.events, sv'.events)
    && sv'.pend == sv.pend[tid := PendOf(sv, tid) + [Write(key, value)]]
    && sv'.store == sv.store && sv'.rdy == sv.rdy
  }

  /** The first `n` buffered keys can be write-locked at `ts` and the next one cannot. */
  ghost predicate PrepareStop(m: Locks, ws: seq<Write>, ts: uint64, n: nat) {
    && n <= |ws|
    && (forall i | 0 <= i < n :: m(ws[i].key, ts).status == Free && !Wrote(ws[..i], ws[i].key))
    && (n < |ws| ==> m(ws[n].key, ts).status != Free || Wrote(ws[..n], ws[n].key))
  }

  ghost predicate PrepareLocked(m: Locks, m': Locks, tid: uint64, ts: uint64, ws: seq<Write>) {
    forall k: uint64, t: uint64 ::
      m'(k, t) == if t == ts && Wrote(ws, k) then LockCell(m(k, t), tid, false) else m(k, t)
  }

  /** Phase one of commit at timestamp `ts`; the vote is yes when every buffered key was locked. */
  ghost predicate RunPrepare(sv: Server, sv': Server, tid: uint64, ts: uint64, n: nat, vote: bool) {
    var ws := PendOf(sv, tid);
    && PrepareStop(sv.locks, ws, ts, n)
    && PrepareLocked(sv.locks, sv'.locks, tid, ts, ws[..n])
    && vote == (n == |ws|)
    && SameEvents(sv.events, sv'.events)
    && sv'.rdy == sv.rdy[tid := ts]
    && sv'.store == sv.store && sv'.pend == sv.pend
  }

  ghost predicate WokenBy(sv: Server, tid: uint64, commit: bool, rid: uint64) {
    exists k: uint64, t: uint64 :: rid in sv.events(k, t) && Wakes(sv.locks(k, t), tid, commit)
  }

  ghost predicate FinishLocked(m: Locks, m': Locks, tid: uint64, commit: bool, repaired: bool) {
    forall k: uint64, t: uint64 :: m'(k, t) == FinishCell(m(k, t), tid, commit, repaired)
  }

  /** The buffered writes of a prepared transaction go to the store, or nowhere. */
  ghost predicate Finalized(sv: Server, sv': Server, tid: uint64, commit: bool) {
    if tid !in sv.rdy then
      sv'.store == sv.store && sv'.pend == sv.pend && sv'.rdy == sv.rdy
    else
      && sv'.store == (if commit then SetAll(sv.store, sv.rdy[tid], PendOf(sv, tid)) else sv.store)
      && sv'.pend == sv.pend - {tid} && sv'.rdy == sv.rdy - {tid}
  }

  /** Phase two of commit, with the set of waiting requests it wakes. */
  ghost predicate RunFinish(sv: Server, sv': Server, tid: uint64, commit: bool, repaired: bool, woken: set<uint64>) {
    && FinishLocked(sv.locks, sv'.locks, tid, commit, repaired)
    && SameEvents(sv.events, sv'.events)
    && Finalized(sv, sv', tid, commit)
    && forall rid: uint64 :: rid in woken <==> WokenBy(sv, tid, commit, rid)
  }

  /** The buffered key at `i` can be locked: it is free at `ts`, and was not buffered before. */
  ghost predicate CanLock(m: Locks, ws: seq<Write>, ts: uint64, i: nat)
    requires i < |ws|
  {
    m(ws[i].key, ts).status == Free && forall j | 0 <= j < i :: ws[j].key != ws[i].key
  }

  /** The i-th buffered key and all before it can be locked. */
  ghost predicate CanLockUpTo(m: Locks, ws: seq<Write>, ts: uint64, i: nat)
    requires i < |ws|
  {
    forall j | 0 <= j <= i :: CanLock(m, ws, ts, j)
  }

  /** A key is buffered before anything that cannot be locked. */
  ghost predicate GetsLock(m: Locks, ws: seq<Write>, ts: uint64, k: uint64) {
    exists i :: 0 <= i < |ws| && ws[i].key == k && CanLockUpTo(m, ws, ts, i)
  }

  lemma CanLockIff(m: Locks, ws: seq<Write>, ts: uint64, i: nat)
    requires i < |ws|
    ensures CanLock(m, ws, ts, i) <==> m(ws[i].key, ts).status == Free && !Wrote(ws[..i], ws[i].key)
  {
    if Wrote(ws[..i], ws[i].key) {
      var j :| 0 <= j < i && ws[..i][j].key == ws[i].key;
      assert ws[j].key == ws[i].key;
    }
    forall j | 0 <= j < i && ws[j].key == ws[i].key ensures Wrote(ws[..i], ws[i].key) {
      assert ws[..i][j].key == ws[i].key;
    }
  }

  lemma GetsLockIff(m: Locks, ws: seq<Write>, ts: uint64, n: nat, k: uint64)
    requires PrepareStop(m, ws, ts, n)
    ensures GetsLock(m, ws, ts, k) <==> Wrote(ws[..n], k)
  {
    forall i | 0 <= i < |ws| ensures CanLock(m, ws, ts, i) <==>
                                     m(ws[i].key, ts).status == Free && !Wrote(ws[..i], ws[i].key)
    {
      CanLockIff(m, ws, ts, i);
    }
    if Wrote(ws[..n], k) {
      var i :| 0 <= i < n && ws[..n][i].key == k;
      assert ws[i].key == k && CanLockUpTo(m, ws, ts, i);
    }
    if i :| 0 <= i < |ws| && ws[i].key == k && CanLockUpTo(m, ws, ts, i) {
      assert n < |ws| ==> !CanLock(m, ws, ts, n);
      assert i < n && ws[..n][i].key == k;
    }
  }

  /**
   * The vote is yes if and only if every buffered key can be locked. Whatever the vote is, exactly the keys
   * before the first that cannot be locked get the write lock, at the commit timestamp only.
   */
  lemma VotesYesIff(sv: Server, sv': Server, tid: uint64, ts: uint64, n: nat, vote: bool)
    requires RunPrepare(sv, sv', tid, ts, n, vote)
    ensures vote <==> forall i | 0 <= i < |PendOf(sv, tid)| :: CanLock(sv.locks, PendOf(sv, tid), ts, i)
    ensures forall k: uint64, t: uint64 ::
              sv'.locks(k, t) ==
              if t == ts && GetsLock(sv.locks, PendOf(sv, tid), ts, k) then Cell(WriteLock, sv.locks(k, t).tids + {tid})
              else sv.locks(k, t)
  {
    var ws := PendOf(sv, tid);
    forall i | 0 <= i < |ws| ensures CanLock(sv.locks, ws, ts, i) <==>
                                     sv.locks(ws[i].key, ts).status == Free && !Wrote(ws[..i], ws[i].key)
    {
      CanLockIff(sv.locks, ws, ts, i);
    }
    forall k: uint64 ensures GetsLock(sv.locks, ws, ts, k) <==> Wrote(ws[..n], k) {
      GetsLockIff(sv.locks, ws, ts, n, k);
    }
    forall k: uint64 | Wrote(ws[..n], k) ensures sv.locks(k, ts).status == Free {
      var i :| 0 <= i < n && ws[..n][i].key == k;
      assert ws[i].key == k;
    }
  }

  /** `tid` was among the holders of a point, and nobody is any more. */
  ghost predicate HoldEnds(m: Locks, m': Locks, tid: uint64, k: uint64, t: uint64) {
    tid in m(k, t).tids && m'(k, t).tids == {}
  }

  /** Whom phase two wakes, in terms of who holds what before and after it, under either unlock rule. */
  lemma WokenWhereHoldEnds(sv: Server, sv': Server, tid: uint64, commit: bool, repaired: bool, woken: set<uint64>,
                           rid: uint64)
    requires LocksOk(sv.locks) && RunFinish(sv, sv', tid, commit, repaired, woken)
    ensures rid in woken <==>
            exists k: uint64, t: uint64 :: rid in sv.events(k, t) && HoldEnds(sv.locks, sv'.locks, tid, k, t)
  {
    forall k: uint64, t: uint64
      ensures Wakes(sv.locks(k, t), tid, commit) <==> HoldEnds(sv.locks, sv'.locks, tid, k, t)
    {
      WakesIffHoldEnds(sv.locks(k, t), tid, commit, repaired);
    }
    if rid in woken {
      assert WokenBy(sv, tid, commit, rid);
      var k: uint64, t: uint64 :| rid in sv.events(k, t) && Wakes(sv.locks(k, t), tid, commit);
      assert HoldEnds(sv.locks, sv'.locks, tid, k, t);
    }
    if k: uint64, t: uint64 :| rid in sv.events(k, t) && HoldEnds(sv.locks, sv'.locks, tid, k, t) {
      assert WokenBy(sv, tid, commit, rid);
    }
  }

  /** No transaction other than `tid` reads any point that `tid` reads. */
  ghost predicate SoleReader(m: Locks, tid: uint64) {
    forall k: uint64, t: uint64 :: SoleReaderCell(m(k, t), tid)
  }

  /** The holder discipline at every point, and the sentinel at time 0. */
  ghost predicate LocksOk(m: Locks) {
    && (forall k: uint64, t: uint64 :: CellOk(m(k, t)))
    && (forall k: uint64 :: m(k, 0) == SENTINEL_CELL)
  }

  /**
   * The exact condition under which unlocking, as the source writes it, keeps the holder
   * discipline: the leaving transaction shares none of its read locks.
   */
  lemma UnlockKeepsLocksOkIff(m: Locks, m': Locks, tid: uint64)
    requires LocksOk(m) && FinishLocked(m, m', tid, false, false)
    ensures LocksOk(m') <==> SoleReader(m, tid)
  {
    forall k: uint64, t: uint64
      ensures CellOk(m'(k, t)) <==> SoleReaderCell(m(k, t), tid)
    {
      UnlockCellOk(m(k, t), tid, false);
    }
  }

  /** Under the same condition the written rule and the documented rule are the same step. */
  lemma UnlockRulesAgreeIff(m: Locks, m': Locks, tid: uint64)
    requires LocksOk(m) && FinishLocked(m, m', tid, false, false)
    ensures FinishLocked(m, m', tid, false, true) <==> SoleReader(m, tid)
  {
    forall k: uint64, t: uint64
      ensures UnlockCell(m(k, t), tid, false) == UnlockCell(m(k, t), tid, true) <==> SoleReaderCell(m(k, t), tid)
    {
      UnlockCellOk(m(k, t), tid, false);
    }
  }
}
