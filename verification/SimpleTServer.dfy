/**
 * The transaction server: the lock manager, the multi-version store, and the writes that
 * transactions have buffered or are ready to commit.
 */
module SimpleTServers {
  import opened LockTypes
  import opened VersionStore
  import opened LockTables
  import opened AVLTreeLockManagers
  import opened ServerSpec

  class SimpleTServer {
    const lockManager: AVLTreeLockManager
    var store: Store
    var pendWrites: map<uint64, seq<Write>>
    var rdyToCommit: map<uint64, uint64>

    /** The trees of the lock manager are well formed and the server is not one of their objects. */
    ghost predicate TreesOk()
      reads this, lockManager, lockManager.repr
    {
      this !in lockManager.repr && lockManager.TreesOk()
    }

    ghost predicate Valid()
      reads this, lockManager, lockManager.repr
    {
      TreesOk() && lockManager.Valid()
    }

    /** What the server stands for: see ServerSpec. */
    ghost function Abs(): Server
      requires TreesOk()
      reads this, lockManager, lockManager.repr
    {
      Server(LocksOf(lockManager.table), EventsOf(lockManager.waiting), store, pendWrites, rdyToCommit)
    }

    /** A new server: version 0 of every key is frozen, everything else is free and empty. */
    constructor ()
      ensures Valid() && fresh(lockManager) && lockManager.repr == {}
      ensures forall k: uint64, t: uint64 :: Abs().locks(k, t) == if t == 0 then SENTINEL_CELL else FREE_CELL
      ensures forall k: uint64, t: uint64 :: Abs().events(k, t) == {}
      ensures Abs().store == map[] && Abs().pend == map[] && Abs().rdy == map[]
    {
      lockManager := new AVLTreeLockManager();
      store, pendWrites, rdyToCommit := map[], map[], map[];
      new;
      assert forall k :: !Known(lockManager.table, k);
    }

    method Get(key: uint64, ts: uint64) returns (value: Option<Value>)
      ensures value == VersionStore.Get(store, key, ts)
      ensures ts == 0 ==> value == Some("0")
    {
      if ts == 0 {
        return Some(INITIAL_VALUE);
      }
      if key !in store {
        return None;
      }
      if ts !in store[key] {
        return None;
      }
      return Some(store[key][ts]);
    }

    method Set(key: uint64, ts: uint64, value: Value)
      modifies this`store
      ensures store == VersionStore.Set(old(store), key, ts, value)
    {
      if key !in store {
        store := store[key := map[]];
      }
      var versions: map<uint64, Value> := store[key];
      versions := versions[ts := value];
      store := store[key := versions];
    }

    /** Buffer a write. */
    method Add(tid: uint64, key: uint64, value: Value)
      modifies this`pendWrites
      ensures pendWrites == old(pendWrites)[tid := Buffered(old(pendWrites), tid) + [Write(key, value)]]
    {
      if tid !in pendWrites {
        pendWrites := pendWrites[tid := []];
      }
      pendWrites := pendWrites[tid := pendWrites[tid] + [Write(key, value)]];
    }

    /** The keys a transaction has buffered writes for, in the order of the writes. */
    method GetKeys(tid: uint64) returns (keys: seq<uint64>)
      ensures |keys| == |Buffered(pendWrites, tid)|
      ensures forall i | 0 <= i < |keys| :: keys[i] == Buffered(pendWrites, tid)[i].key
    {
      keys := [];
      if tid !in pendWrites {
        return;
      }
      for i := 0 to |pendWrites[tid]|
        invariant |keys| == i
        invariant forall j | 0 <= j < i :: keys[j] == pendWrites[tid][j].key
      {
        keys := keys + [pendWrites[tid][i].key];
      }
    }

    method Prepare(tid: uint64, ts: uint64)
      modifies this`rdyToCommit
      ensures rdyToCommit == old(rdyToCommit)[tid := ts]
    {
      rdyToCommit := rdyToCommit[tid := ts];
    }

    /** Store the buffered writes of a prepared transaction, or drop them, and forget the transaction. */
    method Finalize(tid: uint64, success: bool)
      modifies this`store, this`pendWrites, this`rdyToCommit
      ensures if tid !in old(rdyToCommit) then
                store == old(store) && pendWrites == old(pendWrites) && rdyToCommit == old(rdyToCommit)
              else
                && store == (if success then SetAll(old(store), old(rdyToCommit)[tid], Buffered(old(pendWrites), tid))
                             else old(store))
                && pendWrites == old(pendWrites) - {tid} && rdyToCommit == old(rdyToCommit) - {tid}
    {
      if tid !in rdyToCommit {
        return;
      }
      if tid !in pendWrites {
        rdyToCommit := rdyToCommit - {tid};
        return;
      }
      if success {
        StorePending(tid);
      }
      pendWrites := pendWrites - {tid};
      rdyToCommit := rdyToCommit - {tid};
    }

    /** The loop of Finalize. */
    method StorePending(tid: uint64)
      requires tid in rdyToCommit && tid in pendWrites
      modifies this`store
      ensures store == SetAll(old(store), rdyToCommit[tid], pendWrites[tid])
    {
      var ws := pendWrites[tid];
      for i := 0 to |ws|
        invariant store == SetAll(old(store), rdyToCommit[tid], ws[..i])
      {
        Set(ws[i].key, rdyToCommit[tid], ws[i].value);
        assert ws[..i + 1] == ws[..i] + [ws[i]];
      }
      assert ws[..|ws|] == ws;
    }
  }
}
