/**
 * The multi-version store as a value, and the list of writes a transaction buffers.
 */
module VersionStore {
  import opened LockTypes

  type Value = string

  /** The value every key has at time 0. */
  const INITIAL_VALUE: Value := "0"

  type Store = map<uint64, map<uint64, Value>>

  datatype Option<+T> = None | Some(value: T)

  datatype Write = Write(key: uint64, value: Value)

  function Lookup(store: Store, key: uint64, ts: uint64): Option<Value> {
    if key in store && ts in store[key] then Some(store[key][ts]) else None
  }

  predicate HasVersion(store: Store, key: uint64, ts: uint64) {
    Lookup(store, key, ts).Some?
  }

  /** What a read is answered: time 0 always has a value, a missing version has none. */
  function Get(store: Store, key: uint64, ts: uint64): Option<Value> {
    if ts == 0 then Some(INITIAL_VALUE) else Lookup(store, key, ts)
  }

  function Set(store: Store, key: uint64, ts: uint64, value: Value): (r: Store)
    ensures forall k: uint64, t: uint64 ::
              Lookup(r, k, t) == if k == key && t == ts then Some(value) else Lookup(store, k, t)
  {
    store[key := (if key in store then store[key] else map[])[ts := value]]
  }

  predicate Wrote(ws: seq<Write>, key: uint64) {
    exists i :: 0 <= i < |ws| && ws[i].key == key
  }

  /** The value that a list of writes leaves at a key: the last one wins. */
  function LastValue(ws: seq<Write>, key: uint64): Value
    requires Wrote(ws, key)
  {
    if ws[|ws| - 1].key == key then ws[|ws| - 1].value else LastValue(ws[..|ws| - 1], key)
  }

  /** Store a list of writes, in order, at one timestamp. */
  function SetAll(store: Store, ts: uint64, ws: seq<Write>): Store {
    if ws == [] then store
    else Set(SetAll(store, ts, ws[..|ws| - 1]), ws[|ws| - 1].key, ts, ws[|ws| - 1].value)
  }

  lemma WroteSnoc(ws: seq<Write>, w: Write, key: uint64)
    ensures Wrote(ws + [w], key) <==> Wrote(ws, key) || w.key == key
  {
    var both := ws + [w];
    assert both[|ws|] == w;
    assert forall i :: 0 <= i < |ws| ==> both[i] == ws[i];
  }

  /** What is in the store after a list of writes was stored at one timestamp. */
  lemma {:induction false} SetAllLookup(store: Store, ts: uint64, ws: seq<Write>, k: uint64, t: uint64)
    ensures Lookup(SetAll(store, ts, ws), k, t)
         == if t == ts && Wrote(ws, k) then Some(LastValue(ws, k)) else Lookup(store, k, t)
  {
    if ws != [] {
      var front, w := ws[..|ws| - 1], ws[|ws| - 1];
      assert ws == front + [w];
      SetAllLookup(store, ts, front, k, t);
      WroteSnoc(front, w, k);
    }
  }
}
