/**
 * Vocabulary shared by every layer: 64-bit words, the five lock statuses, and the
 * effect that one lock manager operation has on the lock of a single (key, time) point.
 */
module LockTypes {

  const UINT64_MAX: int := 0xFFFF_FFFF_FFFF_FFFF

  /** Keys, times, transaction ids and request ids are all unsigned 64-bit words. */
  type uint64 = x: int | 0 <= x <= UINT64_MAX

  datatype LockStatus = Free | ReadLock | WriteLock | FreezeReadLock | FreezeWriteLock

  /** The lock of one point: its status and the transactions recorded as its holders. */
  datatype Cell = Cell(status: LockStatus, tids: set<uint64>)

  /** What every point except time 0 looks like before anybody touches its key. */
  const FREE_CELL := Cell(Free, {})

  /** Time 0 is a frozen write: the version that every key is born with. */
  const SENTINEL_CELL := Cell(FreezeWriteLock, {})

  predicate Frozen(c: Cell) {
    c.status == FreezeReadLock || c.status == FreezeWriteLock
  }

  /** A live (not frozen) lock. */
  predicate Locked(c: Cell) {
    c.status == ReadLock || c.status == WriteLock
  }

  predicate Holds(c: Cell, tid: uint64) {
    Locked(c) && tid in c.tids
  }

  function Mode(isRead: bool): LockStatus {
    if isRead then ReadLock else WriteLock
  }

  /** A point that a backward walk takes: free, or read-locked when the caller reads. */
  predicate Takes(c: Cell, isRead: bool) {
    c.status == Free || (c.status == ReadLock && isRead)
  }

  /** A point that a backward walk cannot go past. */
  predicate Stops(c: Cell, isRead: bool) {
    !Takes(c, isRead) && !(c.status == FreezeReadLock && isRead)
  }

  function LockCell(c: Cell, tid: uint64, isRead: bool): Cell {
    if Takes(c, isRead) then Cell(Mode(isRead), c.tids + {tid}) else c
  }

  function FreezeCell(c: Cell, tid: uint64): Cell {
    if !Holds(c, tid) then c
    else if c.status == ReadLock then Cell(FreezeReadLock, {})
    else Cell(FreezeWriteLock, {})
  }

  /**
   * Unlocking one point. The source frees a read-locked point as soon as any one of its
   * readers leaves; `repaired` selects the rule its interface documents, under which the
   * last reader out frees the point.
   */
  function UnlockCell(c: Cell, tid: uint64, repaired: bool): Cell {
    if !Holds(c, tid) then c
    else if repaired && c.status == ReadLock && c.tids != {tid} then Cell(ReadLock, c.tids - {tid})
    else Cell(Free, c.tids - {tid})
  }

  /** Whether freezing `tid` runs the events registered on a point. */
  predicate FreezeWakes(c: Cell, tid: uint64) {
    Holds(c, tid)
  }

  /** Whether unlocking `tid` runs the events registered on a point. */
  predicate UnlockWakes(c: Cell, tid: uint64) {
    Holds(c, tid) && (c.status == WriteLock || c.tids == {tid})
  }

  /** Finishing a transaction freezes what it holds, or unlocks it. */
  function FinishCell(c: Cell, tid: uint64, commit: bool, repaired: bool): Cell {
    if commit then FreezeCell(c, tid) else UnlockCell(c, tid, repaired)
  }

  /** Whether finishing a transaction runs the events registered on a point. */
  predicate Wakes(c: Cell, tid: uint64, commit: bool) {
    if commit then FreezeWakes(c, tid) else UnlockWakes(c, tid)
  }

  /** The holder discipline of one point: readers share, a writer is alone, nobody else holds. */
  predicate CellOk(c: Cell) {
    match c.status
    case ReadLock => c.tids != {}
    case WriteLock => c.tids != {} && forall a, b | a in c.tids && b in c.tids :: a == b
    case _ => c.tids == {}
  }

  /** `tid` is the only holder of the point if it holds it for reading. */
  predicate SoleReaderCell(c: Cell, tid: uint64) {
    c.status == ReadLock && tid in c.tids ==> c.tids == {tid}
  }

  lemma LockCellOk(c: Cell, tid: uint64, isRead: bool)
    requires CellOk(c)
    ensures CellOk(LockCell(c, tid, isRead))
  {
  }

  lemma FreezeCellOk(c: Cell, tid: uint64)
    requires CellOk(c)
    ensures CellOk(FreezeCell(c, tid)) && tid !in FreezeCell(c, tid).tids
  {
  }

  /**
   * Whoever waits at a point is woken exactly when a hold of the point ends: the transaction was among its
   * holders, and nobody is left.
   */
  lemma WakesIffHoldEnds(c: Cell, tid: uint64, commit: bool, repaired: bool)
    requires CellOk(c)
    ensures Wakes(c, tid, commit) <==> tid in c.tids && FinishCell(c, tid, commit, repaired).tids == {}
  {
    if tid in c.tids {
      assert c.tids - {tid} == {} <==> c.tids == {tid};
    }
  }

  /** Unlocking as written keeps the holder discipline exactly when no other reader is left behind. */
  lemma UnlockCellOk(c: Cell, tid: uint64, repaired: bool)
    requires CellOk(c)
    ensures CellOk(UnlockCell(c, tid, repaired)) <==> repaired || SoleReaderCell(c, tid)
    ensures SoleReaderCell(c, tid) ==> UnlockCell(c, tid, false) == UnlockCell(c, tid, true)
    ensures tid !in UnlockCell(c, tid, repaired).tids
  {
    if c.status == WriteLock && tid in c.tids {
      assert c.tids == {tid};
    }
    if c.status == ReadLock && tid in c.tids && c.tids != {tid} {
      assert c.tids == (c.tids - {tid}) + {tid};
    }
  }
}
