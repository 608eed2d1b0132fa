/** Two-phase locking for one transaction: how a lock request or an unlock changes the
    lock table and the transaction, and the lock manager that does it in place. */
module LockManager {
  import opened LockTable
  import opened History

  datatype Phase = Default | Growing | Shrinking | Committed | Aborted

  datatype AbortReason = LockOnShrinking | UpgradeConflict | DeadlockPrevention

  // NotLocked is the `false` a finished transaction gets; Throws is the exception.
  datatype Reply = Locked | NotLocked | Throws(reason: AbortReason)

  type Locks = map<LockId, Queue>

  // The part of a transaction that locking reads and writes.
  datatype TxnView = TxnView(phase: Phase, lockSet: set<LockId>)

  datatype Acquired = Acquired(locks: Locks, view: TxnView, reply: Reply)

  datatype Released = Released(locks: Locks, view: TxnView)

  function QueueAt(locks: Locks, id: LockId): Queue {
    if id in locks then locks[id] else EmptyQueue
  }

  predicate Finished(p: Phase) {
    p == Committed || p == Aborted
  }

  /** Any of the six lock functions. A refused request still creates the queue and
      still moves the transaction out of DEFAULT. */
  function Acquire(locks: Locks, v: TxnView, t: TxnId, id: LockId, w: Want): Acquired {
    if Finished(v.phase) then Acquired(locks, v, NotLocked)
    else if v.phase == Shrinking then Acquired(locks, v, Throws(LockOnShrinking))
    else
      var q := QueueAt(locks, id);
      var grown := v.(phase := Growing);
      match Decide(q, t, w)
      case Refused => Acquired(locks[id := q], grown, Throws(DeadlockPrevention))
      case Granted(r) =>
        Acquired(locks[id := r],
                 if Find(q.requests, t) < |q.requests| then grown else grown.(lockSet := v.lockSet + {id}),
                 Locked)
  }

  function ReleaseLock(locks: Locks, v: TxnView, t: TxnId, id: LockId): Released {
    if Finished(v.phase) then Released(locks, v)
    else
      Released(if id in locks then locks[id := Release(locks[id], t)] else locks,
               if v.phase == Growing then v.(phase := Shrinking) else v)
  }

  class Transaction {
    const id: TxnId
    var phase: Phase
    var lockSet: set<LockId>
    var writeSet: seq<WriteRecord>

    constructor (id: TxnId)
      ensures this.id == id && LockView() == TxnView(Default, {}) && writeSet == []
    {
      this.id := id;
      phase, lockSet, writeSet := Default, {}, [];
    }

    function LockView(): TxnView
      reads this
    {
      TxnView(phase, lockSet)
    }
  }

  /** The scan of a queue for a transaction's request. */
  method FindRequest(rs: seq<Request>, t: TxnId) returns (i: nat)
    ensures i <= |rs|
    ensures i < |rs| ==> rs[i].txn == t
    ensures forall j :: 0 <= j < i ==> rs[j].txn != t
    ensures i == Find(rs, t)
  {
    i := 0;
    while i < |rs| && rs[i].txn != t
      invariant i <= |rs| && forall j :: 0 <= j < i ==> rs[j].txn != t
    {
      i := i + 1;
    }
    FindIs(rs, t, i);
  }

  class Manager {
    var lockTable: Locks

    constructor ()
      ensures lockTable == map[]
    {
      lockTable := map[];
    }

    method CheckLock(txn: Transaction) returns (r: Reply)
      modifies txn`phase
      ensures txn.phase == if old(txn.phase) == Default then Growing else old(txn.phase)
      ensures r == if Finished(old(txn.phase)) then NotLocked
                   else if old(txn.phase) == Shrinking then Throws(LockOnShrinking) else Locked
    {
      if txn.phase == Committed || txn.phase == Aborted {
        return NotLocked;
      }
      if txn.phase == Shrinking {
        return Throws(LockOnShrinking);
      }
      if txn.phase == Default {
        txn.phase := Growing;
      }
      return Locked;
    }

    method QueueFor(id: LockId) returns (q: Queue)
      modifies this
      ensures q == QueueAt(old(lockTable), id) && lockTable == old(lockTable)[id := q]
    {
      if id !in lockTable {
        lockTable := lockTable[id := EmptyQueue];
      }
      q := lockTable[id];
    }

    method LockSharedOnRecord(txn: Transaction, rec: RecId) returns (r: Reply)
      modifies this, txn`phase, txn`lockSet
      ensures Acquired(lockTable, txn.LockView(), r)
           == Acquire(old(lockTable), old(txn.LockView()), txn.id, OnRecord(rec), RecordShared)
    {
      var id := OnRecord(rec);
      r := CheckLock(txn);
      if r != Locked { return; }
      var q := QueueFor(id);
      var i := FindRequest(q.requests, txn.id);
      if i < |q.requests| { return; }
      if q.group == X || q.group == IX || q.group == SIX { return Throws(DeadlockPrevention); }
      lockTable := lockTable[id := Queue(q.requests + [Request(txn.id, Shared)], S, q.sharedNum + 1, q.ixNum)];
      txn.lockSet := txn.lockSet + {id};
    }

    method LockExclusiveOnRecord(txn: Transaction, rec: RecId) returns (r: Reply)
      modifies this, txn`phase, txn`lockSet
      ensures Acquired(lockTable, txn.LockView(), r)
           == Acquire(old(lockTable), old(txn.LockView()), txn.id, OnRecord(rec), RecordExclusive)
    {
      var id := OnRecord(rec);
      r := CheckLock(txn);
      if r != Locked { return; }
      var q := QueueFor(id);
      var i := FindRequest(q.requests, txn.id);
      if i < |q.requests| {
        if q.requests[i].mode == Exclusive { return; }
        if q.requests[i].mode == Shared && |q.requests| == 1 {
          lockTable := lockTable[id := SetMode(q, i, Exclusive, X)];
          return;
        }
        return Throws(DeadlockPrevention);
      }
      if q.group != NonLock { return Throws(DeadlockPrevention); }
      lockTable := lockTable[id := Append(q, txn.id, Exclusive, X)];
      txn.lockSet := txn.lockSet + {id};
    }

    method LockSharedOnTable(txn: Transaction, fd: int) returns (r: Reply)
      modifies this, txn`phase, txn`lockSet
      ensures Acquired(lockTable, txn.LockView(), r)
           == Acquire(old(lockTable), old(txn.LockView()), txn.id, OnTable(fd), TableShared)
    {
      var id := OnTable(fd);
      r := CheckLock(txn);
      if r != Locked { return; }
      var q := QueueFor(id);
      var i := FindRequest(q.requests, txn.id);
      if i < |q.requests| {
        var m := q.requests[i].mode;
        if m == Shared || m == Exclusive || m == SharedIntentionExclusive { return; }
        if m == IntentionShared && (q.group == S || q.group == IS) {
          lockTable := lockTable[id := SetMode(q, i, Shared, S).(sharedNum := q.sharedNum + 1)];
          return;
        }
        if m == IntentionExclusive && q.ixNum == 1 {
          lockTable := lockTable[id := SetMode(q, i, SharedIntentionExclusive, SIX).(sharedNum := q.sharedNum + 1)];
          return;
        }
        return Throws(DeadlockPrevention);
      }
      if q.group == X || q.group == IX || q.group == SIX { return Throws(DeadlockPrevention); }
      lockTable := lockTable[id := Append(q, txn.id, Shared, S).(sharedNum := q.sharedNum + 1)];
      txn.lockSet := txn.lockSet + {id};
    }

    method LockExclusiveOnTable(txn: Transaction, fd: int) returns (r: Reply)
      modifies this, txn`phase, txn`lockSet
      ensures Acquired(lockTable, txn.LockView(), r)
           == Acquire(old(lockTable), old(txn.LockView()), txn.id, OnTable(fd), TableExclusive)
    {
      var id := OnTable(fd);
      r := CheckLock(txn);
      if r != Locked { return; }
      var q := QueueFor(id);
      var i := FindRequest(q.requests, txn.id);
      if i < |q.requests| {
        if q.requests[i].mode == Exclusive { return; }
        if |q.requests| == 1 {
          lockTable := lockTable[id := SetMode(q, i, Exclusive, X)];
          return;
        }
        return Throws(DeadlockPrevention);
      }
      if q.group != NonLock { return Throws(DeadlockPrevention); }
      lockTable := lockTable[id := Append(q, txn.id, Exclusive, X)];
      txn.lockSet := txn.lockSet + {id};
    }

    method LockISOnTable(txn: Transaction, fd: int) returns (r: Reply)
      modifies this, txn`phase, txn`lockSet
      ensures Acquired(lockTable, txn.LockView(), r)
           == Acquire(old(lockTable), old(txn.LockView()), txn.id, OnTable(fd), TableIS)
    {
      var id := OnTable(fd);
      r := CheckLock(txn);
      if r != Locked { return; }
      var q := QueueFor(id);
      var i := FindRequest(q.requests, txn.id);
      if i < |q.requests| { return; }
      if q.group == X { return Throws(DeadlockPrevention); }
      var g := q.group;
      if g == NonLock { g := IS; }
      lockTable := lockTable[id := Append(q, txn.id, IntentionShared, g)];
      txn.lockSet := txn.lockSet + {id};
    }

    method LockIXOnTable(txn: Transaction, fd: int) returns (r: Reply)
      modifies this, txn`phase, txn`lockSet
      ensures Acquired(lockTable, txn.LockView(), r)
           == Acquire(old(lockTable), old(txn.LockView()), txn.id, OnTable(fd), TableIX)
    {
      var id := OnTable(fd);
      r := CheckLock(txn);
      if r != Locked { return; }
      var q := QueueFor(id);
      var i := FindRequest(q.requests, txn.id);
      if i < |q.requests| {
        var m := q.requests[i].mode;
        if m == IntentionExclusive || m == SharedIntentionExclusive || m == Exclusive { return; }
        if m == Shared && q.sharedNum == 1 {
          lockTable := lockTable[id := SetMode(q, i, SharedIntentionExclusive, SIX).(ixNum := q.ixNum + 1)];
          return;
        }
        if m == IntentionShared && (q.group == IS || q.group == IX) {
          lockTable := lockTable[id := SetMode(q, i, IntentionExclusive, IX).(ixNum := q.ixNum + 1)];
          return;
        }
        return Throws(DeadlockPrevention);
      }
      if q.group == S || q.group == SIX || q.group == X { return Throws(DeadlockPrevention); }
      lockTable := lockTable[id := Append(q, txn.id, IntentionExclusive, IX).(ixNum := q.ixNum + 1)];
      txn.lockSet := txn.lockSet + {id};
    }

    method Unlock(txn: Transaction, id: LockId) returns (done: bool)
      modifies this, txn`phase
      ensures Released(lockTable, txn.LockView()) == ReleaseLock(old(lockTable), old(txn.LockView()), txn.id, id)
      ensures done <==> !Finished(old(txn.phase))
    {
      if txn.phase == Committed || txn.phase == Aborted { return false; }
      if txn.phase == Growing { txn.phase := Shrinking; }
      if id !in lockTable { return true; }
      ghost var was := lockTable[id];
      var q := Dropped(lockTable[id], txn.id);
      assert lockTable[id := was] == lockTable;
      lockTable := lockTable[id := q];
      return true;
    }
  }

  /** What `unlock` does to the queue. */
  method Dropped(was: Queue, t: TxnId) returns (q: Queue)
    ensures q == Release(was, t)
  {
    var i := FindRequest(was.requests, t);
    if i == |was.requests| { return was; }
    var m, shared, ix := was.requests[i].mode, was.sharedNum, was.ixNum;
    if m == Shared || m == SharedIntentionExclusive { shared := shared - 1; }
    if m == IntentionExclusive || m == SharedIntentionExclusive { ix := ix - 1; }
    var rest := was.requests[..i] + was.requests[i + 1..];
    var g := RecomputeGroup(rest);
    return Queue(rest, g, shared, ix);
  }

  method RecomputeGroup(rs: seq<Request>) returns (g: GroupMode)
    ensures g == if rs == [] then NonLock else GroupFromRank(TopRank(rs) + 1)
  {
    if rs == [] { return NonLock; }
    var top := RecomputeTop(rs);
    return GroupFromRank(top + 1);
  }

  /** The loop in `unlock` that looks for the strongest remaining mode by rank. */
  method RecomputeTop(rs: seq<Request>) returns (n: int)
    ensures n == TopRank(rs)
  {
    n := ModeRank(IntentionShared);
    for i := 0 to |rs|
      invariant n == TopRank(rs[..i])
    {
      assert rs[..i + 1][..i] == rs[..i];
      n := Max(n, ModeRank(rs[i].mode));
    }
    assert rs[..|rs|] == rs;
  }
}
