/** What holds in every reachable state and over every run of the transaction system. */
module Isolation {
  import opened LockTable
  import opened LockManager
  import opened History
  import opened Schedules

  // ---------- lock safety ----------

  /** Whatever interleaving of lock functions, commits and aborts came before, every
      queue holds at most one request per transaction and only compatible modes. */
  lemma LocksAlwaysCompatible(store0: Store, steps: seq<Step>, id: LockId)
    requires Run(Initial(store0), steps).Some?
    requires id in Run(Initial(store0), steps).value.locks
    ensures var rs := Run(Initial(store0), steps).value.locks[id].requests;
      && (forall i, j :: 0 <= i < j < |rs| ==> rs[i].txn != rs[j].txn)
      && (forall i, j :: 0 <= i < j < |rs| ==> Compatible(rs[i].mode, rs[j].mode))
  {
    RunKeeps(store0, steps);
    var s := Run(Initial(store0), steps).value;
    QueueAtOk(s.locks, id);
  }

  /** Every queued request is in its owner's lock set, and a transaction that finished
      commit or abort is in no queue anywhere. */
  lemma NoLockLeftBehind(store0: Store, steps: seq<Step>, id: LockId, t: TxnId)
    requires Run(Initial(store0), steps).Some?
    requires Held(Run(Initial(store0), steps).value.locks, id, t).Some?
    ensures var s := Run(Initial(store0), steps).value;
      t in s.txns && s.txns[t].stage != Done && !Finished(s.txns[t].view.phase)
      && (s.txns[t].stage.Releasing? ==> id in s.txns[t].stage.left)
      && (!s.txns[t].stage.Releasing? ==> id in s.txns[t].view.lockSet)
  {
    RunKeeps(store0, steps);
    var s := Run(Initial(store0), steps).value;
    assert id in Pending(s.txns[t]);
    assert StageOk(s.txns[t], t in s.shrunk);
  }

  // ---------- the two phases ----------

  function PhaseRank(p: Phase): nat {
    match p
    case Default => 0
    case Growing => 1
    case Shrinking => 2
    case Committed => 3
    case Aborted => 3
  }

  /** t's phase did not go back, a finished t did not change its mind, and a t that had
      begun to release gained nothing. */
  ghost predicate MovedForward(s: Sys, n: Sys, t: TxnId)
    requires t in s.txns
  {
    && t in n.txns
    && PhaseRank(s.txns[t].view.phase) <= PhaseRank(n.txns[t].view.phase)
    && (Finished(s.txns[t].view.phase) ==> n.txns[t].view.phase == s.txns[t].view.phase)
    && (PhaseRank(s.txns[t].view.phase) >= 2 ==>
          forall id: LockId :: Held(n.locks, id, t).Some? ==> Held(n.locks, id, t) == Held(s.locks, id, t))
  }

  lemma ReadStepLocks(s: Sys, store0: Store, u: TxnId, r: RecId, t: TxnId)
    requires Inv(s, store0) && Enabled(s, ReadRecord(u, r)) && t in s.txns && t != u
    ensures var n := AfterRead(s, u, r);
      n.txns == s.txns[u := n.txns[u]] && forall id: LockId :: Held(n.locks, id, t) == Held(s.locks, id, t)
  {
    assert StageOk(s.txns[u], u in s.shrunk);
    AcquireKeeps(s.locks, s.txns[u].view, u, OnRecord(r), RecordShared);
  }

  lemma WriteStepLocks(s: Sys, store0: Store, u: TxnId, r: RecId, op: Op, t: TxnId)
    requires Inv(s, store0) && Enabled(s, WriteRecordOp(u, r, op)) && t in s.txns && t != u
    ensures var n := AfterWrite(s, u, r, op);
      n.txns == s.txns[u := n.txns[u]] && forall id: LockId :: Held(n.locks, id, t) == Held(s.locks, id, t)
  {
    assert StageOk(s.txns[u], u in s.shrunk);
    AcquireKeeps(s.locks, s.txns[u].view, u, OnRecord(r), RecordExclusive);
  }

  lemma UndoStepLocks(s: Sys, store0: Store, u: TxnId, slot: RecId, t: TxnId)
    requires Inv(s, store0) && Enabled(s, UndoOne(u, slot)) && t in s.txns && t != u
    ensures var n := AfterUndo(s, u, slot);
      n.txns == s.txns[u := n.txns[u]] && forall id: LockId :: Held(n.locks, id, t) == Held(s.locks, id, t)
  {
    var x := s.txns[u];
    assert StageOk(x, u in s.shrunk);
    if x.log != [] {
      var id := OnRecord(UndoRec(x.log[|x.log| - 1], slot));
      AcquireKeeps(s.locks, x.view, u, id, RecordExclusive);
      var a := Acquire(s.locks, x.view, u, id, RecordExclusive);
      assert AfterUndo(s, u, slot).locks == a.locks;
    }
  }

  lemma OtherStepLocks(s: Sys, store0: Store, step: Step, t: TxnId)
    requires Inv(s, store0) && Enabled(s, step) && t in s.txns && t != step.t
    requires !step.ReadRecord? && !step.WriteRecordOp? && !step.UndoOne?
    ensures Next(s, step).txns == s.txns[step.t := Next(s, step).txns[step.t]]
    ensures forall id: LockId :: Held(Next(s, step).locks, id, t) == Held(s.locks, id, t)
  {
    if step.t in s.txns {
      var x := s.txns[step.t];
      assert StageOk(x, step.t in s.shrunk);
      match step
      case LockOnTable(u, fd, w) => AcquireKeeps(s.locks, x.view, u, OnTable(fd), w);
      case UnlockOne(u, id) => ReleaseLockKeeps(s.locks, x.view, u, id);
      case _ =>
    }
  }

  lemma StepLocks(s: Sys, store0: Store, step: Step, t: TxnId)
    requires Inv(s, store0) && Enabled(s, step) && t in s.txns
    ensures t != step.t ==> t in Next(s, step).txns && Next(s, step).txns[t] == s.txns[t]
    ensures t != step.t ==> forall id: LockId :: Held(Next(s, step).locks, id, t) == Held(s.locks, id, t)
  {
    if t != step.t {
      match step
      case ReadRecord(u, r) => ReadStepLocks(s, store0, u, r, t);
      case WriteRecordOp(u, r, op) => WriteStepLocks(s, store0, u, r, op, t);
      case UndoOne(u, slot) => UndoStepLocks(s, store0, u, slot, t);
      case _ => OtherStepLocks(s, store0, step, t);
    }
  }

  lemma AcquirePhase(locks: Locks, v: TxnView, t: TxnId, id: LockId, w: Want)
    requires v.phase == Default || v.phase == Growing
    ensures Acquire(locks, v, t, id, w).view.phase == Growing
  {
  }

  lemma OwnPhase(s: Sys, step: Step)
    requires StagesOk(s) && Enabled(s, step) && step.t in s.txns
    ensures var v, n := s.txns[step.t].view, Next(s, step).txns[step.t].view;
      !Finished(v.phase) && PhaseRank(v.phase) <= PhaseRank(n.phase)
      && (PhaseRank(v.phase) >= 2 ==> step.UnlockOne? || step.Finish?)
  {
    var t, x := step.t, s.txns[step.t];
    assert StageOk(x, t in s.shrunk);
    match step {
      case LockOnTable(_, fd, w) => AcquirePhase(s.locks, x.view, t, OnTable(fd), w);
      case ReadRecord(_, r) => AcquirePhase(s.locks, x.view, t, OnRecord(r), RecordShared);
      case WriteRecordOp(_, r, op) => AcquirePhase(s.locks, x.view, t, OnRecord(r), RecordExclusive);
      case UndoOne(_, slot) =>
        if x.log != [] {
          AcquirePhase(s.locks, x.view, t, OnRecord(UndoRec(x.log[|x.log| - 1], slot)), RecordExclusive);
        }
      case StartCommit(_) =>
      case StartAbort(_) =>
      case UnlockOne(_, _) =>
      case Finish(_) =>
    }
  }

  lemma OwnLocks(s: Sys, step: Step)
    requires LocksOk(s.locks) && StagesOk(s) && Enabled(s, step) && (step.UnlockOne? || step.Finish?)
    ensures forall id: LockId :: Held(Next(s, step).locks, id, step.t).Some? ==>
              Held(Next(s, step).locks, id, step.t) == Held(s.locks, id, step.t)
  {
    assert StageOk(s.txns[step.t], step.t in s.shrunk);
    if step.UnlockOne? {
      ReleaseLockKeeps(s.locks, s.txns[step.t].view, step.t, step.id);
    }
  }

  lemma NextMovesForward(s: Sys, store0: Store, step: Step, t: TxnId)
    requires Inv(s, store0) && Enabled(s, step) && t in s.txns
    ensures MovedForward(s, Next(s, step), t)
  {
    StepLocks(s, store0, step, t);
    if t == step.t {
      OwnPhase(s, step);
      if step.UnlockOne? || step.Finish? {
        OwnLocks(s, step);
      }
    }
  }

  lemma RunPrefix(s: Sys, a: seq<Step>, b: seq<Step>)
    requires Run(s, a + b).Some? && b != []
    ensures Run(s, a + b[..|b| - 1]).Some?
    ensures Enabled(Run(s, a + b[..|b| - 1]).value, b[|b| - 1])
    ensures Run(s, a + b).value == Next(Run(s, a + b[..|b| - 1]).value, b[|b| - 1])
  {
    assert (a + b)[..|a + b| - 1] == a + b[..|b| - 1];
  }

  /** Two-phase locking over whole runs: between any point of a run and any later one,
      a transaction's phase only moves forward, and once it has released a lock it
      never gains or strengthens one again. */
  lemma {:induction false} PhasesMoveForward(store0: Store, a: seq<Step>, b: seq<Step>, t: TxnId)
    requires Run(Initial(store0), a).Some? && Run(Initial(store0), a + b).Some?
    requires t in Run(Initial(store0), a).value.txns
    ensures MovedForward(Run(Initial(store0), a).value, Run(Initial(store0), a + b).value, t)
  {
    if b == [] {
      assert a + b == a;
    } else {
      RunPrefix(Initial(store0), a, b);
      var c := b[..|b| - 1];
      PhasesMoveForward(store0, a, c, t);
      RunKeeps(store0, a + c);
      NextMovesForward(Run(Initial(store0), a + c).value, store0, b[|b| - 1], t);
    }
  }

  // ---------- serializability ----------

  /** Transactions ordered by when they released their first lock; those that have not
      yet done so come last. */
  function LockPoint(s: Sys): Rank {
    (t: TxnId) => if t in s.shrunk then s.shrunk[t] else s.clock + t
  }

  lemma LockPointsOrder(s: Sys, store0: Store)
    requires Inv(s, store0)
    ensures ConflictsFollow(s.history, LockPoint(s)) && Injective(s.history, LockPoint(s))
  {
    var rank := LockPoint(s);
    forall i, j | 0 <= i < j < |s.history| && Conflict(s.history[i], s.history[j])
      ensures rank(s.history[i].txn) < rank(s.history[j].txn)
    {
      assert OrderedAt(s.history, s.shrunk, i, j);
    }
  }

  /** Every run is equivalent to a serial one: regroup its record operations by lock
      point, and transactions run one after another, each doing what it did in the
      order it did it, every read returning the same bytes, with the same records at
      the end. Undo writes count as writes. */
  lemma EveryRunIsSerializable(store0: Store, steps: seq<Step>)
    requires Run(Initial(store0), steps).Some?
    ensures var s := Run(Initial(store0), steps).value;
            var serial := Serialize(s.history, LockPoint(s));
      && IsSerial(serial)
      && Legal(store0, serial)
      && Same(Replay(store0, serial), s.store)
      && multiset(serial) == multiset(s.history)
      && forall t: TxnId :: ByTxn(serial, t) == ByTxn(s.history, t)
  {
    RunKeeps(store0, steps);
    var s := Run(Initial(store0), steps).value;
    LockPointsOrder(s, store0);
    SerialEquivalent(store0, s.history, LockPoint(s));
  }

  /** The conflict graph of every run is acyclic. */
  lemma ConflictGraphAcyclic(store0: Store, steps: seq<Step>)
    requires Run(Initial(store0), steps).Some?
    ensures !exists p: seq<TxnId> :: IsPath(Run(Initial(store0), steps).value.history, p) && p[0] == p[|p| - 1]
  {
    RunKeeps(store0, steps);
    var s := Run(Initial(store0), steps).value;
    LockPointsOrder(s, store0);
    Acyclic(s.history, LockPoint(s));
  }

  /** If u touched a record after t wrote it, t had begun releasing by then and does
      nothing afterwards: not even an undo. So no value is read and later undone. */
  lemma NoDirtyAccess(store0: Store, steps: seq<Step>, i: nat, j: nat)
    requires Run(Initial(store0), steps).Some?
    requires var h := Run(Initial(store0), steps).value.history;
      i < j < |h| && h[i].rec == h[j].rec && h[i].txn != h[j].txn && !h[i].op.Read?
    ensures var s := Run(Initial(store0), steps).value;
      && s.history[i].txn in s.shrunk
      && forall k :: j <= k < |s.history| ==> s.history[k].txn != s.history[i].txn
  {
    RunKeeps(store0, steps);
    var s := Run(Initial(store0), steps).value;
    assert OrderedAt(s.history, s.shrunk, i, j);
    forall k | j <= k < |s.history| ensures s.history[k].txn != s.history[i].txn {
      assert StrictAt(s.history, i, j, k);
    }
  }
}
