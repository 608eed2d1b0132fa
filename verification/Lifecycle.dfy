/** How transactions end, over whole runs: a commit keeps what was written, an abort has
    undone it, and every step does the record operation it stands for. */
module Lifecycle {
  import opened Common
  import opened LockTable
  import opened LockManager
  import opened History
  import opened Schedules
  import opened Isolation
  import opened Rollback

  // ---------- what a step does to the records ----------

  /** The record operation a step stands for. */
  function Operation(s: Sys, step: Step): Option<Event> {
    match step
    case ReadRecord(t, r) => Some(Event(t, r, Read(CellAt(s.store, r).bytes)))
    case WriteRecordOp(t, r, op) => Some(Event(t, r, op))
    case UndoOne(t, slot) =>
      if t !in s.txns || s.txns[t].log == [] then None
      else
        (match s.txns[t].log[|s.txns[t].log| - 1]
         case Inserted(r) => Some(Event(t, r, Delete))
         case Deleted(_, b) => Some(Event(t, slot, Insert(b)))
         case Updated(r, b) => Some(Event(t, r, Update(b))))
    case _ => None
  }

  /** The row lock it needs is held by another transaction in the way. */
  predicate Blocked(s: Sys, e: Event) {
    e.txn in s.txns
    && Acquire(s.locks, s.txns[e.txn].view, e.txn, OnRecord(e.rec),
               if e.op.Read? then RecordShared else RecordExclusive).reply.Throws?
  }

  /** A new transaction can begin; a running one can lock any table, read any record, write
      any, insert into any vacant slot, delete any live record, commit and abort. */
  lemma RunningMay(s: Sys, t: TxnId, r: RecId, op: Op, fd: int, w: Want)
    requires !op.Read? && OnTables(w)
    ensures t !in s.txns ==>
      && Enabled(s, Begin(t))
      && Next(s, Begin(t)).txns == s.txns[t := Txn(TxnView(Default, {}), Running, [], map[], false, [])]
    ensures t in s.txns && s.txns[t].stage == Running ==>
      && Enabled(s, LockOnTable(t, fd, w)) && Enabled(s, ReadRecord(t, r))
      && Enabled(s, StartCommit(t)) && Enabled(s, StartAbort(t))
      && (Enabled(s, WriteRecordOp(t, r, op)) <==>
          match op
          case Insert(_) => Vacant(s.store, r)
          case Delete => View(CellAt(s.store, r)).Some?
          case _ => true)
  {
  }

  /** The lock a step needs. */
  function Needs(s: Sys, step: Step): Option<(LockId, Want)> {
    match step
    case LockOnTable(_, fd, w) => Some((OnTable(fd), w))
    case ReadRecord(_, r) => Some((OnRecord(r), RecordShared))
    case WriteRecordOp(_, r, _) => Some((OnRecord(r), RecordExclusive))
    case UndoOne(_, _) =>
      var e := Operation(s, step); if e.None? then None else Some((OnRecord(e.value.rec), RecordExclusive))
    case _ => None
  }

  /** In every run, a step that needs a lock asks the lock manager for it. If that throws,
      the transaction goes on to roll back, or is stuck if it already did; if not, it holds
      the lock at least that strongly. */
  lemma AsksFirst(store0: Store, steps: seq<Step>, step: Step)
    requires Run(Initial(store0), steps).Some? && Enabled(Run(Initial(store0), steps).value, step)
    requires Needs(Run(Initial(store0), steps).value, step).Some?
    ensures var s, t := Run(Initial(store0), steps).value, step.t;
      var n, x, need := Next(s, step), s.txns[t], Needs(s, step).value;
      var a := Acquire(s.locks, x.view, t, need.0, need.1);
      && t in n.txns && n.locks == a.locks && n.txns[t].view == a.view && a.reply != NotLocked
      && if a.reply.Throws? then n.txns[t].stage == if x.stage == Running then Undoing else Crashed
         else
           && n.txns[t].stage == x.stage && need.0 in a.view.lockSet
           && Held(n.locks, need.0, t).Some? && AtLeast(Held(n.locks, need.0, t).value, WantedMode(need.1))
  {
    var s := Run(Initial(store0), steps).value;
    RunKeeps(store0, steps);
    assert StageOk(s.txns[step.t], step.t in s.shrunk);
    var need := Needs(s, step).value;
    AcquireKeeps(s.locks, s.txns[step.t].view, step.t, need.0, need.1);
    StepAsks(s, step);
  }

  lemma StepAsks(s: Sys, step: Step)
    requires Enabled(s, step) && Needs(s, step).Some?
    ensures var t := step.t; var n, x, need := Next(s, step), s.txns[t], Needs(s, step).value;
      var a := Acquire(s.locks, x.view, t, need.0, need.1);
      && t in n.txns && n.locks == a.locks && n.txns[t].view == a.view
      && n.txns[t].stage == if !a.reply.Throws? then x.stage else if x.stage == Running then Undoing else Crashed
  {
    match step
    case UndoOne(t, slot) => UndoAsks(s, t, slot);
    case _ =>
  }

  lemma UndoAsks(s: Sys, t: TxnId, slot: RecId)
    requires Enabled(s, UndoOne(t, slot)) && Needs(s, UndoOne(t, slot)).Some?
    ensures var n, x, id := AfterUndo(s, t, slot), s.txns[t], Needs(s, UndoOne(t, slot)).value.0;
      var a := Acquire(s.locks, x.view, t, id, RecordExclusive);
      && t in n.txns && n.locks == a.locks && n.txns[t].view == a.view
      && n.txns[t].stage == if !a.reply.Throws? then x.stage else Crashed
  {
  }

  /** Every step does exactly its operation, to exactly that record, or nothing when the
      row lock is refused. */
  lemma StepDoes(s: Sys, step: Step)
    requires Enabled(s, step)
    ensures var e, n := Operation(s, step), Next(s, step);
      if e.None? || Blocked(s, e.value) then n.history == s.history && n.store == s.store
      else
        && n.history == s.history + [e.value]
        && (forall r: RecId :: r != e.value.rec ==> CellAt(n.store, r) == CellAt(s.store, r))
        && match e.value.op
           case Read(_) => CellAt(n.store, e.value.rec) == CellAt(s.store, e.value.rec)
           case Insert(b) => View(CellAt(n.store, e.value.rec)) == Some(b)
           case Update(b) => CellAt(n.store, e.value.rec) == Cell(CellAt(s.store, e.value.rec).live, b)
           case Delete => View(CellAt(n.store, e.value.rec)) == None
  {
    match step
    case UndoOne(t, slot) => UndoDoes(s, t, slot);
    case _ =>
  }

  lemma UndoDoes(s: Sys, t: TxnId, slot: RecId)
    requires Enabled(s, UndoOne(t, slot))
    ensures var e, n := Operation(s, UndoOne(t, slot)), AfterUndo(s, t, slot);
      if e.None? || Blocked(s, e.value) then n.history == s.history && n.store == s.store
      else n.history == s.history + [e.value] && n.store == Apply(s.store, e.value)
  {
  }

  // ---------- commit and abort are for good ----------

  predicate Committing(x: Txn) {
    (x.stage.Releasing? && x.stage.commit) || (x.stage == Done && x.view.phase == Committed)
  }

  predicate RollingBack(x: Txn) {
    || x.stage == Undoing || x.stage == Crashed || (x.stage.Releasing? && !x.stage.commit)
    || (x.stage == Done && x.view.phase == Aborted)
  }

  lemma {:induction false} ByTxnSnoc(h: seq<Event>, e: Event, t: TxnId)
    ensures ByTxn(h + [e], t) == ByTxn(h, t) + if e.txn == t then [e] else []
  {
    assert (h + [e])[..|h|] == h;
  }

  /** A step of another transaction, or none of the two ends. */
  lemma StepStatus(s: Sys, step: Step, t: TxnId)
    requires Enabled(s, step) && t in s.txns
    ensures var x, n := s.txns[t], Next(s, step);
      && t in n.txns
      && (step.t != t ==> n.txns[t] == x)
      && (Committing(x) ==> Committing(n.txns[t])) && (RollingBack(x) ==> RollingBack(n.txns[t]))
      && (x.stage == Running && step.t == t ==>
            if step.StartCommit? then Committing(n.txns[t])
            else if step.StartAbort? then RollingBack(n.txns[t])
            else n.txns[t].stage == Running || RollingBack(n.txns[t]))
      && (step.t == t && (step.StartCommit? || step.StartAbort?) ==> x.stage == Running)
  {
    match step
    case UndoOne(u, slot) => UndoStatus(s, u, slot, t);
    case _ =>
  }

  lemma UndoStatus(s: Sys, u: TxnId, slot: RecId, t: TxnId)
    requires Enabled(s, UndoOne(u, slot)) && t in s.txns
    ensures var n := AfterUndo(s, u, slot);
      t in n.txns && (u != t ==> n.txns[t] == s.txns[t]) && (u == t ==> RollingBack(n.txns[t]))
  {
  }

  lemma StepByTxn(s: Sys, step: Step, t: TxnId)
    requires Enabled(s, step)
    ensures t in s.txns && (s.txns[t].stage.Releasing? || s.txns[t].stage == Done || step.t != t) ==>
      ByTxn(Next(s, step).history, t) == ByTxn(s.history, t)
  {
    StepDoes(s, step);
    var e := Operation(s, step);
    if e.Some? {
      ByTxnSnoc(s.history, e.value, t);
    }
  }

  /** Once a transaction has started to commit, it neither writes nor undoes anything more,
      whatever else happens: what it did stays done. If it finishes it is committed. */
  lemma {:induction false} CommitKeeps(store0: Store, a: seq<Step>, t: TxnId, b: seq<Step>)
    requires Run(Initial(store0), a + [StartCommit(t)] + b).Some?
    ensures Run(Initial(store0), a).Some?
    ensures var s, n := Run(Initial(store0), a).value, Run(Initial(store0), a + [StartCommit(t)] + b).value;
      && t in n.txns && Committing(n.txns[t])
      && ByTxn(n.history, t) == ByTxn(s.history, t)
      && (b == [] ==> n.store == s.store && n.history == s.history)
  {
    var start := a + [StartCommit(t)];
    if b == [] {
      assert start + b == start && start[..|start| - 1] == a;
      StepStatus(Run(Initial(store0), a).value, StartCommit(t), t);
    } else {
      RunPrefix(Initial(store0), start, b);
      var c := b[..|b| - 1];
      CommitKeeps(store0, a, t, c);
      var p := Run(Initial(store0), start + c).value;
      StepStatus(p, b[|b| - 1], t);
      StepByTxn(p, b[|b| - 1], t);
    }
  }

  ghost predicate Statuses(s: Sys, steps: seq<Step>, t: TxnId) {
    && (StartCommit(t) in steps || StartAbort(t) in steps ==> t in s.txns)
    && (t in s.txns ==>
          && (StartCommit(t) in steps <==> Committing(s.txns[t]))
          && (StartAbort(t) in steps ==> RollingBack(s.txns[t]))
          && (Committing(s.txns[t]) || RollingBack(s.txns[t]) || s.txns[t].stage == Running))
  }

  lemma {:induction false} RunStatuses(store0: Store, steps: seq<Step>, t: TxnId)
    requires Run(Initial(store0), steps).Some?
    ensures Statuses(Run(Initial(store0), steps).value, steps, t)
  {
    if steps != [] {
      var init, step := steps[..|steps| - 1], steps[|steps| - 1];
      assert steps == init + [step];
      RunStatuses(store0, init, t);
      var s := Run(Initial(store0), init).value;
      if t in s.txns {
        StepStatus(s, step, t);
      }
    }
  }

  /** A finished transaction is committed exactly when it was told to commit, and aborted
      otherwise; one told to abort never commits. */
  lemma EndsAsTold(store0: Store, steps: seq<Step>, t: TxnId)
    requires Run(Initial(store0), steps).Some? && t in Run(Initial(store0), steps).value.txns
    ensures var x := Run(Initial(store0), steps).value.txns[t];
      && (x.stage == Done ==>
            && (x.view.phase == Committed <==> StartCommit(t) in steps)
            && (x.view.phase == Aborted <==> StartCommit(t) !in steps))
      && (StartAbort(t) in steps ==> StartCommit(t) !in steps)
  {
    RunStatuses(store0, steps, t);
  }

  /** The write set has been walked: releasing locks after a rollback, or done with it. */
  predicate Undid(x: Txn) {
    (x.stage.Releasing? && !x.stage.commit) || (x.stage == Done && x.view.phase == Aborted)
  }

  /** An aborted transaction had walked its whole write set before it released a lock, and
      has done nothing since. */
  lemma {:induction false} AbortedWasRolledBack(store0: Store, steps: seq<Step>, t: TxnId) returns (k: nat)
    requires Run(Initial(store0), steps).Some? && t in Run(Initial(store0), steps).value.txns
    requires Undid(Run(Initial(store0), steps).value.txns[t])
    ensures k <= |steps| && Run(Initial(store0), steps[..k]).Some?
    ensures RolledBack(Run(Initial(store0), steps[..k]).value, t)
    ensures ByTxn(Run(Initial(store0), steps).value.history, t) ==
            ByTxn(Run(Initial(store0), steps[..k]).value.history, t)
  {
    var init, step := steps[..|steps| - 1], steps[|steps| - 1];
    var s := Run(Initial(store0), init).value;
    UndidBefore(s, store0, init, step, t);
    if t in s.txns && Undid(s.txns[t]) {
      k := AbortedWasRolledBack(store0, init, t);
      assert init[..k] == steps[..k];
      StepByTxn(s, step, t);
    } else {
      k := |steps|;
      assert steps[..k] == steps;
    }
  }

  lemma UndidBefore(s: Sys, store0: Store, init: seq<Step>, step: Step, t: TxnId)
    requires Run(Initial(store0), init) == Some(s) && Enabled(s, step) && t in Next(s, step).txns
    requires Undid(Next(s, step).txns[t])
    ensures (t in s.txns && Undid(s.txns[t])) || RolledBack(Next(s, step), t)
  {
    RunKeeps(store0, init);
    if t in s.txns {
      assert StageOk(s.txns[t], t in s.shrunk);
    }
    UndidStep(s, step, t);
  }

  lemma UndidStep(s: Sys, step: Step, t: TxnId)
    requires Enabled(s, step) && t in Next(s, step).txns && Undid(Next(s, step).txns[t])
    requires t in s.txns ==> StageOk(s.txns[t], t in s.shrunk)
    ensures (t in s.txns && Undid(s.txns[t])) || RolledBack(Next(s, step), t)
  {
    match step
    case UndoOne(u, slot) => UndoEndsOnly(s, u, slot, t);
    case _ =>
  }

  lemma UndoEndsOnly(s: Sys, u: TxnId, slot: RecId, t: TxnId)
    requires Enabled(s, UndoOne(u, slot)) && t in AfterUndo(s, u, slot).txns
    ensures AfterUndo(s, u, slot).shrunk == s.shrunk
    ensures t in s.txns && (t != u ==> AfterUndo(s, u, slot).txns[t] == s.txns[t])
    ensures AfterUndo(s, u, slot).txns[u].stage != Done
  {
  }
}
