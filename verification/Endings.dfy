/** The steps of a commit and of an abort, taken one after the other, end in what the
    transaction manager's methods leave. */
module Endings {
  import opened Common
  import opened LockTable
  import opened LockManager
  import opened History
  import opened Schedules
  import opened Placement
  import opened Transactions

  lemma {:induction false} RunConcat(s: Sys, a: seq<Step>, b: seq<Step>)
    requires Run(s, a).Some?
    ensures Run(s, a + b) == Run(Run(s, a).value, b)
  {
    if b == [] {
      assert a + b == a;
    } else {
      var init, last := b[..|b| - 1], b[|b| - 1];
      RunConcat(s, a, init);
      assert (a + b)[..|a + b| - 1] == a + init && (a + b)[|a + b| - 1] == last;
    }
  }

  lemma RunOne(s: Sys, step: Step)
    requires Enabled(s, step)
    ensures Run(s, [step]) == Some(Next(s, step))
  {
    assert [step][..0] == [];
  }

  // ---------- releasing ----------

  function Unlocks(t: TxnId, ids: seq<LockId>): seq<Step> {
    if ids == [] then [] else Unlocks(t, ids[..|ids| - 1]) + [UnlockOne(t, ids[|ids| - 1])]
  }

  ghost predicate Distinctly(ids: seq<LockId>) {
    forall i, j :: 0 <= i < j < |ids| ==> ids[i] != ids[j]
  }

  function Ids(ids: seq<LockId>): set<LockId> {
    set id | id in ids
  }

  lemma UnlockRuns(s: Sys, t: TxnId, n: Sys, ids: set<LockId>, id: LockId)
    requires t in n.txns && n.txns[t].stage.Releasing? && !Finished(n.txns[t].view.phase)
    requires id in n.txns[t].stage.left && id !in ids && AllReleased(s.locks, n.locks, t, ids)
    ensures Enabled(n, UnlockOne(t, id))
    ensures var m := Next(n, UnlockOne(t, id));
      && t in m.txns && m.txns[t].stage == n.txns[t].stage.(left := n.txns[t].stage.left - {id})
      && !Finished(m.txns[t].view.phase) && m.txns[t].log == n.txns[t].log
      && m.store == n.store && m.history == n.history && AllReleased(s.locks, m.locks, t, ids + {id})
  {
  }

  lemma {:induction false} UnlocksRun(s: Sys, t: TxnId, ids: seq<LockId>)
    requires t in s.txns && s.txns[t].stage.Releasing? && !Finished(s.txns[t].view.phase)
    requires Distinctly(ids) && Ids(ids) <= s.txns[t].stage.left
    ensures Run(s, Unlocks(t, ids)).Some?
    ensures var n := Run(s, Unlocks(t, ids)).value;
      && t in n.txns && n.txns[t].stage == Releasing(s.txns[t].stage.left - Ids(ids), s.txns[t].stage.commit)
      && !Finished(n.txns[t].view.phase) && n.txns[t].log == s.txns[t].log
      && n.store == s.store && n.history == s.history && AllReleased(s.locks, n.locks, t, Ids(ids))
  {
    var steps := Unlocks(t, ids);
    if ids != [] {
      var init, id := ids[..|ids| - 1], ids[|ids| - 1];
      assert Ids(ids) == Ids(init) + {id} && id !in Ids(init);
      UnlocksRun(s, t, init);
      assert steps[..|steps| - 1] == Unlocks(t, init) && steps[|steps| - 1] == UnlockOne(t, id);
      UnlockRuns(s, t, Run(s, Unlocks(t, init)).value, Ids(init), id);
    }
  }

  /** All locks released one by one in any order, and the transaction marked. */
  lemma ReleaseRuns(s: Sys, t: TxnId, ids: seq<LockId>)
    requires t in s.txns && s.txns[t].stage.Releasing? && !Finished(s.txns[t].view.phase)
    requires Distinctly(ids) && Ids(ids) == s.txns[t].stage.left
    ensures Run(s, Unlocks(t, ids) + [Finish(t)]).Some?
    ensures var n := Run(s, Unlocks(t, ids) + [Finish(t)]).value;
      && t in n.txns && n.txns[t].stage == Done && n.txns[t].log == s.txns[t].log
      && n.txns[t].view == TxnView(if s.txns[t].stage.commit then Committed else Aborted, {})
      && n.store == s.store && n.history == s.history && AllReleased(s.locks, n.locks, t, Ids(ids))
  {
    UnlocksRun(s, t, ids);
    RunConcat(s, Unlocks(t, ids), [Finish(t)]);
    RunOne(Run(s, Unlocks(t, ids)).value, Finish(t));
  }

  // ---------- commit ----------

  function CommitSteps(t: TxnId, ids: seq<LockId>): seq<Step> {
    [StartCommit(t)] + (Unlocks(t, ids) + [Finish(t)])
  }

  /** A running transaction can always commit: the locks, the transaction and the records
      are then as the commit method leaves them. */
  lemma CommitRuns(s: Sys, t: TxnId, ids: seq<LockId>)
    requires t in s.txns && s.txns[t].stage == Running && !Finished(s.txns[t].view.phase)
    requires Distinctly(ids) && Ids(ids) == s.txns[t].view.lockSet
    ensures Run(s, CommitSteps(t, ids)).Some?
    ensures var n := Run(s, CommitSteps(t, ids)).value;
      && t in n.txns && n.txns[t].stage == Done && n.txns[t].view == TxnView(Committed, {}) && n.txns[t].log == []
      && AllReleased(s.locks, n.locks, t, s.txns[t].view.lockSet)
      && n.store == s.store && n.history == s.history
  {
    RunOne(s, StartCommit(t));
    RunConcat(s, [StartCommit(t)], Unlocks(t, ids) + [Finish(t)]);
    ReleaseRuns(Next(s, StartCommit(t)), t, ids);
  }

  // ---------- abort ----------

  /** The undo steps of an abort, each delete going back to the slot its file finds, up to
      the first one whose lock is refused. */
  function UndoSteps(locks: Locks, v: TxnView, tables: Tables, t: TxnId, log: seq<WriteRecord>): seq<Step>
    requires Open(tables.files, log)
    decreases |log|
  {
    if log == [] then [UndoOne(t, RecId(0, Rid(0, 0)))]
    else
      var w := log[|log| - 1];
      var e := UndoEvent(tables, t, w);
      var a := Acquire(locks, v, t, OnRecord(e.rec), RecordExclusive);
      [UndoOne(t, FoundIn(tables.files, tables.cells, w.rec.fd))]
      + if a.reply.Throws? then [] else UndoSteps(a.locks, a.view, TablesAfter(tables, e, false), t, log[..|log| - 1])
  }

  /** The slots found are vacant, as they are when the headers fit the records. */
  ghost predicate AllVacant(tables: Tables, t: TxnId, log: seq<WriteRecord>)
    requires Open(tables.files, log)
    decreases |log|
  {
    log != [] ==>
      var e := UndoEvent(tables, t, log[|log| - 1]);
      && (e.op.Insert? ==> Vacant(tables.cells, e.rec))
      && AllVacant(TablesAfter(tables, e, false), t, log[..|log| - 1])
  }

  lemma VacantAfter(tables: Tables, t: TxnId, log: seq<WriteRecord>)
    requires log != [] && Open(tables.files, log) && AllVacant(tables, t, log)
    ensures var after := TablesAfter(tables, UndoEvent(tables, t, log[|log| - 1]), false);
      Open(after.files, log[..|log| - 1]) && AllVacant(after, t, log[..|log| - 1])
  {
  }

  /** The run got to its end, which is as the abort loop leaves it. */
  ghost predicate EndsAs(end: Option<Sys>, u: UndoResult, t: TxnId) {
    && end.Some? && t in end.value.txns && end.value.store == u.tables.cells && end.value.locks == u.locks
    && var x := end.value.txns[t];
       && x.view == u.view && x.stage == (if u.completed then Releasing(u.view.lockSet, false) else Crashed)
       && (u.completed ==> x.log == [])
  }

  /** The undo steps from s end as the abort loop from there does. */
  ghost predicate Undoes(s: Sys, t: TxnId, files: Files)
    requires t in s.txns && Open(files, s.txns[t].log)
  {
    var x, tables := s.txns[t], Tables(s.store, files);
    EndsAs(Run(s, UndoSteps(s.locks, x.view, tables, t, x.log)), UndoAll(s.locks, x.view, tables, t, x.log), t)
  }

  /** One undo step does what one round of the abort loop does. */
  lemma UndoStep(s: Sys, t: TxnId, files: Files) returns (step: Step, n: Sys, after: Tables)
    requires t in s.txns && s.txns[t].stage == Undoing && s.txns[t].log != [] && Open(files, s.txns[t].log)
    requires AllVacant(Tables(s.store, files), t, s.txns[t].log)
    ensures Run(s, [step]) == Some(n) && t in n.txns
    ensures var x, tables := s.txns[t], Tables(s.store, files);
      var w := x.log[|x.log| - 1];
      var e := UndoEvent(tables, t, w);
      var a := Acquire(s.locks, x.view, t, OnRecord(e.rec), RecordExclusive);
      && step == UndoOne(t, FoundIn(files, s.store, w.rec.fd)) && after == TablesAfter(tables, e, a.reply.Throws?)
      && n.locks == a.locks && n.txns[t].view == a.view && n.store == after.cells
      && if a.reply.Throws? then n.txns[t].stage == Crashed
         else n.txns[t].stage == Undoing && n.txns[t].log == x.log[..|x.log| - 1]
  {
    var x, tables := s.txns[t], Tables(s.store, files);
    var e := UndoEvent(tables, t, x.log[|x.log| - 1]);
    step := UndoOne(t, FoundIn(files, s.store, x.log[|x.log| - 1].rec.fd));
    n := AfterUndo(s, t, step.slot);
    after := TablesAfter(tables, e, Acquire(s.locks, x.view, t, OnRecord(e.rec), RecordExclusive).reply.Throws?);
    RunOne(s, step);
  }

  /** After one round, either the loop has thrown, or the rest of it decides. */
  lemma UndoRound(s: Sys, t: TxnId, files: Files) returns (n: Sys, after: Tables)
    requires t in s.txns && s.txns[t].stage == Undoing && s.txns[t].log != [] && Open(files, s.txns[t].log)
    requires AllVacant(Tables(s.store, files), t, s.txns[t].log)
    ensures t in n.txns && after.cells == n.store
    ensures n.txns[t].stage == Undoing ==>
      && |n.txns[t].log| < |s.txns[t].log| && Open(after.files, n.txns[t].log) && AllVacant(after, t, n.txns[t].log)
      && (Undoes(n, t, after.files) ==> Undoes(s, t, files))
    ensures n.txns[t].stage != Undoing ==> Undoes(s, t, files)
  {
    var x, tables := s.txns[t], Tables(s.store, files);
    var step;
    step, n, after := UndoStep(s, t, files);
    var steps := UndoSteps(s.locks, x.view, tables, t, x.log);
    if n.txns[t].stage == Undoing {
      VacantAfter(tables, t, x.log);
      assert Tables(n.store, after.files) == after;
      var rest := UndoSteps(n.locks, n.txns[t].view, after, t, n.txns[t].log);
      RunConcat(s, [step], rest);
      assert steps == [step] + rest;
    } else {
      assert steps == [step];
    }
  }

  lemma UndoNone(s: Sys, t: TxnId, files: Files)
    requires t in s.txns && s.txns[t].stage == Undoing && s.txns[t].log == []
    ensures Undoes(s, t, files)
  {
    RunOne(s, UndoOne(t, RecId(0, Rid(0, 0))));
  }

  lemma {:induction false} UndoRuns(s: Sys, t: TxnId, files: Files)
    requires t in s.txns && s.txns[t].stage == Undoing && Open(files, s.txns[t].log)
    requires AllVacant(Tables(s.store, files), t, s.txns[t].log)
    ensures Undoes(s, t, files)
    decreases |s.txns[t].log|
  {
    if s.txns[t].log == [] {
      UndoNone(s, t, files);
    } else {
      var n, after := UndoRound(s, t, files);
      if n.txns[t].stage == Undoing {
        assert Tables(n.store, after.files) == after;
        UndoRuns(n, t, after.files);
      }
    }
  }

  /** A running transaction can always abort. If no lock is refused it ends with the locks,
      the transaction and the records as the abort method leaves them; otherwise it stops
      where that method throws. */
  lemma AbortRuns(s: Sys, t: TxnId, files: Files, ids: seq<LockId>)
    requires t in s.txns && s.txns[t].stage == Running && !Finished(s.txns[t].view.phase)
    requires Open(files, s.txns[t].log) && AllVacant(Tables(s.store, files), t, s.txns[t].log)
    requires Distinctly(ids)
    requires Ids(ids) == UndoAll(s.locks, s.txns[t].view, Tables(s.store, files), t, s.txns[t].log).view.lockSet
    ensures var tables := Tables(s.store, files);
      var undo, u := UndoSteps(s.locks, s.txns[t].view, tables, t, s.txns[t].log),
                     UndoAll(s.locks, s.txns[t].view, tables, t, s.txns[t].log);
      var end := Run(s, [StartAbort(t)] + undo + if u.completed then Unlocks(t, ids) + [Finish(t)] else []);
      && end.Some? && t in end.value.txns && end.value.store == u.tables.cells
      && var x := end.value.txns[t];
         if u.completed
         then x.stage == Done && x.view == TxnView(Aborted, {}) && x.log == []
              && AllReleased(u.locks, end.value.locks, t, u.view.lockSet)
         else x.stage == Crashed && x.view == u.view && end.value.locks == u.locks
  {
    var tables, first := Tables(s.store, files), Next(s, StartAbort(t));
    var undo, u := UndoSteps(s.locks, s.txns[t].view, tables, t, s.txns[t].log),
                   UndoAll(s.locks, s.txns[t].view, tables, t, s.txns[t].log);
    RunOne(s, StartAbort(t));
    UndoRuns(first, t, files);
    RunConcat(s, [StartAbort(t)], undo);
    UndoOpen(s.locks, s.txns[t].view, tables, t, s.txns[t].log);
    var after := Run(first, undo).value;
    if u.completed {
      ReleaseRuns(after, t, ids);
      RunConcat(s, [StartAbort(t)] + undo, Unlocks(t, ids) + [Finish(t)]);
    } else {
      assert [StartAbort(t)] + undo + [] == [StartAbort(t)] + undo;
    }
  }

  /** Undoing does not finish a transaction. */
  lemma {:induction false} UndoOpen(locks: Locks, v: TxnView, tables: Tables, t: TxnId, log: seq<WriteRecord>)
    requires Open(tables.files, log) && !Finished(v.phase)
    ensures !Finished(UndoAll(locks, v, tables, t, log).view.phase)
    decreases |log|
  {
    if log != [] {
      var e := UndoEvent(tables, t, log[|log| - 1]);
      var a := Acquire(locks, v, t, OnRecord(e.rec), RecordExclusive);
      if !a.reply.Throws? {
        UndoOpen(a.locks, a.view, TablesAfter(tables, e, false), t, log[..|log| - 1]);
      }
    }
  }
}
