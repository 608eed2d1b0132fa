/** Runs whose inserts and rollbacks go to the slots that the record files really find:
    the file headers along a run, and when a deleted record finds its own slot again. */
module Placement {
  import opened Common
  import opened LockTable
  import opened LockManager
  import opened History
  import opened FreeSlots
  import opened Schedules
  import opened Rollback

  type Files = map<int, File>

  /** The slots of a table that hold a record. */
  function LiveOf(s: Store, fd: int): set<Rid> {
    set r | r in s && r.fd == fd && s[r].live :: r.rid
  }

  lemma LiveOfAre(s: Store, fd: int, r: Rid)
    ensures r in LiveOf(s, fd) <==> CellAt(s, RecId(fd, r)).live
  {
    if CellAt(s, RecId(fd, r)).live {
      assert RecId(fd, r) in s && RecId(fd, r).rid == r;
    }
  }

  /** The slot an insert into the table would get. */
  function FoundIn(files: Files, s: Store, fd: int): RecId
    requires fd in files
  {
    RecId(fd, SlotFor(files[fd], LiveOf(s, fd)))
  }

  ghost predicate AllSound(files: Files, s: Store) {
    forall fd :: fd in files ==> Sound(files[fd], LiveOf(s, fd))
  }

  /** It is a slot that the step system allows. */
  lemma FoundIsVacant(files: Files, s: Store, fd: int)
    requires fd in files && AllSound(files, s)
    ensures Vacant(s, FoundIn(files, s, fd))
  {
    var live, r := LiveOf(s, fd), SlotFor(files[fd], LiveOf(s, fd));
    SlotIsFree(files[fd], live);
    LiveOfAre(s, fd, r);
    forall k | 0 <= k < r.slotNo ensures CellAt(s, RecId(fd, Rid(r.pageNo, k))).live {
      assert Rid(r.pageNo, k) in live;
      LiveOfAre(s, fd, Rid(r.pageNo, k));
    }
  }

  // ---------- one operation ----------

  function FilesAfter(files: Files, r: RecId, op: Op, throws: bool): Files
    requires r.fd in files
  {
    var f := files[r.fd];
    match op
    case Insert(_) => files[r.fd := if throws then Opened(f) else Filled(f)]
    case Delete => if throws then files else files[r.fd := Cleared(f, r.rid.pageNo)]
    case _ => files
  }

  lemma LiveAfter(s: Store, e: Event, fd: int)
    ensures LiveOf(Apply(s, e), fd) ==
      if fd != e.rec.fd then LiveOf(s, fd)
      else match e.op
        case Insert(_) => LiveOf(s, fd) + {e.rec.rid}
        case Delete => LiveOf(s, fd) - {e.rec.rid}
        case _ => LiveOf(s, fd)
  {
    forall r: Rid ensures r in LiveOf(Apply(s, e), fd) <==> CellAt(Apply(s, e), RecId(fd, r)).live
                  ensures r in LiveOf(s, fd) <==> CellAt(s, RecId(fd, r)).live
    {
      LiveOfAre(Apply(s, e), fd, r);
      LiveOfAre(s, fd, r);
    }
  }

  /** Files stay sound through an operation, unless it deletes an empty slot. */
  lemma OperationKeeps(files: Files, s: Store, e: Event, throws: bool)
    requires AllSound(files, s) && e.rec.fd in files && (e.op.Insert? ==> e.rec == FoundIn(files, s, e.rec.fd))
    requires e.op.Delete? ==> CellAt(s, e.rec).live
    ensures AllSound(FilesAfter(files, e.rec, e.op, throws), if throws then s else Apply(s, e))
  {
    var fd := e.rec.fd;
    var f, live := files[fd], LiveOf(s, fd);
    OpenedSound(f, live);
    FilledSound(f, live);
    LiveOfAre(s, fd, e.rec.rid);
    if e.op.Delete? {
      ClearedSound(f, live, e.rec.rid);
    }
    forall d | d in files
      ensures Sound(FilesAfter(files, e.rec, e.op, throws)[d], LiveOf(if throws then s else Apply(s, e), d))
    {
      LiveAfter(s, e, d);
    }
  }

  // ---------- steps ----------

  /** The record operation a step asks for, if it writes. */
  function Writing(s: Sys, step: Step): Option<Event> {
    match step
    case WriteRecordOp(t, r, op) => Some(Event(t, r, op))
    case UndoOne(t, slot) =>
      if t !in s.txns || s.txns[t].log == [] then None
      else
        var w := s.txns[t].log[|s.txns[t].log| - 1];
        Some(Event(t, UndoRec(w, slot), UndoOp(w)))
    case _ => None
  }

  /** Its row lock is refused. */
  predicate Refuses(s: Sys, e: Event) {
    e.txn in s.txns && Acquire(s.locks, s.txns[e.txn].view, e.txn, OnRecord(e.rec), RecordExclusive).reply.Throws?
  }

  /** Inserts, rollback's included, use the slot their file finds. */
  predicate Follows(files: Files, s: Sys, step: Step) {
    var e := Writing(s, step);
    e.Some? ==>
      e.value.rec.fd in files && (e.value.op.Insert? ==> e.value.rec == FoundIn(files, s.store, e.value.rec.fd))
  }

  function NextFiles(files: Files, s: Sys, step: Step): Files
    requires Follows(files, s, step)
  {
    var e := Writing(s, step);
    if e.None? then files else FilesAfter(files, e.value.rec, e.value.op, Refuses(s, e.value))
  }

  predicate DeletesEmpty(s: Sys, step: Step) {
    var e := Writing(s, step);
    e.Some? && e.value.op.Delete? && !CellAt(s.store, e.value.rec).live
  }

  lemma NextStore(s: Sys, step: Step)
    requires Enabled(s, step)
    ensures var e := Writing(s, step);
      Next(s, step).store == if e.None? || Refuses(s, e.value) then s.store else Apply(s.store, e.value)
  {
  }

  lemma StepKeepsSound(files: Files, s: Sys, step: Step)
    requires AllSound(files, s.store) && Enabled(s, step) && Follows(files, s, step) && !DeletesEmpty(s, step)
    ensures AllSound(NextFiles(files, s, step), Next(s, step).store)
  {
    NextStore(s, step);
    var e := Writing(s, step);
    if e.Some? {
      OperationKeeps(files, s.store, e.value, Refuses(s, e.value));
    }
  }

  /** Only a transaction that has put a record elsewhere can come to delete an empty slot. */
  lemma EmptyOnlyAfterStray(s: Sys, store0: Store, step: Step)
    requires Inv(s, store0) && AbortInv(s, store0) && Enabled(s, step) && DeletesEmpty(s, step)
    ensures StraysOf(s, step.t) > 0
  {
    if step.UndoOne? {
      LastAsLogged(s, store0, step.t);
    }
  }

  /** The slot of the next write to be undone is as that write left it. */
  lemma LastAsLogged(s: Sys, store0: Store, t: TxnId)
    requires Inv(s, store0) && AbortInv(s, store0) && t in s.txns && s.txns[t].stage == Undoing && s.txns[t].log != []
    ensures var x := s.txns[t]; var w := x.log[|x.log| - 1];
      x.strays == [] && !w.Updated? ==> CellAt(s.store, w.rec).live == w.Inserted?
  {
    var x := s.txns[t];
    assert StageOk(x, t in s.shrunk) && OnCourse(s, t);
    assert x.strays == [] ==> ComesBack(s, x, x.log[|x.log| - 1].rec);
  }

  // ---------- where deleted records were ----------

  predicate InFile(files: Files, r: RecId) {
    && r.fd in files && 1 <= r.rid.pageNo < |files[r.fd].heads| && 0 <= r.rid.slotNo < files[r.fd].perPage
  }

  ghost predicate LogInFiles(files: Files, log: seq<WriteRecord>) {
    forall i :: 0 <= i < |log| && log[i].Deleted? ==> InFile(files, log[i].rec)
  }

  ghost predicate LogsInFiles(files: Files, s: Sys) {
    forall t :: t in s.txns ==> LogInFiles(files, s.txns[t].log)
  }

  ghost predicate Larger(files: Files, files': Files) {
    forall fd :: fd in files ==>
      fd in files' && files'[fd].perPage == files[fd].perPage && |files'[fd].heads| >= |files[fd].heads|
  }

  lemma NextLarger(files: Files, s: Sys, step: Step)
    requires Follows(files, s, step)
    ensures Larger(files, NextFiles(files, s, step))
  {
  }

  lemma NextLog(s: Sys, step: Step, t: TxnId)
    requires Enabled(s, step) && t in Next(s, step).txns
    ensures var log := if t in s.txns then s.txns[t].log else []; var log' := Next(s, step).txns[t].log;
      || log' <= log
      || (step.WriteRecordOp? && step.t == t && log' == log + [LogEntry(step.rec, step.op, CellAt(s.store, step.rec))])
  {
    match step
    case UndoOne(u, slot) => UndoLog(s, u, slot, t);
    case _ =>
  }

  lemma UndoLog(s: Sys, u: TxnId, slot: RecId, t: TxnId)
    requires Enabled(s, UndoOne(u, slot)) && t in AfterUndo(s, u, slot).txns
    ensures t in s.txns && AfterUndo(s, u, slot).txns[t].log <= s.txns[t].log
  {
  }

  lemma StepKeepsLogs(files: Files, s: Sys, step: Step)
    requires AllSound(files, s.store) && LogsInFiles(files, s) && Enabled(s, step) && Follows(files, s, step)
    ensures LogsInFiles(NextFiles(files, s, step), Next(s, step))
  {
    NextLarger(files, s, step);
    forall t | t in Next(s, step).txns ensures LogInFiles(NextFiles(files, s, step), Next(s, step).txns[t].log) {
      NextLog(s, step, t);
      assert t in s.txns ==> LogInFiles(files, s.txns[t].log);
      if step.WriteRecordOp? && step.op.Delete? {
        LiveOfAre(s.store, step.rec.fd, step.rec.rid);
        assert step.rec.rid in LiveOf(s.store, step.rec.fd) && Sound(files[step.rec.fd], LiveOf(s.store, step.rec.fd));
      }
    }
  }

  // ---------- runs ----------

  /** The files after a run, if it could happen and used the slots they find. */
  function FilesOf(store0: Store, files0: Files, steps: seq<Step>): (files: Option<Files>)
    ensures files.Some? ==> Run(Initial(store0), steps).Some?
  {
    if steps == [] then Some(files0)
    else
      var init, step := steps[..|steps| - 1], steps[|steps| - 1];
      var files := FilesOf(store0, files0, init);
      if files.None? then None
      else
        var s := Run(Initial(store0), init).value;
        if Enabled(s, step) && Follows(files.value, s, step) then Some(NextFiles(files.value, s, step)) else None
  }

  ghost predicate NoStrays(s: Sys) {
    forall t: TxnId :: StraysOf(s, t) == 0
  }

  /** As long as every deleted record was put back into its own slot, the headers of every
      file fit its records, in every run from files of which that is true. */
  lemma {:induction false} FilesStaySound(store0: Store, files0: Files, steps: seq<Step>)
    requires AllSound(files0, store0) && FilesOf(store0, files0, steps).Some?
    requires NoStrays(Run(Initial(store0), steps).value)
    ensures var files, s := FilesOf(store0, files0, steps).value, Run(Initial(store0), steps).value;
      AllSound(files, s.store) && LogsInFiles(files, s)
  {
    if steps != [] {
      var init, step := steps[..|steps| - 1], steps[|steps| - 1];
      var files, s := FilesOf(store0, files0, init).value, Run(Initial(store0), init).value;
      forall t: TxnId ensures StraysOf(s, t) == 0 {
        StepStrays(s, step, t);
        assert StraysOf(Next(s, step), t) == 0;
      }
      FilesStaySound(store0, files0, init);
      RunAbortKeeps(store0, init);
      if DeletesEmpty(s, step) {
        EmptyOnlyAfterStray(s, store0, step);
      }
      StepKeepsSound(files, s, step);
      StepKeepsLogs(files, s, step);
    }
  }

  /** In such a run, rolling back a delete next throws exactly when another transaction has
      a lock on the slot found. Otherwise the record is back under its own id exactly when
      its page is first on the list of pages with room, every slot before its own is taken
      and its own is not. */
  lemma UndoFindsSlot(store0: Store, files0: Files, steps: seq<Step>, t: TxnId, slot: RecId)
    requires AllSound(files0, store0) && FilesOf(store0, files0, steps).Some?
    requires NoStrays(Run(Initial(store0), steps).value)
    requires var files, s := FilesOf(store0, files0, steps).value, Run(Initial(store0), steps).value;
      && Enabled(s, UndoOne(t, slot)) && Follows(files, s, UndoOne(t, slot))
      && s.txns[t].log != [] && s.txns[t].log[|s.txns[t].log| - 1].Deleted?
    ensures var files, s := FilesOf(store0, files0, steps).value, Run(Initial(store0), steps).value;
      var w, n := s.txns[t].log[|s.txns[t].log| - 1], AfterUndo(s, t, slot);
      var f, live, r := files[w.rec.fd], LiveOf(s.store, w.rec.fd), w.rec.rid;
      && (n.txns[t].stage == Crashed <==> HeldByOther(s.locks, OnRecord(FoundIn(files, s.store, w.rec.fd)), t))
      && (n.txns[t].stage != Crashed ==>
            (View(CellAt(n.store, w.rec)) == Some(w.before) <==> f.firstFree == r.pageNo && FilledBefore(live, r)))
  {
    FilesStaySound(store0, files0, steps);
    RunAbortKeeps(store0, steps);
    var files, s := FilesOf(store0, files0, steps).value, Run(Initial(store0), steps).value;
    assert StraysOf(s, t) == 0;
    UndoPlaces(files, s, store0, t, slot, s.txns[t].log[|s.txns[t].log| - 1]);
  }

  lemma UndoPlaces(files: Files, s: Sys, store0: Store, t: TxnId, slot: RecId, w: WriteRecord)
    requires Inv(s, store0) && AbortInv(s, store0) && AllSound(files, s.store) && LogsInFiles(files, s)
    requires Enabled(s, UndoOne(t, slot)) && Follows(files, s, UndoOne(t, slot))
    requires s.txns[t].strays == [] && s.txns[t].log != [] && w == s.txns[t].log[|s.txns[t].log| - 1] && w.Deleted?
    ensures InFile(files, w.rec) && slot == FoundIn(files, s.store, w.rec.fd)
    ensures var n, f := AfterUndo(s, t, slot), files[w.rec.fd];
      && (n.txns[t].stage == Crashed <==> HeldByOther(s.locks, OnRecord(slot), t))
      && (n.txns[t].stage != Crashed ==>
            (View(CellAt(n.store, w.rec)) == Some(w.before) <==>
             f.firstFree == w.rec.rid.pageNo && FilledBefore(LiveOf(s.store, w.rec.fd), w.rec.rid)))
  {
    UndoOfDelete(s, store0, t, slot);
    LastAsLogged(s, store0, t);
    assert LogInFiles(files, s.txns[t].log);
    LiveOfAre(s.store, w.rec.fd, w.rec.rid);
    FindsSlot(files[w.rec.fd], LiveOf(s.store, w.rec.fd), w.rec.rid);
  }

  // ---------- whole aborts ----------

  /** If t's next undo puts a deleted record back, the record's page is the one the search
      opens, every slot before its own is taken and its own is not. */
  predicate FindsHome(files: Files, s: Sys, t: TxnId) {
    t in s.txns && s.txns[t].log != [] && s.txns[t].log[|s.txns[t].log| - 1].Deleted? ==>
      var r := s.txns[t].log[|s.txns[t].log| - 1].rec;
      && r.fd in files && Opened(files[r.fd]).firstFree == r.rid.pageNo
      && 0 <= r.rid.slotNo <= files[r.fd].perPage
      && FilledBefore(LiveOf(s.store, r.fd), r.rid) && !CellAt(s.store, r).live
  }

  /** That was so at every undo of t. */
  predicate EachFindsHome(store0: Store, files0: Files, steps: seq<Step>, t: TxnId)
    requires FilesOf(store0, files0, steps).Some?
  {
    if steps == [] then true
    else
      var init, step := steps[..|steps| - 1], steps[|steps| - 1];
      && EachFindsHome(store0, files0, init, t)
      && (step.UndoOne? && step.t == t ==>
            FindsHome(FilesOf(store0, files0, init).value, Run(Initial(store0), init).value, t))
  }

  lemma FindsHomeExactly(files: Files, s: Sys, t: TxnId, slot: RecId)
    requires Enabled(s, UndoOne(t, slot)) && Follows(files, s, UndoOne(t, slot))
    ensures FindsHome(files, s, t) <==> !Strays(s, UndoOne(t, slot), t)
  {
    var log := s.txns[t].log;
    if log != [] && log[|log| - 1].Deleted? {
      var r := log[|log| - 1].rec;
      LiveOfAre(s.store, r.fd, r.rid);
    }
  }

  lemma {:induction false} HomeIsNoStray(store0: Store, files0: Files, steps: seq<Step>, t: TxnId)
    requires FilesOf(store0, files0, steps).Some?
    ensures EachFindsHome(store0, files0, steps, t) <==> StrayCount(Initial(store0), steps, t) == 0
  {
    if steps != [] {
      var init, step := steps[..|steps| - 1], steps[|steps| - 1];
      HomeIsNoStray(store0, files0, init, t);
      if step.UndoOne? && step.t == t {
        FindsHomeExactly(FilesOf(store0, files0, init).value, Run(Initial(store0), init).value, t, step.slot);
      }
    }
  }

  /** Amid any interleaving: when each deleted record's slot was the one its file found,
      abort neither throws nor leaves anything unrestored. It puts a record elsewhere
      exactly when that was not so. */
  lemma HomeRestores(store0: Store, files0: Files, steps: seq<Step>, t: TxnId)
    requires FilesOf(store0, files0, steps).Some? && t in Run(Initial(store0), steps).value.txns
    ensures var s := Run(Initial(store0), steps).value;
      && (EachFindsHome(store0, files0, steps, t) <==> s.txns[t].strays == [])
      && (EachFindsHome(store0, files0, steps, t) ==>
            s.txns[t].stage != Crashed && (RolledBack(s, t) ==> Restored(s, store0, t)))
  {
    var s := Run(Initial(store0), steps).value;
    HomeIsNoStray(store0, files0, steps, t);
    StraysCounted(store0, steps, t);
    if s.txns[t].strays == [] {
      AbortNeverThrows(store0, steps, t);
      if RolledBack(s, t) {
        AbortRestores(store0, steps, t);
      }
    }
  }
}
