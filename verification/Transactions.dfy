/** The transaction manager's commit and abort loops, and the record operations they
    and the executors call, each asking for its row lock first. */
module Transactions {
  import opened Common
  import opened LockTable
  import opened LockManager
  import opened History
  import opened Schedules
  import opened Rollback
  import opened FreeSlots
  import opened Placement

  datatype Outcome<T> = Returned(value: T) | Threw(reason: AbortReason)

  /** The records of all tables and the headers of their files. A row lock that answers
      `false` is ignored. */
  class Records {
    var cells: Store
    var files: Files

    method GetRecord(txn: Transaction, lm: Manager, r: RecId) returns (o: Outcome<Bytes>)
      modifies lm, txn`phase, txn`lockSet
      ensures var a := Acquire(old(lm.lockTable), old(txn.LockView()), txn.id, OnRecord(r), RecordShared);
        && lm.lockTable == a.locks && txn.LockView() == a.view
        && o == if a.reply.Throws? then Threw(a.reply.reason) else Returned(CellAt(cells, r).bytes)
    {
      var reply := lm.LockSharedOnRecord(txn, r);
      if reply.Throws? { return Threw(reply.reason); }
      return Returned(CellAt(cells, r).bytes);
    }

    /** insert_record: the slot its file finds, the row lock on it, and then the record. */
    method InsertRecord(txn: Transaction, lm: Manager, fd: int, b: Bytes) returns (o: Outcome<RecId>)
      requires fd in files
      modifies this, lm, txn`phase, txn`lockSet
      ensures var r := old(FoundIn(files, cells, fd));
        var a := Acquire(old(lm.lockTable), old(txn.LockView()), txn.id, OnRecord(r), RecordExclusive);
        && lm.lockTable == a.locks && txn.LockView() == a.view
        && o == (if a.reply.Throws? then Threw(a.reply.reason) else Returned(r))
        && cells == (if a.reply.Throws? then old(cells) else Apply(old(cells), Event(txn.id, r, Insert(b))))
        && files == FilesAfter(old(files), r, Insert(b), a.reply.Throws?)
    {
      var f := Opened(files[fd]);
      var p := f.firstFree;
      var r := RecId(fd, Rid(p, FirstFree(LiveOf(cells, fd), p, 0, f.perPage)));
      var reply := lm.LockExclusiveOnRecord(txn, r);
      if reply.Throws? {
        files := files[fd := f];
        return Threw(reply.reason);
      }
      cells := cells[r := Cell(true, b)];
      var h := HeadAt(f, p);
      h := h.(numRecords := h.numRecords + 1);
      f := WithHead(f, p, h);
      if h.numRecords == f.perPage {
        f := f.(firstFree := h.nextFree);
      }
      files := files[fd := f];
      return Returned(r);
    }

    /** delete_record and update_record differ in what they do to the slot once the
        exclusive row lock is granted. */
    method WriteSlot(txn: Transaction, lm: Manager, r: RecId, op: Op) returns (o: Outcome<()>)
      requires (op.Update? || op.Delete?) && r.fd in files
      modifies this, lm, txn`phase, txn`lockSet
      ensures var a := Acquire(old(lm.lockTable), old(txn.LockView()), txn.id, OnRecord(r), RecordExclusive);
        && lm.lockTable == a.locks && txn.LockView() == a.view
        && o == (if a.reply.Throws? then Threw(a.reply.reason) else Returned(()))
        && cells == (if a.reply.Throws? then old(cells) else Apply(old(cells), Event(txn.id, r, op)))
        && files == FilesAfter(old(files), r, op, a.reply.Throws?)
    {
      var reply := lm.LockExclusiveOnRecord(txn, r);
      if reply.Throws? { return Threw(reply.reason); }
      var c := CellAt(cells, r);
      if op.Update? {
        cells := cells[r := c.(bytes := op.bytes)];
      } else {
        cells := cells[r := c.(live := false)];
        files := files[r.fd := Cleared(files[r.fd], r.rid.pageNo)];
      }
      return Returned(());
    }
  }

  /** Every lock in ids released, nothing else touched. */
  ghost predicate AllReleased(l: Locks, m: Locks, t: TxnId, ids: set<LockId>) {
    m.Keys == l.Keys && forall id :: id in l ==> m[id] == if id in ids then Release(l[id], t) else l[id]
  }

  lemma ReleasedLeavesNothing(l: Locks, m: Locks, t: TxnId, ids: set<LockId>)
    requires LocksOk(l) && AllReleased(l, m, t, ids)
    requires forall id: LockId :: Held(l, id, t).Some? ==> id in ids
    ensures forall id: LockId :: Held(m, id, t).None?
    ensures forall id: LockId, u: TxnId :: u != t ==> Held(m, id, u) == Held(l, id, u)
    ensures LocksOk(m)
  {
    forall id: LockId ensures id in m ==> QueueFine(m, id)
                       ensures Held(m, id, t).None? && forall u: TxnId :: u != t ==> Held(m, id, u) == Held(l, id, u)
    {
      OneReleased(l, m, t, ids, id);
    }
  }

  lemma OneReleased(l: Locks, m: Locks, t: TxnId, ids: set<LockId>, id: LockId)
    requires LocksOk(l) && AllReleased(l, m, t, ids) && (Held(l, id, t).Some? ==> id in ids)
    ensures id in m ==> QueueFine(m, id)
    ensures Held(m, id, t).None? && forall u: TxnId :: u != t ==> Held(m, id, u) == Held(l, id, u)
  {
    EmptyQueueOk();
    QueueAtOk(l, id);
    ReleaseKeeps(QueueAt(l, id), t);
  }

  class TransactionManager {
    const lm: Manager
    const records: Records

    constructor (lm: Manager, records: Records)
      ensures this.lm == lm && this.records == records
    {
      this.lm, this.records := lm, records;
    }

    /** The release loop that commit and abort share; the set is walked in any order. */
    method ReleaseLocks(txn: Transaction)
      modifies lm, txn`phase
      ensures AllReleased(old(lm.lockTable), lm.lockTable, txn.id, if old(Finished(txn.phase)) then {} else txn.lockSet)
    {
      var left := txn.lockSet;
      ghost var done: set<LockId> := {};
      while left != {}
        invariant left + done == txn.lockSet && left !! done
        invariant Finished(txn.phase) == old(Finished(txn.phase))
        invariant AllReleased(old(lm.lockTable), lm.lockTable, txn.id, if Finished(txn.phase) then {} else done)
        decreases left
      {
        var id :| id in left;
        var _ := lm.Unlock(txn, id);
        left, done := left - {id}, done + {id};
      }
    }

    /** Commit forgets the write set, releases every lock and marks the transaction. */
    method Commit(txn: Transaction)
      modifies lm, txn
      ensures txn.phase == Committed && txn.lockSet == {} && txn.writeSet == []
      ensures AllReleased(old(lm.lockTable), lm.lockTable, txn.id, old(if Finished(txn.phase) then {} else txn.lockSet))
    {
      while txn.writeSet != []
        invariant txn.lockSet == old(txn.lockSet) && txn.phase == old(txn.phase)
        invariant lm.lockTable == old(lm.lockTable)
        decreases |txn.writeSet|
      {
        txn.writeSet := txn.writeSet[1..];
      }
      ReleaseLocks(txn);
      txn.lockSet := {};
      txn.phase := Committed;
    }

    /** Abort walks the write set backwards, undoing each entry through the ordinary
        record operations, then releases. */
    method Abort(txn: Transaction) returns (completed: bool)
      requires Open(records.files, txn.writeSet)
      modifies lm, records, txn
      ensures var tables := old(Tables(records.cells, records.files));
        var u := UndoAll(old(lm.lockTable), old(txn.LockView()), tables, txn.id, old(txn.writeSet));
        && completed == u.completed && records.cells == u.tables.cells && records.files == u.tables.files
        && (completed ==>
              && txn.phase == Aborted && txn.lockSet == {} && txn.writeSet == []
              && AllReleased(u.locks, lm.lockTable, txn.id, if Finished(u.view.phase) then {} else u.view.lockSet))
        && (!completed ==> lm.lockTable == u.locks && txn.LockView() == u.view && txn.writeSet == old(txn.writeSet))
    {
      var log := txn.writeSet;
      var i := |log|;
      assert log[..i] == log;
      ghost var u := UndoAll(lm.lockTable, txn.LockView(), Tables(records.cells, records.files), txn.id, log);
      while i > 0
        invariant 0 <= i <= |log| && txn.writeSet == log && Open(records.files, log[..i])
        invariant u == UndoAll(lm.lockTable, txn.LockView(), Tables(records.cells, records.files), txn.id, log[..i])
      {
        i := i - 1;
        assert log[..i + 1][..i] == log[..i];
        var ok := UndoEntry(txn, log[i]);
        if !ok { return false; }
      }
      txn.writeSet := [];
      ReleaseLocks(txn);
      txn.lockSet := {};
      txn.phase := Aborted;
      return true;
    }

    /** One entry: an insert is deleted, a delete inserted, an update written back. */
    method UndoEntry(txn: Transaction, w: WriteRecord) returns (ok: bool)
      requires w.rec.fd in records.files
      modifies lm, records, txn`phase, txn`lockSet
      ensures var tables := old(Tables(records.cells, records.files)); var e := UndoEvent(tables, txn.id, w);
        var a := Acquire(old(lm.lockTable), old(txn.LockView()), txn.id, OnRecord(e.rec), RecordExclusive);
        && lm.lockTable == a.locks && txn.LockView() == a.view && ok == !a.reply.Throws?
        && Tables(records.cells, records.files) == TablesAfter(tables, e, a.reply.Throws?)
    {
      match w
      case Inserted(r) =>
        var o := records.WriteSlot(txn, lm, r, Delete);
        ok := o.Returned?;
      case Deleted(r, b) =>
        var o := records.InsertRecord(txn, lm, r.fd, b);
        ok := o.Returned?;
      case Updated(r, b) =>
        var o := records.WriteSlot(txn, lm, r, Update(b));
        ok := o.Returned?;
    }
  }

  datatype Tables = Tables(cells: Store, files: Files)

  /** The tables of the write set are open. */
  ghost predicate Open(files: Files, log: seq<WriteRecord>) {
    forall i :: 0 <= i < |log| ==> log[i].rec.fd in files
  }

  /** What undoing one entry asks for. */
  function UndoEvent(tables: Tables, t: TxnId, w: WriteRecord): Event
    requires w.rec.fd in tables.files
  {
    Event(t, UndoRec(w, FoundIn(tables.files, tables.cells, w.rec.fd)), UndoOp(w))
  }

  function TablesAfter(tables: Tables, e: Event, throws: bool): (after: Tables)
    requires e.rec.fd in tables.files
    ensures after.files.Keys == tables.files.Keys
  {
    Tables(if throws then tables.cells else Apply(tables.cells, e), FilesAfter(tables.files, e.rec, e.op, throws))
  }

  datatype UndoResult = UndoResult(locks: Locks, view: TxnView, tables: Tables, completed: bool)

  /** The undo loop: each entry asks for its row lock and, once that throws nothing, changes
      its slot. */
  function UndoAll(locks: Locks, v: TxnView, tables: Tables, t: TxnId, log: seq<WriteRecord>): UndoResult
    requires Open(tables.files, log)
    decreases |log|
  {
    if log == [] then UndoResult(locks, v, tables, true)
    else
      var e := UndoEvent(tables, t, log[|log| - 1]);
      var a := Acquire(locks, v, t, OnRecord(e.rec), RecordExclusive);
      if a.reply.Throws? then UndoResult(a.locks, a.view, TablesAfter(tables, e, true), false)
      else UndoAll(a.locks, a.view, TablesAfter(tables, e, false), t, log[..|log| - 1])
  }

  /** Every record of the write set is locked exclusively. */
  ghost predicate AllLocked(locks: Locks, v: TxnView, t: TxnId, log: seq<WriteRecord>) {
    && (log != [] ==> v.phase == Growing)
    && forall i :: 0 <= i < |log| ==> Held(locks, OnRecord(log[i].rec), t) == Some(Exclusive)
  }

  /** Every deleted record gets its own slot back. */
  predicate AllHome(tables: Tables, t: TxnId, log: seq<WriteRecord>)
    requires Open(tables.files, log)
    decreases |log|
  {
    if log == [] then true
    else
      var e := UndoEvent(tables, t, log[|log| - 1]);
      e.rec == log[|log| - 1].rec && AllHome(TablesAfter(tables, e, false), t, log[..|log| - 1])
  }

  /** With its row locks held and every deleted record back in its own slot, the loop
      completes, changes no lock, and leaves every record as undoing the whole write set
      makes it. */
  lemma {:induction false} HomeCompletes(locks: Locks, v: TxnView, tables: Tables, t: TxnId, log: seq<WriteRecord>)
    requires AllLocked(locks, v, t, log) && Open(tables.files, log) && AllHome(tables, t, log)
    ensures var u := UndoAll(locks, v, tables, t, log);
      && u.completed && u.locks == locks && u.view == v
      && forall r: RecId :: CellAt(u.tables.cells, r) == UndoCell(log, r, CellAt(tables.cells, r))
    decreases |log|
  {
    if log != [] {
      var w, init := log[|log| - 1], log[..|log| - 1];
      HeldExclusiveIsGranted(locks, v, t, w.rec);
      HeldExclusiveKeeps(locks, v, t, w.rec);
      assert AllLocked(locks, v, t, init);
      HomeCompletes(locks, v, TablesAfter(tables, UndoEvent(tables, t, w), false), t, init);
    }
  }

  /** A write set without deletes needs no slot. */
  lemma {:induction false} NothingToPlace(tables: Tables, t: TxnId, log: seq<WriteRecord>)
    requires NoDeletes(log) && Open(tables.files, log)
    ensures AllHome(tables, t, log)
    decreases |log|
  {
    if log != [] {
      NothingToPlace(TablesAfter(tables, UndoEvent(tables, t, log[|log| - 1]), false), t, log[..|log| - 1]);
    }
  }

  /** So its rollback completes, whatever the files look like. */
  lemma NoDeletesCompletes(locks: Locks, v: TxnView, tables: Tables, t: TxnId, log: seq<WriteRecord>)
    requires AllLocked(locks, v, t, log) && NoDeletes(log) && Open(tables.files, log)
    ensures var u := UndoAll(locks, v, tables, t, log);
      && u.completed && u.locks == locks && u.view == v
      && forall r: RecId :: CellAt(u.tables.cells, r) == UndoCell(log, r, CellAt(tables.cells, r))
  {
    NothingToPlace(tables, t, log);
    HomeCompletes(locks, v, tables, t, log);
  }

  lemma HeldExclusiveKeeps(locks: Locks, v: TxnView, t: TxnId, r: RecId)
    requires v.phase == Growing && Held(locks, OnRecord(r), t) == Some(Exclusive)
    ensures var a := Acquire(locks, v, t, OnRecord(r), RecordExclusive); a.locks == locks && a.view == v
  {
    EmptyQueueOk();
    assert OnRecord(r) in locks;
  }
}
