/** Rollback amid any interleaving: what `abort` restores, when it throws, and what becomes
    of a deleted record that is put back into another slot. */
module Rollback {
  import opened Common
  import opened LockTable
  import opened LockManager
  import opened History
  import opened Schedules

  // ---------- undoing a write set ----------

  ghost predicate NoDeletes(log: seq<WriteRecord>) {
    forall i :: 0 <= i < |log| ==> !log[i].Deleted?
  }

  /** The cell of r after the whole write set has been undone, last entry first, every
      record in its own slot. */
  function UndoCell(log: seq<WriteRecord>, r: RecId, c: Cell): Cell {
    if log == [] then c
    else
      var w := log[|log| - 1];
      UndoCell(log[..|log| - 1], r, if w.rec == r then ApplyCell(UndoOp(w), c) else c)
  }

  /** A slot that is now live or dead has the write set behind it: inserts made it live,
      deletes dead. */
  predicate Fits(log: seq<WriteRecord>, r: RecId, live: bool) {
    if log == [] then true
    else
      var w, init := log[|log| - 1], log[..|log| - 1];
      if w.rec != r then Fits(init, r, live)
      else
        match w
        case Inserted(_) => live && Fits(init, r, false)
        case Deleted(_, _) => !live && Fits(init, r, true)
        case Updated(_, _) => Fits(init, r, live)
  }

  /** What a dead slot's bytes were does not matter. */
  lemma {:induction false} UndoDeadSame(log: seq<WriteRecord>, r: RecId, c: Cell, d: Cell)
    requires !c.live && !d.live
    ensures View(UndoCell(log, r, c)) == View(UndoCell(log, r, d))
  {
    if log != [] {
      var w, init := log[|log| - 1], log[..|log| - 1];
      if w.rec == r && w.Deleted? {
        assert ApplyCell(UndoOp(w), c) == ApplyCell(UndoOp(w), d);
      } else if w.rec == r {
        UndoDeadSame(init, r, ApplyCell(UndoOp(w), c), ApplyCell(UndoOp(w), d));
      } else {
        UndoDeadSame(init, r, c, d);
      }
    }
  }

  lemma {:induction false} Untouched(log: seq<WriteRecord>, r: RecId, c: Cell)
    requires forall i :: 0 <= i < |log| ==> log[i].rec != r
    ensures UndoCell(log, r, c) == c && Fits(log, r, c.live)
  {
    if log != [] {
      Untouched(log[..|log| - 1], r, c);
    }
  }

  lemma UndoLast(log: seq<WriteRecord>, w: WriteRecord, r: RecId, c: Cell)
    ensures UndoCell(log + [w], r, c) == UndoCell(log, r, if w.rec == r then ApplyCell(UndoOp(w), c) else c)
  {
    assert (log + [w])[..|log + [w]| - 1] == log;
  }

  lemma FitsLast(log: seq<WriteRecord>, w: WriteRecord, r: RecId, live: bool)
    ensures Fits(log + [w], r, live) <==>
      if w.rec != r || w.Updated? then Fits(log, r, live) else live == w.Inserted? && Fits(log, r, !live)
  {
    assert (log + [w])[..|log + [w]| - 1] == log;
  }

  // ---------- what every step keeps ----------

  predicate Wrote(e: Event, t: TxnId, r: RecId) {
    e.txn == t && e.rec == r && !e.op.Read?
  }

  /** c is what r held just before t first wrote it. */
  ghost predicate BeforeFirstWrite(store0: Store, h: seq<Event>, t: TxnId, r: RecId, c: Cell) {
    exists i :: 0 <= i < |h| && Wrote(h[i], t, r) && (forall j :: 0 <= j < i ==> !Wrote(h[j], t, r))
             && c == CellAt(Replay(store0, h[..i]), r)
  }

  ghost predicate BasesOk(s: Sys, store0: Store) {
    && (forall t, r :: t in s.txns && r in s.txns[t].base ==>
          BeforeFirstWrite(store0, s.history, t, r, s.txns[t].base[r]))
    && (forall i :: 0 <= i < |s.history| && s.history[i].txn in s.txns && !s.history[i].op.Read? ==>
          s.history[i].rec in s.txns[s.history[i].txn].base)
  }

  /** Not committing, so that what is left of the write set is to be undone. */
  predicate Reversible(x: Txn) {
    Acting(x) || x.stage == Crashed || (x.stage.Releasing? && !x.stage.commit)
  }

  ghost predicate LogInBase(x: Txn) {
    forall i :: 0 <= i < |x.log| ==> x.log[i].rec in x.base
  }

  /** Undoing what is left of the write set brings back r. */
  ghost predicate ComesBack(s: Sys, x: Txn, r: RecId)
    requires r in x.base
  {
    var c := CellAt(s.store, r);
    Fits(x.log, r, c.live) && View(UndoCell(x.log, r, c)) == View(x.base[r])
  }

  /** Where records should have been put back and where they were put instead. */
  function Touched(strays: seq<Stray>): set<RecId> {
    (set y | y in strays :: y.rec) + (set y | y in strays :: y.slot)
  }

  lemma TouchedLast(strays: seq<Stray>, y: Stray)
    ensures Touched(strays + [y]) == Touched(strays) + {y.rec, y.slot}
  {
    var more := strays + [y];
    forall r ensures r in Touched(more) <==> r in Touched(strays) + {y.rec, y.slot} {
      assert forall z :: z in more <==> z in strays || z == y;
    }
  }

  /** Undoing what is left of the write set brings back every record t has written, except
      where a record was put in another slot than its own. */
  ghost predicate Restorable(s: Sys, t: TxnId)
    requires t in s.txns
  {
    var x := s.txns[t];
    && LogInBase(x)
    && forall r {:trigger ComesBack(s, x, r)} :: r in x.base && r !in Touched(x.strays) ==> ComesBack(s, x, r)
  }

  /** A record stands in slot k, which was free and, going by the write set, still is. */
  ghost predicate Displaced(s: Sys, t: TxnId, k: RecId)
    requires t in s.txns
  {
    var x := s.txns[t];
    && LogInBase(x) && k in x.base && CellAt(s.store, k).live
    && Fits(x.log, k, false) && View(UndoCell(x.log, k, Cell(false, []))) == View(x.base[k])
  }

  ghost predicate OnCourse(s: Sys, t: TxnId)
    requires t in s.txns
  {
    var x := s.txns[t];
    && Restorable(s, t) && (x.strays == [] ==> x.stage != Crashed)
    && (x.stage != Crashed ==> Touched(x.strays) <= x.base.Keys)
    && (|x.strays| == 1 && x.stage != Crashed ==> Displaced(s, t, x.strays[0].slot))
  }

  predicate Tidy(x: Txn) {
    && (x.stage == Running ==> x.strays == [])
    && (!x.deletes ==> x.strays == [] && forall i :: 0 <= i < |x.log| ==> !x.log[i].Deleted?)
  }

  ghost predicate AbortInv(s: Sys, store0: Store) {
    && BasesOk(s, store0)
    && (forall t :: t in s.txns ==> Tidy(s.txns[t]))
    && forall t {:trigger OnCourse(s, t)} :: t in s.txns && t !in s.shrunk && Reversible(s.txns[t]) ==> OnCourse(s, t)
  }

  lemma FirstWriteKept(store0: Store, h: seq<Event>, e: Event, t: TxnId, r: RecId, c: Cell)
    requires BeforeFirstWrite(store0, h, t, r, c)
    ensures BeforeFirstWrite(store0, h + [e], t, r, c)
  {
    var g := h + [e];
    var i :| 0 <= i < |h| && Wrote(h[i], t, r) && (forall j :: 0 <= j < i ==> !Wrote(h[j], t, r))
          && c == CellAt(Replay(store0, h[..i]), r);
    assert g[..i] == h[..i];
    assert Wrote(g[i], t, r) && forall j :: 0 <= j < i ==> !Wrote(g[j], t, r);
  }

  lemma FirstWriteNow(store0: Store, h: seq<Event>, e: Event)
    requires !e.op.Read? && forall j :: 0 <= j < |h| ==> !Wrote(h[j], e.txn, e.rec)
    ensures BeforeFirstWrite(store0, h + [e], e.txn, e.rec, CellAt(Replay(store0, h), e.rec))
  {
    var g := h + [e];
    assert g[..|h|] == h && Wrote(g[|h|], e.txn, e.rec);
    assert forall j :: 0 <= j < |h| ==> !Wrote(g[j], e.txn, e.rec);
  }

  lemma BasesSame(s: Sys, n: Sys, store0: Store, t: TxnId)
    requires BasesOk(s, store0) && EventsProtected(s) && n.history == s.history && t in n.txns
    requires n.txns == s.txns[t := n.txns[t]]
    requires n.txns[t].base == if t in s.txns then s.txns[t].base else map[]
    ensures BasesOk(n, store0)
  {
    forall u, r | u in n.txns && r in n.txns[u].base
      ensures BeforeFirstWrite(store0, n.history, u, r, n.txns[u].base[r])
    {
      assert u in s.txns && r in s.txns[u].base;
    }
    forall i | 0 <= i < |n.history| && n.history[i].txn in n.txns && !n.history[i].op.Read?
      ensures n.history[i].rec in n.txns[n.history[i].txn].base
    {
      assert ProtectedAt(s, i);
    }
  }

  lemma BasesExtend(s: Sys, n: Sys, store0: Store, e: Event)
    requires BasesOk(s, store0) && s.store == Replay(store0, s.history)
    requires e.txn in s.txns && e.txn in n.txns && n.history == s.history + [e]
    requires n.txns == s.txns[e.txn := n.txns[e.txn]]
    requires n.txns[e.txn].base == if e.op.Read? || e.rec in s.txns[e.txn].base then s.txns[e.txn].base
                                   else s.txns[e.txn].base[e.rec := CellAt(s.store, e.rec)]
    ensures BasesOk(n, store0)
  {
    forall u, r | u in n.txns && r in n.txns[u].base
      ensures BeforeFirstWrite(store0, n.history, u, r, n.txns[u].base[r])
    {
      if r in s.txns[u].base {
        FirstWriteKept(store0, s.history, e, u, r, s.txns[u].base[r]);
      } else {
        forall j | 0 <= j < |s.history| ensures !Wrote(s.history[j], e.txn, e.rec) {
        }
        FirstWriteNow(store0, s.history, e);
      }
    }
    forall i | 0 <= i < |n.history| && n.history[i].txn in n.txns && !n.history[i].op.Read?
      ensures n.history[i].rec in n.txns[n.history[i].txn].base
    {
      if i < |s.history| {
        assert n.history[i] == s.history[i];
      }
    }
  }

  /** Being on course depends only on the transaction's own records. */
  lemma OnCourseSame(s: Sys, n: Sys, t: TxnId)
    requires t in s.txns && t in n.txns && OnCourse(s, t)
    requires var x, y := s.txns[t], n.txns[t];
      && y.log == x.log && y.base == x.base && y.strays == x.strays && (y.stage == Crashed <==> x.stage == Crashed)
    requires forall r :: r in s.txns[t].base ==> CellAt(n.store, r) == CellAt(s.store, r)
    ensures OnCourse(n, t)
  {
    var x, y := s.txns[t], n.txns[t];
    forall r | r in y.base && r !in Touched(y.strays) ensures ComesBack(n, y, r) {
      assert ComesBack(s, x, r);
    }
  }

  /** Nobody else's operation reaches a record that an unreleased t has written. */
  lemma OthersAvoid(s: Sys, n: Sys, store0: Store, e: Event, t: TxnId, r: RecId)
    requires BasesOk(s, store0) && ConflictsOrdered(n.history, n.shrunk)
    requires n.history == s.history + [e] && n.store == Apply(s.store, e)
    requires t in s.txns && t !in n.shrunk && e.txn != t && r in s.txns[t].base
    ensures CellAt(n.store, r) == CellAt(s.store, r)
  {
    assert BeforeFirstWrite(store0, s.history, t, r, s.txns[t].base[r]);
    var i :| 0 <= i < |s.history| && Wrote(s.history[i], t, r);
    assert n.history[i] == s.history[i] && n.history[|s.history|] == e;
    assert OrderedAt(n.history, n.shrunk, i, |s.history|);
  }

  // ---------- a write ----------

  lemma WriteComesBack(s: Sys, n: Sys, t: TxnId, r: RecId, op: Op, k: RecId)
    requires t in s.txns && t in n.txns && Restorable(s, t) && s.txns[t].strays == []
    requires !op.Read? && (op.Insert? ==> !CellAt(s.store, r).live) && (op.Delete? ==> CellAt(s.store, r).live)
    requires var c, x := CellAt(s.store, r), s.txns[t];
      && n.store == Apply(s.store, Event(t, r, op))
      && n.txns[t].log == x.log + [LogEntry(r, op, c)]
      && n.txns[t].base == if r in x.base then x.base else x.base[r := c]
    requires k in n.txns[t].base
    ensures ComesBack(n, n.txns[t], k)
  {
    var c, d, x := CellAt(s.store, r), CellAt(n.store, k), s.txns[t];
    var w := LogEntry(r, op, c);
    UndoLast(x.log, w, k, d);
    FitsLast(x.log, w, k, d.live);
    if k in x.base {
      assert ComesBack(s, x, k);
    } else {
      Untouched(x.log, k, c);
    }
    if k == r && op.Insert? {
      UndoDeadSame(x.log, r, c, ApplyCell(UndoOp(w), d));
    }
  }

  lemma WriteOnCourse(s: Sys, n: Sys, t: TxnId, r: RecId, op: Op)
    requires t in s.txns && t in n.txns && Restorable(s, t) && s.txns[t].strays == []
    requires !op.Read? && (op.Insert? ==> !CellAt(s.store, r).live) && (op.Delete? ==> CellAt(s.store, r).live)
    requires var c, x, y := CellAt(s.store, r), s.txns[t], n.txns[t];
      && n.store == Apply(s.store, Event(t, r, op)) && y.stage == x.stage != Crashed && y.strays == []
      && y.log == x.log + [LogEntry(r, op, c)] && y.base == if r in x.base then x.base else x.base[r := c]
    ensures OnCourse(n, t)
  {
    forall k | k in n.txns[t].base ensures ComesBack(n, n.txns[t], k) {
      WriteComesBack(s, n, t, r, op, k);
    }
  }

  function Written(s: Sys, x: Txn, r: RecId, op: Op): Txn
    requires !op.Read?
  {
    var c := CellAt(s.store, r);
    x.(log := x.log + [LogEntry(r, op, c)],
       base := if r in x.base then x.base else x.base[r := c],
       deletes := x.deletes || op.Delete?)
  }

  lemma WriteDone(s: Sys, n: Sys, store0: Store, t: TxnId, r: RecId, op: Op, a: Acquired)
    requires Inv(s, store0) && AbortInv(s, store0) && Enabled(s, WriteRecordOp(t, r, op))
    requires n == Perform(s, a, t, Written(s, s.txns[t], r, op), Event(t, r, op))
    ensures Kept(n, store0, t)
  {
    var x := s.txns[t];
    assert StageOk(x, t in s.shrunk) && Tidy(x) && OnCourse(s, t);
    assert n.txns[t].strays == [] && n.txns[t].stage == x.stage;
    WriteOnCourse(s, n, t, r, op);
    WriteBases(s, n, store0, t, r, op, a);
  }

  lemma WriteBases(s: Sys, n: Sys, store0: Store, t: TxnId, r: RecId, op: Op, a: Acquired)
    requires BasesOk(s, store0) && s.store == Replay(store0, s.history) && t in s.txns && !op.Read?
    requires n == Perform(s, a, t, Written(s, s.txns[t], r, op), Event(t, r, op))
    ensures BasesOk(n, store0) && t in n.txns && (Tidy(s.txns[t]) && s.txns[t].strays == [] ==> Tidy(n.txns[t]))
  {
    BasesExtend(s, n, store0, Event(t, r, op));
  }

  lemma OwnWriteKeeps(s: Sys, store0: Store, t: TxnId, r: RecId, op: Op)
    requires Inv(s, store0) && AbortInv(s, store0) && Enabled(s, WriteRecordOp(t, r, op))
    ensures Kept(AfterWrite(s, t, r, op), store0, t)
  {
    var n, x := AfterWrite(s, t, r, op), s.txns[t];
    var a := Acquire(s.locks, x.view, t, OnRecord(r), RecordExclusive);
    if a.reply.Throws? {
      assert StageOk(x, t in s.shrunk) && Tidy(x) && OnCourse(s, t);
      BasesSame(s, n, store0, t);
      OnCourseSame(s, n, t);
    } else {
      WriteDone(s, n, store0, t, r, op, a);
    }
  }

  /** What a step has to keep for the transaction that takes it. */
  ghost predicate Kept(n: Sys, store0: Store, t: TxnId) {
    && t in n.txns && BasesOk(n, store0) && Tidy(n.txns[t])
    && (t !in n.shrunk && Reversible(n.txns[t]) ==> OnCourse(n, t))
  }

  // ---------- an undo ----------

  lemma HeldExclusiveIsGranted(locks: Locks, v: TxnView, t: TxnId, r: RecId)
    requires v.phase == Growing && Held(locks, OnRecord(r), t) == Some(Exclusive)
    ensures Acquire(locks, v, t, OnRecord(r), RecordExclusive).reply == Locked
  {
  }

  /** What t has written it holds exclusively until it starts to release. */
  lemma BaseHeld(s: Sys, store0: Store, t: TxnId, r: RecId)
    requires EventsProtected(s) && BasesOk(s, store0) && t in s.txns && t !in s.shrunk && r in s.txns[t].base
    ensures Held(s.locks, OnRecord(r), t) == Some(Exclusive)
  {
    assert BeforeFirstWrite(store0, s.history, t, r, s.txns[t].base[r]);
    var i :| 0 <= i < |s.history| && Wrote(s.history[i], t, r);
    assert ProtectedAt(s, i);
  }

  /** Undone in its own place, whatever the lock manager did. */
  lemma HomeComesBack(s: Sys, n: Sys, t: TxnId, k: RecId)
    requires t in s.txns && t in n.txns && Restorable(s, t) && s.txns[t].log != []
    requires var x := s.txns[t]; var w := x.log[|x.log| - 1];
      && n.store == Apply(s.store, Event(t, w.rec, UndoOp(w)))
      && n.txns[t].log == x.log[..|x.log| - 1] && n.txns[t].base == x.base
    requires k in n.txns[t].base && k !in Touched(s.txns[t].strays)
    ensures ComesBack(n, n.txns[t], k)
  {
    assert ComesBack(s, s.txns[t], k);
  }

  /** Put in another slot, it leaves all records but those two alone. */
  lemma StrayComesBack(s: Sys, n: Sys, t: TxnId, slot: RecId, k: RecId)
    requires t in s.txns && t in n.txns && Restorable(s, t) && s.txns[t].log != []
    requires var x := s.txns[t]; var w := x.log[|x.log| - 1];
      && n.store == Apply(s.store, Event(t, slot, UndoOp(w))) && k != slot && k != w.rec
      && n.txns[t].log == x.log[..|x.log| - 1]
    requires k in s.txns[t].base && k in n.txns[t].base && n.txns[t].base[k] == s.txns[t].base[k]
    requires k !in Touched(s.txns[t].strays)
    ensures ComesBack(n, n.txns[t], k)
  {
    assert ComesBack(s, s.txns[t], k);
  }

  /** The first record to go astray ends up in a slot that should be free. */
  lemma StrayDisplaces(s: Sys, n: Sys, t: TxnId, k: RecId)
    requires t in s.txns && t in n.txns && Restorable(s, t) && s.txns[t].strays == []
    requires s.txns[t].log != [] && !CellAt(s.store, k).live
    requires var x := s.txns[t]; var w := x.log[|x.log| - 1];
      && w.Deleted? && k != w.rec
      && n.store == Apply(s.store, Event(t, k, UndoOp(w)))
      && n.txns[t].log == x.log[..|x.log| - 1]
      && n.txns[t].base == if k in x.base then x.base else x.base[k := CellAt(s.store, k)]
    ensures Displaced(n, t, k)
  {
    var x, c := s.txns[t], CellAt(s.store, k);
    if k in x.base {
      assert ComesBack(s, x, k);
    } else {
      Untouched(x.log, k, c);
    }
    UndoDeadSame(x.log, k, c, Cell(false, []));
  }

  /** It stays there as long as the other records go to their own places. */
  lemma HomeDisplaced(s: Sys, n: Sys, t: TxnId, k: RecId)
    requires t in s.txns && t in n.txns && Displaced(s, t, k) && s.txns[t].log != []
    requires var x := s.txns[t]; var w := x.log[|x.log| - 1];
      && (w.Deleted? ==> !CellAt(s.store, w.rec).live)
      && n.store == Apply(s.store, Event(t, w.rec, UndoOp(w)))
      && n.txns[t].log == x.log[..|x.log| - 1] && n.txns[t].base == x.base
    ensures Displaced(n, t, k)
  {
    var x := s.txns[t];
    var w := x.log[|x.log| - 1];
    if w.rec == k {
      UndoDeadSame(n.txns[t].log, k, ApplyCell(UndoOp(w), Cell(false, [])), Cell(false, []));
    }
  }

  /** An undo step that got its lock. */
  lemma UndoDone(s: Sys, n: Sys, store0: Store, t: TxnId, slot: RecId, a: Acquired)
    requires Inv(s, store0) && AbortInv(s, store0) && Enabled(s, UndoOne(t, slot)) && s.txns[t].log != []
    requires var x := s.txns[t]; var w := x.log[|x.log| - 1];
      n == Perform(s, a, t, Undone(s, x, w, slot), Event(t, UndoRec(w, slot), UndoOp(w)))
    ensures Kept(n, store0, t)
  {
    var x := s.txns[t];
    var w := x.log[|x.log| - 1];
    assert StageOk(x, t in s.shrunk) && Tidy(x) && OnCourse(s, t);
    BasesExtend(s, n, store0, Event(t, UndoRec(w, slot), UndoOp(w)));
    UndoOnCourse(s, n, t, slot);
  }

  lemma UndoOnCourse(s: Sys, n: Sys, t: TxnId, slot: RecId)
    requires t in s.txns && t in n.txns && OnCourse(s, t) && Enabled(s, UndoOne(t, slot)) && s.txns[t].log != []
    requires var x := s.txns[t]; var w := x.log[|x.log| - 1]; var y := Undone(s, x, w, slot);
      && n.store == Apply(s.store, Event(t, UndoRec(w, slot), UndoOp(w))) && n.txns[t].stage == x.stage
      && n.txns[t].log == y.log && n.txns[t].base == y.base && n.txns[t].strays == y.strays
    ensures OnCourse(n, t)
  {
    var x, y := s.txns[t], n.txns[t];
    var w := x.log[|x.log| - 1];
    if w.Deleted? && slot != w.rec {
      StrayOnCourse(s, n, t, slot, w);
    } else {
      forall k | k in y.base && k !in Touched(y.strays) ensures ComesBack(n, y, k) {
        HomeComesBack(s, n, t, k);
      }
      if |x.strays| == 1 {
        HomeDisplaced(s, n, t, x.strays[0].slot);
      }
    }
  }

  lemma StrayOnCourse(s: Sys, n: Sys, t: TxnId, slot: RecId, w: WriteRecord)
    requires t in s.txns && t in n.txns && OnCourse(s, t) && s.txns[t].log != [] && !CellAt(s.store, slot).live
    requires w == s.txns[t].log[|s.txns[t].log| - 1] && w.Deleted? && slot != w.rec
    requires var x := s.txns[t]; var y := Undone(s, x, w, slot);
      && n.store == Apply(s.store, Event(t, slot, UndoOp(w))) && n.txns[t].stage == x.stage != Crashed
      && n.txns[t].log == y.log && n.txns[t].base == y.base && n.txns[t].strays == y.strays
    ensures OnCourse(n, t)
  {
    var x, y := s.txns[t], n.txns[t];
    TouchedLast(x.strays, Stray(w.rec, slot));
    forall k | k in y.base && k !in Touched(y.strays) ensures ComesBack(n, y, k) {
      StrayComesBack(s, n, t, slot, k);
    }
    if x.strays == [] {
      StrayDisplaces(s, n, t, slot);
    }
  }

  lemma HomeIsGranted(s: Sys, store0: Store, t: TxnId)
    requires EventsProtected(s) && BasesOk(s, store0) && t in s.txns && t !in s.shrunk
    requires s.txns[t].view.phase == Growing
    requires s.txns[t].log != [] && LogInBase(s.txns[t])
    ensures var x := s.txns[t]; var r := x.log[|x.log| - 1].rec;
      Acquire(s.locks, x.view, t, OnRecord(r), RecordExclusive).reply == Locked
  {
    var x := s.txns[t];
    var r := x.log[|x.log| - 1].rec;
    BaseHeld(s, store0, t, r);
    HeldExclusiveIsGranted(s.locks, x.view, t, r);
  }

  lemma UndoEnded(s: Sys, store0: Store, t: TxnId, slot: RecId)
    requires Inv(s, store0) && AbortInv(s, store0) && Enabled(s, UndoOne(t, slot)) && s.txns[t].log == []
    ensures Kept(AfterUndo(s, t, slot), store0, t)
  {
    var n := AfterUndo(s, t, slot);
    assert Tidy(s.txns[t]) && OnCourse(s, t);
    BasesSame(s, n, store0, t);
    OnCourseSame(s, n, t);
  }

  /** An undo throws only when it goes astray. */
  lemma UndoCrashed(s: Sys, n: Sys, store0: Store, t: TxnId, slot: RecId, a: Acquired)
    requires Inv(s, store0) && AbortInv(s, store0) && Enabled(s, UndoOne(t, slot)) && s.txns[t].log != []
    requires var x := s.txns[t]; var w := x.log[|x.log| - 1];
      && a == Acquire(s.locks, x.view, t, OnRecord(UndoRec(w, slot)), RecordExclusive) && a.reply.Throws?
      && n == Thrown(s, a, t, x.(strays := StraysWith(x, w, slot)), Crashed)
    ensures Kept(n, store0, t)
  {
    var x := s.txns[t];
    assert StageOk(x, t in s.shrunk) && Tidy(x) && OnCourse(s, t);
    if x.strays == [] {
      HomeIsGranted(s, store0, t);
    }
    BasesSame(s, n, store0, t);
    CrashOnCourse(s, n, t, slot);
  }

  lemma CrashOnCourse(s: Sys, n: Sys, t: TxnId, slot: RecId)
    requires t in s.txns && t in n.txns && OnCourse(s, t) && s.txns[t].log != [] && n.store == s.store
    requires var x, y := s.txns[t], n.txns[t]; var w := x.log[|x.log| - 1];
      && y.log == x.log && y.base == x.base && y.strays == StraysWith(x, w, slot) != [] && y.stage == Crashed
    ensures OnCourse(n, t)
  {
    var x, y := s.txns[t], n.txns[t];
    var w := x.log[|x.log| - 1];
    TouchedLast(x.strays, Stray(w.rec, slot));
    forall k | k in y.base && k !in Touched(y.strays) ensures ComesBack(n, y, k) {
      assert ComesBack(s, x, k);
    }
  }

  lemma OwnUndoKeeps(s: Sys, store0: Store, t: TxnId, slot: RecId)
    requires Inv(s, store0) && AbortInv(s, store0) && Enabled(s, UndoOne(t, slot))
    ensures Kept(AfterUndo(s, t, slot), store0, t)
  {
    var n, x := AfterUndo(s, t, slot), s.txns[t];
    if x.log == [] {
      UndoEnded(s, store0, t, slot);
    } else {
      var a := Acquire(s.locks, x.view, t, OnRecord(UndoRec(x.log[|x.log| - 1], slot)), RecordExclusive);
      if a.reply.Throws? {
        UndoCrashed(s, n, store0, t, slot, a);
      } else {
        UndoDone(s, n, store0, t, slot, a);
      }
    }
  }

  // ---------- any step ----------

  lemma OwnReadKeeps(s: Sys, store0: Store, t: TxnId, r: RecId)
    requires Inv(s, store0) && AbortInv(s, store0) && Enabled(s, ReadRecord(t, r))
    ensures Kept(AfterRead(s, t, r), store0, t)
  {
    var n := AfterRead(s, t, r);
    assert StageOk(s.txns[t], t in s.shrunk) && Tidy(s.txns[t]) && OnCourse(s, t);
    if Acquire(s.locks, s.txns[t].view, t, OnRecord(r), RecordShared).reply.Throws? {
      BasesSame(s, n, store0, t);
    } else {
      BasesExtend(s, n, store0, Event(t, r, Read(CellAt(s.store, r).bytes)));
    }
    OnCourseSame(s, n, t);
  }

  /** A step of t that leaves the records and the rollback data alone, unless it ends
      what could be undone. */
  ghost predicate Quiet(s: Sys, n: Sys, t: TxnId) {
    && n.history == s.history && n.store == s.store && t in n.txns && n.txns == s.txns[t := n.txns[t]]
    && n.txns[t].base == (if t in s.txns then s.txns[t].base else map[])
    && Tidy(n.txns[t])
    && (t !in s.txns ==> n.txns[t].log == [] && n.txns[t].stage == Running)
    && (t in s.txns && t !in n.shrunk && Reversible(n.txns[t]) ==>
          && t !in s.shrunk && Reversible(s.txns[t]) && n.txns[t].log == s.txns[t].log
          && n.txns[t].strays == s.txns[t].strays && n.txns[t].stage != Crashed && s.txns[t].stage != Crashed)
  }

  lemma OtherIsQuiet(s: Sys, step: Step)
    requires StagesOk(s) && Enabled(s, step) && (step.t in s.txns ==> Tidy(s.txns[step.t]))
    requires !step.ReadRecord? && !step.WriteRecordOp? && !step.UndoOne?
    ensures Quiet(s, Next(s, step), step.t)
  {
    if step.LockOnTable? {
      LockIsQuiet(s, step.t, step.fd, step.want);
    } else if step.t in s.txns {
      assert StageOk(s.txns[step.t], step.t in s.shrunk);
    }
  }

  lemma LockIsQuiet(s: Sys, t: TxnId, fd: int, w: Want)
    requires StagesOk(s) && Enabled(s, LockOnTable(t, fd, w)) && Tidy(s.txns[t])
    ensures Quiet(s, AfterTableLock(s, t, fd, w), t)
  {
    assert StageOk(s.txns[t], t in s.shrunk);
  }

  lemma QuietKeeps(s: Sys, n: Sys, store0: Store, t: TxnId)
    requires EventsProtected(s) && AbortInv(s, store0) && Quiet(s, n, t)
    ensures Kept(n, store0, t)
  {
    BasesSame(s, n, store0, t);
    if t !in n.shrunk && Reversible(n.txns[t]) && t in s.txns {
      assert OnCourse(s, t);
      OnCourseSame(s, n, t);
    }
  }

  lemma OwnKeeps(s: Sys, store0: Store, step: Step)
    requires Inv(s, store0) && AbortInv(s, store0) && Enabled(s, step)
    ensures Kept(Next(s, step), store0, step.t)
  {
    match step
    case ReadRecord(t, r) => OwnReadKeeps(s, store0, t, r);
    case WriteRecordOp(t, r, op) => OwnWriteKeeps(s, store0, t, r, op);
    case UndoOne(t, slot) => OwnUndoKeeps(s, store0, t, slot);
    case _ =>
      OtherIsQuiet(s, step);
      QuietKeeps(s, Next(s, step), store0, step.t);
  }

  /** A step of u touches no other transaction and adds at most one event, which then
      explains the change to the records. */
  ghost predicate StepOf(s: Sys, n: Sys, u: TxnId) {
    && (forall t :: t in n.txns && t != u ==> t in s.txns && n.txns[t] == s.txns[t])
    && s.shrunk.Keys <= n.shrunk.Keys
    && (|| (n.history == s.history && n.store == s.store)
        || exists e: Event :: e.txn == u && n.history == s.history + [e] && n.store == Apply(s.store, e))
  }

  lemma NextIsStep(s: Sys, step: Step)
    requires Enabled(s, step)
    ensures StepOf(s, Next(s, step), step.t)
  {
  }

  lemma OthersKeep(s: Sys, n: Sys, store0: Store, u: TxnId, t: TxnId)
    requires AbortInv(s, store0) && ConflictsOrdered(n.history, n.shrunk) && StepOf(s, n, u)
    requires t in n.txns && t != u && t !in n.shrunk && Reversible(n.txns[t])
    ensures OnCourse(n, t)
  {
    forall r | r in s.txns[t].base ensures CellAt(n.store, r) == CellAt(s.store, r) {
      if n.history != s.history {
        var e: Event :| e.txn == u && n.history == s.history + [e] && n.store == Apply(s.store, e);
        OthersAvoid(s, n, store0, e, t, r);
      }
    }
    assert OnCourse(s, t);
    OnCourseSame(s, n, t);
  }

  lemma NextAbortKeeps(s: Sys, store0: Store, step: Step)
    requires Inv(s, store0) && AbortInv(s, store0) && Enabled(s, step)
    ensures AbortInv(Next(s, step), store0)
  {
    NextKeeps(s, store0, step);
    OwnKeeps(s, store0, step);
    NextIsStep(s, step);
    AllKeep(s, Next(s, step), store0, step.t);
  }

  lemma AllKeep(s: Sys, n: Sys, store0: Store, u: TxnId)
    requires AbortInv(s, store0) && ConflictsOrdered(n.history, n.shrunk) && StepOf(s, n, u) && Kept(n, store0, u)
    ensures AbortInv(n, store0)
  {
    forall t | t in n.txns && t !in n.shrunk && Reversible(n.txns[t]) ensures OnCourse(n, t) {
      if t != u {
        OthersKeep(s, n, store0, u, t);
      }
    }
  }

  lemma {:induction false} RunAbortKeeps(store0: Store, steps: seq<Step>)
    ensures var s := Run(Initial(store0), steps); s.Some? ==> Inv(s.value, store0) && AbortInv(s.value, store0)
  {
    RunKeeps(store0, steps);
    if steps != [] {
      RunAbortKeeps(store0, steps[..|steps| - 1]);
      var p := Run(Initial(store0), steps[..|steps| - 1]);
      if p.Some? && Enabled(p.value, steps[|steps| - 1]) {
        NextAbortKeeps(p.value, store0, steps[|steps| - 1]);
      }
    }
  }

  // ---------- what an abort restores ----------

  /** The event at i is t's first write to its record. */
  ghost predicate FirstWrite(h: seq<Event>, t: TxnId, i: int)
    requires 0 <= i < |h|
  {
    h[i].txn == t && !h[i].op.Read? && forall j :: 0 <= j < i ==> !Wrote(h[j], t, h[i].rec)
  }

  /** The record of the event at i reads as it did just before that event. */
  ghost predicate ReadsAsBefore(s: Sys, store0: Store, i: int)
    requires 0 <= i < |s.history|
  {
    var r := s.history[i].rec;
    View(CellAt(s.store, r)) == View(CellAt(Replay(store0, s.history[..i]), r))
  }

  /** Every record t wrote reads as it did just before t's first write to it. */
  ghost predicate Restored(s: Sys, store0: Store, t: TxnId) {
    forall i :: 0 <= i < |s.history| && FirstWrite(s.history, t, i) ==> ReadsAsBefore(s, store0, i)
  }

  /** t has walked its whole write set and not yet released a lock. */
  predicate RolledBack(s: Sys, t: TxnId) {
    t in s.txns && t !in s.shrunk && s.txns[t].stage.Releasing? && !s.txns[t].stage.commit
  }

  lemma BaseIsFirst(s: Sys, store0: Store, t: TxnId, r: RecId) returns (i: int)
    requires BasesOk(s, store0) && t in s.txns && r in s.txns[t].base
    ensures 0 <= i < |s.history| && FirstWrite(s.history, t, i) && s.history[i].rec == r
    ensures ReadsAsBefore(s, store0, i) <==> View(CellAt(s.store, r)) == View(s.txns[t].base[r])
  {
    assert BeforeFirstWrite(store0, s.history, t, r, s.txns[t].base[r]);
    i :| 0 <= i < |s.history| && Wrote(s.history[i], t, r) && (forall j :: 0 <= j < i ==> !Wrote(s.history[j], t, r))
      && s.txns[t].base[r] == CellAt(Replay(store0, s.history[..i]), r);
  }

  lemma RestoredByBase(s: Sys, store0: Store, t: TxnId)
    requires BasesOk(s, store0) && t in s.txns
    ensures Restored(s, store0, t) <==>
      forall r :: r in s.txns[t].base ==> View(CellAt(s.store, r)) == View(s.txns[t].base[r])
  {
    var x := s.txns[t];
    if Restored(s, store0, t) {
      forall r | r in x.base ensures View(CellAt(s.store, r)) == View(x.base[r]) {
        var i := BaseIsFirst(s, store0, t, r);
      }
    }
    forall i | 0 <= i < |s.history| && FirstWrite(s.history, t, i)
      ensures s.history[i].rec in x.base
      ensures ReadsAsBefore(s, store0, i) <==> View(CellAt(s.store, s.history[i].rec)) == View(x.base[s.history[i].rec])
    {
      var k := BaseIsFirst(s, store0, t, s.history[i].rec);
      assert k == i;
    }
  }

  /** The same for the records in rs only. */
  ghost predicate RestoredAmong(s: Sys, store0: Store, t: TxnId, rs: set<RecId>) {
    forall i :: 0 <= i < |s.history| && FirstWrite(s.history, t, i) && s.history[i].rec in rs ==>
      ReadsAsBefore(s, store0, i)
  }

  ghost predicate RestoredOutside(s: Sys, store0: Store, t: TxnId, rs: set<RecId>) {
    forall i :: 0 <= i < |s.history| && FirstWrite(s.history, t, i) && s.history[i].rec !in rs ==>
      ReadsAsBefore(s, store0, i)
  }

  /** Rollback, amid any interleaving. Every record the transaction wrote is restored,
      whatever else went wrong, unless a deleted record was put in another slot and it is
      one of the two slots concerned: abort has restored everything exactly when those read
      as before. With no record put elsewhere, in particular when nothing was deleted, that
      is so; with just one it is not. */
  lemma AbortRestores(store0: Store, steps: seq<Step>, t: TxnId)
    requires Run(Initial(store0), steps).Some? && RolledBack(Run(Initial(store0), steps).value, t)
    ensures var s := Run(Initial(store0), steps).value; var x := s.txns[t];
      && (Restored(s, store0, t) <==> RestoredAmong(s, store0, t, Touched(x.strays)))
      && RestoredOutside(s, store0, t, Touched(x.strays))
      && (x.strays == [] ==> Restored(s, store0, t))
      && (|x.strays| == 1 ==> !Restored(s, store0, t))
      && (!x.deletes ==> x.strays == [])
  {
    RunAbortKeeps(store0, steps);
    var s := Run(Initial(store0), steps).value;
    var x := s.txns[t];
    assert Tidy(x) && StageOk(x, t in s.shrunk) && OnCourse(s, t);
    RestoredByBase(s, store0, t);
    forall i | 0 <= i < |s.history| && FirstWrite(s.history, t, i) && s.history[i].rec !in Touched(x.strays)
      ensures ReadsAsBefore(s, store0, i)
    {
      RestoredAt(s, store0, t, i);
    }
  }

  lemma RestoredAt(s: Sys, store0: Store, t: TxnId, i: int)
    requires BasesOk(s, store0) && t in s.txns && OnCourse(s, t) && s.txns[t].log == []
    requires 0 <= i < |s.history| && FirstWrite(s.history, t, i) && s.history[i].rec !in Touched(s.txns[t].strays)
    ensures ReadsAsBefore(s, store0, i)
  {
    var r := s.history[i].rec;
    assert r in s.txns[t].base && ComesBack(s, s.txns[t], r);
    var k := BaseIsFirst(s, store0, t, r);
    assert k == i;
  }

  /** An abort that puts every deleted record in its own slot cannot throw: the locks it
      asks for are already held. */
  lemma AbortNeverThrows(store0: Store, steps: seq<Step>, t: TxnId)
    requires Run(Initial(store0), steps).Some?
    requires t in Run(Initial(store0), steps).value.txns
    requires Run(Initial(store0), steps).value.txns[t].strays == []
    ensures Run(Initial(store0), steps).value.txns[t].stage != Crashed
  {
    RunAbortKeeps(store0, steps);
    var s := Run(Initial(store0), steps).value;
    assert StageOk(s.txns[t], t in s.shrunk);
    assert t !in s.shrunk && Reversible(s.txns[t]) ==> OnCourse(s, t);
  }

  /** The step puts a record that t deleted into another slot than its own. */
  predicate Strays(s: Sys, step: Step, t: TxnId) {
    && step.UndoOne? && step.t == t && t in s.txns && s.txns[t].log != []
    && var w := s.txns[t].log[|s.txns[t].log| - 1]; w.Deleted? && step.slot != w.rec
  }

  /** How often that happened in a run. */
  function StrayCount(s: Sys, steps: seq<Step>, t: TxnId): nat
    requires Run(s, steps).Some?
  {
    if steps == [] then 0
    else
      var init, step := steps[..|steps| - 1], steps[|steps| - 1];
      StrayCount(s, init, t) + if Strays(Run(s, init).value, step, t) then 1 else 0
  }

  /** The list of strays has one entry for each. */
  lemma {:induction false} StraysCounted(store0: Store, steps: seq<Step>, t: TxnId)
    requires Run(Initial(store0), steps).Some?
    ensures StrayCount(Initial(store0), steps, t) == StraysOf(Run(Initial(store0), steps).value, t)
  {
    if steps != [] {
      var init, step := steps[..|steps| - 1], steps[|steps| - 1];
      StraysCounted(store0, init, t);
      StepStrays(Run(Initial(store0), init).value, step, t);
    }
  }

  function StraysOf(s: Sys, t: TxnId): nat {
    if t in s.txns then |s.txns[t].strays| else 0
  }

  lemma StepStrays(s: Sys, step: Step, t: TxnId)
    requires Enabled(s, step)
    ensures StraysOf(Next(s, step), t) == StraysOf(s, t) + if Strays(s, step, t) then 1 else 0
  {
    match step
    case UndoOne(u, slot) => UndoStrays(s, u, slot, t);
    case _ =>
  }

  lemma UndoStrays(s: Sys, u: TxnId, slot: RecId, t: TxnId)
    requires Enabled(s, UndoOne(u, slot))
    ensures StraysOf(AfterUndo(s, u, slot), t) == StraysOf(s, t) + if Strays(s, UndoOne(u, slot), t) then 1 else 0
  {
  }

  // ---------- one undone delete ----------

  /** Putting a deleted record back at `slot` throws exactly when another transaction has
      a lock there. Otherwise the record is back under its own id exactly when the slot is
      its own, or when a record that went astray earlier already stands there with the same
      bytes. */
  lemma UndoOfDelete(s: Sys, store0: Store, t: TxnId, slot: RecId)
    requires Inv(s, store0) && Enabled(s, UndoOne(t, slot)) && s.txns[t].log != []
    requires s.txns[t].log[|s.txns[t].log| - 1].Deleted?
    ensures var n := AfterUndo(s, t, slot); var w := s.txns[t].log[|s.txns[t].log| - 1];
      && (n.txns[t].stage == Crashed <==> HeldByOther(s.locks, OnRecord(slot), t))
      && (n.txns[t].stage != Crashed ==>
            (View(CellAt(n.store, w.rec)) == Some(w.before) <==>
             slot == w.rec || View(CellAt(s.store, w.rec)) == Some(w.before)))
  {
    assert StageOk(s.txns[t], t in s.shrunk);
    SlotRefused(s.locks, slot, t);
    UndoOutcome(s, t, slot);
  }

  ghost predicate HeldByOther(locks: Locks, id: LockId, t: TxnId) {
    exists u: TxnId :: u != t && Held(locks, id, u).Some?
  }

  lemma SlotRefused(locks: Locks, slot: RecId, t: TxnId)
    requires LocksOk(locks)
    ensures Decide(QueueAt(locks, OnRecord(slot)), t, RecordExclusive).Refused? <==>
      HeldByOther(locks, OnRecord(slot), t)
  {
    QueueAtOk(locks, OnRecord(slot));
    var q := QueueAt(locks, OnRecord(slot));
    ExclusiveRefused(q, t);
    if u: TxnId :| u != t && ModeOf(q, u).Some? {
      assert Held(locks, OnRecord(slot), u).Some?;
    }
  }

  lemma UndoOutcome(s: Sys, t: TxnId, slot: RecId)
    requires Enabled(s, UndoOne(t, slot)) && s.txns[t].log != [] && s.txns[t].view.phase == Growing
    requires s.txns[t].log[|s.txns[t].log| - 1].Deleted?
    ensures var n := AfterUndo(s, t, slot); var w := s.txns[t].log[|s.txns[t].log| - 1];
      && (n.txns[t].stage == Crashed <==> Decide(QueueAt(s.locks, OnRecord(slot)), t, RecordExclusive).Refused?)
      && (n.txns[t].stage != Crashed ==>
            (View(CellAt(n.store, w.rec)) == Some(w.before) <==>
             slot == w.rec || View(CellAt(s.store, w.rec)) == Some(w.before)))
  {
  }
}
