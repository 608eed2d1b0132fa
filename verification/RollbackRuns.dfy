/** Runs in which deletes are rolled back, with the slots their record files find: one
    delete, two records that change places, and an abort that throws. */
module RollbackRuns {
  import opened Common
  import opened LockTable
  import opened LockManager
  import opened History
  import opened FreeSlots
  import opened Schedules
  import opened Rollback
  import opened Placement

  /** The run `steps` can happen with the slots the files find, and ends in s and `files`. */
  ghost predicate Reaches(store0: Store, files0: Files, steps: seq<Step>, s: Sys, files: Files) {
    FilesOf(store0, files0, steps) == Some(files) && Run(Initial(store0), steps) == Some(s)
  }

  lemma Extend(store0: Store, files0: Files, steps: seq<Step>, s: Sys, files: Files, step: Step)
    requires Reaches(store0, files0, steps, s, files) && Enabled(s, step) && Follows(files, s, step)
    ensures Reaches(store0, files0, steps + [step], Next(s, step), NextFiles(files, s, step))
  {
    assert (steps + [step])[..|steps + [step]| - 1] == steps;
  }

  function Started(s: Sys, t: TxnId): Sys {
    s.(txns := s.txns[t := Txn(TxnView(Default, {}), Running, [], map[], false, [])], clock := s.clock + 1)
  }

  function Aborting(s: Sys, t: TxnId): Sys
    requires t in s.txns
  {
    s.(txns := s.txns[t := s.txns[t].(stage := Undoing)], clock := s.clock + 1)
  }

  /** A record nobody has locked, deleted. */
  lemma DeleteFresh(s: Sys, t: TxnId, r: RecId)
    requires t in s.txns && s.txns[t].stage == Running
    requires (s.txns[t].view.phase == Default || s.txns[t].view.phase == Growing)
    requires OnRecord(r) !in s.locks && CellAt(s.store, r).live
    ensures var n, x, c := AfterWrite(s, t, r, Delete), s.txns[t], CellAt(s.store, r);
      && Enabled(s, WriteRecordOp(t, r, Delete)) && !Refuses(s, Event(t, r, Delete))
      && n.store == s.store[r := c.(live := false)]
      && n.locks == s.locks[OnRecord(r) := Queue([Request(t, Exclusive)], X, 0, 0)]
      && n.txns == s.txns[t := n.txns[t]] && n.txns[t].stage == Running && n.txns[t].view.phase == Growing
      && n.txns[t].log == x.log + [Deleted(r, c.bytes)] && n.txns[t].strays == x.strays && n.shrunk == s.shrunk
      && n.txns[t].base == if r in x.base then x.base else x.base[r := c]
  {
    var q := QueueAt(s.locks, OnRecord(r));
    assert q == EmptyQueue && Find(q.requests, t) == 0;
    assert [] + [Request(t, Exclusive)] == [Request(t, Exclusive)];
  }

  /** Undoing a delete into a slot that is unlocked or locked by t alone. */
  lemma UndoInto(s: Sys, t: TxnId, slot: RecId)
    requires t in s.txns && s.txns[t].stage == Undoing && s.txns[t].view.phase == Growing && s.txns[t].log != []
    requires var w := s.txns[t].log[|s.txns[t].log| - 1]; w.Deleted? && Vacant(s.store, slot) && slot.fd == w.rec.fd
    requires OnRecord(slot) in s.locks ==> s.locks[OnRecord(slot)] == Queue([Request(t, Exclusive)], X, 0, 0)
    ensures var n, x := AfterUndo(s, t, slot), s.txns[t]; var w := x.log[|x.log| - 1];
      && Enabled(s, UndoOne(t, slot)) && !Refuses(s, Event(t, slot, Insert(w.before)))
      && n.store == s.store[slot := Cell(true, w.before)]
      && n.txns == s.txns[t := n.txns[t]] && n.txns[t].stage == Undoing && n.txns[t].view.phase == Growing
      && n.txns[t].log == x.log[..|x.log| - 1] && n.txns[t].strays == StraysWith(x, w, slot) && n.shrunk == s.shrunk
      && n.locks == s.locks[OnRecord(slot) := Queue([Request(t, Exclusive)], X, 0, 0)]
      && n.txns[t].base == if slot in x.base then x.base else x.base[slot := CellAt(s.store, slot)]
  {
    var q := QueueAt(s.locks, OnRecord(slot));
    if OnRecord(slot) in s.locks {
      FindIs(q.requests, t, 0);
    } else {
      assert q == EmptyQueue && Find(q.requests, t) == 0;
      assert [] + [Request(t, Exclusive)] == [Request(t, Exclusive)];
    }
  }

  lemma DeleteNext(store0: Store, files0: Files, steps: seq<Step>, s: Sys, files: Files, t: TxnId, r: RecId)
    requires Reaches(store0, files0, steps, s, files) && t in s.txns && s.txns[t].stage == Running
    requires s.txns[t].view.phase == Default || s.txns[t].view.phase == Growing
    requires OnRecord(r) !in s.locks && CellAt(s.store, r).live && r.fd in files
    ensures Reaches(store0, files0, steps + [WriteRecordOp(t, r, Delete)], AfterWrite(s, t, r, Delete),
                    files[r.fd := Cleared(files[r.fd], r.rid.pageNo)])
  {
    DeleteFresh(s, t, r);
    Extend(store0, files0, steps, s, files, WriteRecordOp(t, r, Delete));
  }

  lemma UndoNext(store0: Store, files0: Files, steps: seq<Step>, s: Sys, files: Files, t: TxnId, slot: RecId)
    requires Reaches(store0, files0, steps, s, files)
    requires t in s.txns && s.txns[t].stage == Undoing && s.txns[t].view.phase == Growing && s.txns[t].log != []
    requires var w := s.txns[t].log[|s.txns[t].log| - 1]; w.Deleted? && Vacant(s.store, slot) && slot.fd == w.rec.fd
    requires slot.fd in files && slot == FoundIn(files, s.store, slot.fd)
    requires OnRecord(slot) in s.locks ==> s.locks[OnRecord(slot)] == Queue([Request(t, Exclusive)], X, 0, 0)
    ensures Reaches(store0, files0, steps + [UndoOne(t, slot)], AfterUndo(s, t, slot),
                    files[slot.fd := Filled(files[slot.fd])])
  {
    UndoInto(s, t, slot);
    Extend(store0, files0, steps, s, files, UndoOne(t, slot));
  }

  // ---------- one delete ----------

  function DeleteAndAbort(r: RecId): seq<Step> {
    [Begin(1)] + [WriteRecordOp(1, r, Delete)] + [StartAbort(1)]
  }

  /** A transaction has begun and deleted a record. */
  lemma AfterOne(store0: Store, files0: Files, r: RecId) returns (s: Sys)
    requires r.fd in files0 && CellAt(store0, r).live
    ensures Reaches(store0, files0, [Begin(1)] + [WriteRecordOp(1, r, Delete)], s,
                    files0[r.fd := Cleared(files0[r.fd], r.rid.pageNo)])
    ensures s.txns.Keys == {1} && s.txns[1].stage == Running && s.txns[1].view.phase == Growing && s.shrunk == map[]
    ensures s.txns[1].log == [Deleted(r, CellAt(store0, r).bytes)] && s.txns[1].strays == []
    ensures s.txns[1].base == map[r := CellAt(store0, r)]
    ensures s.store == store0[r := CellAt(store0, r).(live := false)]
    ensures s.locks == map[OnRecord(r) := Queue([Request(1, Exclusive)], X, 0, 0)]
  {
    var s0, steps := Initial(store0), [Begin(1)];
    assert [] + steps == steps;
    Extend(store0, files0, [], s0, files0, Begin(1));
    var s1 := Started(s0, 1);
    DeleteNext(store0, files0, steps, s1, files0, 1, r);
    DeleteFresh(s1, 1, r);
    s := AfterWrite(s1, 1, r, Delete);
  }

  lemma AfterDelete(store0: Store, files0: Files, r: RecId) returns (s: Sys)
    requires r.fd in files0 && CellAt(store0, r).live
    ensures Reaches(store0, files0, DeleteAndAbort(r), s, files0[r.fd := Cleared(files0[r.fd], r.rid.pageNo)])
    ensures s.txns.Keys == {1} && s.txns[1].stage == Undoing && s.txns[1].view.phase == Growing && 1 !in s.shrunk
    ensures s.txns[1].log == [Deleted(r, CellAt(store0, r).bytes)] && s.txns[1].strays == []
    ensures s.store == store0[r := CellAt(store0, r).(live := false)]
    ensures s.locks == map[OnRecord(r) := Queue([Request(1, Exclusive)], X, 0, 0)]
  {
    var s2 := AfterOne(store0, files0, r);
    var files := files0[r.fd := Cleared(files0[r.fd], r.rid.pageNo)];
    Extend(store0, files0, [Begin(1)] + [WriteRecordOp(1, r, Delete)], s2, files, StartAbort(1));
    s := Aborting(s2, 1);
  }

  /** Where the file would put the record at r if it were deleted and rolled back. */
  function PutBackAt(store: Store, files: Files, r: RecId): RecId
    requires r.fd in files
  {
    RecId(r.fd, SlotFor(Cleared(files[r.fd], r.rid.pageNo), LiveOf(store, r.fd) - {r.rid}))
  }

  lemma AfterDeleteUndone(store0: Store, files0: Files, r: RecId, k: RecId) returns (s: Sys, files: Files)
    requires AllSound(files0, store0) && r.fd in files0 && CellAt(store0, r).live && k == PutBackAt(store0, files0, r)
    ensures Reaches(store0, files0, DeleteAndAbort(r) + [UndoOne(1, k)], s, files)
    ensures 1 in s.txns && s.txns[1].stage == Undoing && s.txns[1].log == [] && 1 !in s.shrunk
    ensures s.txns[1].strays == (if k == r then [] else [Stray(r, k)])
    ensures s.store == store0[r := CellAt(store0, r).(live := false)][k := Cell(true, CellAt(store0, r).bytes)]
  {
    var steps := DeleteAndAbort(r);
    var s3 := AfterDelete(store0, files0, r);
    var files3 := files0[r.fd := Cleared(files0[r.fd], r.rid.pageNo)];
    FilesStaySound(store0, files0, steps);
    LiveAfter(store0, Event(1, r, Delete), r.fd);
    FoundIsVacant(files3, s3.store, r.fd);
    UndoNext(store0, files0, steps, s3, files3, 1, k);
    UndoInto(s3, 1, k);
    s, files := AfterUndo(s3, 1, k), files3[r.fd := Filled(files3[r.fd])];
  }

  /** For every store, sound files and record: the run of a transaction that deletes the
      record and aborts puts it where its file finds a slot, and has restored everything
      exactly when the page was full, or was first on the list of pages with room and had
      no free slot before the record's own. */
  lemma DeleteRolledBack(store0: Store, files0: Files, r: RecId)
    requires AllSound(files0, store0) && r.fd in files0 && CellAt(store0, r).live
    ensures var k := PutBackAt(store0, files0, r);
      var steps := DeleteAndAbort(r) + [UndoOne(1, k)] + [UndoOne(1, k)];
      && FilesOf(store0, files0, steps).Some?
      && var s := Run(Initial(store0), steps).value;
      && RolledBack(s, 1)
      && View(CellAt(s.store, k)) == Some(CellAt(store0, r).bytes)
      && (k != r ==> View(CellAt(s.store, r)) == None && View(CellAt(store0, k)) == None)
      && (Restored(s, store0, 1) <==> GoesBack(files0[r.fd], LiveOf(store0, r.fd), r.rid))
  {
    var k := PutBackAt(store0, files0, r);
    var steps := DeleteAndAbort(r) + [UndoOne(1, k)];
    var s, files := AfterDeleteUndone(store0, files0, r, k);
    var n := UndoEnds(store0, files0, steps, s, files, k);
    AbortRestores(store0, steps + [UndoOne(1, k)], 1);
    PutBackElsewhere(store0, files0, r);
  }

  lemma PutBackElsewhere(store0: Store, files0: Files, r: RecId)
    requires AllSound(files0, store0) && r.fd in files0 && CellAt(store0, r).live
    ensures var k := PutBackAt(store0, files0, r);
      && (k == r <==> GoesBack(files0[r.fd], LiveOf(store0, r.fd), r.rid))
      && (k != r ==> !CellAt(store0, k).live)
  {
    var k, f, live := PutBackAt(store0, files0, r), files0[r.fd], LiveOf(store0, r.fd);
    LiveOfAre(store0, r.fd, r.rid);
    LiveOfAre(store0, r.fd, k.rid);
    DeleteThenInsert(f, live, r.rid);
    ClearedSound(f, live, r.rid);
    SlotIsFree(Cleared(f, r.rid.pageNo), live - {r.rid});
  }

  // ---------- two deletes on one page ----------

  /** The page of r is full or first on its file's list, so a delete leaves it first. */
  predicate Leads(files: Files, r: RecId) {
    && r.fd in files
    && (HeadAt(files[r.fd], r.rid.pageNo).numRecords == files[r.fd].perPage || files[r.fd].firstFree == r.rid.pageNo)
  }

  /** On one page, j before k, and no free slot before k. */
  ghost predicate Neighbours(store: Store, files: Files, j: RecId, k: RecId) {
    && Leads(files, j) && j.fd == k.fd && j.rid.pageNo == k.rid.pageNo && 0 <= j.rid.slotNo < k.rid.slotNo
    && CellAt(store, k).live && FilledBefore(LiveOf(store, k.fd), k.rid)
  }

  /** With j and k deleted, the search finds j; with j filled again, it finds k. */
  lemma SearchFindsBoth(f: File, live: set<Rid>, j: Rid, k: Rid)
    requires Sound(f, live) && k in live && j.pageNo == k.pageNo && 0 <= j.slotNo < k.slotNo && FilledBefore(live, k)
    requires HeadAt(f, j.pageNo).numRecords == f.perPage || f.firstFree == j.pageNo
    ensures j in live
    ensures var g := Cleared(Cleared(f, j.pageNo), k.pageNo);
      && Sound(g, live - {j, k}) && SlotFor(g, live - {j, k}) == j
      && Sound(Filled(g), live - {k}) && SlotFor(Filled(g), live - {k}) == k
  {
    var p := j.pageNo;
    assert Rid(p, j.slotNo) in live;
    ClearedSound(f, live, j);
    var f1 := Cleared(f, p);
    ClearedSound(f1, live - {j}, k);
    assert live - {j} - {k} == live - {j, k};
    var g := Cleared(f1, p);
    assert CountOk(f, live, p) && CountOk(f1, live - {j}, p);
    assert f1.firstFree == p && f1.heads[p].numRecords < f.perPage && g.firstFree == p;
    FindsSlot(g, live - {j, k}, j);
    FilledSound(g, live - {j, k});
    assert live - {j, k} + {j} == live - {k};
    FindsSlot(Filled(g), live - {k}, k);
  }

  /** The files once both records have been deleted. */
  function Emptied(files: Files, r: RecId): Files
    requires r.fd in files
  {
    files[r.fd := Cleared(Cleared(files[r.fd], r.rid.pageNo), r.rid.pageNo)]
  }

  lemma SearchAfterBoth(store: Store, files: Files, j: RecId, k: RecId, s: Store)
    requires AllSound(files, store) && Neighbours(store, files, j, k)
    requires LiveOf(s, k.fd) == LiveOf(store, k.fd) - {j.rid, k.rid}
    ensures CellAt(store, j).live && FoundIn(Emptied(files, k), s, k.fd) == j
    ensures SlotFor(Filled(Emptied(files, k)[k.fd]), LiveOf(store, k.fd) - {k.rid}) == k.rid
  {
    LiveOfAre(store, k.fd, k.rid);
    LiveOfAre(store, j.fd, j.rid);
    SearchFindsBoth(files[k.fd], LiveOf(store, k.fd), j.rid, k.rid);
  }

  function TwoDeletes(r: RecId, k: RecId): seq<Step> {
    [Begin(1)] + [WriteRecordOp(1, r, Delete)] + [WriteRecordOp(1, k, Delete)] + [StartAbort(1)]
  }

  function Gone(store: Store, r: RecId): Store {
    store[r := CellAt(store, r).(live := false)]
  }

  lemma LiveGone(store: Store, r: RecId)
    ensures LiveOf(Gone(store, r), r.fd) == LiveOf(store, r.fd) - {r.rid}
  {
    LiveAfter(store, Event(1, r, Delete), r.fd);
  }

  lemma AfterTwoDeletes(store0: Store, files0: Files, r: RecId, k: RecId) returns (s: Sys)
    requires r.fd in files0 && k.fd == r.fd && k.rid.pageNo == r.rid.pageNo && r != k
    requires CellAt(store0, r).live && CellAt(store0, k).live
    ensures Reaches(store0, files0, TwoDeletes(r, k), s, Emptied(files0, r))
    ensures 1 in s.txns && s.txns[1].stage == Undoing && s.txns[1].view.phase == Growing && 1 !in s.shrunk
    ensures s.txns[1].log == [Deleted(r, CellAt(store0, r).bytes), Deleted(k, CellAt(store0, k).bytes)]
    ensures s.txns[1].strays == [] && s.store == Gone(Gone(store0, r), k)
    ensures s.txns[1].base == map[r := CellAt(store0, r), k := CellAt(store0, k)]
    ensures s.locks == map[OnRecord(r) := Queue([Request(1, Exclusive)], X, 0, 0),
                           OnRecord(k) := Queue([Request(1, Exclusive)], X, 0, 0)]
  {
    var s2 := AfterOne(store0, files0, r);
    var files := files0[r.fd := Cleared(files0[r.fd], r.rid.pageNo)];
    var steps := [Begin(1)] + [WriteRecordOp(1, r, Delete)];
    DeleteNext(store0, files0, steps, s2, files, 1, k);
    DeleteFresh(s2, 1, k);
    assert files[k.fd := Cleared(files[k.fd], k.rid.pageNo)] == Emptied(files0, r);
    var s3 := AfterWrite(s2, 1, k, Delete);
    Extend(store0, files0, steps + [WriteRecordOp(1, k, Delete)], s3, Emptied(files0, r), StartAbort(1));
    s := Aborting(s3, 1);
  }

  function ChangePlaces(r: RecId, k: RecId): seq<Step> {
    TwoDeletes(r, k) + [UndoOne(1, r)] + [UndoOne(1, k)] + [UndoOne(1, r)]
  }

  /** The record deleted last goes to the slot of the other, */
  lemma AfterFirstUndo(store0: Store, files0: Files, r: RecId, k: RecId) returns (s: Sys, files: Files)
    requires AllSound(files0, store0) && Neighbours(store0, files0, r, k)
    ensures CellAt(store0, r).live && r != k
    ensures Reaches(store0, files0, TwoDeletes(r, k) + [UndoOne(1, r)], s, files)
    ensures 1 in s.txns && s.txns[1].stage == Undoing && s.txns[1].view.phase == Growing && 1 !in s.shrunk
    ensures s.txns[1].log == [Deleted(r, CellAt(store0, r).bytes)] && s.txns[1].strays == [Stray(k, r)]
    ensures s.store == Gone(Gone(store0, r), k)[r := Cell(true, CellAt(store0, k).bytes)]
    ensures s.txns[1].base == map[r := CellAt(store0, r), k := CellAt(store0, k)]
    ensures OnRecord(k) in s.locks && s.locks[OnRecord(k)] == Queue([Request(1, Exclusive)], X, 0, 0)
    ensures k.fd in files && FoundIn(files, s.store, k.fd) == k && Vacant(s.store, k)
  {
    var fd, live := r.fd, LiveOf(store0, r.fd);
    LiveOfAre(store0, fd, r.rid);
    assert Rid(r.rid.pageNo, r.rid.slotNo) in live;
    var s4 := AfterTwoDeletes(store0, files0, r, k);
    LiveGone(store0, r);
    LiveGone(Gone(store0, r), k);
    assert LiveOf(s4.store, fd) == live - {r.rid, k.rid};
    SearchAfterBoth(store0, files0, r, k, s4.store);
    VacantAgain(store0, r, k, s4.store);
    UndoNext(store0, files0, TwoDeletes(r, k), s4, Emptied(files0, k), 1, r);
    UndoInto(s4, 1, r);
    s, files := AfterUndo(s4, 1, r), Emptied(files0, k)[fd := Filled(Emptied(files0, k)[fd])];
    LiveAfter(s4.store, Event(1, r, Insert(CellAt(store0, k).bytes)), fd);
    assert live - {r.rid, k.rid} + {r.rid} == live - {k.rid};
  }

  /** Both slots are the first free ones in turn. */
  lemma VacantAgain(store0: Store, r: RecId, k: RecId, s: Store)
    requires r.fd == k.fd && r.rid.pageNo == k.rid.pageNo && 0 <= r.rid.slotNo < k.rid.slotNo
    requires FilledBefore(LiveOf(store0, k.fd), k.rid) && s == Gone(Gone(store0, r), k)
    ensures Vacant(s, r) && forall b: Bytes :: Vacant(s[r := Cell(true, b)], k)
  {
    forall i | 0 <= i < k.rid.slotNo ensures CellAt(store0, RecId(k.fd, Rid(k.rid.pageNo, i))).live {
      assert Rid(k.rid.pageNo, i) in LiveOf(store0, k.fd);
      LiveOfAre(store0, k.fd, Rid(k.rid.pageNo, i));
    }
  }

  lemma AfterChangePlaces(store0: Store, files0: Files, r: RecId, k: RecId) returns (s: Sys)
    requires AllSound(files0, store0) && Neighbours(store0, files0, r, k)
    ensures FilesOf(store0, files0, ChangePlaces(r, k)).Some? && Run(Initial(store0), ChangePlaces(r, k)) == Some(s)
    ensures RolledBack(s, 1) && s.txns[1].strays == [Stray(k, r), Stray(r, k)]
    ensures CellAt(s.store, r) == Cell(true, CellAt(store0, k).bytes)
    ensures CellAt(s.store, k) == Cell(true, CellAt(store0, r).bytes)
    ensures s.txns[1].base == map[r := CellAt(store0, r), k := CellAt(store0, k)] && CellAt(store0, r).live
  {
    var steps := TwoDeletes(r, k) + [UndoOne(1, r)];
    var s5, files := AfterFirstUndo(store0, files0, r, k);
    UndoNext(store0, files0, steps, s5, files, 1, k);
    UndoInto(s5, 1, k);
    var files' := files[k.fd := Filled(files[k.fd])];
    s := UndoEnds(store0, files0, steps + [UndoOne(1, k)], AfterUndo(s5, 1, k), files', r);
  }

  lemma UndoEnds(store0: Store, files0: Files, steps: seq<Step>, s: Sys, files: Files, slot: RecId) returns (n: Sys)
    requires Reaches(store0, files0, steps, s, files)
    requires 1 in s.txns && s.txns[1].stage == Undoing && s.txns[1].log == [] && 1 !in s.shrunk
    ensures Reaches(store0, files0, steps + [UndoOne(1, slot)], n, files)
    ensures RolledBack(n, 1) && n.txns[1].strays == s.txns[1].strays && n.txns[1].base == s.txns[1].base
    ensures n.store == s.store
  {
    Extend(store0, files0, steps, s, files, UndoOne(1, slot));
    n := Next(s, UndoOne(1, slot));
  }

  /** Two records of one page, deleted in slot order and rolled back, are put into each
      other's slots: nothing throws, and the abort has restored both exactly when they were
      equal. */
  lemma RecordsChangePlaces(store0: Store, files0: Files, r: RecId, k: RecId)
    requires AllSound(files0, store0) && Neighbours(store0, files0, r, k)
    ensures FilesOf(store0, files0, ChangePlaces(r, k)).Some?
    ensures var s := Run(Initial(store0), ChangePlaces(r, k)).value;
      && RolledBack(s, 1) && |s.txns[1].strays| == 2
      && View(CellAt(s.store, r)) == Some(CellAt(store0, k).bytes)
      && View(CellAt(s.store, k)) == Some(CellAt(store0, r).bytes)
      && (Restored(s, store0, 1) <==> CellAt(store0, r).bytes == CellAt(store0, k).bytes)
  {
    var s := AfterChangePlaces(store0, files0, r, k);
    RunAbortKeeps(store0, ChangePlaces(r, k));
    RestoredByBase(s, store0, 1);
  }

  // ---------- two transactions ----------

  function DeletesOfTwo(r: RecId, k: RecId): seq<Step> {
    [Begin(1)] + [Begin(2)] + [WriteRecordOp(1, r, Delete)] + [WriteRecordOp(2, k, Delete)] + [StartAbort(1)]
  }

  lemma AfterOneOfTwo(store0: Store, files0: Files, r: RecId) returns (s: Sys)
    requires r.fd in files0 && CellAt(store0, r).live
    ensures Reaches(store0, files0, [Begin(1)] + [Begin(2)] + [WriteRecordOp(1, r, Delete)], s,
                    files0[r.fd := Cleared(files0[r.fd], r.rid.pageNo)])
    ensures 1 in s.txns && s.txns[1].stage == Running && s.txns[1].log == [Deleted(r, CellAt(store0, r).bytes)]
    ensures 2 in s.txns && s.txns[2].stage == Running && s.txns[2].view.phase == Default
    ensures s.store == Gone(store0, r) && s.locks.Keys == {OnRecord(r)}
  {
    var s0, steps := Initial(store0), [Begin(1)];
    assert [] + steps == steps;
    Extend(store0, files0, [], s0, files0, Begin(1));
    Extend(store0, files0, steps, Started(s0, 1), files0, Begin(2));
    var s1 := Started(Started(s0, 1), 2);
    DeleteNext(store0, files0, steps + [Begin(2)], s1, files0, 1, r);
    DeleteFresh(s1, 1, r);
    s := AfterWrite(s1, 1, r, Delete);
  }

  lemma AfterDeletesOfTwo(store0: Store, files0: Files, r: RecId, k: RecId) returns (s: Sys)
    requires r.fd in files0 && k.fd == r.fd && k.rid.pageNo == r.rid.pageNo && r != k
    requires CellAt(store0, r).live && CellAt(store0, k).live
    ensures Reaches(store0, files0, DeletesOfTwo(r, k), s, Emptied(files0, r))
    ensures 1 in s.txns && s.txns[1].stage == Undoing && s.txns[1].log == [Deleted(r, CellAt(store0, r).bytes)]
    ensures s.store == Gone(Gone(store0, r), k)
    ensures OnRecord(k) in s.locks && s.locks[OnRecord(k)].requests == [Request(2, Exclusive)]
  {
    var s2 := AfterOneOfTwo(store0, files0, r);
    var files := files0[r.fd := Cleared(files0[r.fd], r.rid.pageNo)];
    var steps := [Begin(1)] + [Begin(2)] + [WriteRecordOp(1, r, Delete)];
    DeleteNext(store0, files0, steps, s2, files, 2, k);
    DeleteFresh(s2, 2, k);
    assert files[k.fd := Cleared(files[k.fd], k.rid.pageNo)] == Emptied(files0, r);
    var s3 := AfterWrite(s2, 2, k, Delete);
    Extend(store0, files0, steps + [WriteRecordOp(2, k, Delete)], s3, Emptied(files0, r), StartAbort(1));
    s := Aborting(s3, 1);
  }

  /** Two transactions each deleted a record of one page. The one that deleted the later
      slot aborts, the search finds the slot the other has just emptied, the lock is refused
      and the exception leaves `abort`. */
  lemma AbortThrows(store0: Store, files0: Files, r: RecId, k: RecId)
    requires AllSound(files0, store0) && Neighbours(store0, files0, k, r)
    ensures FilesOf(store0, files0, DeletesOfTwo(r, k) + [UndoOne(1, k)]).Some?
    ensures var s := Run(Initial(store0), DeletesOfTwo(r, k) + [UndoOne(1, k)]).value;
      1 in s.txns && s.txns[1].stage == Crashed && View(CellAt(s.store, r)) == None
  {
    var live := LiveOf(store0, r.fd);
    LiveOfAre(store0, r.fd, k.rid);
    assert Rid(k.rid.pageNo, k.rid.slotNo) in live;
    var s := AfterDeletesOfTwo(store0, files0, r, k);
    LiveGone(store0, r);
    LiveGone(Gone(store0, r), k);
    assert LiveOf(s.store, r.fd) == live - {k.rid, r.rid};
    SearchAfterBoth(store0, files0, k, r, s.store);
    assert s.store == Gone(Gone(store0, k), r);
    VacantAgain(store0, k, r, s.store);
    ThrowsAt(store0, files0, DeletesOfTwo(r, k), s, Emptied(files0, r), k);
  }

  lemma ThrowsAt(store0: Store, files0: Files, steps: seq<Step>, s: Sys, files: Files, k: RecId)
    requires Reaches(store0, files0, steps, s, files)
    requires 1 in s.txns && s.txns[1].stage == Undoing && |s.txns[1].log| == 1 && s.txns[1].log[0].Deleted?
    requires Vacant(s.store, k) && k.fd == s.txns[1].log[0].rec.fd
    requires k.fd in files && k == FoundIn(files, s.store, k.fd)
    requires OnRecord(k) in s.locks && s.locks[OnRecord(k)].requests == [Request(2, Exclusive)]
    ensures FilesOf(store0, files0, steps + [UndoOne(1, k)]).Some?
    ensures var n := Run(Initial(store0), steps + [UndoOne(1, k)]).value;
      1 in n.txns && n.txns[1].stage == Crashed && n.store == s.store
  {
    RunKeeps(store0, steps);
    FindIs(s.locks[OnRecord(k)].requests, 2, 0);
    assert Held(s.locks, OnRecord(k), 2).Some?;
    UndoOfDelete(s, store0, 1, k);
    Extend(store0, files0, steps, s, files, UndoOne(1, k));
  }
}
