/** Many transactions at once: every interleaving of lock requests, record operations,
    commits and aborts, one latched call or one `unlock` at a time. */
module Schedules {
  import opened Common
  import opened LockTable
  import opened LockManager
  import opened History

  // Where a transaction is in its life. `left` are the locks that commit or abort has
  // still to release. Crashed: an exception escaped from `abort` itself.
  datatype Stage = Running | Undoing | Releasing(left: set<LockId>, commit: bool) | Done | Crashed

  // Kept for the proof: `base` has each record as it was before this transaction's first
  // write to it, `deletes` says whether it deleted anything, and `strays` lists the records
  // that undoing a delete tried to put in another slot than their own.
  datatype Txn = Txn(view: TxnView, stage: Stage, log: seq<WriteRecord>,
                     base: map<RecId, Cell>, deletes: bool, strays: seq<Stray>)

  datatype Stray = Stray(rec: RecId, slot: RecId)

  // `history`, `clock` and `shrunk` (when a transaction released its first lock) are
  // kept for the proof as well.
  datatype Sys = Sys(locks: Locks, txns: map<TxnId, Txn>, store: Store,
                     history: seq<Event>, clock: nat, shrunk: map<TxnId, nat>)

  datatype Step =
    | Begin(t: TxnId)
    | LockOnTable(t: TxnId, fd: int, want: Want)
    | ReadRecord(t: TxnId, rec: RecId)
    | WriteRecordOp(t: TxnId, rec: RecId, op: Op)
    | StartCommit(t: TxnId)
    | StartAbort(t: TxnId)
    | UndoOne(t: TxnId, slot: RecId)
    | UnlockOne(t: TxnId, id: LockId)
    | Finish(t: TxnId)

  function Initial(store: Store): Sys {
    Sys(map[], map[], store, [], 0, map[])
  }

  /** A slot that the search for a free one can end in: the first free slot of its page. */
  predicate Vacant(s: Store, r: RecId) {
    && !CellAt(s, r).live && r.rid.slotNo >= 0
    && forall k :: 0 <= k < r.rid.slotNo ==> CellAt(s, RecId(r.fd, Rid(r.rid.pageNo, k))).live
  }

  /** Which calls can happen. Inserts go to the first free slot of some page and deletes to
      live slots; only unfinished transactions act, and an aborting one undoes before it
      unlocks. A deleted record is put back into its own table. */
  predicate Enabled(s: Sys, step: Step) {
    if step.Begin? then step.t !in s.txns
    else
      && step.t in s.txns
      && var x := s.txns[step.t];
         match step
         case LockOnTable(_, _, w) => x.stage == Running && OnTables(w)
         case ReadRecord(_, _) => x.stage == Running
         case WriteRecordOp(_, r, op) =>
           && x.stage == Running && !op.Read?
           && (op.Insert? ==> Vacant(s.store, r))
           && (op.Delete? ==> CellAt(s.store, r).live)
         case StartCommit(_) => x.stage == Running
         case StartAbort(_) => x.stage == Running
         case UndoOne(_, slot) =>
           && x.stage == Undoing
           && (x.log != [] && x.log[|x.log| - 1].Deleted? ==>
                 Vacant(s.store, slot) && slot.fd == x.log[|x.log| - 1].rec.fd)
         case UnlockOne(_, id) => x.stage.Releasing? && id in x.stage.left
         case Finish(_) => x.stage.Releasing? && x.stage.left == {}
  }

  /** What `abort` calls for one write record: the record and the operation. */
  function UndoRec(w: WriteRecord, slot: RecId): RecId {
    match w
    case Inserted(r) => r
    case Deleted(_, _) => slot
    case Updated(r, _) => r
  }

  function UndoOp(w: WriteRecord): Op {
    match w
    case Inserted(_) => Delete
    case Deleted(_, b) => Insert(b)
    case Updated(_, b) => Update(b)
  }

  function LogEntry(r: RecId, op: Op, before: Cell): WriteRecord
    requires !op.Read?
  {
    match op
    case Insert(_) => Inserted(r)
    case Delete => Deleted(r, before.bytes)
    case Update(_) => Updated(r, before.bytes)
  }

  /** A record operation whose lock request threw nothing. */
  function Perform(s: Sys, a: Acquired, t: TxnId, x: Txn, e: Event): Sys {
    s.(locks := a.locks, txns := s.txns[t := x.(view := a.view)], store := Apply(s.store, e),
       history := s.history + [e], clock := s.clock + 1)
  }

  /** The catch handler: a lock exception turns into an abort. */
  function Thrown(s: Sys, a: Acquired, t: TxnId, x: Txn, stage: Stage): Sys {
    s.(locks := a.locks, txns := s.txns[t := x.(view := a.view, stage := stage)], clock := s.clock + 1)
  }

  function AfterRead(s: Sys, t: TxnId, r: RecId): Sys
    requires t in s.txns
  {
    var x := s.txns[t];
    var a := Acquire(s.locks, x.view, t, OnRecord(r), RecordShared);
    if a.reply.Throws? then Thrown(s, a, t, x, Undoing)
    else Perform(s, a, t, x, Event(t, r, Read(CellAt(s.store, r).bytes)))
  }

  function AfterWrite(s: Sys, t: TxnId, r: RecId, op: Op): Sys
    requires t in s.txns && !op.Read?
  {
    var x := s.txns[t];
    var a := Acquire(s.locks, x.view, t, OnRecord(r), RecordExclusive);
    if a.reply.Throws? then Thrown(s, a, t, x, Undoing)
    else
      var c := CellAt(s.store, r);
      Perform(s, a, t,
              x.(log := x.log + [LogEntry(r, op, c)],
                 base := if r in x.base then x.base else x.base[r := c],
                 deletes := x.deletes || op.Delete?),
              Event(t, r, op))
  }

  function AfterUndo(s: Sys, t: TxnId, slot: RecId): Sys
    requires t in s.txns
  {
    var x := s.txns[t];
    if x.log == [] then
      s.(txns := s.txns[t := x.(stage := Releasing(x.view.lockSet, false))], clock := s.clock + 1)
    else
      var w := x.log[|x.log| - 1];
      var r := UndoRec(w, slot);
      var a := Acquire(s.locks, x.view, t, OnRecord(r), RecordExclusive);
      if a.reply.Throws? then Thrown(s, a, t, x.(strays := StraysWith(x, w, slot)), Crashed)
      else Perform(s, a, t, Undone(s, x, w, slot), Event(t, r, UndoOp(w)))
  }

  function StraysWith(x: Txn, w: WriteRecord, slot: RecId): seq<Stray> {
    if w.Deleted? && slot != w.rec then x.strays + [Stray(w.rec, slot)] else x.strays
  }

  /** The transaction once the last entry of its write set has been undone. */
  function Undone(s: Sys, x: Txn, w: WriteRecord, slot: RecId): Txn
    requires x.log != []
  {
    var r := UndoRec(w, slot);
    x.(log := x.log[..|x.log| - 1],
       base := if r in x.base then x.base else x.base[r := CellAt(s.store, r)],
       strays := StraysWith(x, w, slot))
  }

  function AfterUnlock(s: Sys, t: TxnId, id: LockId): Sys
    requires t in s.txns && s.txns[t].stage.Releasing?
  {
    var x := s.txns[t];
    var a := ReleaseLock(s.locks, x.view, t, id);
    s.(locks := a.locks,
       txns := s.txns[t := x.(view := a.view, stage := x.stage.(left := x.stage.left - {id}))],
       shrunk := if x.view.phase == Growing then s.shrunk[t := s.clock] else s.shrunk,
       clock := s.clock + 1)
  }

  function AfterTableLock(s: Sys, t: TxnId, fd: int, w: Want): Sys
    requires t in s.txns
  {
    var x := s.txns[t];
    var a := Acquire(s.locks, x.view, t, OnTable(fd), w);
    if a.reply.Throws? then Thrown(s, a, t, x, Undoing)
    else s.(locks := a.locks, txns := s.txns[t := x.(view := a.view)], clock := s.clock + 1)
  }

  function Next(s: Sys, step: Step): Sys
    requires Enabled(s, step)
  {
    match step
    case Begin(t) =>
      s.(txns := s.txns[t := Txn(TxnView(Default, {}), Running, [], map[], false, [])], clock := s.clock + 1)
    case LockOnTable(t, fd, w) => AfterTableLock(s, t, fd, w)
    case ReadRecord(t, r) => AfterRead(s, t, r)
    case WriteRecordOp(t, r, op) => AfterWrite(s, t, r, op)
    case StartCommit(t) =>
      s.(txns := s.txns[t := s.txns[t].(log := [], stage := Releasing(s.txns[t].view.lockSet, true))],
         clock := s.clock + 1)
    case StartAbort(t) =>
      s.(txns := s.txns[t := s.txns[t].(stage := Undoing)], clock := s.clock + 1)
    case UndoOne(t, slot) => AfterUndo(s, t, slot)
    case UnlockOne(t, id) => AfterUnlock(s, t, id)
    case Finish(t) =>
      var x := s.txns[t];
      s.(txns := s.txns[t := x.(view := TxnView(if x.stage.commit then Committed else Aborted, {}), stage := Done)],
         clock := s.clock + 1)
  }

  /** The state after a whole run, if every step of it could happen. */
  function Run(s: Sys, steps: seq<Step>): Option<Sys> {
    if steps == [] then Some(s)
    else
      var p := Run(s, steps[..|steps| - 1]);
      if p.Some? && Enabled(p.value, steps[|steps| - 1]) then Some(Next(p.value, steps[|steps| - 1])) else None
  }

  // ---------- the invariant ----------

  ghost predicate LocksOk(locks: Locks) {
    forall id {:trigger QueueFine(locks, id)} :: id in locks ==> QueueFine(locks, id)
  }

  ghost predicate QueueFine(locks: Locks, id: LockId)
    requires id in locks
  {
    QueueOk(locks[id]) && (id.OnRecord? ==> RecordModes(locks[id]))
  }

  function Held(locks: Locks, id: LockId, t: TxnId): Option<LockMode> {
    ModeOf(QueueAt(locks, id), t)
  }

  /** The locks a transaction may still hold. */
  function Pending(x: Txn): set<LockId> {
    if x.stage.Releasing? then x.stage.left else if x.stage == Done then {} else x.view.lockSet
  }

  ghost predicate Owned(s: Sys) {
    forall id: LockId, t: TxnId :: Held(s.locks, id, t).Some? ==> t in s.txns && id in Pending(s.txns[t])
  }

  predicate StageOk(x: Txn, shrunk: bool) {
    match x.stage
    case Running =>
      !shrunk && (x.view.phase == Growing || (x.view.phase == Default && x.view.lockSet == {} && x.log == []))
    case Undoing =>
      !shrunk && (x.view.phase == Growing || (x.view.phase == Default && x.view.lockSet == {} && x.log == []))
    case Releasing(left, _) =>
      && x.log == []
      && (x.view.phase == Growing || x.view.phase == Shrinking || (x.view.phase == Default && left == {}))
      && (shrunk <==> x.view.phase == Shrinking)
    case Done => Finished(x.view.phase)
    case Crashed => !shrunk && x.view.phase == Growing
  }

  ghost predicate StagesOk(s: Sys) {
    && (forall t :: t in s.txns ==> StageOk(s.txns[t], t in s.shrunk))
    && (forall t :: t in s.shrunk ==> t in s.txns && s.shrunk[t] < s.clock)
    && (forall t, u :: t in s.shrunk && u in s.shrunk && t != u ==> s.shrunk[t] != s.shrunk[u])
  }

  predicate Protects(m: Option<LockMode>, op: Op) {
    m.Some? && (!op.Read? ==> m.value == Exclusive)
  }

  /** Until it starts releasing, a transaction still holds the lock of everything it did. */
  ghost predicate EventsProtected(s: Sys) {
    forall i {:trigger ProtectedAt(s, i)} :: 0 <= i < |s.history| ==> ProtectedAt(s, i)
  }

  ghost predicate ProtectedAt(s: Sys, i: int)
    requires 0 <= i < |s.history|
  {
    && s.history[i].txn in s.txns
    && (s.history[i].txn !in s.shrunk ==>
          Protects(Held(s.locks, OnRecord(s.history[i].rec), s.history[i].txn), s.history[i].op))
  }

  ghost predicate ConflictsOrdered(h: seq<Event>, shrunk: map<TxnId, nat>) {
    forall i, j {:trigger OrderedAt(h, shrunk, i, j)} :: 0 <= i < j < |h| ==> OrderedAt(h, shrunk, i, j)
  }

  ghost predicate OrderedAt(h: seq<Event>, shrunk: map<TxnId, nat>, i: int, j: int)
    requires 0 <= i < j < |h|
  {
    Conflict(h[i], h[j]) ==>
      h[i].txn in shrunk && (h[j].txn in shrunk ==> shrunk[h[i].txn] < shrunk[h[j].txn])
  }

  /** Once another transaction touched what t wrote or read, t does nothing more. */
  ghost predicate Strict(h: seq<Event>) {
    forall i, j, k {:trigger StrictAt(h, i, j, k)} :: 0 <= i < j <= k < |h| ==> StrictAt(h, i, j, k)
  }

  ghost predicate StrictAt(h: seq<Event>, i: int, j: int, k: int)
    requires 0 <= i < j <= k < |h|
  {
    Conflict(h[i], h[j]) ==> h[k].txn != h[i].txn
  }

  ghost predicate HistoryOk(s: Sys, store0: Store) {
    && s.store == Replay(store0, s.history)
    && Legal(store0, s.history)
  }

  ghost predicate Inv(s: Sys, store0: Store) {
    && LocksOk(s.locks)
    && Owned(s)
    && StagesOk(s)
    && EventsProtected(s)
    && ConflictsOrdered(s.history, s.shrunk)
    && Strict(s.history)
    && HistoryOk(s, store0)
  }

  // ---------- lock steps keep it ----------

  lemma HoldersCompatible(q: Queue, t: TxnId, u: TxnId)
    requires QueueOk(q) && t != u && ModeOf(q, t).Some? && ModeOf(q, u).Some?
    ensures Compatible(ModeOf(q, t).value, ModeOf(q, u).value)
  {
  }

  lemma EmptyQueueOk()
    ensures QueueOk(EmptyQueue) && RecordModes(EmptyQueue)
    ensures forall t: TxnId :: ModeOf(EmptyQueue, t) == None
  {
  }

  lemma QueueAtOk(locks: Locks, id: LockId)
    requires LocksOk(locks)
    ensures QueueOk(QueueAt(locks, id)) && (id.OnRecord? ==> RecordModes(QueueAt(locks, id)))
  {
    EmptyQueueOk();
    assert id in locks ==> QueueFine(locks, id);
  }

  lemma PutOk(locks: Locks, id: LockId, q: Queue)
    requires LocksOk(locks) && QueueOk(q) && (id.OnRecord? ==> RecordModes(q))
    ensures LocksOk(locks[id := q])
  {
    var m := locks[id := q];
    forall i | i in m ensures QueueFine(m, i) {
      assert i != id ==> QueueFine(locks, i);
    }
  }

  /** Replacing one queue changes nothing for the others, and weakens nothing where t's
      own mode only grew. */
  lemma PutKeeps(locks: Locks, id: LockId, q: Queue, t: TxnId, gone: set<TxnId>)
    requires OthersSame(QueueAt(locks, id), q, t)
    requires t in gone || (ModeOf(QueueAt(locks, id), t).Some? ==>
      ModeOf(q, t).Some? && AtLeast(ModeOf(q, t).value, ModeOf(QueueAt(locks, id), t).value))
    ensures OthersKept(locks, locks[id := q], t, id) && NoWeaker(locks, locks[id := q], gone)
  {
    var m := locks[id := q];
    forall i: LockId, u: TxnId ensures i != id || u != t ==> Held(m, i, u) == Held(locks, i, u) {
    }
  }

  /** Only t's request on id may differ. */
  ghost predicate OthersKept(l: Locks, m: Locks, t: TxnId, id: LockId) {
    forall i: LockId, u: TxnId :: i != id || u != t ==> Held(m, i, u) == Held(l, i, u)
  }

  /** Whatever a transaction outside `gone` held, it holds at least as strongly. */
  ghost predicate NoWeaker(l: Locks, m: Locks, gone: set<TxnId>) {
    forall i: LockId, u: TxnId :: u !in gone && Held(l, i, u).Some? ==>
      Held(m, i, u).Some? && AtLeast(Held(m, i, u).value, Held(l, i, u).value)
  }

  /** All that the rest of the proof needs to know about a lock request. */
  ghost predicate Requested(locks: Locks, v: TxnView, t: TxnId, id: LockId, w: Want, a: Acquired) {
    && LocksOk(a.locks)
    && a.view.phase == Growing
    && v.lockSet <= a.view.lockSet
    && (a.reply == Locked || a.reply == Throws(DeadlockPrevention))
    && OthersKept(locks, a.locks, t, id)
    && NoWeaker(locks, a.locks, {})
    && (a.reply == Locked ==> Held(a.locks, id, t).Some? && AtLeast(Held(a.locks, id, t).value, WantedMode(w)))
    && (Held(a.locks, id, t).Some? && Held(locks, id, t).None? ==> id in a.view.lockSet)
  }

  lemma AcquireKeeps(locks: Locks, v: TxnView, t: TxnId, id: LockId, w: Want)
    requires LocksOk(locks) && !Finished(v.phase) && v.phase != Shrinking
    requires if id.OnRecord? then OnRecords(w) else OnTables(w)
    ensures Requested(locks, v, t, id, w, Acquire(locks, v, t, id, w))
  {
    QueueAtOk(locks, id);
    var q := QueueAt(locks, id);
    if Decide(q, t, w).Granted? {
      GrantKeeps(q, t, w);
      PutOk(locks, id, Decide(q, t, w).queue);
      PutKeeps(locks, id, Decide(q, t, w).queue, t, {});
    } else {
      PutOk(locks, id, q);
      PutKeeps(locks, id, q, t, {});
    }
  }

  lemma AtLeastExclusive(m: LockMode)
    requires AtLeast(m, Exclusive)
    ensures m == Exclusive
  {
    assert !Compatible(Exclusive, IntentionShared);
  }

  lemma LockedProtects(m: LockMode, op: Op)
    requires AtLeast(m, if op.Read? then Shared else Exclusive)
    ensures Protects(Some(m), op)
  {
    if !op.Read? {
      AtLeastExclusive(m);
    }
  }

  /** If everything held before is still held at least as strongly, and no
      transaction has newly begun to release, past events stay protected. */
  lemma ProtectionKept(s: Sys, n: Sys)
    requires EventsProtected(s) && n.history == s.history && s.txns.Keys <= n.txns.Keys
    requires s.shrunk.Keys <= n.shrunk.Keys
    requires NoWeaker(s.locks, n.locks, n.shrunk.Keys)
    ensures EventsProtected(n)
  {
    forall i | 0 <= i < |n.history| ensures ProtectedAt(n, i) {
      var e := s.history[i];
      assert ProtectedAt(s, i);
      if e.txn !in n.shrunk {
        assert Held(s.locks, OnRecord(e.rec), e.txn).Some?;
        if !e.op.Read? {
          AtLeastExclusive(Held(n.locks, OnRecord(e.rec), e.txn).value);
        }
      }
    }
  }

  lemma StagesKept(s: Sys, t: TxnId, x: Txn)
    requires StagesOk(s) && StageOk(x, t in s.shrunk)
    ensures StagesOk(s.(txns := s.txns[t := x], clock := s.clock + 1))
  {
    var n := s.(txns := s.txns[t := x], clock := s.clock + 1);
    forall u | u in n.txns ensures StageOk(n.txns[u], u in n.shrunk) {
      assert u != t ==> StageOk(s.txns[u], u in s.shrunk);
    }
  }

  lemma OwnedKept(s: Sys, n: Sys, t: TxnId, id: LockId)
    requires Owned(s) && OthersKept(s.locks, n.locks, t, id)
    requires t in s.txns && t in n.txns && n.txns == s.txns[t := n.txns[t]]
    requires Pending(s.txns[t]) <= Pending(n.txns[t]) + {id}
    requires Held(n.locks, id, t).Some? ==> id in Pending(n.txns[t])
    ensures Owned(n)
  {
    forall i: LockId, u: TxnId | Held(n.locks, i, u).Some? ensures u in n.txns && i in Pending(n.txns[u]) {
      if i != id || u != t {
        assert Held(s.locks, i, u).Some?;
      }
    }
  }

  // ---------- a lock request, granted or thrown ----------

  predicate Acting(x: Txn) {
    x.stage == Running || x.stage == Undoing
  }

  /** The state right after the lock request, before anything else happens. */
  function AfterRequest(s: Sys, t: TxnId, a: Acquired, x: Txn): Sys {
    s.(locks := a.locks, txns := s.txns[t := x.(view := a.view)], clock := s.clock + 1)
  }

  lemma RequestOwned(s: Sys, t: TxnId, id: LockId, w: Want, x: Txn, a: Acquired)
    requires Owned(s) && t in s.txns && Acting(s.txns[t])
    requires Requested(s.locks, s.txns[t].view, t, id, w, a)
    requires Acting(x) || x.stage == Crashed
    ensures Owned(AfterRequest(s, t, a, x))
  {
    assert Held(s.locks, id, t).Some? ==> id in Pending(s.txns[t]);
    OwnedKept(s, AfterRequest(s, t, a, x), t, id);
  }

  lemma RequestStages(s: Sys, t: TxnId, x: Txn, a: Acquired)
    requires StagesOk(s) && t in s.txns && Acting(s.txns[t]) && a.view.phase == Growing
    requires Acting(x) || x.stage == Crashed
    ensures StagesOk(AfterRequest(s, t, a, x))
  {
    assert StageOk(s.txns[t], t in s.shrunk);
    StagesKept(s, t, x.(view := a.view));
  }

  lemma RequestKeeps(s: Sys, store0: Store, t: TxnId, id: LockId, w: Want, x: Txn)
    requires Inv(s, store0) && t in s.txns && Acting(s.txns[t])
    requires if id.OnRecord? then OnRecords(w) else OnTables(w)
    requires Acting(x) || x.stage == Crashed
    ensures Inv(AfterRequest(s, t, Acquire(s.locks, s.txns[t].view, t, id, w), x), store0)
  {
    var a := Acquire(s.locks, s.txns[t].view, t, id, w);
    assert StageOk(s.txns[t], t in s.shrunk);
    AcquireKeeps(s.locks, s.txns[t].view, t, id, w);
    RequestOwned(s, t, id, w, x, a);
    RequestStages(s, t, x, a);
    ProtectionKept(s, AfterRequest(s, t, a, x));
  }

  // ---------- a record operation ----------

  lemma EventOrdered(s: Sys, store0: Store, e: Event)
    requires Inv(s, store0) && e.txn !in s.shrunk
    requires Protects(Held(s.locks, OnRecord(e.rec), e.txn), e.op)
    ensures forall i :: 0 <= i < |s.history| && Conflict(s.history[i], e) ==> s.history[i].txn in s.shrunk
  {
    forall i | 0 <= i < |s.history| && Conflict(s.history[i], e) ensures s.history[i].txn in s.shrunk {
      var f := s.history[i];
      assert ProtectedAt(s, i);
      if f.txn !in s.shrunk {
        var q := QueueAt(s.locks, OnRecord(e.rec));
        QueueAtOk(s.locks, OnRecord(e.rec));
        HoldersCompatible(q, f.txn, e.txn);
      }
    }
  }

  function AddEvent(s: Sys, e: Event): Sys {
    s.(store := Apply(s.store, e), history := s.history + [e])
  }

  lemma OrderExtends(h: seq<Event>, shrunk: map<TxnId, nat>, e: Event)
    requires ConflictsOrdered(h, shrunk) && e.txn !in shrunk
    requires forall i :: 0 <= i < |h| && Conflict(h[i], e) ==> h[i].txn in shrunk
    ensures ConflictsOrdered(h + [e], shrunk)
  {
    var g := h + [e];
    forall i, j | 0 <= i < j < |g| ensures OrderedAt(g, shrunk, i, j) {
      assert j < |h| ==> OrderedAt(h, shrunk, i, j);
    }
  }

  lemma StrictExtends(h: seq<Event>, shrunk: map<TxnId, nat>, e: Event)
    requires ConflictsOrdered(h + [e], shrunk) && Strict(h) && e.txn !in shrunk
    ensures Strict(h + [e])
  {
    var g := h + [e];
    forall i, j, k | 0 <= i < j <= k < |g| ensures StrictAt(g, i, j, k) {
      assert OrderedAt(g, shrunk, i, j);
      assert k < |h| ==> StrictAt(h, i, j, k);
    }
  }

  lemma EventKeeps(s: Sys, store0: Store, e: Event)
    requires Inv(s, store0) && e.txn in s.txns && e.txn !in s.shrunk
    requires Protects(Held(s.locks, OnRecord(e.rec), e.txn), e.op)
    requires e.op.Read? ==> e.op.seen == CellAt(s.store, e.rec).bytes
    ensures Inv(AddEvent(s, e), store0)
  {
    EventOrdered(s, store0, e);
    ReplayOne(store0, s.history, e);
    LegalExtend(store0, s.history, e);
    OrderExtends(s.history, s.shrunk, e);
    StrictExtends(s.history, s.shrunk, e);
    ProtectionExtends(s, e);
    OwnedSame(s, AddEvent(s, e));
  }

  lemma OwnedSame(s: Sys, n: Sys)
    requires Owned(s) && n.locks == s.locks && n.txns == s.txns
    ensures Owned(n)
  {
    assert forall id: LockId, t: TxnId :: Held(n.locks, id, t) == Held(s.locks, id, t);
  }

  lemma ProtectionExtends(s: Sys, e: Event)
    requires EventsProtected(s) && e.txn in s.txns
    requires Protects(Held(s.locks, OnRecord(e.rec), e.txn), e.op)
    ensures EventsProtected(AddEvent(s, e))
  {
    var n := AddEvent(s, e);
    forall i | 0 <= i < |n.history| ensures ProtectedAt(n, i) {
      assert i < |s.history| ==> ProtectedAt(s, i);
    }
  }

  /** A granted read, write or undo. x carries the new log of the transaction. */
  lemma PerformKeeps(s: Sys, store0: Store, x: Txn, e: Event, w: Want)
    requires Inv(s, store0) && e.txn in s.txns && Acting(s.txns[e.txn]) && Acting(x)
    requires w == if e.op.Read? then RecordShared else RecordExclusive
    requires e.op.Read? ==> e.op.seen == CellAt(s.store, e.rec).bytes
    ensures var a := Acquire(s.locks, s.txns[e.txn].view, e.txn, OnRecord(e.rec), w);
      !a.reply.Throws? ==> Inv(Perform(s, a, e.txn, x, e), store0)
  {
    var t, id := e.txn, OnRecord(e.rec);
    var a := Acquire(s.locks, s.txns[t].view, t, id, w);
    assert StageOk(s.txns[t], t in s.shrunk);
    RequestKeeps(s, store0, t, id, w, x);
    AcquireKeeps(s.locks, s.txns[t].view, t, id, w);
    if !a.reply.Throws? {
      LockedProtects(Held(a.locks, id, t).value, e.op);
      EventKeeps(AfterRequest(s, t, a, x), store0, e);
      assert AddEvent(AfterRequest(s, t, a, x), e) == Perform(s, a, t, x, e);
    }
  }

  // ---------- commit and abort ----------

  /** Steps that only move one transaction to another stage. */
  lemma StageKeeps(s: Sys, store0: Store, t: TxnId, x: Txn)
    requires Inv(s, store0) && StageOk(x, t in s.shrunk)
    requires t in s.txns ==> Pending(s.txns[t]) <= Pending(x)
    ensures Inv(s.(txns := s.txns[t := x], clock := s.clock + 1), store0)
  {
    var n := s.(txns := s.txns[t := x], clock := s.clock + 1);
    forall id: LockId, u: TxnId | Held(n.locks, id, u).Some? ensures u in n.txns && id in Pending(n.txns[u]) {
      assert Held(s.locks, id, u).Some?;
    }
    StagesKept(s, t, x);
    assert NoWeaker(s.locks, n.locks, n.shrunk.Keys);
    ProtectionKept(s, n);
  }

  lemma UnlockStages(s: Sys, t: TxnId, id: LockId)
    requires StagesOk(s) && Enabled(s, UnlockOne(t, id))
    ensures StagesOk(AfterUnlock(s, t, id)) && t in AfterUnlock(s, t, id).shrunk
  {
    var n := AfterUnlock(s, t, id);
    assert StageOk(s.txns[t], t in s.shrunk);
    forall u | u in n.txns ensures StageOk(n.txns[u], u in n.shrunk) {
      assert u != t ==> StageOk(s.txns[u], u in s.shrunk);
    }
  }

  lemma UnlockOrders(s: Sys, t: TxnId, id: LockId)
    requires StagesOk(s) && ConflictsOrdered(s.history, s.shrunk) && Enabled(s, UnlockOne(t, id))
    ensures ConflictsOrdered(s.history, AfterUnlock(s, t, id).shrunk)
  {
    assert StageOk(s.txns[t], t in s.shrunk);
    var h, shrunk := s.history, AfterUnlock(s, t, id).shrunk;
    forall i, j | 0 <= i < j < |h| ensures OrderedAt(h, shrunk, i, j) {
      assert OrderedAt(h, s.shrunk, i, j);
    }
  }

  lemma UnlockOwned(s: Sys, t: TxnId, id: LockId)
    requires LocksOk(s.locks) && Owned(s) && StagesOk(s) && Enabled(s, UnlockOne(t, id))
    ensures Owned(AfterUnlock(s, t, id))
  {
    assert StageOk(s.txns[t], t in s.shrunk);
    ReleaseLockKeeps(s.locks, s.txns[t].view, t, id);
    OwnedKept(s, AfterUnlock(s, t, id), t, id);
  }

  lemma UnlockProtected(s: Sys, t: TxnId, id: LockId)
    requires LocksOk(s.locks) && StagesOk(s) && EventsProtected(s) && Enabled(s, UnlockOne(t, id))
    ensures LocksOk(AfterUnlock(s, t, id).locks) && EventsProtected(AfterUnlock(s, t, id))
  {
    assert StageOk(s.txns[t], t in s.shrunk);
    ReleaseLockKeeps(s.locks, s.txns[t].view, t, id);
    UnlockStages(s, t, id);
    ProtectionKept(s, AfterUnlock(s, t, id));
  }

  lemma UnlockKeeps(s: Sys, store0: Store, t: TxnId, id: LockId)
    requires Inv(s, store0) && Enabled(s, UnlockOne(t, id))
    ensures Inv(AfterUnlock(s, t, id), store0)
  {
    UnlockStages(s, t, id);
    UnlockOrders(s, t, id);
    UnlockOwned(s, t, id);
    UnlockProtected(s, t, id);
  }

  lemma ReleaseLockKeeps(locks: Locks, v: TxnView, t: TxnId, id: LockId)
    requires LocksOk(locks) && !Finished(v.phase)
    ensures var a := ReleaseLock(locks, v, t, id);
      && LocksOk(a.locks) && OthersKept(locks, a.locks, t, id) && NoWeaker(locks, a.locks, {t})
      && Held(a.locks, id, t).None?
  {
    EmptyQueueOk();
    QueueAtOk(locks, id);
    if id in locks {
      ReleaseKeeps(locks[id], t);
      PutOk(locks, id, Release(locks[id], t));
      PutKeeps(locks, id, Release(locks[id], t), t, {t});
    }
  }

  lemma NextKeeps(s: Sys, store0: Store, step: Step)
    requires Inv(s, store0) && Enabled(s, step)
    ensures Inv(Next(s, step), store0)
  {
    var t := step.t;
    if t in s.txns {
      assert StageOk(s.txns[t], t in s.shrunk);
    }
    match step
    case Begin(t) =>
      StageKeeps(s, store0, t, Txn(TxnView(Default, {}), Running, [], map[], false, []));
    case LockOnTable(t, fd, w) =>
      TableLockKeeps(s, store0, t, fd, w);
    case ReadRecord(t, r) =>
      ReadKeeps(s, store0, t, r);
    case WriteRecordOp(t, r, op) =>
      WriteKeeps(s, store0, t, r, op);
    case StartCommit(t) =>
      StageKeeps(s, store0, t, s.txns[t].(log := [], stage := Releasing(s.txns[t].view.lockSet, true)));
    case StartAbort(t) =>
      StageKeeps(s, store0, t, s.txns[t].(stage := Undoing));
    case UndoOne(t, slot) =>
      UndoKeeps(s, store0, t, slot);
    case UnlockOne(t, id) =>
      UnlockKeeps(s, store0, t, id);
    case Finish(t) =>
      StageKeeps(s, store0, t, Next(s, step).txns[t]);
  }

  lemma TableLockKeeps(s: Sys, store0: Store, t: TxnId, fd: int, w: Want)
    requires Inv(s, store0) && Enabled(s, LockOnTable(t, fd, w))
    ensures Inv(AfterTableLock(s, t, fd, w), store0)
  {
    RequestKeeps(s, store0, t, OnTable(fd), w, s.txns[t]);
    RequestKeeps(s, store0, t, OnTable(fd), w, s.txns[t].(stage := Undoing));
  }

  lemma ReadKeeps(s: Sys, store0: Store, t: TxnId, r: RecId)
    requires Inv(s, store0) && Enabled(s, ReadRecord(t, r))
    ensures Inv(AfterRead(s, t, r), store0)
  {
    PerformKeeps(s, store0, s.txns[t], Event(t, r, Read(CellAt(s.store, r).bytes)), RecordShared);
    RequestKeeps(s, store0, t, OnRecord(r), RecordShared, s.txns[t].(stage := Undoing));
  }

  lemma WriteKeeps(s: Sys, store0: Store, t: TxnId, r: RecId, op: Op)
    requires Inv(s, store0) && Enabled(s, WriteRecordOp(t, r, op))
    ensures Inv(AfterWrite(s, t, r, op), store0)
  {
    var x, c := s.txns[t], CellAt(s.store, r);
    var y := x.(log := x.log + [LogEntry(r, op, c)],
                base := if r in x.base then x.base else x.base[r := c],
                deletes := x.deletes || op.Delete?);
    PerformKeeps(s, store0, y, Event(t, r, op), RecordExclusive);
    RequestKeeps(s, store0, t, OnRecord(r), RecordExclusive, x.(stage := Undoing));
  }

  lemma UndoEndKeeps(s: Sys, store0: Store, t: TxnId, slot: RecId)
    requires Inv(s, store0) && Enabled(s, UndoOne(t, slot)) && s.txns[t].log == []
    ensures Inv(AfterUndo(s, t, slot), store0)
  {
    var x := s.txns[t];
    assert StageOk(x, t in s.shrunk);
    StageKeeps(s, store0, t, x.(stage := Releasing(x.view.lockSet, false)));
  }

  lemma UndoCrashKeeps(s: Sys, store0: Store, t: TxnId, slot: RecId, w: WriteRecord)
    requires Inv(s, store0) && Enabled(s, UndoOne(t, slot))
    requires s.txns[t].log != [] && w == s.txns[t].log[|s.txns[t].log| - 1]
    requires Acquire(s.locks, s.txns[t].view, t, OnRecord(UndoRec(w, slot)), RecordExclusive).reply.Throws?
    ensures Inv(AfterUndo(s, t, slot), store0)
  {
    var y := s.txns[t].(strays := StraysWith(s.txns[t], w, slot), stage := Crashed);
    RequestKeeps(s, store0, t, OnRecord(UndoRec(w, slot)), RecordExclusive, y);
  }

  lemma UndoWriteKeeps(s: Sys, store0: Store, t: TxnId, slot: RecId, w: WriteRecord)
    requires Inv(s, store0) && Enabled(s, UndoOne(t, slot))
    requires s.txns[t].log != [] && w == s.txns[t].log[|s.txns[t].log| - 1]
    requires !Acquire(s.locks, s.txns[t].view, t, OnRecord(UndoRec(w, slot)), RecordExclusive).reply.Throws?
    ensures Inv(AfterUndo(s, t, slot), store0)
  {
    PerformKeeps(s, store0, Undone(s, s.txns[t], w, slot), Event(t, UndoRec(w, slot), UndoOp(w)), RecordExclusive);
  }

  lemma UndoKeeps(s: Sys, store0: Store, t: TxnId, slot: RecId)
    requires Inv(s, store0) && Enabled(s, UndoOne(t, slot))
    ensures Inv(AfterUndo(s, t, slot), store0)
  {
    var x := s.txns[t];
    if x.log == [] {
      UndoEndKeeps(s, store0, t, slot);
    } else {
      var w := x.log[|x.log| - 1];
      if Acquire(s.locks, x.view, t, OnRecord(UndoRec(w, slot)), RecordExclusive).reply.Throws? {
        UndoCrashKeeps(s, store0, t, slot, w);
      } else {
        UndoWriteKeeps(s, store0, t, slot, w);
      }
    }
  }

  lemma InitialOk(store0: Store)
    ensures Inv(Initial(store0), store0)
  {
    EmptyQueueOk();
  }

  lemma {:induction false} RunKeeps(store0: Store, steps: seq<Step>)
    ensures var s := Run(Initial(store0), steps); s.Some? ==> Inv(s.value, store0)
  {
    InitialOk(store0);
    if steps != [] {
      RunKeeps(store0, steps[..|steps| - 1]);
      var p := Run(Initial(store0), steps[..|steps| - 1]);
      if p.Some? && Enabled(p.value, steps[|steps| - 1]) {
        NextKeeps(p.value, store0, steps[|steps| - 1]);
      }
    }
  }
}
