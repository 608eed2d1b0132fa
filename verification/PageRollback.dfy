/** Rolling back deletes on one page, exactly: the slots are filled in ascending order, the
    record deleted last first. */
module PageRollback {
  import opened Common
  import opened LockTable
  import opened LockManager
  import opened History
  import opened FreeSlots
  import opened Schedules
  import opened Rollback
  import opened Placement
  import opened Transactions

  ghost predicate Ascending(s: seq<int>) {
    forall i, j :: 0 <= i < j < |s| ==> s[i] < s[j]
  }

  /** The free slots of page p among its first n, in ascending order. */
  ghost predicate FreeList(live: set<Rid>, p: int, n: nat, free: seq<int>) {
    && Ascending(free)
    && forall s :: s in free <==> 0 <= s < n && Rid(p, s) !in live
  }

  lemma FreeListTail(live: set<Rid>, p: int, n: nat, free: seq<int>)
    requires FreeList(live, p, n, free) && free != []
    ensures FirstFree(live, p, 0, n) == free[0] && Rid(p, free[0]) !in live && 0 <= free[0] < n
    ensures FreeList(live + {Rid(p, free[0])}, p, n, free[1..])
  {
    var rest := free[1..];
    assert free == [free[0]] + rest && free[0] in free;
    assert forall i :: 0 <= i < |free| ==> free[0] <= free[i];
    forall s | 0 <= s < free[0] ensures Rid(p, s) in live {
      assert s !in free;
    }
    IsFirstFree(live, p, free[0], n);
    forall s ensures s in rest <==> 0 <= s < n && Rid(p, s) !in live + {Rid(p, free[0])} {
      if s in rest {
        var i :| 0 <= i < |rest| && rest[i] == s;
        assert free[i + 1] == s;
      }
    }
  }

  function SlotAt(fd: int, p: int, s: int): RecId {
    RecId(fd, Rid(p, s))
  }

  /** Deletes on one page, which is the first with room if there are any. */
  ghost predicate OnPage(tables: Tables, log: seq<WriteRecord>, fd: int, p: int, free: seq<int>) {
    && AllSound(tables.files, tables.cells) && fd in tables.files && p >= 1
    && (log != [] ==> tables.files[fd].firstFree == p) && |log| <= |free|
    && FreeList(LiveOf(tables.cells, fd), p, tables.files[fd].perPage, free)
    && forall i :: 0 <= i < |log| ==> log[i].Deleted? && log[i].rec.fd == fd && log[i].rec.rid.pageNo == p
  }

  /** No other transaction is in the way of the first n slots. */
  ghost predicate Unlocked(locks: Locks, t: TxnId, fd: int, p: int, free: seq<int>, n: nat)
    requires n <= |free|
  {
    forall j :: 0 <= j < n ==> !HeldByOther(locks, OnRecord(SlotAt(fd, p, free[j])), t)
  }

  /** The j-th slot has the record deleted j-th from last, and no other slot has changed. */
  ghost predicate Dealt(cells: Store, cells': Store, log: seq<WriteRecord>, fd: int, p: int, free: seq<int>)
    requires |log| <= |free| && forall i :: 0 <= i < |log| ==> log[i].Deleted?
  {
    && (forall j :: 0 <= j < |log| ==> CellAt(cells', SlotAt(fd, p, free[j])) == Cell(true, log[|log| - 1 - j].before))
    && forall r: RecId :: !Among(r, fd, p, free, |log|) ==> CellAt(cells', r) == CellAt(cells, r)
  }

  ghost predicate Among(r: RecId, fd: int, p: int, free: seq<int>, n: nat)
    requires n <= |free|
  {
    exists j :: 0 <= j < n && r == SlotAt(fd, p, free[j])
  }

  lemma DealtStep(cells: Store, cells': Store, log: seq<WriteRecord>, fd: int, p: int, free: seq<int>)
    requires 0 < |log| <= |free| && forall i :: 0 <= i < |log| ==> log[i].Deleted?
    requires Ascending(free)
    requires Dealt(cells[SlotAt(fd, p, free[0]) := Cell(true, log[|log| - 1].before)], cells', log[..|log| - 1],
                   fd, p, free[1..])
    ensures Dealt(cells, cells', log, fd, p, free)
  {
    var n, rest, init := |log| - 1, free[1..], log[..|log| - 1];
    forall j | 0 <= j < n ensures rest[j] == free[j + 1] != free[0] {
    }
    forall j | 0 <= j < |log|
      ensures CellAt(cells', SlotAt(fd, p, free[j])) == Cell(true, log[|log| - 1 - j].before)
    {
      assert j > 0 ==> rest[j - 1] == free[j] && init[n - 1 - (j - 1)] == log[|log| - 1 - j];
    }
    forall r: RecId | !Among(r, fd, p, free, |log|) ensures CellAt(cells', r) == CellAt(cells, r) {
      assert r != SlotAt(fd, p, free[0]);
      forall j | 0 <= j < n ensures r != SlotAt(fd, p, rest[j]) {
        assert rest[j] == free[j + 1];
      }
    }
  }

  /** One undo on the page: the first free slot, and the rest of the list for the others. */
  lemma UndoFirst(tables: Tables, t: TxnId, log: seq<WriteRecord>, fd: int, p: int, free: seq<int>)
    requires OnPage(tables, log, fd, p, free) && log != []
    ensures UndoEvent(tables, t, log[|log| - 1]) == Event(t, SlotAt(fd, p, free[0]), Insert(log[|log| - 1].before))
    ensures OnPage(TablesAfter(tables, UndoEvent(tables, t, log[|log| - 1]), false), log[..|log| - 1], fd, p, free[1..])
  {
    var f, live, w := tables.files[fd], LiveOf(tables.cells, fd), log[|log| - 1];
    FreeListTail(live, p, f.perPage, free);
    var e := UndoEvent(tables, t, w);
    OperationKeeps(tables.files, tables.cells, e, false);
    LiveAfter(tables.cells, e, fd);
    SlotIsFree(f, live);
    if |log| > 1 {
      assert free[1] in free && free[0] < free[1];
      FilledStaysFirst(f, live, free[1]);
    }
  }

  /** A page with another free slot stays the first with room. */
  lemma FilledStaysFirst(f: File, live: set<Rid>, s: int)
    requires Sound(f, live) && f.firstFree != NO_PAGE && 0 <= s < f.perPage && Rid(f.firstFree, s) !in live
    requires SlotFor(f, live) != Rid(f.firstFree, s)
    ensures Filled(f).firstFree == f.firstFree
  {
    var r, p := SlotFor(f, live), f.firstFree;
    SlotIsFree(f, live);
    assert CountOk(f, live, p);
    LiveOnAdd(live, r, p, f.perPage);
    LiveOnFull(live + {r}, p, f.perPage);
  }

  lemma HeldByOtherKept(locks: Locks, v: TxnView, t: TxnId, id: LockId, k: LockId)
    requires LocksOk(locks) && v.phase == Growing && id.OnRecord?
    ensures var a := Acquire(locks, v, t, id, RecordExclusive);
      LocksOk(a.locks) && a.view.phase == Growing && (HeldByOther(a.locks, k, t) <==> HeldByOther(locks, k, t))
  {
    AcquireKeeps(locks, v, t, id, RecordExclusive);
    var a := Acquire(locks, v, t, id, RecordExclusive);
    if u: TxnId :| u != t && Held(a.locks, k, u).Some? {
      assert Held(locks, k, u).Some?;
    }
    if u: TxnId :| u != t && Held(locks, k, u).Some? {
      assert Held(a.locks, k, u).Some?;
    }
  }

  /** The undo loop over deletes of one page completes exactly when no other transaction has
      a lock on one of the first free slots, as many as there are deletes; then these hold
      the records in the reverse order of their deletion. */
  lemma {:induction false} PageUndo(locks: Locks, v: TxnView, tables: Tables, t: TxnId, log: seq<WriteRecord>,
                                    fd: int, p: int, free: seq<int>)
    requires LocksOk(locks) && v.phase == Growing && OnPage(tables, log, fd, p, free)
    ensures var u := UndoAll(locks, v, tables, t, log);
      && (u.completed <==> Unlocked(locks, t, fd, p, free, |log|))
      && (u.completed ==> Dealt(tables.cells, u.tables.cells, log, fd, p, free))
    decreases |log|
  {
    if log != [] {
      UndoFirst(tables, t, log, fd, p, free);
      var e := UndoEvent(tables, t, log[|log| - 1]);
      SlotRefused(locks, e.rec, t);
      var a := Acquire(locks, v, t, OnRecord(e.rec), RecordExclusive);
      if !a.reply.Throws? {
        LocksStay(locks, v, t, e.rec, fd, p, free, |log|);
        PageUndo(a.locks, a.view, TablesAfter(tables, e, false), t, log[..|log| - 1], fd, p, free[1..]);
        if UndoAll(locks, v, tables, t, log).completed {
          DealtStep(tables.cells, UndoAll(locks, v, tables, t, log).tables.cells, log, fd, p, free);
        }
      }
    }
  }

  lemma LocksStay(locks: Locks, v: TxnView, t: TxnId, r: RecId, fd: int, p: int, free: seq<int>, n: nat)
    requires LocksOk(locks) && v.phase == Growing && 0 < n <= |free|
    requires r == SlotAt(fd, p, free[0]) && !HeldByOther(locks, OnRecord(r), t)
    ensures var a := Acquire(locks, v, t, OnRecord(r), RecordExclusive);
      && LocksOk(a.locks) && a.view.phase == Growing
      && (Unlocked(locks, t, fd, p, free, n) <==> Unlocked(a.locks, t, fd, p, free[1..], n - 1))
  {
    var a := Acquire(locks, v, t, OnRecord(r), RecordExclusive);
    forall j | 0 <= j < |free|
      ensures HeldByOther(a.locks, OnRecord(SlotAt(fd, p, free[j])), t) <==>
        HeldByOther(locks, OnRecord(SlotAt(fd, p, free[j])), t)
    {
      HeldByOtherKept(locks, v, t, OnRecord(r), OnRecord(SlotAt(fd, p, free[j])));
    }
    HeldByOtherKept(locks, v, t, OnRecord(r), OnRecord(r));
    UnlockedTail(locks, a.locks, t, fd, p, free, n);
  }

  lemma UnlockedTail(locks: Locks, locks': Locks, t: TxnId, fd: int, p: int, free: seq<int>, n: nat)
    requires 0 < n <= |free| && !HeldByOther(locks, OnRecord(SlotAt(fd, p, free[0])), t)
    requires forall j :: 0 <= j < |free| ==> (HeldByOther(locks', OnRecord(SlotAt(fd, p, free[j])), t) <==>
                                              HeldByOther(locks, OnRecord(SlotAt(fd, p, free[j])), t))
    ensures Unlocked(locks, t, fd, p, free, n) <==> Unlocked(locks', t, fd, p, free[1..], n - 1)
  {
    if Unlocked(locks', t, fd, p, free[1..], n - 1) {
      forall j | 0 <= j < n ensures !HeldByOther(locks, OnRecord(SlotAt(fd, p, free[j])), t) {
        assert j > 0 ==> free[1..][j - 1] == free[j];
      }
    }
    if Unlocked(locks, t, fd, p, free, n) {
      forall j | 0 <= j < n - 1 ensures !HeldByOther(locks', OnRecord(SlotAt(fd, p, free[1..][j])), t) {
        assert free[1..][j] == free[j + 1];
      }
    }
  }

  // ---------- when everything is back ----------

  lemma {:induction false} MembersCount(s: seq<int>)
    requires Distinct(s)
    ensures |set x | x in s| == |s|
  {
    if s != [] {
      var init, x := s[..|s| - 1], s[|s| - 1];
      MembersCount(init);
      assert (set y | y in s) == (set y | y in init) + {x};
    }
  }

  /** Distinct members of b: not more than b has, and all of them if as many. */
  lemma Pigeonhole(a: seq<int>, b: seq<int>)
    requires Distinct(a) && Distinct(b) && forall x :: x in a ==> x in b
    ensures |a| <= |b| && (|a| == |b| ==> forall x :: x in b ==> x in a)
  {
    MembersCount(a);
    MembersCount(b);
    var s, t := (set x | x in a), (set x | x in b);
    assert s + (t - s) == t;
    if |a| == |b| {
      assert t - s == {};
      forall x | x in b ensures x in a {
        assert x in t;
      }
    }
  }

  /** The slots of the write set, in the order of the deletes. */
  function Slots(log: seq<WriteRecord>): (ss: seq<int>)
    ensures |ss| == |log| && forall i :: 0 <= i < |log| ==> ss[i] == log[i].rec.rid.slotNo
  {
    seq(|log|, i requires 0 <= i < |log| => log[i].rec.rid.slotNo)
  }

  /** A transaction deleted these records of page p, which is the first page with room. */
  ghost predicate DeletedOn(tables: Tables, log: seq<WriteRecord>, fd: int, p: int) {
    && AllSound(tables.files, tables.cells) && fd in tables.files && p >= 1 && tables.files[fd].firstFree == p
    && Distinct(Slots(log))
    && forall i :: 0 <= i < |log| ==>
         && log[i].Deleted? && log[i].rec == SlotAt(fd, p, Slots(log)[i])
         && 0 <= Slots(log)[i] < tables.files[fd].perPage && !CellAt(tables.cells, log[i].rec).live
  }

  lemma DeletedIsOnPage(tables: Tables, log: seq<WriteRecord>, fd: int, p: int, free: seq<int>)
    requires DeletedOn(tables, log, fd, p) && FreeList(LiveOf(tables.cells, fd), p, tables.files[fd].perPage, free)
    ensures OnPage(tables, log, fd, p, free) && forall i :: 0 <= i < |log| ==> Slots(log)[i] in free
  {
    forall i | 0 <= i < |log| ensures Slots(log)[i] in free {
      LiveOfAre(tables.cells, fd, Rid(p, Slots(log)[i]));
    }
    Pigeonhole(Slots(log), free);
  }

  /** Every record is as if each delete had been undone in its own slot. */
  ghost predicate AllBack(cells: Store, cells': Store, log: seq<WriteRecord>) {
    forall r: RecId :: View(CellAt(cells', r)) == View(UndoCell(log, r, CellAt(cells, r)))
  }

  lemma {:induction false} UndoDeletes(log: seq<WriteRecord>, r: RecId, c: Cell, i: int)
    requires forall k :: 0 <= k < |log| ==> log[k].Deleted?
    requires forall j, k :: 0 <= j < k < |log| ==> log[j].rec != log[k].rec
    requires if 0 <= i < |log| then log[i].rec == r else forall k :: 0 <= k < |log| ==> log[k].rec != r
    ensures UndoCell(log, r, c) == if 0 <= i < |log| then Cell(true, log[i].before) else c
  {
    if log != [] {
      var n := |log| - 1;
      if i == n {
        UndoDeletes(log[..n], r, Cell(true, log[n].before), -1);
      } else {
        UndoDeletes(log[..n], r, c, i);
      }
    }
  }

  /** The record that goes to the j-th free slot equals the one deleted from there. */
  ghost predicate Matches(log: seq<WriteRecord>, free: seq<int>, j: int, i: int)
    requires 0 <= j < |log| <= |free| && AllDeletes(log)
  {
    0 <= i < |log| && Slots(log)[i] == free[j] && log[i].before == log[|log| - 1 - j].before
  }

  ghost predicate AllDeletes(log: seq<WriteRecord>) {
    forall i :: 0 <= i < |log| ==> log[i].Deleted?
  }

  ghost predicate Matched(log: seq<WriteRecord>, free: seq<int>, j: int)
    requires 0 <= j < |log| <= |free| && AllDeletes(log)
  {
    exists i :: Matches(log, free, j, i)
  }

  ghost predicate AllMatched(log: seq<WriteRecord>, free: seq<int>)
    requires |log| <= |free| && AllDeletes(log)
  {
    forall j {:trigger Matched(log, free, j)} :: 0 <= j < |log| ==> Matched(log, free, j)
  }

  /** Distinct deleted records of one page, and slots of it that are free. */
  ghost predicate Laid(cells: Store, log: seq<WriteRecord>, fd: int, p: int, free: seq<int>) {
    && AllDeletes(log) && Distinct(Slots(log)) && Ascending(free) && |log| <= |free|
    && (forall i :: 0 <= i < |log| ==> log[i].rec == SlotAt(fd, p, Slots(log)[i]))
    && forall j :: 0 <= j < |free| ==> !CellAt(cells, SlotAt(fd, p, free[j])).live
  }

  lemma DeletedIsLaid(tables: Tables, log: seq<WriteRecord>, fd: int, p: int, free: seq<int>)
    requires DeletedOn(tables, log, fd, p) && FreeList(LiveOf(tables.cells, fd), p, tables.files[fd].perPage, free)
    ensures Laid(tables.cells, log, fd, p, free)
  {
    DeletedIsOnPage(tables, log, fd, p, free);
    forall j | 0 <= j < |free| ensures !CellAt(tables.cells, SlotAt(fd, p, free[j])).live {
      assert free[j] in free;
      LiveOfAre(tables.cells, fd, Rid(p, free[j]));
    }
  }

  lemma UndoLaid(cells: Store, log: seq<WriteRecord>, fd: int, p: int, free: seq<int>, r: RecId, c: Cell, i: int)
    requires Laid(cells, log, fd, p, free)
    requires if 0 <= i < |log| then log[i].rec == r else forall k :: 0 <= k < |log| ==> log[k].rec != r
    ensures UndoCell(log, r, c) == if 0 <= i < |log| then Cell(true, log[i].before) else c
  {
    UndoDeletes(log, r, c, i);
  }

  lemma BackMatches(cells: Store, cells': Store, log: seq<WriteRecord>, fd: int, p: int, free: seq<int>, j: int)
    requires Laid(cells, log, fd, p, free) && 0 <= j < |log| && Dealt(cells, cells', log, fd, p, free)
    requires AllBack(cells, cells', log)
    ensures Matched(log, free, j)
  {
    var r := SlotAt(fd, p, free[j]);
    assert View(CellAt(cells', r)) == View(UndoCell(log, r, CellAt(cells, r)));
    if i :| 0 <= i < |log| && log[i].rec == r {
      UndoLaid(cells, log, fd, p, free, r, CellAt(cells, r), i);
      assert Matches(log, free, j, i);
    } else {
      UndoLaid(cells, log, fd, p, free, r, CellAt(cells, r), -1);
    }
  }

  /** All of the deleted records are among the slots filled. */
  lemma MatchedCovers(cells: Store, log: seq<WriteRecord>, fd: int, p: int, free: seq<int>, k: int)
    requires Laid(cells, log, fd, p, free) && AllMatched(log, free) && 0 <= k < |log|
    ensures Among(log[k].rec, fd, p, free, |log|)
  {
    var n, first := |log|, free[..|log|];
    forall x | x in first ensures x in Slots(log) {
      var j :| 0 <= j < n && first[j] == x;
      assert Matched(log, free, j);
      var i :| Matches(log, free, j, i);
    }
    Pigeonhole(first, Slots(log));
    assert Slots(log)[k] in Slots(log) && Slots(log)[k] in first;
    var j :| 0 <= j < n && first[j] == Slots(log)[k];
    assert log[k].rec == SlotAt(fd, p, free[j]);
  }

  lemma MatchesBack(cells: Store, cells': Store, log: seq<WriteRecord>, fd: int, p: int, free: seq<int>)
    requires Laid(cells, log, fd, p, free) && Dealt(cells, cells', log, fd, p, free) && AllMatched(log, free)
    ensures AllBack(cells, cells', log)
  {
    forall r: RecId ensures View(CellAt(cells', r)) == View(UndoCell(log, r, CellAt(cells, r))) {
      if Among(r, fd, p, free, |log|) {
        var j :| 0 <= j < |log| && r == SlotAt(fd, p, free[j]);
        assert Matched(log, free, j);
        var i :| Matches(log, free, j, i);
        UndoLaid(cells, log, fd, p, free, r, CellAt(cells, r), i);
      } else {
        forall k | 0 <= k < |log| ensures log[k].rec != r {
          MatchedCovers(cells, log, fd, p, free, k);
        }
        UndoLaid(cells, log, fd, p, free, r, CellAt(cells, r), -1);
      }
    }
  }

  lemma BackExactly(cells: Store, cells': Store, log: seq<WriteRecord>, fd: int, p: int, free: seq<int>)
    requires Laid(cells, log, fd, p, free) && Dealt(cells, cells', log, fd, p, free)
    ensures AllBack(cells, cells', log) <==> AllMatched(log, free)
  {
    if AllBack(cells, cells', log) {
      forall j | 0 <= j < |log| ensures Matched(log, free, j) {
        BackMatches(cells, cells', log, fd, p, free, j);
      }
    }
    if AllMatched(log, free) {
      MatchesBack(cells, cells', log, fd, p, free);
    }
  }

  /** Rollback of deletes on one page, decided before the call. It completes exactly when no
      other transaction has a lock on one of the first free slots of the page, as many as
      there are deletes. It then has restored everything exactly when each of these slots is
      one the transaction emptied, of a record equal to the one that goes there: the first
      slot gets the record deleted last. */
  lemma PageRestored(locks: Locks, v: TxnView, tables: Tables, t: TxnId, log: seq<WriteRecord>,
                     fd: int, p: int, free: seq<int>)
    requires LocksOk(locks) && v.phase == Growing && DeletedOn(tables, log, fd, p)
    requires FreeList(LiveOf(tables.cells, fd), p, tables.files[fd].perPage, free)
    ensures |log| <= |free| && Open(tables.files, log)
    ensures var u := UndoAll(locks, v, tables, t, log);
      && (u.completed <==> Unlocked(locks, t, fd, p, free, |log|))
      && (u.completed ==>
            && Dealt(tables.cells, u.tables.cells, log, fd, p, free)
            && (AllBack(tables.cells, u.tables.cells, log) <==> AllMatched(log, free)))
  {
    DeletedIsOnPage(tables, log, fd, p, free);
    DeletedIsLaid(tables, log, fd, p, free);
    PageUndo(locks, v, tables, t, log, fd, p, free);
    var u := UndoAll(locks, v, tables, t, log);
    if u.completed {
      BackExactly(tables.cells, u.tables.cells, log, fd, p, free);
    }
  }

  // ---------- a page that was full ----------

  lemma {:induction false} SortedSame(a: seq<int>, b: seq<int>)
    requires Ascending(a) && Ascending(b) && forall x :: x in a <==> x in b
    ensures a == b
  {
    Pigeonhole(a, b);
    Pigeonhole(b, a);
    if a != [] {
      assert a[0] in a && a[0] in b;
      var k :| 0 <= k < |b| && b[k] == a[0];
      assert b[0] in b && b[0] in a;
      var l :| 0 <= l < |a| && a[l] == b[0];
      assert a[0] == b[0];
      forall x ensures x in a[1..] <==> x in b[1..] {
        TailMember(a, x);
        TailMember(b, x);
      }
      SortedSame(a[1..], b[1..]);
      assert a == [a[0]] + a[1..] && b == [b[0]] + b[1..];
    }
  }

  lemma TailMember(s: seq<int>, x: int)
    requires Ascending(s) && s != []
    ensures x in s[1..] <==> x in s && x != s[0]
  {
    assert s == [s[0]] + s[1..];
    if x in s[1..] {
      var i :| 0 <= i < |s[1..]| && s[1..][i] == x;
      assert s[i + 1] == x;
    }
  }

  /** Records of a full page deleted in slot order, as a scan meets them, come back in the
      opposite order: everything is restored exactly when that order reads the same both
      ways. */
  lemma ScanOrderReverses(locks: Locks, v: TxnView, tables: Tables, t: TxnId, log: seq<WriteRecord>, fd: int, p: int)
    requires LocksOk(locks) && AllLocked(locks, v, t, log) && log != [] && DeletedOn(tables, log, fd, p)
    requires FreeList(LiveOf(tables.cells, fd), p, tables.files[fd].perPage, Slots(log))
    ensures Open(tables.files, log) && AllDeletes(log)
    ensures var u := UndoAll(locks, v, tables, t, log);
      && u.completed
      && (forall j :: 0 <= j < |log| ==> CellAt(u.tables.cells, log[j].rec) == Cell(true, log[|log| - 1 - j].before))
      && (AllBack(tables.cells, u.tables.cells, log) <==> Palindrome(log))
  {
    OwnUnlocked(locks, v, t, log, fd, p, Slots(log));
    PageRestored(locks, v, tables, t, log, fd, p, Slots(log));
    PalindromeMatches(log);
    ReversedAt(tables.cells, UndoAll(locks, v, tables, t, log).tables.cells, log, fd, p);
  }

  ghost predicate Palindrome(log: seq<WriteRecord>)
    requires AllDeletes(log)
  {
    forall j :: 0 <= j < |log| ==> log[j].before == log[|log| - 1 - j].before
  }

  lemma PalindromeMatches(log: seq<WriteRecord>)
    requires AllDeletes(log) && Ascending(Slots(log))
    ensures AllMatched(log, Slots(log)) <==> Palindrome(log)
  {
    var free := Slots(log);
    if AllMatched(log, free) {
      forall j | 0 <= j < |log| ensures log[j].before == log[|log| - 1 - j].before {
        assert Matched(log, free, j);
        var i :| Matches(log, free, j, i);
      }
    }
    if Palindrome(log) {
      forall j | 0 <= j < |log| ensures Matched(log, free, j) {
        assert Matches(log, free, j, j);
      }
    }
  }

  lemma ReversedAt(cells: Store, cells': Store, log: seq<WriteRecord>, fd: int, p: int)
    requires AllDeletes(log) && Dealt(cells, cells', log, fd, p, Slots(log))
    requires forall i :: 0 <= i < |log| ==> log[i].rec == SlotAt(fd, p, Slots(log)[i])
    ensures forall j :: 0 <= j < |log| ==> CellAt(cells', log[j].rec) == Cell(true, log[|log| - 1 - j].before)
  {
    forall j | 0 <= j < |log| ensures CellAt(cells', log[j].rec) == Cell(true, log[|log| - 1 - j].before) {
      assert CellAt(cells', SlotAt(fd, p, Slots(log)[j])) == Cell(true, log[|log| - 1 - j].before);
    }
  }

  /** Deleted in the opposite order, all of them come back. */
  lemma BackwardsRestores(locks: Locks, v: TxnView, tables: Tables, t: TxnId, log: seq<WriteRecord>, fd: int, p: int,
                          free: seq<int>)
    requires LocksOk(locks) && AllLocked(locks, v, t, log) && log != [] && DeletedOn(tables, log, fd, p)
    requires FreeList(LiveOf(tables.cells, fd), p, tables.files[fd].perPage, free) && |free| == |log|
    requires forall i, j :: 0 <= i < j < |log| ==> Slots(log)[i] > Slots(log)[j]
    ensures Open(tables.files, log)
    ensures var u := UndoAll(locks, v, tables, t, log);
      u.completed && AllBack(tables.cells, u.tables.cells, log)
  {
    DeletedIsOnPage(tables, log, fd, p, free);
    DescendingIsFree(Slots(log), free);
    forall j | 0 <= j < |free| ensures log[|log| - 1 - j].rec == SlotAt(fd, p, free[j]) {
    }
    OwnUnlocked(locks, v, t, log, fd, p, free);
    PageRestored(locks, v, tables, t, log, fd, p, free);
    forall j | 0 <= j < |log| ensures Matched(log, free, j) {
      assert Matches(log, free, j, |log| - 1 - j);
    }
  }

  lemma DescendingIsFree(slots: seq<int>, free: seq<int>)
    requires Ascending(free) && |free| == |slots| && forall i :: 0 <= i < |slots| ==> slots[i] in free
    requires forall i, j :: 0 <= i < j < |slots| ==> slots[i] > slots[j]
    ensures forall j :: 0 <= j < |free| ==> free[j] == slots[|slots| - 1 - j]
  {
    var n := |slots|;
    var back := seq(n, j requires 0 <= j < n => slots[n - 1 - j]);
    Pigeonhole(slots, free);
    forall x ensures x in back <==> x in free {
      if x in free {
        var i :| 0 <= i < n && slots[i] == x;
        assert back[n - 1 - i] == x;
      }
    }
    SortedSame(back, free);
  }

  /** Nobody else is in the way of slots the transaction holds exclusively itself. */
  lemma OwnUnlocked(locks: Locks, v: TxnView, t: TxnId, log: seq<WriteRecord>, fd: int, p: int, free: seq<int>)
    requires LocksOk(locks) && AllLocked(locks, v, t, log) && |free| == |log|
    requires (forall j :: 0 <= j < |free| ==> log[j].rec == SlotAt(fd, p, free[j]))
          || (forall j :: 0 <= j < |free| ==> log[|log| - 1 - j].rec == SlotAt(fd, p, free[j]))
    ensures Unlocked(locks, t, fd, p, free, |log|)
  {
    forall j | 0 <= j < |log| ensures !HeldByOther(locks, OnRecord(SlotAt(fd, p, free[j])), t) {
      var id := OnRecord(SlotAt(fd, p, free[j]));
      assert Held(locks, id, t) == Some(Exclusive);
      QueueAtOk(locks, id);
      if u: TxnId :| u != t && Held(locks, id, u).Some? {
        HoldersCompatible(QueueAt(locks, id), t, u);
      }
    }
  }
}
