/** The buffer pool: a fixed set of frames in front of the disk, which behaves as one
    flat store of pages for clients that release what they wrote as dirty. */
module BufferPool {
  import opened Common
  import opened Replacer
  import opened Frames

  // A frame, none to be had, or the error of reading past the end of the file.
  datatype Fetched = InFrame(frame: int) | NoFrame | ReadError

  /** What is left of the free list when its head is taken. */
  function Tail(s: seq<int>): seq<int> {
    if s == [] then [] else s[1..]
  }

  class Pool {
    const frames: array<Frame>
    const lru: LruReplacer
    var table: map<PageId, int>
    var free: seq<int>
    // The disk manager: page contents, file lengths in pages and allocation counters.
    var disk: map<PageId, Data>
    var extent: map<int, nat>
    var next: map<int, nat>
    // The flat store the pool stands for, the pages written but not yet released as dirty,
    // and the frames lost to pages that could not be read.
    ghost var store: map<PageId, Data>
    ghost var owed: set<PageId>
    ghost var lost: set<int>

    ghost predicate Valid()
      reads this, frames, lru
    {
      && lru.Valid()
      && Tabled(frames[..], table)
      && Freed(frames[..], free)
      && Evictable(frames[..], lru.list, lost)
      && Current(frames[..], table, disk, store, owed)
      && Extended(disk, extent)
    }

    /** Only page numbers that new_page handed out are in use. */
    ghost predicate InOrder()
      reads this
    {
      Numbered(table, extent, next)
    }

    ghost predicate Pinned(p: PageId)
      reads this, frames
    {
      PinnedAt(frames[..], table, p)
    }

    ghost function Pins(p: PageId): nat
      reads this, frames
    {
      if p in table && 0 <= table[p] < frames.Length then frames[table[p]].pin else 0
    }

    /** No page was released for the last time as clean after it was written. */
    ghost predicate Disciplined()
      reads this, frames
    {
      AllPinned(frames[..], table, owed)
    }

    ghost predicate AllTaken()
      reads this, frames
    {
      forall f :: 0 <= f < frames.Length ==> frames[f].pin > 0 || f in lost
    }

    /** The frame a page that is not resident would get. */
    ghost function Victim(): Option<int>
      reads this, lru
    {
      if free != [] then Some(free[0]) else if lru.list != [] then Some(lru.list[|lru.list| - 1]) else None
    }

    /** The page in that frame. */
    ghost function Outgoing(): Frame
      reads this, frames, lru
    {
      if Victim().Some? && 0 <= Victim().value < frames.Length then frames[Victim().value]
      else Frame(PageId(0, INVALID_PAGE), ZeroPage(), false, 0)
    }

    /** Every other frame that could have been taken was released later. */
    ghost predicate LongestAgo(v: int)
      reads this, frames, lru
    {
      forall f {:trigger Later(lru.releases, f, v)} ::
        0 <= f < frames.Length && f != v && frames[f].pin == 0 && f !in lost ==> Later(lru.releases, f, v)
    }

    /** Without a free frame, the victim is the frame released longest ago. */
    lemma VictimIsOldest()
      requires Valid() && free == [] && Victim().Some?
      ensures LongestAgo(Victim().value)
    {
      var n := |lru.list| - 1;
      forall f | 0 <= f < frames.Length && f != lru.list[n] && frames[f].pin == 0 && f !in lost
        ensures Later(lru.releases, f, lru.list[n])
      {
        FrameStates(frames[..], free, lru.list, lost, f);
        var k :| 0 <= k < |lru.list| && lru.list[k] == f;
        assert k < n;
      }
    }

    constructor (size: nat, disk: map<PageId, Data>, extent: map<int, nat>, next: map<int, nat>)
      requires Extended(disk, extent)
      ensures Valid() && fresh(frames) && fresh(lru) && frames.Length == size && table == map[]
      ensures this.disk == disk && this.extent == extent && this.next == next
      ensures store == disk && owed == {} && lost == {} && lru.list == [] && lru.releases == []
      ensures |free| == size && forall k :: 0 <= k < size ==> free[k] == k && frames[k].pin == 0
    {
      frames := new Frame[size](_ => Frame(PageId(0, INVALID_PAGE), ZeroPage(), false, 0));
      lru := new LruReplacer();
      this.disk, this.extent, this.next := disk, extent, next;
      table, store, owed, lost := map[], disk, {}, {};
      free := [];
      new;
      for i := 0 to size
        invariant |free| == i && (forall k :: 0 <= k < i ==> free[k] == k) && forall k :: k in free <==> 0 <= k < i
        invariant this.disk == disk && this.extent == extent && this.next == next
        invariant table == map[] && store == disk && owed == {} && lost == {}
        invariant lru.Valid() && lru.list == [] && lru.releases == []
        invariant forall k :: 0 <= k < size ==> frames[k] == Frame(PageId(0, INVALID_PAGE), ZeroPage(), false, 0)
      {
        free := free + [i];
      }
    }

    /** Everything but the two lists, which are about to follow a frame already taken off. */
    ghost predicate Between(f: int, free0: seq<int>, lru0: seq<int>)
      reads this, frames, lru
    {
      && lru.Valid() && Tabled(frames[..], table) && Current(frames[..], table, disk, store, owed)
      && Extended(disk, extent)
      && Freed(frames[..], free0) && Evictable(frames[..], lru0, lost) && Distinct(free)
      && 0 <= f < frames.Length && frames[f].pin == 0 && f !in lost
      && (forall g :: g in free <==> g in free0 && g != f)
      && (forall g :: g != f ==> (g in lru.list <==> g in lru0))
    }

    /** A free frame if there is one, otherwise the least recently released frame; none
        exactly when every frame is pinned or lost. */
    method FindVictim() returns (f: Option<int>)
      requires Valid()
      modifies this`free, lru
      ensures lru.Valid() && f == old(Victim())
      ensures f == None <==> AllTaken()
      ensures free == Tail(old(free)) && lru.releases == old(lru.releases)
      ensures lru.list == if f.Some? && old(free) == [] then Without(old(lru.list), f.value) else old(lru.list)
      ensures f.Some? && old(free) == [] ==> f.value !in lru.list
      ensures f.Some? ==> Without(lru.list, f.value) == Without(old(lru.list), f.value)
      ensures f.Some? ==> Between(f.value, old(free), old(lru.list))
    {
      if free == [] {
        ghost var was := lru.list;
        NoVictim(frames[..], free, was, lost);
        f := lru.Victim();
        assert f.Some? ==> f.value in was && EvictAt(frames[..], was, lost, f.value);
        assert f.Some? ==> Without(was, f.value) == lru.list;
        if f.Some? {
          WithoutTwice(was, f.value);
        }
      } else {
        f := Some(free[0]);
        assert free == [free[0]] + free[1..] && free[0] in free;
        FrameStates(frames[..], free, lru.list, lost, free[0]);
        free := free[1..];
      }
    }

    /** update_page: the frame's page is written back if dirty and unmapped, and the frame
        is mapped to the new page with zeroed contents. */
    method UpdatePage(f: int, p: PageId)
      requires 0 <= f < frames.Length
      modifies this`table, this`disk, this`extent, frames
      ensures frames[..] == old(frames[..])[f := Frame(p, ZeroPage(), false, old(frames[f]).pin)]
      ensures disk == Written(old(disk), old(frames[f])) && extent == Grown(old(extent), old(frames[f]))
      ensures table == var t := old(table) - {old(frames[f]).id};
                       if p.pageNo != INVALID_PAGE && p !in t then t[p := f] else t
    {
      var page := frames[f];
      if page.dirty {
        disk, extent := disk[page.id := page.data], Reaching(extent, page.id);
      }
      table := table - {page.id};
      if p.pageNo != INVALID_PAGE && p !in table {
        table := table[p := f];
      }
      frames[f] := Frame(p, ZeroPage(), false, page.pin);
    }

    /** fetch_page, for any page number. A fetched page holds the contents last written to
        it, unless it was evicted after being released only as clean. Nothing but the victim's
        frame changes. A page that is not resident gets no frame exactly when every frame is
        pinned or lost, and an error exactly when it lies past the end of its file once the
        victim is written back; then the frame stays mapped to it, without pins, and is lost
        unless a deletion had left it on the replacer's list. The victim is the head of the
        free list or, when that is empty, the frame released longest ago. */
    method FetchPage(p: PageId) returns (r: Fetched)
      requires Valid() && p.pageNo >= 0
      modifies this`table, this`free, this`disk, this`extent, this`store, this`owed, this`lost, frames, lru
      ensures Valid()
      ensures r.NoFrame? <==> old(p !in table && AllTaken())
      ensures r.ReadError? <==>
        old(p !in table && !AllTaken()) && p.pageNo >= Next(Grown(old(extent), old(Outgoing())), p.fd)
      ensures r.InFrame? ==>
        && p in table && table[p] == r.frame && 0 <= r.frame < frames.Length
        && frames[r.frame].id == p && frames[r.frame].data == At(store, p) && frames[r.frame].pin == old(Pins(p)) + 1
        && (old(p !in table) ==> !frames[r.frame].dirty) && lost == old(lost) - {r.frame}
      ensures r.ReadError? ==>
        && p in table && Some(table[p]) == old(Victim()) && 0 <= table[p] < frames.Length
        && frames[table[p]] == Frame(p, ZeroPage(), false, 0)
        && lost == if old(free != [] && free[0] in lru.list) then old(lost) else old(lost) + {table[p]}
      ensures forall f :: 0 <= f < frames.Length && (p !in table || f != table[p]) ==> frames[f] == old(frames[f])
      ensures if old(p !in table && !AllTaken())
              then && old(Victim()).Some? && table == (old(table) - {old(Outgoing()).id})[p := old(Victim()).value]
                   && store == Reverted(old(store), old(disk), old(Outgoing()), old(owed))
                   && disk == Written(old(disk), old(Outgoing())) && extent == Grown(old(extent), old(Outgoing()))
              else table == old(table) && store == old(store) && disk == old(disk) && extent == old(extent)
      ensures free == (if old(p in table) then old(free) else Tail(old(free))) && lru.releases == old(lru.releases)
      ensures lru.list ==
        if r.InFrame? then Without(old(lru.list), r.frame)
        else if r.ReadError? && old(free) == [] then Without(old(lru.list), table[p])
        else old(lru.list)
      ensures old(p !in table && free == [] && !AllTaken()) ==> old(Victim().Some? && LongestAgo(Victim().value))
      ensures old(Disciplined()) ==> store == old(store) && Disciplined()
      ensures old(InOrder()) ==> (InOrder() <==> (r.ReadError? ==> Below(next, p)))
    {
      if free == [] && Victim().Some? {
        VictimIsOldest();
      }
      if p in table {
        var i := Hit(p);
        return InFrame(i);
      }
      r := Load(p);
    }

    method Hit(p: PageId) returns (i: int)
      requires Valid() && p in table
      modifies this`lost, frames, lru
      ensures Valid() && i == table[p] && 0 <= i < frames.Length && frames[i].id == p && lost == old(lost) - {i}
      ensures frames[..] == old(frames[..])[i := old(frames[i]).(pin := old(frames[i]).pin + 1)]
      ensures frames[i].data == At(store, p) && (old(Disciplined()) ==> Disciplined())
      ensures lru.list == Without(old(lru.list), i) && lru.releases == old(lru.releases)
    {
      ghost var fs := frames[..];
      assert Mapped(fs, table, p) && HoldsAt(fs, table[p], disk, store, owed);
      i := table[p];
      ghost var x := fs[i].(pin := fs[i].pin + 1);
      SameIdTabled(fs, table, i, x);
      SameIdFreed(fs, free, i, x);
      TouchCurrent(fs, table, disk, store, owed, i, x, owed);
      if Disciplined() {
        DisciplineKept(fs, table, owed, i, x, owed);
      }
      lru.Pin(i);
      EvictableAfter(fs, old(lru.list), lost, i, x, lru.list, lost - {i});
      lost := lost - {i};
      frames[i] := frames[i].(pin := frames[i].pin + 1);
      assert frames[..] == fs[i := x];
    }

    method Load(p: PageId) returns (r: Fetched)
      requires Valid() && p.pageNo >= 0 && p !in table
      modifies this`table, this`free, this`disk, this`extent, this`store, this`owed, this`lost, frames, lru
      ensures Valid()
      ensures r.NoFrame? <==> old(AllTaken())
      ensures r.ReadError? <==> old(!AllTaken()) && p.pageNo >= Next(Grown(old(extent), old(Outgoing())), p.fd)
      ensures r.NoFrame? ==> frames[..] == old(frames[..])
      ensures r.NoFrame? ==>
        table == old(table) && store == old(store) && disk == old(disk) && extent == old(extent) && owed == old(owed)
      ensures !r.NoFrame? ==>
        && old(Victim()).Some? && 0 <= old(Victim()).value < frames.Length
        && frames[..] == old(frames[..])
             [old(Victim()).value := Frame(p, At(store, p), false, if r.ReadError? then 0 else 1)]
        && table == (old(table) - {old(Outgoing()).id})[p := old(Victim()).value]
        && store == Reverted(old(store), old(disk), old(Outgoing()), old(owed))
        && owed == old(owed) - {old(Outgoing()).id}
        && disk == Written(old(disk), old(Outgoing())) && extent == Grown(old(extent), old(Outgoing()))
      ensures r.InFrame? ==> r.frame == old(Victim()).value && lost == old(lost) - {r.frame}
      ensures r.ReadError? ==>
        && At(store, p) == ZeroPage()
        && lost == if old(free != [] && free[0] in lru.list) then old(lost) else old(lost) + {table[p]}
      ensures free == Tail(old(free)) && lru.releases == old(lru.releases)
      ensures lru.list ==
        if r.InFrame? then Without(old(lru.list), r.frame)
        else if r.ReadError? && old(free) == [] then Without(old(lru.list), old(Victim()).value)
        else old(lru.list)
      ensures old(InOrder()) ==> (InOrder() <==> (r.ReadError? ==> Below(next, p)))
      ensures old(Disciplined()) ==> store == old(store) && Disciplined()
    {
      var v := FindVictim();
      if v == None {
        return NoFrame;
      }
      r := Miss(p, v.value, old(free), old(lru.list));
    }

    /** The page is read into a frame just taken from one of the lists. */
    method Miss(p: PageId, f: int, ghost free0: seq<int>, ghost lru0: seq<int>) returns (r: Fetched)
      requires Between(f, free0, lru0) && p.pageNo >= 0 && p !in table
      modifies this`table, this`disk, this`extent, this`store, this`owed, this`lost, frames, lru
      ensures Valid()
      ensures r == if p.pageNo >= Next(Grown(old(extent), old(frames[f])), p.fd) then ReadError else InFrame(f)
      ensures frames[..] == old(frames[..])[f := Frame(p, At(store, p), false, if r.ReadError? then 0 else 1)]
      ensures table == (old(table) - {old(frames[f]).id})[p := f]
      ensures store == Reverted(old(store), old(disk), old(frames[f]), old(owed))
      ensures owed == old(owed) - {old(frames[f]).id}
      ensures disk == Written(old(disk), old(frames[f])) && extent == Grown(old(extent), old(frames[f]))
      ensures r.InFrame? ==> lost == old(lost)
      ensures lru.list == (if r.InFrame? then Without(old(lru.list), f) else old(lru.list))
      ensures lru.releases == old(lru.releases)
      ensures r.ReadError? ==>
        At(store, p) == ZeroPage() && lost == if f in old(lru.list) then old(lost) else old(lost) + {f}
      ensures old(InOrder()) ==> (InOrder() <==> (r.ReadError? ==> Below(next, p)))
      ensures old(Disciplined()) ==> store == old(store) && Disciplined()
    {
      ghost var fs := frames[..];
      FrameStates(fs, free0, lru0, lost, f);
      ghost var pin := if p.pageNo >= Next(Grown(extent, fs[f]), p.fd) then 0 else 1;
      MissKeeps(fs, table, disk, extent, store, owed, f, free0, free, p, pin);
      MissOrder(fs, table, extent, next, f, p);
      MissDiscipline(fs, table, disk, store, owed, f, Frame(p, At(store, p), false, pin));
      UpdatePage(f, p);
      store, owed := Reverted(store, old(disk), fs[f], owed), owed - {fs[f].id};
      if p.pageNo >= Next(extent, p.fd) {
        BeyondIsZero(disk, extent, p);
        assert At(store, p) == ZeroPage() by {
          assert Agree(disk, store, p);
        }
        Strand(fs, lru0, f, p);
        return ReadError;
      }
      assert At(disk, p) == At(store, p) by {
        assert Agree(disk, store, p);
      }
      ReadIn(fs, lru0, f, p);
      return InFrame(f);
    }

    /** The frame stays mapped to a page that is not there. */
    ghost method Strand(fs: seq<Frame>, lru0: seq<int>, f: int, p: PageId)
      requires 0 <= f < |fs| == frames.Length && p.pageNo >= 0 && Evictable(fs, lru0, lost) && f !in lost
      requires frames[..] == fs[f := Frame(p, ZeroPage(), false, 0)]
      requires forall g :: g != f ==> (g in lru.list <==> g in lru0)
      modifies this`lost
      ensures Evictable(frames[..], lru.list, lost)
      ensures lost == if f in lru.list then old(lost) else old(lost) + {f}
    {
      ghost var lost' := if f in lru.list then lost else lost + {f};
      EvictableAfter(fs, lru0, lost, f, Frame(p, ZeroPage(), false, 0), lru.list, lost');
      lost := lost';
    }

    method ReadIn(ghost fs: seq<Frame>, ghost lru0: seq<int>, f: int, p: PageId)
      requires 0 <= f < |fs| == frames.Length && p.pageNo >= 0 && Evictable(fs, lru0, lost) && f !in lost && lru.Valid()
      requires frames[..] == fs[f := Frame(p, ZeroPage(), false, 0)]
      requires forall g :: g != f ==> (g in lru.list <==> g in lru0)
      modifies frames, lru
      ensures frames[..] == fs[f := Frame(p, At(disk, p), false, 1)] && lru.Valid()
      ensures Evictable(frames[..], lru.list, lost)
      ensures lru.list == Without(old(lru.list), f) && lru.releases == old(lru.releases)
    {
      frames[f] := frames[f].(data := At(disk, p));
      PinFirst(fs, lru0, f, p, At(disk, p));
    }

    /** The frame gets its first pin and leaves the replacer's list. */
    method PinFirst(ghost fs: seq<Frame>, ghost lru0: seq<int>, f: int, ghost p: PageId, ghost data: Data)
      requires 0 <= f < |fs| == frames.Length && p.pageNo >= 0 && Evictable(fs, lru0, lost) && f !in lost && lru.Valid()
      requires frames[..] == fs[f := Frame(p, data, false, 0)]
      requires forall g :: g != f ==> (g in lru.list <==> g in lru0)
      modifies frames, lru
      ensures frames[..] == fs[f := Frame(p, data, false, 1)] && lru.Valid() && Evictable(frames[..], lru.list, lost)
      ensures lru.list == Without(old(lru.list), f) && lru.releases == old(lru.releases)
    {
      lru.Pin(f);
      frames[f] := frames[f].(pin := 1);
      assert frames[..] == fs[f := Frame(p, data, false, 1)];
      EvictableAfter(fs, lru0, lost, f, Frame(p, data, false, 1), lru.list, lost);
    }

    /** unpin_page: false for a page that is not resident or not pinned. */
    method UnpinPage(p: PageId, dirty: bool) returns (ok: bool)
      requires Valid()
      modifies this`owed, frames, lru
      ensures Valid() && ok == old(Pinned(p))
      ensures owed == if ok && dirty then old(owed) - {p} else old(owed)
      ensures ok ==> p in table && frames[..] == old(frames[..])[table[p] := Released(old(frames[table[p]]), dirty)]
      ensures !ok ==> frames[..] == old(frames[..])
      ensures lru.list == if ok && old(Pins(p)) == 1 then [table[p]] + old(lru.list) else old(lru.list)
      ensures lru.releases == if ok && old(Pins(p)) == 1 then old(lru.releases) + [table[p]] else old(lru.releases)
      ensures old(Disciplined()) && (old(Pins(p)) == 1 && p in old(owed) ==> dirty) ==> Disciplined()
    {
      if p !in table {
        return false;
      }
      ghost var fs := frames[..];
      assert Mapped(fs, table, p);
      var f := table[p];
      var page := frames[f];
      if page.pin == 0 {
        return false;
      }
      ghost var x := Released(page, dirty);
      SameIdTabled(fs, table, f, x);
      SameIdFreed(fs, free, f, x);
      TouchCurrent(fs, table, disk, store, owed, f, x, if dirty then owed - {p} else owed);
      assert EvictAt(fs, lru.list, lost, f);
      if Disciplined() && (page.pin == 1 && p in owed ==> dirty) {
        DisciplineKept(fs, table, owed, f, x, if dirty then owed - {p} else owed);
      }
      frames[f] := page.(pin := page.pin - 1);
      if page.pin == 1 {
        lru.Unpin(f);
      }
      if dirty {
        frames[f] := frames[f].(dirty := true);
        owed := owed - {p};
      }
      assert frames[..] == fs[f := x];
      EvictableAfter(fs, old(lru.list), lost, f, x, lru.list, lost);
      return true;
    }

    /** A client writes through the page it has pinned. */
    method Write(p: PageId, data: Data)
      requires Valid() && Pinned(p)
      modifies this`store, this`owed, frames
      ensures Valid() && store == old(store)[p := data] && owed == old(owed) + {p}
      ensures frames[..] == old(frames[..])[table[p] := old(frames[table[p]]).(data := data)]
      ensures old(Disciplined()) ==> Disciplined()
    {
      ghost var fs := frames[..];
      assert Mapped(fs, table, p);
      var f := table[p];
      ghost var x := fs[f].(data := data);
      assert EvictAt(fs, lru.list, lost, f);
      SameIdTabled(fs, table, f, x);
      SameIdFreed(fs, free, f, x);
      EvictableAfter(fs, lru.list, lost, f, x, lru.list, lost);
      WriteCurrent(fs, table, disk, store, owed, f, data);
      if Disciplined() {
        DisciplineKept(fs, table, owed, f, x, owed + {p});
      }
      frames[f] := frames[f].(data := data);
      store, owed := store[p := data], owed + {p};
      assert frames[..] == fs[f := x];
    }

    /** flush_page: the disk has the page's contents afterwards, pinned or not. */
    method FlushPage(p: PageId) returns (ok: bool)
      requires Valid()
      modifies this`disk, this`extent, this`owed, frames
      ensures Valid() && ok == (p in table)
      ensures At(disk, p) == At(store, p) && owed == old(owed) - {p}
      ensures ok ==>
        && 0 <= table[p] < frames.Length
        && frames[..] == old(frames[..])[table[p] := old(frames[table[p]]).(dirty := false)]
        && disk == old(disk)[p := frames[table[p]].data] && extent == Reaching(old(extent), p)
      ensures !ok ==> frames[..] == old(frames[..]) && disk == old(disk) && extent == old(extent)
      ensures (old(InOrder()) ==> InOrder()) && (old(Disciplined()) ==> Disciplined())
    {
      NotResident(frames[..], table, disk, store, owed, p);
      if p.pageNo == INVALID_PAGE {
        return false;
      }
      for i := 0 to frames.Length
        invariant Valid() && frames[..] == old(frames[..]) && disk == old(disk) && extent == old(extent)
        invariant owed == old(owed)
        invariant forall k :: 0 <= k < i ==> frames[k].id != p
      {
        if frames[i].id == p {
          assert Backed(frames[..], table, i);
          WriteBack(i);
          return true;
        }
      }
      return false;
    }

    method WriteBack(i: int)
      requires Valid() && 0 <= i < frames.Length && Held(frames[i])
      modifies this`disk, this`extent, this`owed, frames
      ensures Valid() && disk == old(disk)[frames[i].id := frames[i].data] && owed == old(owed) - {frames[i].id}
      ensures frames[..] == old(frames[..])[i := old(frames[i]).(dirty := false)]
      ensures extent == Reaching(old(extent), frames[i].id)
      ensures At(disk, frames[i].id) == At(store, frames[i].id)
      ensures (old(InOrder()) ==> InOrder()) && (old(Disciplined()) ==> Disciplined())
    {
      ghost var fs := frames[..];
      var page := frames[i];
      ghost var x := page.(dirty := false);
      assert Backed(fs, table, i) && Mapped(fs, table, page.id) && EvictAt(fs, lru.list, lost, i);
      SameIdTabled(fs, table, i, x);
      SameIdFreed(fs, free, i, x);
      EvictableAfter(fs, lru.list, lost, i, x, lru.list, lost);
      FlushCurrent(fs, table, disk, store, owed, i);
      ExtendOne(disk, extent, page.id, page.data);
      if InOrder() {
        ReachNumbered(table, extent, next, page.id);
      }
      if Disciplined() {
        DisciplineKept(fs, table, owed, i, x, owed - {page.id});
      }
      disk, extent := disk[page.id := page.data], Reaching(extent, page.id);
      owed := owed - {page.id};
      frames[i] := page.(dirty := false);
      assert frames[..] == fs[i := x];
    }

    /** flush_all_pages: the disk agrees with the flat store on the whole file, of which no
        page is dirty any more. */
    method FlushAll(fd: int)
      requires Valid()
      modifies this`disk, this`extent, this`owed, frames
      ensures Valid()
      ensures forall p: PageId :: p.fd == fd ==> At(disk, p) == At(store, p)
      ensures forall f :: 0 <= f < frames.Length ==> frames[f] == Cleaned(old(frames[f]), fd)
      ensures forall p: PageId :: p.fd != fd ==> At(disk, p) == old(At(disk, p)) && (p in owed <==> p in old(owed))
      ensures (old(InOrder()) ==> InOrder()) && (old(Disciplined()) ==> Disciplined())
    {
      for i := 0 to frames.Length
        invariant Valid() && SyncedUpto(frames[..], i, fd, disk, store)
        invariant forall f :: 0 <= f < frames.Length ==>
          frames[f] == if f < i then Cleaned(old(frames[f]), fd) else old(frames[f])
        invariant (old(InOrder()) ==> InOrder()) && (old(Disciplined()) ==> Disciplined())
        invariant forall p: PageId :: p.fd != fd ==> At(disk, p) == old(At(disk, p)) && (p in owed <==> p in old(owed))
      {
        FlushFrame(i, fd);
      }
      AllSynced(frames[..], table, fd, disk, store, owed);
    }

    method FlushFrame(i: int, fd: int)
      requires Valid() && 0 <= i < frames.Length && SyncedUpto(frames[..], i, fd, disk, store)
      modifies this`disk, this`extent, this`owed, frames
      ensures Valid() && SyncedUpto(frames[..], i + 1, fd, disk, store)
      ensures frames[..] == old(frames[..])[i := Cleaned(old(frames[i]), fd)]
      ensures (old(InOrder()) ==> InOrder()) && (old(Disciplined()) ==> Disciplined())
      ensures forall p: PageId :: p.fd != fd ==> At(disk, p) == old(At(disk, p)) && (p in owed <==> p in old(owed))
    {
      if frames[i].id.fd == fd && frames[i].id.pageNo != INVALID_PAGE {
        assert HoldsAt(frames[..], i, disk, store, owed);
        SyncedOne(frames[..], i, fd, disk, store);
        WriteBack(i);
      } else {
        assert frames[..] == frames[..][i := frames[i]];
        SyncedSkip(frames[..], i, fd, disk, store);
      }
    }

    /** new_page: a page with the next number of its file, zeroed and pinned; none exactly
        when every frame is pinned or lost. The pool is sound afterwards exactly when that
        number was not resident in another frame. It never is as long as only numbers that
        were handed out are fetched, and then the page is new to the disk as well. */
    method NewPage(fd: int) returns (f: Option<int>, p: PageId)
      requires Valid()
      modifies this`table, this`free, this`disk, this`extent, this`next, this`store, this`owed, frames, lru
      ensures f == (if old(AllTaken()) then None else old(Victim())) && p == PageId(fd, Next(old(next), fd))
      ensures Valid() <==> f == None || p !in old(table) || Some(old(table)[p]) == f
      ensures next == if f == None then old(next) else old(next)[fd := p.pageNo + 1]
      ensures f == None ==> table == old(table) && store == old(store) && disk == old(disk) && extent == old(extent)
      ensures f.Some? ==>
        && 0 <= f.value < frames.Length && frames[f.value] == Frame(p, ZeroPage(), false, 1)
        && disk == Written(old(disk), old(Outgoing())) && extent == Grown(old(extent), old(Outgoing()))
      ensures f.Some? && Valid() ==>
        && table == (old(table) - {old(Outgoing()).id})[p := f.value]
        && store == Reverted(old(store), old(disk), old(Outgoing()), old(owed))[p := ZeroPage()]
      ensures f.Some? && !Valid() ==>
        && table == old(table) - {old(Outgoing()).id} && p in table && table[p] == old(table)[p] != f.value
        && 0 <= table[p] < frames.Length && frames[table[p]].id == frames[f.value].id == p
      ensures forall g :: 0 <= g < frames.Length && Some(g) != f ==> frames[g] == old(frames[g])
      ensures free == Tail(old(free)) && lru.releases == old(lru.releases)
      ensures lru.list == if f.Some? then Without(old(lru.list), f.value) else old(lru.list)
      ensures f.Some? && old(free) == [] ==> old(LongestAgo(f.value))
      ensures old(InOrder()) ==> InOrder() && p !in old(table) && p !in old(disk)
      ensures old(InOrder() && Disciplined()) ==>
        Disciplined() && forall q :: q != p ==> At(store, q) == old(At(store, q))
    {
      p := PageId(fd, Next(next, fd));
      if free == [] && Victim().Some? {
        VictimIsOldest();
      }
      f := FindVictim();
      if f.Some? {
        PlaceNext(p, f.value, old(free), old(lru.list));
      } else if InOrder() {
        NextIsFresh(table, disk, extent, next, fd);
      }
    }

    /** The next number of the file is handed out. */
    method PlaceNext(p: PageId, f: int, ghost free0: seq<int>, ghost lru0: seq<int>)
      requires Between(f, free0, lru0) && p.pageNo == Next(next, p.fd)
      modifies this`table, this`disk, this`extent, this`next, this`store, this`owed, frames, lru
      ensures frames[..] == old(frames[..])[f := Frame(p, ZeroPage(), false, 1)]
      ensures next == old(next)[p.fd := p.pageNo + 1]
      ensures Valid() <==> p !in old(table) || old(table)[p] == f
      ensures !Valid() ==>
        && table == old(table) - {old(frames[f]).id} && p in table && table[p] == old(table)[p] != f
        && 0 <= table[p] < frames.Length && frames[table[p]].id == p
      ensures Valid() ==>
        && table == (old(table) - {old(frames[f]).id})[p := f]
        && store == Reverted(old(store), old(disk), old(frames[f]), old(owed))[p := ZeroPage()]
      ensures disk == Written(old(disk), old(frames[f])) && extent == Grown(old(extent), old(frames[f]))
      ensures lru.list == Without(old(lru.list), f) && lru.releases == old(lru.releases)
      ensures old(InOrder()) ==> InOrder() && p !in old(table) && p !in old(disk)
      ensures old(InOrder() && Disciplined()) ==>
        Disciplined() && forall q :: q != p ==> At(store, q) == old(At(store, q))
    {
      if InOrder() {
        NextIsFresh(table, disk, extent, next, p.fd);
      }
      next := next[p.fd := p.pageNo + 1];
      Place(p, f, free0, lru0);
    }

    /** The new page is mapped to a frame just taken from one of the lists. If its number is
        resident in another frame, that frame keeps the mapping and the pool has the page
        twice. */
    method Place(p: PageId, f: int, ghost free0: seq<int>, ghost lru0: seq<int>)
      requires Between(f, free0, lru0) && p.pageNo >= 0
      modifies this`table, this`disk, this`extent, this`store, this`owed, frames, lru
      ensures frames[..] == old(frames[..])[f := Frame(p, ZeroPage(), false, 1)]
      ensures Valid() <==> p !in old(table) || old(table)[p] == f
      ensures !Valid() ==>
        && table == old(table) - {old(frames[f]).id} && p in table && table[p] == old(table)[p] != f
        && 0 <= table[p] < frames.Length && frames[table[p]].id == p
      ensures Valid() ==>
        && table == (old(table) - {old(frames[f]).id})[p := f]
        && store == Reverted(old(store), old(disk), old(frames[f]), old(owed))[p := ZeroPage()]
      ensures disk == Written(old(disk), old(frames[f])) && extent == Grown(old(extent), old(frames[f]))
      ensures lru.list == Without(old(lru.list), f) && lru.releases == old(lru.releases)
      ensures old(InOrder()) && Below(next, p) && p !in old(table) ==> InOrder()
      ensures old(Disciplined()) && p !in old(table) && p !in old(disk) ==>
        Disciplined() && store == old(store)[p := ZeroPage()]
    {
      ghost var fs := frames[..];
      ghost var x := Frame(p, ZeroPage(), false, 1);
      FrameStates(fs, free0, lru0, lost, f);
      assert Backed(fs, table, f) && (p in table ==> Mapped(fs, table, p));
      if p in table && p != fs[f].id {
        DoubleMapped(fs, table, f, x, table - {fs[f].id});
      } else {
        PlaceKeeps(fs, table, disk, extent, store, owed, f, free0, free, p);
      }
      MissOrder(fs, table, extent, next, f, p);
      PlaceDiscipline(fs, table, disk, store, owed, f, p);
      UpdatePage(f, p);
      store, owed := Reverted(store, old(disk), fs[f], owed)[p := ZeroPage()], owed - {fs[f].id} + Stale(disk, p);
      PinFirst(fs, lru0, f, p, ZeroPage());
    }

    /** delete_page: false exactly when the page is pinned; otherwise it is not resident any
        more, the disk has its contents, and its frame is at the back of the free list. */
    method DeletePage(p: PageId) returns (ok: bool)
      requires Valid()
      modifies this`table, this`free, this`disk, this`extent, this`store, this`owed, this`lost, frames
      ensures Valid() && ok == !old(Pinned(p))
      ensures ok ==> p !in table && At(disk, p) == At(store, p)
      ensures if ok && p in old(table)
              then var f := old(table)[p];
                   && 0 <= f < frames.Length && table == old(table) - {p}
                   && free == old(free) + [f] && lost == old(lost) - {f}
                   && frames[..] == old(frames[..])[f := Frame(PageId(p.fd, INVALID_PAGE), ZeroPage(), false, 0)]
                   && disk == Written(old(disk), old(frames[f])) && extent == Grown(old(extent), old(frames[f]))
              else && table == old(table) && free == old(free) && lost == old(lost)
                   && frames[..] == old(frames[..]) && disk == old(disk) && extent == old(extent)
      ensures forall q :: q != p || !ok ==> At(store, q) == old(At(store, q))
      ensures (old(InOrder()) ==> InOrder()) && (old(Disciplined()) ==> Disciplined() && store == old(store))
    {
      if p in table {
        ghost var fs := frames[..];
        assert Mapped(fs, table, p);
        var f := table[p];
        if frames[f].pin > 0 {
          return false;
        }
        ghost var x := Frame(PageId(p.fd, INVALID_PAGE), ZeroPage(), false, 0);
        assert EvictAt(fs, lru.list, lost, f);
        VacateTabled(fs, table, f, x);
        VacateFreed(fs, free, f, x);
        EvictableAfter(fs, lru.list, lost, f, x, lru.list, lost - {f});
        EvictCurrent(fs, table, disk, store, owed, f, x, table - {p});
        ExtendWritten(fs, table, disk, extent, f);
        DeleteOrder(fs, table, extent, next, f);
        if Disciplined() {
          NothingReverted(fs, table, disk, store, owed, f, x, table - {p});
        }
        UpdatePage(f, PageId(p.fd, INVALID_PAGE));
        store, owed, lost := Reverted(store, old(disk), fs[f], owed), owed - {p}, lost - {f};
        free := free + [f];
      }
      NotResident(frames[..], table, disk, store, owed, p);
      return true;
    }
  }

  lemma PlaceKeeps(fs: seq<Frame>, table: map<PageId, int>, disk: map<PageId, Data>, extent: map<int, nat>,
                   store: map<PageId, Data>, owed: set<PageId>, f: int, free: seq<int>, free': seq<int>, p: PageId)
    requires Tabled(fs, table) && Freed(fs, free) && Current(fs, table, disk, store, owed) && Extended(disk, extent)
    requires 0 <= f < |fs| && p.pageNo >= 0 && (p in table ==> p == fs[f].id) && (!Held(fs[f]) ==> !fs[f].dirty)
    requires Distinct(free') && forall g :: g in free' <==> g in free && g != f
    ensures var fs', table' := fs[f := Frame(p, ZeroPage(), false, 1)], (table - {fs[f].id})[p := f];
      var disk', store' := Written(disk, fs[f]), Reverted(store, disk, fs[f], owed)[p := ZeroPage()];
      && Tabled(fs', table') && Freed(fs', free') && Extended(disk', Grown(extent, fs[f]))
      && Current(fs', table', disk', store', owed - {fs[f].id} + Stale(disk', p))
  {
    var x := Frame(p, ZeroPage(), false, 1);
    InstallTabled(fs, table, f, x);
    InstallFreed(fs, free, f, x, free');
    FreshCurrent(fs, table, disk, store, owed, f, p);
    ExtendWritten(fs, table, disk, extent, f);
  }

  lemma DeleteOrder(fs: seq<Frame>, table: map<PageId, int>, extent: map<int, nat>, next: map<int, nat>, f: int)
    requires Tabled(fs, table) && 0 <= f < |fs| && (!Held(fs[f]) ==> !fs[f].dirty)
    ensures Numbered(table, extent, next) ==> Numbered(table - {fs[f].id}, Grown(extent, fs[f]), next)
  {
    if Numbered(table, extent, next) {
      GrowNumbered(fs, table, extent, next, f);
      RemapNumbered(table, Grown(extent, fs[f]), next, table - {fs[f].id}, fs[f].id);
    }
  }

  lemma PlaceDiscipline(fs: seq<Frame>, table: map<PageId, int>, disk: map<PageId, Data>, store: map<PageId, Data>,
                        owed: set<PageId>, f: int, p: PageId)
    requires Tabled(fs, table) && 0 <= f < |fs| && fs[f].pin == 0 && p.pageNo >= 0
    requires !Held(fs[f]) ==> !fs[f].dirty
    ensures AllPinned(fs, table, owed) && p !in table && p !in disk ==>
      && Reverted(store, disk, fs[f], owed) == store
      && AllPinned(fs[f := Frame(p, ZeroPage(), false, 1)], (table - {fs[f].id})[p := f],
                   owed - {fs[f].id} + Stale(Written(disk, fs[f]), p))
  {
    if AllPinned(fs, table, owed) && p !in table && p !in disk {
      NothingReverted(fs, table, disk, store, owed, f, Frame(p, ZeroPage(), false, 1), (table - {fs[f].id})[p := f]);
      assert Backed(fs, table, f);
      assert Stale(Written(disk, fs[f]), p) == {};
      assert owed - {fs[f].id} + {} == owed - {fs[f].id};
    }
  }

  /** What holds of the table, the free list, the contents and the disk once frame f has
      been given to page p. */
  lemma MissKeeps(fs: seq<Frame>, table: map<PageId, int>, disk: map<PageId, Data>, extent: map<int, nat>,
                  store: map<PageId, Data>, owed: set<PageId>, f: int, free: seq<int>, free': seq<int>,
                  p: PageId, pin: nat)
    requires Tabled(fs, table) && Freed(fs, free) && Current(fs, table, disk, store, owed) && Extended(disk, extent)
    requires 0 <= f < |fs| && p.pageNo >= 0 && p !in table && (!Held(fs[f]) ==> !fs[f].dirty)
    requires Distinct(free') && forall g :: g in free' <==> g in free && g != f
    ensures var store', disk' := Reverted(store, disk, fs[f], owed), Written(disk, fs[f]);
      var table', fs' := (table - {fs[f].id})[p := f], fs[f := Frame(p, At(store', p), false, pin)];
      && Tabled(fs', table') && Freed(fs', free') && Extended(disk', Grown(extent, fs[f])) && Agree(disk', store', p)
      && Current(fs', table', disk', store', owed - {fs[f].id})
  {
    var x := Frame(p, At(store, p), false, pin);
    assert Backed(fs, table, f);
    assert At(Reverted(store, disk, fs[f], owed), p) == At(store, p);
    OnDisk(fs, table, disk, store, owed, f, p);
    InstallTabled(fs, table, f, x);
    InstallFreed(fs, free, f, x, free');
    EvictCurrent(fs, table, disk, store, owed, f, x, (table - {fs[f].id})[p := f]);
    ExtendWritten(fs, table, disk, extent, f);
  }

  lemma MissDiscipline(fs: seq<Frame>, table: map<PageId, int>, disk: map<PageId, Data>, store: map<PageId, Data>,
                       owed: set<PageId>, f: int, x: Frame)
    requires Tabled(fs, table) && 0 <= f < |fs| && fs[f].pin == 0 && Held(x) && x.id !in table
    ensures AllPinned(fs, table, owed) ==>
      && Reverted(store, disk, fs[f], owed) == store
      && AllPinned(fs[f := x], (table - {fs[f].id})[x.id := f], owed - {fs[f].id})
  {
    if AllPinned(fs, table, owed) {
      NothingReverted(fs, table, disk, store, owed, f, x, (table - {fs[f].id})[x.id := f]);
    }
  }

  lemma MissOrder(fs: seq<Frame>, table: map<PageId, int>, extent: map<int, nat>, next: map<int, nat>, f: int,
                  p: PageId)
    requires Tabled(fs, table) && 0 <= f < |fs| && (!Held(fs[f]) ==> !fs[f].dirty)
    ensures var extent', table' := Grown(extent, fs[f]), (table - {fs[f].id})[p := f];
      Numbered(table, extent, next) ==>
        (Numbered(table', extent', next) <==> (p.pageNo >= Next(extent', p.fd) ==> Below(next, p)))
  {
    var extent', table' := Grown(extent, fs[f]), (table - {fs[f].id})[p := f];
    if Numbered(table, extent, next) {
      GrowNumbered(fs, table, extent, next, f);
      if p.pageNo < Next(extent', p.fd) {
        InFileBelow(table, extent', next, p);
      }
      if Below(next, p) {
        RemapNumbered(table, extent', next, table', p);
      } else {
        assert p in table';
      }
    }
  }

  /** A page that was created, released as clean and evicted has never been written to its
      file. Fetching it is an error that costs the pool its only frame, and from then on
      there is no frame for any page, though none is pinned. */
  method FetchNeverWritten(fd: int) returns (pool: Pool, p: PageId, first: Fetched, q: PageId, second: Fetched)
    ensures pool.Valid() && pool.frames.Length == 1 && pool.frames[0].pin == 0
    ensures p == PageId(fd, 0) && first == ReadError && q == PageId(fd, 1) && second == NoFrame
  {
    pool := new Pool(1, map[], map[], map[]);
    assert pool.free[0] in pool.free;
    assert FreeAt(pool.frames[..], pool.free, 0) && EvictAt(pool.frames[..], pool.lru.list, pool.lost, 0);
    p := NewAndRelease(pool, fd);
    q := NewAndRelease(pool, fd);
    first := FetchGone(pool, p);
    second := pool.FetchPage(q);
  }

  /** A pool of one frame, not pinned, whose page is not dirty. */
  ghost predicate OneClean(pool: Pool)
    reads pool, pool.frames, pool.lru
  {
    && pool.Valid() && pool.frames.Length == 1 && pool.frames[0].pin == 0 && !pool.frames[0].dirty
    && pool.lost == {} && pool.Victim() == Some(0)
    && (pool.free == [] || pool.lru.list == [])
  }

  lemma Unlisted(list: seq<int>)
    requires forall g :: g in list ==> g == 0
    ensures 0 in list || list == []
  {
    if list != [] {
      var g := list[0];
      assert g in list && g == 0;
    }
  }

  method NewAndRelease(pool: Pool, fd: int) returns (p: PageId)
    requires OneClean(pool) && pool.extent == map[] && PageId(fd, Next(pool.next, fd)) !in pool.table
    modifies pool, pool.frames, pool.lru
    ensures OneClean(pool) && pool.extent == map[] && p == PageId(fd, Next(old(pool.next), fd))
    ensures pool.table == map[p := 0] && pool.frames[0].id == p
    ensures pool.next == old(pool.next)[fd := p.pageNo + 1]
  {
    assert Backed(pool.frames[..], pool.table, 0);
    ghost var was := pool.table;
    forall q | q in was ensures q == pool.frames[0].id {
      assert Mapped(pool.frames[..], was, q);
    }
    assert pool.frames[0].pin == 0 && !pool.AllTaken();
    var f;
    f, p := pool.NewPage(fd);
    assert f == Some(0) && pool.Valid();
    WithoutMember(old(pool.lru.list), 0, 0);
    Unlisted(pool.free);
    Unlisted(pool.lru.list);
    assert was - {old(pool.frames[0]).id} == map[];
    var ok := pool.UnpinPage(p, false);
  }

  method FetchGone(pool: Pool, p: PageId) returns (r: Fetched)
    requires OneClean(pool) && pool.extent == map[] && p !in pool.table && p.pageNo >= 0
    modifies pool, pool.frames, pool.lru
    ensures r == ReadError && pool.Valid() && pool.frames[0].pin == 0 && pool.AllTaken()
    ensures forall q :: q in pool.table ==> q == p
  {
    assert pool.frames[0].pin == 0 && !pool.AllTaken();
    r := pool.FetchPage(p);
    forall q | q in pool.table ensures q == p {
      assert Mapped(pool.frames[..], pool.table, q);
    }
    assert pool.frames.Length == 1 && 0 in pool.lost;
  }

  /** Fetching a number that was never handed out is an error too, and new_page then hands
      out that number: the page table stops being a bijection. */
  method FetchNeverAllocated(fd: int) returns (pool: Pool, first: Fetched, f: Option<int>, p: PageId)
    ensures first == ReadError && f == Some(1) && p == PageId(fd, 0) && !pool.Valid()
    ensures pool.frames.Length == 2 && pool.frames[0].id == pool.frames[1].id == p && pool.table == map[p := 0]
  {
    pool := new Pool(2, map[], map[], map[]);
    assert pool.frames[0].pin == 0 && !pool.AllTaken();
    assert pool.free[0] in pool.free && pool.free[1] in pool.free;
    assert FreeAt(pool.frames[..], pool.free, 1) && FreeAt(pool.frames[..], pool.free, 0);
    assert EvictAt(pool.frames[..], pool.lru.list, pool.lost, 0);
    first := pool.FetchPage(PageId(fd, 0));
    assert pool.table == map[PageId(fd, 0) := 0];
    assert pool.lost == {} || pool.lost == {} + {0};
    assert FreeAt(pool.frames[..], pool.free, 0) && FreeAt(pool.frames[..], pool.free, 1);
    assert pool.frames[1].pin == 0 && !pool.AllTaken();
    assert pool.free != [] && pool.free[0] in pool.free;
    f, p := pool.NewPage(fd);
  }

  method FetchIn(pool: Pool, p: PageId) returns (r: Fetched)
    requires OneClean(pool) && InFile(pool.extent, p) && p !in pool.table
    modifies pool, pool.frames, pool.lru
    ensures r == InFrame(0) && pool.Valid() && pool.lost == {} && pool.free == [] && pool.lru.list == []
    ensures pool.table == map[p := 0] && pool.frames[0] == Frame(p, At(pool.store, p), false, 1)
    ensures pool.disk == old(pool.disk) && pool.extent == old(pool.extent)
    ensures pool.store == Reverted(old(pool.store), old(pool.disk), old(pool.frames[0]), old(pool.owed))
  {
    assert pool.frames[0].pin == 0 && !pool.AllTaken();
    r := pool.FetchPage(p);
    assert FreeAt(pool.frames[..], pool.free, 0) && EvictAt(pool.frames[..], pool.lru.list, pool.lost, 0);
    Unlisted(pool.free);
    Unlisted(pool.lru.list);
    forall q | q in pool.table ensures q == p {
      assert Mapped(pool.frames[..], pool.table, q);
    }
  }

  method ReleaseClean(pool: Pool, p: PageId)
    requires pool.Valid() && pool.frames.Length == 1 && pool.table == map[p := 0] && pool.lost == {}
    requires pool.frames[0].pin == 1 && !pool.frames[0].dirty && pool.free == [] && pool.lru.list == []
    modifies pool`owed, pool.frames, pool.lru
    ensures OneClean(pool) && pool.owed == old(pool.owed) && pool.frames[0].id == old(pool.frames[0]).id
  {
    var ok := pool.UnpinPage(p, false);
  }

  method WriteAndRelease(pool: Pool, p: PageId, data: Data)
    requires OneClean(pool) && InFile(pool.extent, p) && p !in pool.table
    modifies pool, pool.frames, pool.lru
    ensures OneClean(pool) && pool.table == map[p := 0] && pool.frames[0].id == p && p in pool.owed
    ensures pool.disk == old(pool.disk) && pool.extent == old(pool.extent)
  {
    var r := FetchIn(pool, p);
    pool.Write(p, data);
    ReleaseClean(pool, p);
  }

  /** In a pool of one frame, a page is fetched, written and released as clean, another page
      is fetched and released: fetched again, the first one is what its file has. */
  method CleanReleaseLoses(disk: map<PageId, Data>, extent: map<int, nat>, p: PageId, q: PageId, data: Data)
    returns (pool: Pool, r: Fetched)
    requires Extended(disk, extent) && p != q && InFile(extent, p) && InFile(extent, q)
    ensures pool.Valid() && pool.frames.Length == 1 && r == InFrame(0) && pool.frames[0].id == p
    ensures pool.frames[0].data == At(disk, p)
  {
    pool := new Pool(1, disk, extent, extent);
    assert pool.free[0] in pool.free;
    assert FreeAt(pool.frames[..], pool.free, 0) && EvictAt(pool.frames[..], pool.lru.list, pool.lost, 0);
    WriteAndRelease(pool, p, data);
    r := FetchIn(pool, q);
    ReleaseClean(pool, q);
    r := FetchIn(pool, p);
  }
}
