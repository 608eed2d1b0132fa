/** The buffer pool's frames, page table, lists and disk as values: what every pool
    operation keeps, and why. */
module Frames {
  import opened Common

  const INVALID_PAGE := -1

  datatype PageId = PageId(fd: int, pageNo: int)

  type Data = seq<int>

  function ZeroByte(i: nat): int {
    0
  }

  function ZeroPage(): Data {
    seq(PAGE_SIZE, ZeroByte)
  }

  datatype Frame = Frame(id: PageId, data: Data, dirty: bool, pin: nat)

  function Held(f: Frame): bool {
    f.id.pageNo != INVALID_PAGE
  }

  /** The frame after its file has been flushed. */
  function Cleaned(f: Frame, fd: int): Frame {
    if f.id.fd == fd && Held(f) then f.(dirty := false) else f
  }

  function At(m: map<PageId, Data>, p: PageId): Data {
    if p in m then m[p] else ZeroPage()
  }

  function Next(next: map<int, nat>, fd: int): nat {
    if fd in next then next[fd] else 0
  }

  // ---------- the page table ----------

  ghost predicate Mapped(fs: seq<Frame>, table: map<PageId, int>, p: PageId)
    requires p in table
  {
    0 <= table[p] < |fs| && fs[table[p]].id == p && p.pageNo >= 0
  }

  ghost predicate Backed(fs: seq<Frame>, table: map<PageId, int>, f: int)
    requires 0 <= f < |fs|
  {
    Held(fs[f]) ==> fs[f].id in table && table[fs[f].id] == f
  }

  /** The page table is a bijection between resident pages and the frames that hold them. */
  ghost predicate Tabled(fs: seq<Frame>, table: map<PageId, int>) {
    && (forall p {:trigger Mapped(fs, table, p)} :: p in table ==> Mapped(fs, table, p))
    && forall f {:trigger Backed(fs, table, f)} :: 0 <= f < |fs| ==> Backed(fs, table, f)
  }

  lemma SameIdTabled(fs: seq<Frame>, table: map<PageId, int>, f: int, x: Frame)
    requires Tabled(fs, table) && 0 <= f < |fs| && x.id == fs[f].id
    ensures Tabled(fs[f := x], table)
  {
    var fs' := fs[f := x];
    forall p | p in table ensures Mapped(fs', table, p) {
      assert Mapped(fs, table, p);
    }
    forall g | 0 <= g < |fs'| ensures Backed(fs', table, g) {
      assert Backed(fs, table, g);
    }
  }

  lemma InstallTabled(fs: seq<Frame>, table: map<PageId, int>, f: int, x: Frame)
    requires Tabled(fs, table) && 0 <= f < |fs| && x.id.pageNo >= 0 && (x.id in table ==> x.id == fs[f].id)
    ensures Tabled(fs[f := x], (table - {fs[f].id})[x.id := f])
  {
    var fs', table' := fs[f := x], (table - {fs[f].id})[x.id := f];
    forall p | p in table' ensures Mapped(fs', table', p) {
      if p in table {
        assert Mapped(fs, table, p);
      }
    }
    forall g | 0 <= g < |fs'| ensures Backed(fs', table', g) {
      assert Backed(fs, table, g) && Backed(fs, table, f);
    }
  }

  /** A second frame for a page that is resident spoils the bijection. */
  lemma DoubleMapped(fs: seq<Frame>, table: map<PageId, int>, f: int, x: Frame, table': map<PageId, int>)
    requires Tabled(fs, table) && 0 <= f < |fs| && x.id in table && table[x.id] != f
    requires table' == table - {fs[f].id}
    ensures !Tabled(fs[f := x], table')
  {
    assert Mapped(fs, table, x.id);
    assert !Backed(fs[f := x], table', f);
  }

  lemma VacateTabled(fs: seq<Frame>, table: map<PageId, int>, f: int, x: Frame)
    requires Tabled(fs, table) && 0 <= f < |fs| && Held(fs[f]) && !Held(x)
    ensures Tabled(fs[f := x], table - {fs[f].id})
  {
    var fs', table' := fs[f := x], table - {fs[f].id};
    forall p | p in table' ensures Mapped(fs', table', p) {
      assert Mapped(fs, table, p) && Backed(fs, table, f);
    }
    forall g | 0 <= g < |fs'| ensures Backed(fs', table', g) {
      assert Backed(fs, table, g) && Backed(fs, table, f);
    }
  }

  // ---------- the free list ----------

  ghost predicate FreeAt(fs: seq<Frame>, free: seq<int>, f: int)
    requires 0 <= f < |fs|
  {
    f in free <==> !Held(fs[f])
  }

  /** The free list holds exactly the frames without a page, each once. */
  ghost predicate Freed(fs: seq<Frame>, free: seq<int>) {
    && Distinct(free) && (forall g :: g in free ==> 0 <= g < |fs|)
    && forall f {:trigger FreeAt(fs, free, f)} :: 0 <= f < |fs| ==> FreeAt(fs, free, f)
  }

  lemma SameIdFreed(fs: seq<Frame>, free: seq<int>, f: int, x: Frame)
    requires Freed(fs, free) && 0 <= f < |fs| && x.id == fs[f].id
    ensures Freed(fs[f := x], free)
  {
    var fs' := fs[f := x];
    forall g | 0 <= g < |fs'| ensures FreeAt(fs', free, g) {
      assert FreeAt(fs, free, g);
    }
  }

  lemma InstallFreed(fs: seq<Frame>, free: seq<int>, f: int, x: Frame, free': seq<int>)
    requires Freed(fs, free) && 0 <= f < |fs| && Held(x)
    requires Distinct(free') && forall g :: g in free' <==> g in free && g != f
    ensures Freed(fs[f := x], free')
  {
    var fs' := fs[f := x];
    forall g | 0 <= g < |fs'| ensures FreeAt(fs', free', g) {
      assert FreeAt(fs, free, g);
    }
  }

  lemma VacateFreed(fs: seq<Frame>, free: seq<int>, f: int, x: Frame)
    requires Freed(fs, free) && 0 <= f < |fs| && Held(fs[f]) && !Held(x)
    ensures Freed(fs[f := x], free + [f])
  {
    var fs', free' := fs[f := x], free + [f];
    assert FreeAt(fs, free, f);
    forall g | 0 <= g < |fs'| ensures FreeAt(fs', free', g) {
      assert FreeAt(fs, free, g);
    }
  }

  // ---------- the replacer's list ----------

  /** What a page that could not be read leaves: a frame without contents or pins. */
  predicate Blank(x: Frame) {
    x.data == ZeroPage() && !x.dirty && x.pin == 0
  }

  ghost predicate EvictAt(fs: seq<Frame>, lru: seq<int>, lost: set<int>, f: int)
    requires 0 <= f < |fs|
  {
    && (f in lru ==> fs[f].pin == 0 && f !in lost)
    && (f in lost ==> Held(fs[f]) && Blank(fs[f]))
    && (Held(fs[f]) && fs[f].pin == 0 ==> f in lru || f in lost)
    && (!Held(fs[f]) ==> fs[f].pin == 0 && !fs[f].dirty)
  }

  /** Every unpinned resident frame is evictable, unless it is lost to a page that could not
      be read, and no pinned one is. A frame freed by a deletion may still be listed. */
  ghost predicate Evictable(fs: seq<Frame>, lru: seq<int>, lost: set<int>) {
    && (forall g :: g in lru || g in lost ==> 0 <= g < |fs|)
    && forall f {:trigger EvictAt(fs, lru, lost, f)} :: 0 <= f < |fs| ==> EvictAt(fs, lru, lost, f)
  }

  /** Frame f changes, and its place in the list or among the lost ones with it. */
  lemma EvictableAfter(fs: seq<Frame>, lru: seq<int>, lost: set<int>, f: int, x: Frame, lru': seq<int>, lost': set<int>)
    requires Evictable(fs, lru, lost) && 0 <= f < |fs|
    requires forall g :: g != f ==> (g in lru' <==> g in lru) && (g in lost' <==> g in lost)
    requires EvictAt(fs[f := x], lru', lost', f)
    ensures Evictable(fs[f := x], lru', lost')
  {
    var fs' := fs[f := x];
    forall g | 0 <= g < |fs'| ensures EvictAt(fs', lru', lost', g) {
      assert EvictAt(fs, lru, lost, g);
    }
  }

  /** Each frame is free, pinned, evictable or lost, and only one of these; when the free
      list is empty the replacer lists exactly the frames that are neither pinned nor lost. */
  lemma FrameStates(fs: seq<Frame>, free: seq<int>, lru: seq<int>, lost: set<int>, f: int)
    requires Freed(fs, free) && Evictable(fs, lru, lost) && 0 <= f < |fs|
    ensures f in free ==> !Held(fs[f]) && fs[f].pin == 0 && !fs[f].dirty && f !in lost
    ensures f !in free ==> Held(fs[f]) && (f in lru <==> fs[f].pin == 0 && f !in lost)
    ensures f in lost ==> fs[f].pin == 0
  {
    assert FreeAt(fs, free, f) && EvictAt(fs, lru, lost, f);
  }

  lemma NoVictim(fs: seq<Frame>, free: seq<int>, lru: seq<int>, lost: set<int>)
    requires Freed(fs, free) && Evictable(fs, lru, lost) && free == []
    ensures lru == [] <==> forall f :: 0 <= f < |fs| ==> fs[f].pin > 0 || f in lost
    ensures forall f :: f in lru ==> 0 <= f < |fs| && fs[f].pin == 0
  {
    forall f | 0 <= f < |fs| ensures f in lru <==> fs[f].pin == 0 && f !in lost {
      FrameStates(fs, free, lru, lost, f);
    }
    if lru != [] {
      assert lru[0] in lru && fs[lru[0]].pin == 0;
    }
  }

  // ---------- contents ----------

  ghost predicate HoldsAt(fs: seq<Frame>, f: int, disk: map<PageId, Data>, store: map<PageId, Data>, owed: set<PageId>)
    requires 0 <= f < |fs|
  {
    Held(fs[f]) ==>
      && fs[f].data == At(store, fs[f].id)
      && (!fs[f].dirty && fs[f].id !in owed ==> At(disk, fs[f].id) == At(store, fs[f].id))
  }

  ghost predicate Agree(disk: map<PageId, Data>, store: map<PageId, Data>, p: PageId) {
    At(disk, p) == At(store, p)
  }

  /** Frames hold the current contents. The disk does too, except for pages with a dirty
      frame and resident pages written but not yet released as dirty. */
  ghost predicate Current(fs: seq<Frame>, table: map<PageId, int>, disk: map<PageId, Data>,
                          store: map<PageId, Data>, owed: set<PageId>) {
    && (forall f {:trigger HoldsAt(fs, f, disk, store, owed)} :: 0 <= f < |fs| ==> HoldsAt(fs, f, disk, store, owed))
    && (forall p {:trigger Agree(disk, store, p)} :: p !in table ==> Agree(disk, store, p))
    && owed <= table.Keys
  }

  function Written(disk: map<PageId, Data>, f: Frame): map<PageId, Data> {
    if f.dirty then disk[f.id := f.data] else disk
  }

  /** What eviction of a frame does to the flat store: nothing, unless its page was written
      and released only as clean. Then the page is what the disk has again. */
  function Reverted(store: map<PageId, Data>, disk: map<PageId, Data>, f: Frame, owed: set<PageId>): map<PageId, Data> {
    if Held(f) && !f.dirty && f.id in owed then store[f.id := At(disk, f.id)] else store
  }

  /** Frame f, written back if dirty, is given to another page or to none. */
  lemma EvictCurrent(fs: seq<Frame>, table: map<PageId, int>, disk: map<PageId, Data>, store: map<PageId, Data>,
                     owed: set<PageId>, f: int, x: Frame, table': map<PageId, int>)
    requires Tabled(fs, table) && Current(fs, table, disk, store, owed) && 0 <= f < |fs|
    requires !Held(fs[f]) ==> !fs[f].dirty
    requires Held(x) ==> x.id !in table && x.data == At(store, x.id) && Agree(Written(disk, fs[f]), store, x.id)
    requires table' == if Held(x) then (table - {fs[f].id})[x.id := f] else table - {fs[f].id}
    ensures Current(fs[f := x], table', Written(disk, fs[f]), Reverted(store, disk, fs[f], owed), owed - {fs[f].id})
  {
    var disk', store' := Written(disk, fs[f]), Reverted(store, disk, fs[f], owed);
    var owed', fs' := owed - {fs[f].id}, fs[f := x];
    assert Backed(fs, table, f) && HoldsAt(fs, f, disk, store, owed);
    forall g | 0 <= g < |fs'| ensures HoldsAt(fs', g, disk', store', owed') {
      assert HoldsAt(fs, g, disk, store, owed) && Backed(fs, table, g);
    }
    forall p | p !in table' ensures Agree(disk', store', p) {
      if p in table {
        assert Mapped(fs, table, p);
      } else {
        assert Agree(disk, store, p);
      }
    }
  }

  ghost predicate PinnedAt(fs: seq<Frame>, table: map<PageId, int>, p: PageId) {
    p in table && 0 <= table[p] < |fs| && fs[table[p]].pin > 0
  }

  /** No page was released for the last time as clean after it was written. */
  ghost predicate AllPinned(fs: seq<Frame>, table: map<PageId, int>, owed: set<PageId>) {
    forall p {:trigger PinnedAt(fs, table, p)} :: p in owed ==> PinnedAt(fs, table, p)
  }

  /** Then eviction loses nothing, and it stays so. */
  lemma NothingReverted(fs: seq<Frame>, table: map<PageId, int>, disk: map<PageId, Data>, store: map<PageId, Data>,
                        owed: set<PageId>, f: int, x: Frame, table': map<PageId, int>)
    requires 0 <= f < |fs| && fs[f].pin == 0 && Tabled(fs, table) && AllPinned(fs, table, owed)
    requires forall p :: p in table && p != fs[f].id ==> p in table' && table'[p] == table[p]
    ensures Reverted(store, disk, fs[f], owed) == store && AllPinned(fs[f := x], table', owed - {fs[f].id})
  {
    assert Backed(fs, table, f) && (fs[f].id in owed ==> PinnedAt(fs, table, fs[f].id));
    assert fs[f].id in table ==> Mapped(fs, table, fs[f].id);
    var fs', owed' := fs[f := x], owed - {fs[f].id};
    forall p | p in owed' ensures PinnedAt(fs', table', p) {
      assert PinnedAt(fs, table, p) && Mapped(fs, table, p);
    }
  }

  /** A resident frame changes: the discipline holds unless it loses its last pin while its
      page is still owed. */
  lemma DisciplineKept(fs: seq<Frame>, table: map<PageId, int>, owed: set<PageId>, f: int, x: Frame, owed': set<PageId>)
    requires 0 <= f < |fs| && Tabled(fs, table) && AllPinned(fs, table, owed) && Held(fs[f])
    requires owed' <= owed + {fs[f].id} && (x.pin == 0 ==> fs[f].id !in owed')
    ensures AllPinned(fs[f := x], table, owed')
  {
    assert Backed(fs, table, f);
    var fs' := fs[f := x];
    forall p | p in owed' ensures PinnedAt(fs', table, p) {
      assert p in owed ==> PinnedAt(fs, table, p);
      assert p in table ==> Mapped(fs, table, p);
    }
  }

  lemma NotResident(fs: seq<Frame>, table: map<PageId, int>, disk: map<PageId, Data>, store: map<PageId, Data>,
                    owed: set<PageId>, p: PageId)
    requires Tabled(fs, table) && Current(fs, table, disk, store, owed)
    ensures p in table ==> Mapped(fs, table, p)
    ensures p !in table ==> At(disk, p) == At(store, p)
  {
    assert p !in table ==> Agree(disk, store, p);
  }

  lemma OnDisk(fs: seq<Frame>, table: map<PageId, int>, disk: map<PageId, Data>, store: map<PageId, Data>,
               owed: set<PageId>, f: int, p: PageId)
    requires Tabled(fs, table) && Current(fs, table, disk, store, owed) && 0 <= f < |fs| && p !in table && p.pageNo >= 0
    ensures Agree(Written(disk, fs[f]), store, p)
  {
    assert Agree(disk, store, p) && Backed(fs, table, f);
  }

  /** The resident page of frame f changes: its pins, its dirty bit, or what is owed. */
  lemma TouchCurrent(fs: seq<Frame>, table: map<PageId, int>, disk: map<PageId, Data>, store: map<PageId, Data>,
                     owed: set<PageId>, f: int, x: Frame, owed': set<PageId>)
    requires Tabled(fs, table) && Current(fs, table, disk, store, owed) && 0 <= f < |fs| && Held(fs[f])
    requires x.id == fs[f].id && x.data == fs[f].data && (owed' == owed || owed' == owed - {x.id})
    requires !x.dirty ==> !fs[f].dirty && owed' == owed
    ensures Current(fs[f := x], table, disk, store, owed')
  {
    var fs' := fs[f := x];
    forall g | 0 <= g < |fs'| ensures HoldsAt(fs', g, disk, store, owed') {
      assert HoldsAt(fs, g, disk, store, owed) && Backed(fs, table, g) && Backed(fs, table, f);
    }
    forall p | p !in table ensures Agree(disk, store, p) {
    }
  }

  lemma WriteCurrent(fs: seq<Frame>, table: map<PageId, int>, disk: map<PageId, Data>, store: map<PageId, Data>,
                     owed: set<PageId>, f: int, data: Data)
    requires Tabled(fs, table) && Current(fs, table, disk, store, owed) && 0 <= f < |fs| && Held(fs[f])
    ensures Current(fs[f := fs[f].(data := data)], table, disk, store[fs[f].id := data], owed + {fs[f].id})
  {
    var fs', store', owed' := fs[f := fs[f].(data := data)], store[fs[f].id := data], owed + {fs[f].id};
    assert Backed(fs, table, f);
    forall g | 0 <= g < |fs'| ensures HoldsAt(fs', g, disk, store', owed') {
      assert HoldsAt(fs, g, disk, store, owed) && Backed(fs, table, g);
    }
    forall p | p !in table ensures Agree(disk, store', p) {
      assert Agree(disk, store, p);
    }
  }

  lemma FlushCurrent(fs: seq<Frame>, table: map<PageId, int>, disk: map<PageId, Data>, store: map<PageId, Data>,
                     owed: set<PageId>, f: int)
    requires Tabled(fs, table) && Current(fs, table, disk, store, owed) && 0 <= f < |fs| && Held(fs[f])
    ensures var fs', disk' := fs[f := fs[f].(dirty := false)], disk[fs[f].id := fs[f].data];
            && Current(fs', table, disk', store, owed - {fs[f].id})
            && Agree(disk', store, fs[f].id) && fs[f].data == At(store, fs[f].id)
  {
    var fs', disk', owed' := fs[f := fs[f].(dirty := false)], disk[fs[f].id := fs[f].data], owed - {fs[f].id};
    assert HoldsAt(fs, f, disk, store, owed) && Backed(fs, table, f);
    forall g | 0 <= g < |fs'| ensures HoldsAt(fs', g, disk', store, owed') {
      assert HoldsAt(fs, g, disk, store, owed) && Backed(fs, table, g);
    }
    forall p | p !in table ensures Agree(disk', store, p) {
      assert Agree(disk, store, p);
    }
  }

  /** The page, if the disk has something else than zeros for it. */
  function Stale(disk: map<PageId, Data>, p: PageId): set<PageId> {
    if At(disk, p) == ZeroPage() then {} else {p}
  }

  /** A new page starts as zeros, whatever the disk has there. */
  lemma FreshCurrent(fs: seq<Frame>, table: map<PageId, int>, disk: map<PageId, Data>, store: map<PageId, Data>,
                     owed: set<PageId>, f: int, p: PageId)
    requires Tabled(fs, table) && Current(fs, table, disk, store, owed) && 0 <= f < |fs| && p.pageNo >= 0
    requires (p in table ==> p == fs[f].id) && (!Held(fs[f]) ==> !fs[f].dirty)
    ensures var disk' := Written(disk, fs[f]);
      Current(fs[f := Frame(p, ZeroPage(), false, 1)], (table - {fs[f].id})[p := f], disk',
              Reverted(store, disk, fs[f], owed)[p := ZeroPage()], owed - {fs[f].id} + Stale(disk', p))
  {
    var blank := Frame(PageId(0, INVALID_PAGE), ZeroPage(), false, 0);
    var fs', table', disk' := fs[f := blank], table - {fs[f].id}, Written(disk, fs[f]);
    var store', owed' := Reverted(store, disk, fs[f], owed), owed - {fs[f].id};
    EvictCurrent(fs, table, disk, store, owed, f, blank, table');
    EmptyTabled(fs, table, f, blank);
    FirstCurrent(fs', table', disk', store', owed', f, p);
    assert fs'[f := Frame(p, ZeroPage(), false, 1)] == fs[f := Frame(p, ZeroPage(), false, 1)];
  }

  /** As above, for a frame without a page. */
  lemma FirstCurrent(fs: seq<Frame>, table: map<PageId, int>, disk: map<PageId, Data>, store: map<PageId, Data>,
                     owed: set<PageId>, f: int, p: PageId)
    requires Tabled(fs, table) && Current(fs, table, disk, store, owed) && 0 <= f < |fs| && p.pageNo >= 0 && p !in table
    requires !Held(fs[f]) && !fs[f].dirty
    ensures Current(fs[f := Frame(p, ZeroPage(), false, 1)], table[p := f], disk, store[p := ZeroPage()],
                    owed + Stale(disk, p))
  {
    var x := Frame(p, At(store, p), false, 1);
    assert fs[f].id in table ==> Mapped(fs, table, fs[f].id);
    assert table - {fs[f].id} == table && owed - {fs[f].id} == owed;
    assert Agree(disk, store, p);
    EvictCurrent(fs, table, disk, store, owed, f, x, table[p := f]);
    InstallTabled(fs, table, f, x);
    var fs', table', store' := fs[f := x], table[p := f], store[p := ZeroPage()];
    WriteCurrent(fs', table', disk, store, owed, f, ZeroPage());
    assert fs'[f := x.(data := ZeroPage())] == fs[f := Frame(p, ZeroPage(), false, 1)];
    if At(disk, p) == ZeroPage() {
      SettleCurrent(fs'[f := x.(data := ZeroPage())], table', disk, store', owed + {p}, p);
      assert owed + {p} - {p} == owed + Stale(disk, p);
    }
  }

  lemma EmptyTabled(fs: seq<Frame>, table: map<PageId, int>, f: int, x: Frame)
    requires Tabled(fs, table) && 0 <= f < |fs| && !Held(x)
    ensures Tabled(fs[f := x], table - {fs[f].id})
  {
    if Held(fs[f]) {
      VacateTabled(fs, table, f, x);
    } else {
      assert fs[f].id in table ==> Mapped(fs, table, fs[f].id);
      assert table - {fs[f].id} == table;
      var fs' := fs[f := x];
      forall p | p in table ensures Mapped(fs', table, p) {
        assert Mapped(fs, table, p);
      }
      forall g | 0 <= g < |fs'| ensures Backed(fs', table, g) {
        assert Backed(fs, table, g);
      }
    }
  }

  /** A page whose contents the disk has is not owed. */
  lemma SettleCurrent(fs: seq<Frame>, table: map<PageId, int>, disk: map<PageId, Data>, store: map<PageId, Data>,
                      owed: set<PageId>, p: PageId)
    requires Current(fs, table, disk, store, owed) && Agree(disk, store, p)
    ensures Current(fs, table, disk, store, owed - {p})
  {
    forall g | 0 <= g < |fs| ensures HoldsAt(fs, g, disk, store, owed - {p}) {
      assert HoldsAt(fs, g, disk, store, owed);
    }
    forall q | q !in table ensures Agree(disk, store, q) {
    }
  }

  // ---------- file lengths and page numbers ----------

  ghost predicate InFile(extent: map<int, nat>, p: PageId) {
    0 <= p.pageNo < Next(extent, p.fd)
  }

  /** What has been written lies inside its file. */
  ghost predicate Extended(disk: map<PageId, Data>, extent: map<int, nat>) {
    forall p {:trigger InFile(extent, p)} :: p in disk ==> InFile(extent, p)
  }

  function Reaching(extent: map<int, nat>, p: PageId): map<int, nat> {
    if p.pageNo >= Next(extent, p.fd) && p.pageNo >= 0 then extent[p.fd := p.pageNo + 1] else extent
  }

  function Grown(extent: map<int, nat>, f: Frame): map<int, nat> {
    if f.dirty then Reaching(extent, f.id) else extent
  }

  lemma ExtendOne(disk: map<PageId, Data>, extent: map<int, nat>, p: PageId, data: Data)
    requires Extended(disk, extent) && p.pageNo >= 0
    ensures Extended(disk[p := data], Reaching(extent, p))
  {
    var disk', extent' := disk[p := data], Reaching(extent, p);
    forall q | q in disk' ensures InFile(extent', q) {
      assert q in disk ==> InFile(extent, q);
    }
  }

  lemma ExtendWritten(fs: seq<Frame>, table: map<PageId, int>, disk: map<PageId, Data>, extent: map<int, nat>, f: int)
    requires Tabled(fs, table) && Extended(disk, extent) && 0 <= f < |fs| && (!Held(fs[f]) ==> !fs[f].dirty)
    ensures Extended(Written(disk, fs[f]), Grown(extent, fs[f]))
  {
    assert Backed(fs, table, f);
    if fs[f].dirty {
      assert Mapped(fs, table, fs[f].id);
      ExtendOne(disk, extent, fs[f].id, fs[f].data);
    }
  }

  lemma BeyondIsZero(disk: map<PageId, Data>, extent: map<int, nat>, p: PageId)
    requires Extended(disk, extent) && p.pageNo >= Next(extent, p.fd)
    ensures At(disk, p) == ZeroPage()
  {
    assert !InFile(extent, p);
  }

  ghost predicate Below(next: map<int, nat>, p: PageId) {
    p.pageNo < Next(next, p.fd)
  }

  ghost predicate Counted(extent: map<int, nat>, next: map<int, nat>, fd: int) {
    Next(extent, fd) <= Next(next, fd)
  }

  /** Only page numbers that were handed out are in use. */
  ghost predicate Numbered(table: map<PageId, int>, extent: map<int, nat>, next: map<int, nat>) {
    && (forall p {:trigger Below(next, p)} :: p in table ==> Below(next, p))
    && forall fd {:trigger Counted(extent, next, fd)} :: Counted(extent, next, fd)
  }

  lemma ReachNumbered(table: map<PageId, int>, extent: map<int, nat>, next: map<int, nat>, p: PageId)
    requires Numbered(table, extent, next) && p in table
    ensures Numbered(table, Reaching(extent, p), next)
  {
    assert Below(next, p);
    forall fd ensures Counted(Reaching(extent, p), next, fd) {
      assert Counted(extent, next, fd);
    }
  }

  lemma GrowNumbered(fs: seq<Frame>, table: map<PageId, int>, extent: map<int, nat>, next: map<int, nat>, f: int)
    requires Tabled(fs, table) && Numbered(table, extent, next) && 0 <= f < |fs| && (!Held(fs[f]) ==> !fs[f].dirty)
    ensures Numbered(table, Grown(extent, fs[f]), next)
  {
    assert Backed(fs, table, f);
    if fs[f].dirty {
      ReachNumbered(table, extent, next, fs[f].id);
    }
  }

  /** Resident pages after a change were resident before, or are numbered. */
  lemma RemapNumbered(table: map<PageId, int>, extent: map<int, nat>, next: map<int, nat>, table': map<PageId, int>,
                      p: PageId)
    requires Numbered(table, extent, next) && (p in table' ==> Below(next, p))
    requires forall q :: q in table' ==> q in table || q == p
    ensures Numbered(table', extent, next)
  {
    forall q | q in table' ensures Below(next, q) {
    }
    forall fd ensures Counted(extent, next, fd) {
    }
  }

  lemma InFileBelow(table: map<PageId, int>, extent: map<int, nat>, next: map<int, nat>, p: PageId)
    requires Numbered(table, extent, next) && p.pageNo < Next(extent, p.fd)
    ensures Below(next, p)
  {
    assert Counted(extent, next, p.fd);
  }

  /** The next number is unused, and handing it out keeps the order. */
  lemma NextIsFresh(table: map<PageId, int>, disk: map<PageId, Data>, extent: map<int, nat>, next: map<int, nat>,
                    fd: int)
    requires Numbered(table, extent, next) && Extended(disk, extent)
    ensures var p, next' := PageId(fd, Next(next, fd)), next[fd := Next(next, fd) + 1];
      p !in table && p !in disk && Below(next', p) && Numbered(table, extent, next')
  {
    var p, next' := PageId(fd, Next(next, fd)), next[fd := Next(next, fd) + 1];
    assert !Below(next, p) && Counted(extent, next, fd);
    assert p in disk ==> InFile(extent, p);
    forall q | q in table ensures Below(next', q) {
      assert Below(next, q);
    }
    forall d ensures Counted(extent, next', d) {
      assert Counted(extent, next, d);
    }
  }

  // ---------- flushing a file ----------

  /** The first n frames that hold pages of the file agree with the disk. */
  ghost predicate SyncedUpto(fs: seq<Frame>, n: int, fd: int, disk: map<PageId, Data>, store: map<PageId, Data>) {
    forall k {:trigger SyncedAt(fs, k, fd, disk, store)} :: 0 <= k < n && k < |fs| ==> SyncedAt(fs, k, fd, disk, store)
  }

  ghost predicate SyncedAt(fs: seq<Frame>, k: int, fd: int, disk: map<PageId, Data>, store: map<PageId, Data>)
    requires 0 <= k < |fs|
  {
    Held(fs[k]) && fs[k].id.fd == fd ==> Agree(disk, store, fs[k].id)
  }

  lemma SyncedOne(fs: seq<Frame>, i: int, fd: int, disk: map<PageId, Data>, store: map<PageId, Data>)
    requires 0 <= i < |fs| && SyncedUpto(fs, i, fd, disk, store) && fs[i].data == At(store, fs[i].id)
    ensures SyncedUpto(fs[i := fs[i].(dirty := false)], i + 1, fd, disk[fs[i].id := fs[i].data], store)
  {
    var fs', disk' := fs[i := fs[i].(dirty := false)], disk[fs[i].id := fs[i].data];
    forall k | 0 <= k < i + 1 ensures SyncedAt(fs', k, fd, disk', store) {
      assert k < i ==> SyncedAt(fs, k, fd, disk, store);
    }
  }

  lemma SyncedSkip(fs: seq<Frame>, i: int, fd: int, disk: map<PageId, Data>, store: map<PageId, Data>)
    requires 0 <= i < |fs| && SyncedUpto(fs, i, fd, disk, store) && !(Held(fs[i]) && fs[i].id.fd == fd)
    ensures SyncedUpto(fs, i + 1, fd, disk, store)
  {
  }

  lemma AllSynced(fs: seq<Frame>, table: map<PageId, int>, fd: int, disk: map<PageId, Data>, store: map<PageId, Data>,
                  owed: set<PageId>)
    requires Tabled(fs, table) && Current(fs, table, disk, store, owed) && SyncedUpto(fs, |fs|, fd, disk, store)
    ensures forall p: PageId :: p.fd == fd ==> At(disk, p) == At(store, p)
  {
    forall p: PageId | p.fd == fd ensures At(disk, p) == At(store, p) {
      if p in table {
        assert Mapped(fs, table, p) && SyncedAt(fs, table[p], fd, disk, store);
      } else {
        assert Agree(disk, store, p);
      }
    }
  }

  function Released(f: Frame, dirty: bool): Frame
    requires f.pin > 0
  {
    f.(pin := f.pin - 1, dirty := f.dirty || dirty)
  }
}
