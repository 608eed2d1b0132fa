/** A table's record file: pages of slots with bitmaps, and a linked list of the pages
    that still have room. Page 0 is the file header, records start on page 1. */
module RecordFiles {
  import opened Common
  import opened Bitmap
  import opened FreeSlots
  import Layout

  type Record = seq<int>

  datatype Page = Page(nextFree: int, numRecords: int, bitmap: seq<bv8>, slots: seq<Record>)

  // What delete_record and update_record can end in.
  datatype Outcome = Done | Refused | PageNotExist

  // ---------- pages ----------

  /** The page header counts the live slots bs. */
  ghost predicate PageOk(p: Page, bs: seq<bool>, n: nat) {
    |bs| == n && |p.slots| == n && Reads(p.bitmap, bs) && p.numRecords == Trues(bs)
  }

  ghost predicate SlotKept(was: seq<Page>, now: seq<Page>, p: int, s: int) {
    0 <= p < |was| && 0 <= s < |was[p].slots| ==>
      p < |now| && s < |now[p].slots| && now[p].slots[s] == was[p].slots[s]
  }

  /** Every slot but that of r has the bytes it had, live or not. */
  ghost predicate OtherBytesKept(was: seq<Page>, now: seq<Page>, r: Option<Rid>) {
    forall p, s {:trigger SlotKept(was, now, p, s)} :: r == Some(Rid(p, s)) || SlotKept(was, now, p, s)
  }

  lemma KeptThen(a: seq<Page>, b: seq<Page>, c: seq<Page>, r: Option<Rid>)
    requires OtherBytesKept(a, b, None) && OtherBytesKept(b, c, r)
    ensures OtherBytesKept(a, c, r)
  {
    forall p, s ensures r == Some(Rid(p, s)) || SlotKept(a, c, p, s) {
      assert SlotKept(a, b, p, s) && (r == Some(Rid(p, s)) || SlotKept(b, c, p, s));
    }
  }

  /** One page changes, in one slot or in none. */
  lemma KeptAround(pages: seq<Page>, p: int, x: Page, slot: Option<int>)
    requires 0 <= p < |pages| && |x.slots| == |pages[p].slots|
    requires forall s :: 0 <= s < |x.slots| && slot != Some(s) ==> x.slots[s] == pages[p].slots[s]
    ensures OtherBytesKept(pages, pages[p := x], if slot.Some? then Some(Rid(p, slot.value)) else None)
  {
  }

  /** bits mirrors the bitmap of every record page. */
  ghost predicate PagesOk(pages: seq<Page>, bits: seq<seq<bool>>, n: nat) {
    && n > 0 && |pages| > 0 && |bits| == |pages|
    && forall i {:trigger PageOk(pages[i], bits[i], n)} :: 1 <= i < |pages| ==> PageOk(pages[i], bits[i], n)
  }

  predicate Live(bits: seq<seq<bool>>, r: Rid) {
    1 <= r.pageNo < |bits| && 0 <= r.slotNo < |bits[r.pageNo]| && bits[r.pageNo][r.slotNo]
  }

  predicate HasSlot(pages: seq<Page>, r: Rid) {
    1 <= r.pageNo < |pages| && 0 <= r.slotNo < |pages[r.pageNo].slots|
  }

  function RidsOf(bits: seq<seq<bool>>): set<Rid> {
    set p, s | 1 <= p < |bits| && 0 <= s < |bits[p]| && Live(bits, Rid(p, s)) :: Rid(p, s)
  }

  lemma RidsOfAre(bits: seq<seq<bool>>, r: Rid)
    ensures r in RidsOf(bits) <==> Live(bits, r)
  {
    assert Live(bits, r) ==> Rid(r.pageNo, r.slotNo) == r;
  }

  /** The file as a map from record ids to records. */
  ghost predicate Shows(pages: seq<Page>, bits: seq<seq<bool>>, m: map<Rid, Record>) {
    && (forall r :: r in m <==> Live(bits, r))
    && forall r :: r in m ==> HasSlot(pages, r) && m[r] == pages[r.pageNo].slots[r.slotNo]
  }

  // ---------- headers ----------

  function HeadOf(p: Page): Head {
    Head(p.nextFree, p.numRecords)
  }

  function Heads(pages: seq<Page>): (hs: seq<Head>)
    ensures |hs| == |pages| && forall i :: 0 <= i < |pages| ==> hs[i] == HeadOf(pages[i])
  {
    if pages == [] then [] else Heads(pages[..|pages| - 1]) + [HeadOf(pages[|pages| - 1])]
  }

  lemma HeadsUpdate(pages: seq<Page>, p: int, x: Page)
    requires 0 <= p < |pages|
    ensures Heads(pages[p := x]) == Heads(pages)[p := HeadOf(x)]
  {
  }

  lemma HeadsAdd(pages: seq<Page>, x: Page)
    ensures Heads(pages + [x]) == Heads(pages) + [HeadOf(x)]
  {
  }

  // ---------- one page changes ----------

  lemma PageChanged(pages: seq<Page>, bits: seq<seq<bool>>, n: nat, p: int, x: Page, bs: seq<bool>)
    requires PagesOk(pages, bits, n) && 1 <= p < |pages| && PageOk(x, bs, n)
    ensures PagesOk(pages[p := x], bits[p := bs], n)
  {
    var pages', bits' := pages[p := x], bits[p := bs];
    forall i | 1 <= i < |pages'| ensures PageOk(pages'[i], bits'[i], n) {
      assert i != p ==> PageOk(pages[i], bits[i], n);
    }
  }

  lemma PageAdded(pages: seq<Page>, bits: seq<seq<bool>>, n: nat, x: Page, bs: seq<bool>)
    requires PagesOk(pages, bits, n) && PageOk(x, bs, n)
    ensures PagesOk(pages + [x], bits + [bs], n)
  {
    var pages', bits' := pages + [x], bits + [bs];
    forall i | 1 <= i < |pages'| ensures PageOk(pages'[i], bits'[i], n) {
      assert i < |pages| ==> PageOk(pages[i], bits[i], n);
    }
  }

  lemma SetShows(pages: seq<Page>, bits: seq<seq<bool>>, m: map<Rid, Record>, p: int, s: int, x: Page, buf: Record)
    requires Shows(pages, bits, m) && |bits| == |pages| && 1 <= p < |pages| && 0 <= s < |pages[p].slots| == |bits[p]|
    requires x.slots == pages[p].slots[s := buf]
    ensures Shows(pages[p := x], bits[p := bits[p][s := true]], m[Rid(p, s) := buf])
  {
    var pages', bits', m' := pages[p := x], bits[p := bits[p][s := true]], m[Rid(p, s) := buf];
    forall r ensures Live(bits', r) <==> Live(bits, r) || r == Rid(p, s) {
    }
    forall r | r in m' ensures HasSlot(pages', r) && m'[r] == pages'[r.pageNo].slots[r.slotNo] {
      assert r != Rid(p, s) ==> r in m && HasSlot(pages, r);
    }
  }

  lemma ResetShows(pages: seq<Page>, bits: seq<seq<bool>>, m: map<Rid, Record>, p: int, s: int, x: Page)
    requires Shows(pages, bits, m) && |bits| == |pages| && 1 <= p < |pages| && 0 <= s < |bits[p]|
    requires x.slots == pages[p].slots
    ensures Shows(pages[p := x], bits[p := bits[p][s := false]], m - {Rid(p, s)})
  {
    var pages', bits', m' := pages[p := x], bits[p := bits[p][s := false]], m - {Rid(p, s)};
    forall r ensures Live(bits', r) <==> Live(bits, r) && r != Rid(p, s) {
    }
    forall r | r in m' ensures HasSlot(pages', r) && m'[r] == pages'[r.pageNo].slots[r.slotNo] {
      assert HasSlot(pages, r);
    }
  }

  lemma UpdateShows(pages: seq<Page>, bits: seq<seq<bool>>, m: map<Rid, Record>, p: int, s: int, x: Page, buf: Record)
    requires Shows(pages, bits, m) && 1 <= p < |pages| && 0 <= s < |pages[p].slots|
    requires x.slots == pages[p].slots[s := buf]
    ensures Shows(pages[p := x], bits, if Rid(p, s) in m then m[Rid(p, s) := buf] else m)
  {
    var pages', m' := pages[p := x], if Rid(p, s) in m then m[Rid(p, s) := buf] else m;
    forall r | r in m' ensures HasSlot(pages', r) && m'[r] == pages'[r.pageNo].slots[r.slotNo] {
      assert HasSlot(pages, r);
    }
  }

  lemma AddShows(pages: seq<Page>, bits: seq<seq<bool>>, m: map<Rid, Record>, x: Page, bs: seq<bool>)
    requires Shows(pages, bits, m) && |bits| == |pages| && forall i :: 0 <= i < |bs| ==> !bs[i]
    ensures Shows(pages + [x], bits + [bs], m)
  {
    var pages', bits' := pages + [x], bits + [bs];
    forall r ensures Live(bits', r) <==> Live(bits, r) {
    }
    forall r | r in m ensures HasSlot(pages', r) && m[r] == pages'[r.pageNo].slots[r.slotNo] {
      assert HasSlot(pages, r);
    }
  }

  /** A cleared slot: the count of the page stays right exactly when the slot was live. */
  lemma DeletePage(x: Page, page: Page, bs: seq<bool>, n: nat, s: int)
    requires PageOk(page, bs, n) && 0 <= s < n && InBitmap(page.bitmap, s)
    requires x.bitmap == Reset(page.bitmap, s) && x.slots == page.slots && x.numRecords == page.numRecords - 1
    ensures bs[s] ==> PageOk(x, bs[s := false], n)
    ensures !bs[s] ==> Reads(x.bitmap, bs) && !PageOk(x, bs, n)
  {
    ResetReads(page.bitmap, bs, s);
    TruesUpdate(bs, s, false);
    assert !bs[s] ==> bs[s := false] == bs;
  }

  /** The page, the records and the list after a live slot is cleared. */
  lemma DeleteLive(pages: seq<Page>, bits: seq<seq<bool>>, m: map<Rid, Record>, n: nat, first: int, chain: seq<int>,
                   r: Rid, x: Page)
    requires PagesOk(pages, bits, n) && Shows(pages, bits, m) && ChainOk(Heads(pages), n, first, chain) && Live(bits, r)
    requires InBitmap(pages[r.pageNo].bitmap, r.slotNo) && x.bitmap == Reset(pages[r.pageNo].bitmap, r.slotNo)
    requires x.slots == pages[r.pageNo].slots && x.numRecords == pages[r.pageNo].numRecords - 1
    requires x.nextFree == if x.numRecords == n - 1 then first else pages[r.pageNo].nextFree
    ensures var pages', bits' := pages[r.pageNo := x], bits[r.pageNo := bits[r.pageNo][r.slotNo := false]];
      && PagesOk(pages', bits', n) && Shows(pages', bits', m - {r})
      && (if x.numRecords == n - 1 then ChainOk(Heads(pages'), n, r.pageNo, [r.pageNo] + chain)
          else ChainOk(Heads(pages'), n, first, chain))
  {
    var p := r.pageNo;
    assert PageOk(pages[p], bits[p], n);
    DeletePage(x, pages[p], bits[p], n, r.slotNo);
    PageChanged(pages, bits, n, p, x, bits[p][r.slotNo := false]);
    ResetShows(pages, bits, m, p, r.slotNo, x);
    HeadsUpdate(pages, p, x);
    if x.numRecords == n - 1 {
      ChainPush(Heads(pages), n, first, chain, p, HeadOf(x));
    } else {
      ChainSame(Heads(pages), n, first, chain, p, HeadOf(x));
    }
  }

  /** The page, the records and the list after a free slot of the first page with room is
      filled. */
  lemma FillFree(pages: seq<Page>, bits: seq<seq<bool>>, m: map<Rid, Record>, n: nat, first: int, chain: seq<int>,
                 slot: int, x: Page, buf: Record)
    requires PagesOk(pages, bits, n) && Shows(pages, bits, m) && ChainOk(Heads(pages), n, first, chain)
    requires chain != [] && 1 <= first < |pages| && 0 <= slot < |bits[first]| && !bits[first][slot]
    requires InBitmap(pages[first].bitmap, slot) && slot < |pages[first].slots|
    requires x == Page(pages[first].nextFree, pages[first].numRecords + 1, Set(pages[first].bitmap, slot),
                       pages[first].slots[slot := buf])
    ensures var pages', bits' := pages[first := x], bits[first := bits[first][slot := true]];
      && Rid(first, slot) !in m
      && PagesOk(pages', bits', n) && Shows(pages', bits', m[Rid(first, slot) := buf])
      && (if x.numRecords == n then ChainOk(Heads(pages'), n, x.nextFree, chain[1..])
          else ChainOk(Heads(pages'), n, first, chain))
  {
    var page, bs := pages[first], bits[first];
    assert PageOk(page, bs, n) && !Live(bits, Rid(first, slot));
    SetReads(page.bitmap, bs, slot);
    TruesUpdate(bs, slot, true);
    PageChanged(pages, bits, n, first, x, bs[slot := true]);
    SetShows(pages, bits, m, first, slot, x, buf);
    HeadHasRoom(Heads(pages), n, first, chain);
    HeadsUpdate(pages, first, x);
    if x.numRecords == n {
      ChainPop(Heads(pages), n, first, chain, HeadOf(x));
    } else {
      ChainSame(Heads(pages), n, first, chain, first, HeadOf(x));
    }
  }

  lemma FilledHeads(f: File, pages: seq<Page>, x: Page)
    requires f.heads == Heads(pages) && 1 <= f.firstFree < |pages|
    requires HeadOf(x) == Head(pages[f.firstFree].nextFree, pages[f.firstFree].numRecords + 1)
    ensures Filled(f) == File(f.perPage, if x.numRecords == f.perPage then x.nextFree else f.firstFree,
                              Heads(pages[f.firstFree := x]))
  {
    HeadsUpdate(pages, f.firstFree, x);
  }

  lemma ClearedHeads(f: File, pages: seq<Page>, p: int, x: Page)
    requires f.heads == Heads(pages) && 1 <= p < |pages|
    requires x.numRecords == pages[p].numRecords - 1
    requires x.nextFree == if x.numRecords == f.perPage - 1 then f.firstFree else pages[p].nextFree
    ensures Cleared(f, p) == File(f.perPage, if x.numRecords == f.perPage - 1 then p else f.firstFree,
                                  Heads(pages[p := x]))
  {
    HeadsUpdate(pages, p, x);
  }

  ghost predicate Consistency(pages: seq<Page>, n: nat, first: int) {
    exists bs, m, c {:trigger PagesOk(pages, bs, n), Shows(pages, bs, m), ChainOk(Heads(pages), n, first, c)} ::
      PagesOk(pages, bs, n) && Shows(pages, bs, m) && ChainOk(Heads(pages), n, first, c)
  }

  /** After a dead slot is cleared, the page's count fits no reading of its bitmap. */
  lemma DeleteDead(pages: seq<Page>, bits: seq<seq<bool>>, n: nat, r: Rid, x: Page, first: int)
    requires PagesOk(pages, bits, n) && 1 <= r.pageNo < |pages| && 0 <= r.slotNo < n && !Live(bits, r)
    requires InBitmap(pages[r.pageNo].bitmap, r.slotNo) && x.bitmap == Reset(pages[r.pageNo].bitmap, r.slotNo)
    requires x.slots == pages[r.pageNo].slots && x.numRecords == pages[r.pageNo].numRecords - 1
    ensures !Consistency(pages[r.pageNo := x], n, first)
  {
    var p, pages' := r.pageNo, pages[r.pageNo := x];
    assert PageOk(pages[p], bits[p], n);
    DeletePage(x, pages[p], bits[p], n, r.slotNo);
    forall bs: seq<seq<bool>> ensures !PagesOk(pages', bs, n) {
      if |bs| == |pages'| && PageOk(pages'[p], bs[p], n) {
        ReadsOnce(x.bitmap, bits[p], bs[p]);
      }
    }
  }

  /** Only one sequence of a given length reads off a bitmap. */
  lemma ReadsOnce(bm: seq<bv8>, bs: seq<bool>, cs: seq<bool>)
    requires Reads(bm, bs) && Reads(bm, cs) && |bs| == |cs|
    ensures bs == cs
  {
    forall i | 0 <= i < |bs| ensures bs[i] == cs[i] {
      assert BitIs(bm, bs, i) && BitIs(bm, cs, i);
    }
  }

  class RecordFile {
    const perPage: nat
    const bitmapSize: nat
    var pages: seq<Page>
    var numPages: int
    var firstFree: int
    // The bits of each page, the pages with room in list order, and the records.
    ghost var bits: seq<seq<bool>>
    ghost var chain: seq<int>
    ghost var view: map<Rid, Record>

    function Header(): File
      reads this
    {
      File(perPage, firstFree, Heads(pages))
    }

    ghost predicate Valid()
      reads this
    {
      && numPages == |pages| && perPage <= BITMAP_WIDTH * bitmapSize
      && PagesOk(pages, bits, perPage) && Shows(pages, bits, view) && Listed(Header(), chain)
    }

    /** Whatever one takes for the ghost bits, records and list: the pages are a record file. */
    ghost predicate Consistent()
      reads this
    {
      Consistency(pages, perPage, firstFree)
    }

    /** A rid whose page and slot exist. */
    predicate InFile(r: Rid)
      reads this
    {
      1 <= r.pageNo < |pages| && 0 <= r.slotNo < perPage
    }

    constructor (perPage: nat, bitmapSize: nat)
      requires 0 < perPage <= BITMAP_WIDTH * bitmapSize
      ensures Valid() && view == map[] && this.perPage == perPage
    {
      this.perPage, this.bitmapSize := perPage, bitmapSize;
      pages, numPages, firstFree := [Page(NO_PAGE, 0, [], [])], 1, NO_PAGE;
      bits, chain, view := [[]], [], map[];
    }

    /** The slot's bytes, which are the record when the rid is live. */
    method GetRecord(r: Rid) returns (buf: Option<Record>)
      requires Valid() && (r.pageNo == NO_PAGE || InFile(r))
      ensures buf == None <==> r.pageNo == NO_PAGE
      ensures r in view ==> buf == Some(view[r])
      ensures buf.Some? ==> r.slotNo < |pages[r.pageNo].slots| && buf.value == pages[r.pageNo].slots[r.slotNo]
    {
      if r.pageNo == NO_PAGE {
        return None;
      }
      assert PageOk(pages[r.pageNo], bits[r.pageNo], perPage);
      return Some(pages[r.pageNo].slots[r.slotNo]);
    }

    /** create_page_handle: the head of the list, or a new empty page put there. */
    method CreatePageHandle() returns (p: int)
      requires Valid()
      modifies this`pages, this`numPages, this`firstFree, this`bits, this`chain
      ensures Valid() && p == firstFree && chain != [] && chain[0] == p && 1 <= p < numPages
      ensures Header() == Opened(old(Header())) && OtherBytesKept(old(pages), pages, None)
      ensures old(firstFree) != NO_PAGE ==> pages == old(pages) && bits == old(bits) && firstFree == old(firstFree)
      ensures old(firstFree) == NO_PAGE ==> p == old(numPages) && |bits[p]| > 0 && !bits[p][0]
    {
      HeadHasRoom(Heads(pages), perPage, firstFree, chain);
      if firstFree == NO_PAGE {
        p := NewPageHandle();
      } else {
        p := firstFree;
      }
    }

    method NewPageHandle() returns (p: int)
      requires Valid() && chain == []
      modifies this`pages, this`numPages, this`firstFree, this`bits, this`chain
      ensures Valid() && p == firstFree == old(numPages) && chain == [p] && 1 <= p < numPages && |bits[p]| > 0
      ensures !bits[p][0] && Header() == Opened(old(Header())) && OtherBytesKept(old(pages), pages, None)
    {
      var x := Page(firstFree, 0, seq(bitmapSize, _ => 0), seq(perPage, _ => []));
      ghost var bs := seq(perPage, _ => false);
      ZerosRead(x.bitmap, bs);
      TruesNone(bs);
      PageAdded(pages, bits, perPage, x, bs);
      AddShows(pages, bits, view, x, bs);
      ChainNew(Heads(pages), perPage, firstFree, HeadOf(x));
      HeadsAdd(pages, x);
      p := numPages;
      pages, firstFree, numPages := pages + [x], p, numPages + 1;
      bits, chain := bits + [bs], [p];
    }

    /** Puts the record into the first free slot of the first page with room. A refused lock
        changes no record and leaves the list of pages with room intact. */
    method InsertRecord(buf: Record, refused: bool) returns (rid: Option<Rid>)
      requires Valid()
      modifies this
      ensures Valid() && (rid == None <==> refused)
      ensures rid == None ==> view == old(view)
      ensures rid.Some? ==> rid.value !in old(view) && view == old(view)[rid.value := buf]
      ensures rid.Some? && old(firstFree) != NO_PAGE ==>
        && rid.value.pageNo == old(firstFree)
        && forall s :: 0 <= s < rid.value.slotNo ==> Rid(old(firstFree), s) in old(view)
      ensures rid.Some? && old(firstFree) == NO_PAGE ==> rid.value == Rid(old(numPages), 0)
      ensures rid.Some? ==> rid.value == SlotFor(old(Header()), old(view.Keys))
      ensures Header() == if refused then Opened(old(Header())) else Filled(old(Header()))
      ensures OtherBytesKept(old(pages), pages, rid)
    {
      var p := CreatePageHandle();
      var slot := FindSlot(p);
      if refused {
        return None;
      }
      ghost var ready := pages;
      FillSlot(p, slot, buf);
      KeptThen(old(pages), ready, pages, Some(Rid(p, slot)));
      return Some(Rid(p, slot));
    }

    /** The first free slot of the page at the head of the list. */
    method FindSlot(p: int) returns (slot: int)
      requires Valid() && p == firstFree && chain != []
      ensures 1 <= p < |pages| && 0 <= slot < perPage == |bits[p]| && !bits[p][slot]
      ensures slot == FirstFree(view.Keys, p, 0, perPage)
    {
      HeadHasRoom(Heads(pages), perPage, firstFree, chain);
      assert PageOk(pages[p], bits[p], perPage);
      TruesFull(bits[p]);
      slot := NextOf(false, pages[p].bitmap, bits[p], perPage, -1);
      assert forall s :: 0 <= s < slot ==> Live(bits, Rid(p, s));
      assert !Live(bits, Rid(p, slot));
      IsFirstFree(view.Keys, p, slot, perPage);
    }

    method FillSlot(p: int, slot: int, buf: Record)
      requires Valid() && p == firstFree && chain != [] && chain[0] == p && InFile(Rid(p, slot))
      requires |bits[p]| == perPage && !bits[p][slot]
      modifies this
      ensures Valid() && Rid(p, slot) !in old(view) && view == old(view)[Rid(p, slot) := buf]
      ensures Header() == Filled(old(Header())) && OtherBytesKept(old(pages), pages, Some(Rid(p, slot)))
    {
      var page := pages[p];
      assert PageOk(page, bits[p], perPage);
      SetReads(page.bitmap, bits[p], slot);
      var x := page.(bitmap := Set(page.bitmap, slot), slots := page.slots[slot := buf],
                     numRecords := page.numRecords + 1);
      FillFree(pages, bits, view, perPage, firstFree, chain, slot, x, buf);
      FilledHeads(Header(), pages, x);
      KeptAround(pages, p, x, Some(slot));
      pages := pages[p := x];
      if x.numRecords == perPage {
        firstFree, chain := x.nextFree, chain[1..];
      }
      bits, view := bits[p := bits[p][slot := true]], view[Rid(p, slot) := buf];
    }

    /** delete_record: the bit is cleared and the count lowered without looking whether the
        slot was live; the file stays a record file exactly when it was. */
    method DeleteRecord(r: Rid, refused: bool) returns (o: Outcome)
      requires Valid() && (r.pageNo == NO_PAGE || InFile(r))
      modifies this
      ensures o == if refused then Refused else if r.pageNo == NO_PAGE then PageNotExist else Done
      ensures o != Done ==> Valid() && view == old(view)
      ensures Header() == if o == Done then Cleared(old(Header()), r.pageNo) else old(Header())
      ensures o == Done ==> (Consistent() <==> r in old(view))
      ensures o == Done && r in old(view) ==> Valid() && view == old(view) - {r}
      ensures OtherBytesKept(old(pages), pages, None)
    {
      if refused {
        return Refused;
      }
      if r.pageNo == NO_PAGE {
        return PageNotExist;
      }
      var page := pages[r.pageNo];
      assert PageOk(page, bits[r.pageNo], perPage);
      ResetReads(page.bitmap, bits[r.pageNo], r.slotNo);
      var x := page.(bitmap := Reset(page.bitmap, r.slotNo), numRecords := page.numRecords - 1);
      ghost var first, was := firstFree, pages;
      if x.numRecords == perPage - 1 {
        x := x.(nextFree := firstFree);
        firstFree := r.pageNo;
      }
      ClearedHeads(old(Header()), pages, r.pageNo, x);
      KeptAround(pages, r.pageNo, x, None);
      pages := pages[r.pageNo := x];
      Recount(was, first, r, x);
      return Done;
    }

    /** What becomes of the ghost bits, records and list. */
    ghost method Recount(was: seq<Page>, first: int, r: Rid, x: Page)
      requires PagesOk(was, bits, perPage) && Shows(was, bits, view) && ChainOk(Heads(was), perPage, first, chain)
      requires 1 <= r.pageNo < |was| && 0 <= r.slotNo < perPage && numPages == |was|
      requires InBitmap(was[r.pageNo].bitmap, r.slotNo) && x.bitmap == Reset(was[r.pageNo].bitmap, r.slotNo)
      requires x.slots == was[r.pageNo].slots && x.numRecords == was[r.pageNo].numRecords - 1
      requires x.nextFree == if x.numRecords == perPage - 1 then first else was[r.pageNo].nextFree
      requires pages == was[r.pageNo := x] && firstFree == if x.numRecords == perPage - 1 then r.pageNo else first
      requires perPage <= BITMAP_WIDTH * bitmapSize
      modifies this`bits, this`chain, this`view
      ensures Consistent() <==> r in old(view)
      ensures r in old(view) ==> Valid() && view == old(view) - {r}
    {
      if Live(bits, r) {
        DeleteLive(was, bits, view, perPage, first, chain, r, x);
        bits, view := bits[r.pageNo := bits[r.pageNo][r.slotNo := false]], view - {r};
        chain := if x.numRecords == perPage - 1 then [r.pageNo] + chain else chain;
        assert PagesOk(pages, bits, perPage) && Shows(pages, bits, view)
          && ChainOk(Heads(pages), perPage, firstFree, chain);
      } else {
        DeleteDead(was, bits, perPage, r, x, firstFree);
      }
    }

    method UpdateRecord(r: Rid, buf: Record, refused: bool) returns (o: Outcome)
      requires Valid() && (r.pageNo == NO_PAGE || InFile(r))
      modifies this`pages, this`view
      ensures Valid() && o == if refused then Refused else if r.pageNo == NO_PAGE then PageNotExist else Done
      ensures view == if o == Done && r in old(view) then old(view)[r := buf] else old(view)
      ensures Header() == old(Header()) && OtherBytesKept(old(pages), pages, if o == Done then Some(r) else None)
      ensures o == Done ==> r.slotNo < |pages[r.pageNo].slots| && pages[r.pageNo].slots[r.slotNo] == buf
    {
      if refused {
        return Refused;
      }
      if r.pageNo == NO_PAGE {
        return PageNotExist;
      }
      var p, page := r.pageNo, pages[r.pageNo];
      assert PageOk(page, bits[p], perPage);
      var x := page.(slots := page.slots[r.slotNo := buf]);
      PageChanged(pages, bits, perPage, p, x, bits[p]);
      UpdateShows(pages, bits, view, p, r.slotNo, x, buf);
      KeptAround(pages, p, x, Some(r.slotNo));
      HeadsUpdate(pages, p, x);
      ChainSame(Heads(pages), perPage, firstFree, chain, p, HeadOf(x));
      assert bits[p := bits[p]] == bits;
      pages := pages[p := x];
      view := if r in view then view[r := buf] else view;
      return Done;
    }
  }

  lemma {:induction false} TruesAreLive(bits: seq<seq<bool>>, live: set<Rid>, p: int, n: nat)
    requires 1 <= p < |bits| && n <= |bits[p]| && forall r :: r in live <==> Live(bits, r)
    ensures Trues(bits[p][..n]) == LiveOn(live, p, n)
  {
    if n > 0 {
      TruesAreLive(bits, live, p, n - 1);
      assert bits[p][..n][..n - 1] == bits[p][..n - 1];
      assert Live(bits, Rid(p, n - 1)) <==> bits[p][n - 1];
    }
  }

  /** The headers of a record file fit its records. */
  lemma ValidIsSound(file: RecordFile)
    requires file.Valid()
    ensures Sound(file.Header(), file.view.Keys)
  {
    var f, live := file.Header(), file.view.Keys;
    forall p | 1 <= p < |f.heads| ensures CountOk(f, live, p) {
      assert PageOk(file.pages[p], file.bits[p], file.perPage);
      TruesAreLive(file.bits, live, p, file.perPage);
      assert file.bits[p][..file.perPage] == file.bits[p];
    }
    forall r | r in live ensures 1 <= r.pageNo < |f.heads| && 0 <= r.slotNo < f.perPage {
      assert HasSlot(file.pages, r) && PageOk(file.pages[r.pageNo], file.bits[r.pageNo], file.perPage);
    }
    assert Listed(f, file.chain);
  }

  /** A record deleted and inserted again, as rollback does it: it is back under its own id
      exactly when its page was full, or its page was first on the list and every slot
      before its own was taken. */
  method PutBack(file: RecordFile, r: Rid) returns (back: Rid)
    requires file.Valid() && r in file.view
    modifies file
    ensures file.Valid() && back !in old(file.view) - {r}
    ensures file.view == (old(file.view) - {r})[back := old(file.view)[r]]
    ensures back == r <==> old(GoesBack(file.Header(), file.view.Keys, r))
  {
    ValidIsSound(file);
    DeleteThenInsert(file.Header(), file.view.Keys, r);
    assert HasSlot(file.pages, r) && PageOk(file.pages[r.pageNo], file.bits[r.pageNo], file.perPage);
    var buf := file.GetRecord(r);
    var _ := file.DeleteRecord(r, false);
    assert file.view.Keys == old(file.view.Keys) - {r};
    var rid := file.InsertRecord(buf.value, false);
    back := rid.value;
  }

  /** create_file: an empty file laid out for the record size, or InvalidRecordSize. */
  method CreateFile(recordSize: int) returns (file: Option<RecordFile>)
    ensures file == None <==> !(1 <= recordSize <= Layout.MAX_RECORD_SIZE)
    ensures file.Some? ==> fresh(file.value) && file.value.Valid() && file.value.view == map[]
    ensures file.Some? ==> file.value.perPage == Layout.SlotsPerPage(recordSize) >= 7
  {
    if recordSize < 1 || recordSize > Layout.MAX_RECORD_SIZE {
      return None;
    }
    Layout.EnoughSlots(recordSize);
    var n := Layout.SlotsPerPage(recordSize);
    var f := new RecordFile(n, Layout.BitmapSize(n));
    return Some(f);
  }

  /** In any file, a record inserted and deleted twice: both deletions report success, and
      after the second one the pages are no record file any more. */
  method DeleteTwice(file: RecordFile, buf: Record) returns (first: Outcome, second: Outcome)
    requires file.Valid()
    modifies file
    ensures first == second == Done && !file.Consistent()
  {
    var rid := file.InsertRecord(buf, false);
    var r := rid.value;
    assert HasSlot(file.pages, r) && PageOk(file.pages[r.pageNo], file.bits[r.pageNo], file.perPage);
    ghost var n := |file.Header().heads|;
    first := file.DeleteRecord(r, false);
    assert |file.Header().heads| == n;
    second := file.DeleteRecord(r, false);
  }
}
