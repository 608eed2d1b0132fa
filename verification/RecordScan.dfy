/** Scanning a record file in page and slot order. */
module RecordScan {
  import opened Common
  import opened Bitmap
  import opened FreeSlots
  import opened RecordFiles

  /** The rids of `live` from a position on, for m pages of n slots. */
  function LiveFrom(live: set<Rid>, m: nat, n: nat, p: nat, s: nat): seq<Rid>
    decreases m - p, n - s
  {
    if p >= m then []
    else if s >= n then LiveFrom(live, m, n, p + 1, 0)
    else (if Rid(p, s) in live then [Rid(p, s)] else []) + LiveFrom(live, m, n, p, s + 1)
  }

  predicate Before(a: Rid, b: Rid) {
    a.pageNo < b.pageNo || (a.pageNo == b.pageNo && a.slotNo < b.slotNo)
  }

  ghost predicate Sorted(l: seq<Rid>) {
    forall i, j :: 0 <= i < j < |l| ==> Before(l[i], l[j])
  }

  ghost predicate Within(live: set<Rid>, m: nat, n: nat) {
    forall r :: r in live ==> 1 <= r.pageNo < m && 0 <= r.slotNo < n
  }

  lemma HeadMember(live: set<Rid>, here: Rid, rest: seq<Rid>, r: Rid)
    requires r in rest <==> r in live && !Before(r, Rid(here.pageNo, here.slotNo + 1))
    ensures r in (if here in live then [here] else []) + rest <==> r in live && !Before(r, here)
  {
    assert Before(r, Rid(here.pageNo, here.slotNo + 1)) <==> Before(r, here) || r == here;
  }

  lemma {:induction false} LiveMember(live: set<Rid>, m: nat, n: nat, p: nat, s: nat, r: Rid)
    requires Within(live, m, n)
    ensures r in LiveFrom(live, m, n, p, s) <==> r in live && !Before(r, Rid(p, s))
    decreases m - p, n - s
  {
    if p < m {
      if s >= n {
        LiveMember(live, m, n, p + 1, 0, r);
      } else {
        LiveMember(live, m, n, p, s + 1, r);
        HeadMember(live, Rid(p, s), LiveFrom(live, m, n, p, s + 1), r);
      }
    }
  }

  lemma {:induction false} LiveSorted(live: set<Rid>, m: nat, n: nat, p: nat, s: nat)
    requires Within(live, m, n)
    ensures Sorted(LiveFrom(live, m, n, p, s))
    decreases m - p, n - s
  {
    if p < m {
      if s >= n {
        LiveSorted(live, m, n, p + 1, 0);
      } else {
        LiveSorted(live, m, n, p, s + 1);
        var l := LiveFrom(live, m, n, p, s + 1);
        forall j | 0 <= j < |l| ensures Before(Rid(p, s), l[j]) {
          LiveMember(live, m, n, p, s + 1, l[j]);
        }
        SortedCons(Rid(p, s), l);
        assert [] + l == l;
      }
    }
  }

  lemma SortedCons(r: Rid, l: seq<Rid>)
    requires Sorted(l) && forall j :: 0 <= j < |l| ==> Before(r, l[j])
    ensures Sorted([r] + l)
  {
  }

  /** The records of a file in page and slot order. */
  function AllRids(bits: seq<seq<bool>>, n: nat): seq<Rid> {
    LiveFrom(RidsOf(bits), |bits|, n, 1, 0)
  }

  /** That order lists every record of the file, and each once. */
  lemma ScanListsFile(file: RecordFile, r: Rid)
    requires file.Valid()
    ensures r in AllRids(file.bits, file.perPage) <==> r in file.view
    ensures Sorted(AllRids(file.bits, file.perPage))
  {
    var live, m, n := RidsOf(file.bits), |file.bits|, file.perPage;
    forall q | q in live ensures 1 <= q.pageNo < m && 0 <= q.slotNo < n {
      assert PageOk(file.pages[q.pageNo], file.bits[q.pageNo], n);
    }
    RidsOfAre(file.bits, r);
    LiveMember(live, m, n, 1, 0, r);
    LiveSorted(live, m, n, 1, 0);
  }

  lemma {:induction false} SkipDead(live: set<Rid>, m: nat, n: nat, p: nat, s: nat, t: nat)
    requires s <= t <= n && p < m && forall i :: s <= i < t ==> Rid(p, i) !in live
    ensures LiveFrom(live, m, n, p, s) == LiveFrom(live, m, n, p, t)
    decreases t - s
  {
    if s < t {
      SkipDead(live, m, n, p, s + 1, t);
      assert Rid(p, s) !in live;
      assert [] + LiveFrom(live, m, n, p, s + 1) == LiveFrom(live, m, n, p, s + 1);
    }
  }

  /** From a set bit found by next_bit, or from the next page when there was none. */
  lemma Found(live: set<Rid>, m: nat, n: nat, p: nat, curr: int, slot: nat)
    requires p < m && -1 <= curr < slot <= n
    requires forall i :: curr < i < slot ==> Rid(p, i) !in live
    requires slot < n ==> Rid(p, slot) in live
    ensures var l := LiveFrom(live, m, n, p, curr + 1);
            if slot < n then l == [Rid(p, slot)] + LiveFrom(live, m, n, p, slot + 1)
            else l == LiveFrom(live, m, n, p + 1, 0)
  {
    SkipDead(live, m, n, p, curr + 1, slot);
  }

  /** next_bit on a page's bitmap, in terms of rids. */
  method NextSlot(file: RecordFile, p: int, curr: int) returns (slot: int)
    requires file.Valid() && 1 <= p < file.numPages && -1 <= curr < file.perPage
    ensures curr < slot <= file.perPage
    ensures var live, m, n := RidsOf(file.bits), |file.bits|, file.perPage;
            var l := LiveFrom(live, m, n, p, curr + 1);
            if slot < n then l == [Rid(p, slot)] + LiveFrom(live, m, n, p, slot + 1)
            else l == LiveFrom(live, m, n, p + 1, 0)
  {
    ghost var bs := file.bits[p];
    assert PageOk(file.pages[p], bs, file.perPage);
    slot := NextOf(true, file.pages[p].bitmap, bs, file.perPage, curr);
    ghost var live := RidsOf(file.bits);
    forall i | curr < i < slot ensures Rid(p, i) !in live {
      RidsOfAre(file.bits, Rid(p, i));
    }
    RidsOfAre(file.bits, Rid(p, slot));
    Found(live, |file.bits|, file.perPage, p, curr, slot);
  }

  class RmScan {
    const file: RecordFile
    var rid: Rid
    // The rids still to be visited, the current one first.
    ghost var rest: seq<Rid>

    ghost predicate Valid()
      reads this, file
    {
      && file.Valid()
      && (rid.pageNo == NO_PAGE <==> rest == [])
      && (rest != [] ==>
            1 <= rid.pageNo && 0 <= rid.slotNo < file.perPage && rest == [rid] + From(rid.slotNo + 1))
    }

    ghost function From(slot: nat): seq<Rid>
      requires rid.pageNo >= 0
      reads this, file
    {
      LiveFrom(RidsOf(file.bits), |file.bits|, file.perPage, rid.pageNo, slot)
    }

    constructor (file: RecordFile)
      requires file.Valid()
      ensures Valid() && this.file == file && rest == AllRids(file.bits, file.perPage)
    {
      this.file, rid, rest := file, Rid(1, -1), [];
      new;
      Advance();
    }

    method IsEnd() returns (end: bool)
      requires Valid()
      ensures end <==> rest == []
    {
      end := rid.pageNo == NO_PAGE;
    }

    method Next()
      requires Valid() && rest != []
      modifies this
      ensures Valid() && rest == old(rest)[1..]
    {
      Advance();
    }

    /** The loop of next: on to the next set bit, page by page. */
    method Advance()
      requires file.Valid() && 1 <= rid.pageNo && -1 <= rid.slotNo < file.perPage
      modifies this
      ensures Valid() && rest == old(From(rid.slotNo + 1))
    {
      rest := From(rid.slotNo + 1);
      while rid.pageNo < file.numPages
        invariant file.Valid() && 1 <= rid.pageNo && -1 <= rid.slotNo < file.perPage
        invariant rest == From(rid.slotNo + 1) == old(From(rid.slotNo + 1))
        decreases file.numPages - rid.pageNo
      {
        var slot := NextSlot(file, rid.pageNo, rid.slotNo);
        if slot < file.perPage {
          rid := Rid(rid.pageNo, slot);
          return;
        }
        rid := Rid(rid.pageNo + 1, -1);
      }
      rid := Rid(NO_PAGE, rid.slotNo);
    }
  }

  /** A scan of an unchanging file visits every record once, in order, and ends. */
  method ScanAll(file: RecordFile) returns (rids: seq<Rid>)
    requires file.Valid()
    ensures rids == AllRids(file.bits, file.perPage)
  {
    var scan := new RmScan(file);
    ghost var all := scan.rest;
    rids := [];
    var end := scan.IsEnd();
    while !end
      invariant scan.Valid() && scan.file == file && rids + scan.rest == all && (end <==> scan.rest == [])
      decreases |scan.rest|
    {
      Shift(rids, scan.rest);
      rids := rids + [scan.rid];
      scan.Next();
      end := scan.IsEnd();
    }
    assert rids == all;
  }
}
