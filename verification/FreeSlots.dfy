/** Where a record file puts its next record: the file header and the page headers as
    values, the list of pages with room, and the search for a slot. Page 0 is the file
    header, records start on page 1. */
module FreeSlots {
  import opened Common

  const NO_PAGE := -1

  datatype Head = Head(nextFree: int, numRecords: int)

  datatype File = File(perPage: nat, firstFree: int, heads: seq<Head>)

  // ---------- the list of pages with room ----------

  ghost predicate Linked(heads: seq<Head>, first: int, chain: seq<int>) {
    && first == (if chain == [] then NO_PAGE else chain[0])
    && forall i {:trigger Link(heads, chain, i)} :: 0 <= i < |chain| ==> Link(heads, chain, i)
  }

  predicate Link(heads: seq<Head>, chain: seq<int>, i: int)
    requires 0 <= i < |chain|
  {
    1 <= chain[i] < |heads| && heads[chain[i]].nextFree == if i + 1 < |chain| then chain[i + 1] else NO_PAGE
  }

  /** Each page with room is on the list once, and no full page is. */
  ghost predicate Roomy(heads: seq<Head>, n: nat, chain: seq<int>) {
    && Distinct(chain)
    && forall p :: 1 <= p < |heads| ==> (p in chain <==> heads[p].numRecords < n)
  }

  ghost predicate ChainOk(heads: seq<Head>, n: nat, first: int, chain: seq<int>) {
    Linked(heads, first, chain) && Roomy(heads, n, chain)
  }

  /** A page keeps its link, and stays full or stays with room. */
  lemma ChainSame(heads: seq<Head>, n: nat, first: int, chain: seq<int>, p: int, h: Head)
    requires ChainOk(heads, n, first, chain) && 1 <= p < |heads|
    requires h.nextFree == heads[p].nextFree && (h.numRecords < n <==> heads[p].numRecords < n)
    ensures ChainOk(heads[p := h], n, first, chain)
  {
    var heads' := heads[p := h];
    forall i | 0 <= i < |chain| ensures Link(heads', chain, i) {
      assert Link(heads, chain, i);
    }
  }

  /** The head of the list fills up and leaves it. */
  lemma ChainPop(heads: seq<Head>, n: nat, first: int, chain: seq<int>, h: Head)
    requires ChainOk(heads, n, first, chain) && chain != [] && 1 <= first < |heads|
    requires h.nextFree == heads[first].nextFree && h.numRecords >= n
    ensures ChainOk(heads[first := h], n, h.nextFree, chain[1..])
  {
    var rest := chain[1..];
    assert chain == [chain[0]] + rest;
    assert Link(heads, chain, 0);
    var heads' := heads[first := h];
    forall i | 0 <= i < |rest| ensures Link(heads', rest, i) {
      assert Link(heads, chain, i + 1) && rest[i] == chain[i + 1];
    }
  }

  /** A page that was full gets room and becomes the head. */
  lemma ChainPush(heads: seq<Head>, n: nat, first: int, chain: seq<int>, p: int, h: Head)
    requires ChainOk(heads, n, first, chain) && 1 <= p < |heads| && heads[p].numRecords >= n
    requires h.nextFree == first && h.numRecords < n
    ensures ChainOk(heads[p := h], n, p, [p] + chain)
  {
    var more := [p] + chain;
    var heads' := heads[p := h];
    forall i | 0 <= i < |more| ensures Link(heads', more, i) {
      assert i > 0 ==> Link(heads, chain, i - 1) && more[i] == chain[i - 1];
    }
  }

  lemma ChainNew(heads: seq<Head>, n: nat, first: int, h: Head)
    requires ChainOk(heads, n, first, []) && |heads| > 0 && h.nextFree == first && h.numRecords < n
    ensures ChainOk(heads + [h], n, |heads|, [|heads|])
  {
  }

  lemma HeadHasRoom(heads: seq<Head>, n: nat, first: int, chain: seq<int>)
    requires ChainOk(heads, n, first, chain)
    ensures chain != [] <==> first != NO_PAGE
    ensures chain != [] ==> 1 <= first < |heads| && first in chain && heads[first].numRecords < n
  {
    if chain != [] {
      assert Link(heads, chain, 0);
    }
  }

  // ---------- the search ----------

  /** The first slot of page p from s on that holds no record, or n. */
  function FirstFree(live: set<Rid>, p: int, s: nat, n: nat): (k: nat)
    requires s <= n
    ensures s <= k <= n && (forall j :: s <= j < k ==> Rid(p, j) in live) && (k < n ==> Rid(p, k) !in live)
    decreases n - s
  {
    if s == n || Rid(p, s) !in live then s else FirstFree(live, p, s + 1, n)
  }

  lemma IsFirstFree(live: set<Rid>, p: int, k: nat, n: nat)
    requires k < n && Rid(p, k) !in live && forall j :: 0 <= j < k ==> Rid(p, j) in live
    ensures FirstFree(live, p, 0, n) == k
  {
  }

  function HeadAt(f: File, p: int): Head {
    if 0 <= p < |f.heads| then f.heads[p] else Head(NO_PAGE, 0)
  }

  function WithHead(f: File, p: int, h: Head): File {
    if 0 <= p < |f.heads| then f.(heads := f.heads[p := h]) else f
  }

  /** create_page_handle: a new page joins the list when the list is empty. */
  function Opened(f: File): File {
    if f.firstFree != NO_PAGE then f else f.(firstFree := |f.heads|, heads := f.heads + [Head(NO_PAGE, 0)])
  }

  /** The slot insert_record finds: the first free one of the first page with room. */
  function SlotFor(f: File, live: set<Rid>): Rid {
    var p := Opened(f).firstFree;
    Rid(p, FirstFree(live, p, 0, f.perPage))
  }

  /** The headers after insert_record has filled that slot. */
  function Filled(f: File): File {
    var g := Opened(f);
    var h := HeadAt(g, g.firstFree);
    var g' := WithHead(g, g.firstFree, h.(numRecords := h.numRecords + 1));
    if h.numRecords + 1 == f.perPage then g'.(firstFree := h.nextFree) else g'
  }

  /** The headers after delete_record on page p. */
  function Cleared(f: File, p: int): File {
    var h := HeadAt(f, p);
    if h.numRecords == f.perPage then
      WithHead(f, p, Head(f.firstFree, h.numRecords - 1)).(firstFree := p)
    else WithHead(f, p, h.(numRecords := h.numRecords - 1))
  }

  // ---------- sound files ----------

  /** How many of the first n slots of page p hold a record. */
  function LiveOn(live: set<Rid>, p: int, n: nat): (c: nat)
    ensures c <= n
  {
    if n == 0 then 0 else LiveOn(live, p, n - 1) + if Rid(p, n - 1) in live then 1 else 0
  }

  ghost predicate CountOk(f: File, live: set<Rid>, p: int)
    requires 0 <= p < |f.heads|
  {
    f.heads[p].numRecords == LiveOn(live, p, f.perPage)
  }

  /** Records are in slots that exist, and each page header counts its own. */
  ghost predicate Counted(f: File, live: set<Rid>) {
    && f.perPage > 0 && |f.heads| > 0
    && (forall r :: r in live ==> 1 <= r.pageNo < |f.heads| && 0 <= r.slotNo < f.perPage)
    && forall p {:trigger CountOk(f, live, p)} :: 1 <= p < |f.heads| ==> CountOk(f, live, p)
  }

  ghost predicate Listed(f: File, chain: seq<int>) {
    ChainOk(f.heads, f.perPage, f.firstFree, chain)
  }

  /** The headers fit the records: right counts, and a list of exactly the pages with room. */
  ghost predicate Sound(f: File, live: set<Rid>) {
    Counted(f, live) && exists chain: seq<int> :: Listed(f, chain)
  }

  lemma {:induction false} LiveOnFull(live: set<Rid>, p: int, n: nat)
    ensures LiveOn(live, p, n) == n <==> forall s :: 0 <= s < n ==> Rid(p, s) in live
  {
    if n > 0 {
      LiveOnFull(live, p, n - 1);
    }
  }

  lemma {:induction false} LiveOnNone(live: set<Rid>, p: int, n: nat)
    requires forall r :: r in live ==> r.pageNo != p
    ensures LiveOn(live, p, n) == 0
  {
    if n > 0 {
      LiveOnNone(live, p, n - 1);
    }
  }

  lemma {:induction false} LiveOnAdd(live: set<Rid>, r: Rid, p: int, n: nat)
    requires r !in live
    ensures LiveOn(live + {r}, p, n) == LiveOn(live, p, n) + if r.pageNo == p && 0 <= r.slotNo < n then 1 else 0
  {
    if n > 0 {
      LiveOnAdd(live, r, p, n - 1);
    }
  }

  lemma LiveOnRemove(live: set<Rid>, r: Rid, p: int, n: nat)
    requires r in live
    ensures LiveOn(live - {r}, p, n) == LiveOn(live, p, n) - if r.pageNo == p && 0 <= r.slotNo < n then 1 else 0
  {
    LiveOnAdd(live - {r}, r, p, n);
    assert live - {r} + {r} == live;
  }

  /** A page with room has a free slot. */
  lemma RoomFound(f: File, live: set<Rid>, p: int)
    requires Counted(f, live) && 1 <= p < |f.heads|
    ensures FirstFree(live, p, 0, f.perPage) < f.perPage <==> f.heads[p].numRecords < f.perPage
  {
    assert CountOk(f, live, p);
    LiveOnFull(live, p, f.perPage);
  }

  lemma OpenedSound(f: File, live: set<Rid>)
    requires Sound(f, live)
    ensures Sound(Opened(f), live) && Opened(f).firstFree != NO_PAGE
  {
    var chain: seq<int> :| Listed(f, chain);
    HeadHasRoom(f.heads, f.perPage, f.firstFree, chain);
    if f.firstFree == NO_PAGE {
      var g := Opened(f);
      ChainNew(f.heads, f.perPage, f.firstFree, Head(NO_PAGE, 0));
      assert Listed(g, [|f.heads|]);
      forall p | 1 <= p < |g.heads| ensures CountOk(g, live, p) {
        if p < |f.heads| {
          assert CountOk(f, live, p);
        } else {
          LiveOnNone(live, p, f.perPage);
        }
      }
    }
  }

  /** The search of a sound file finds a slot that exists and is free. */
  lemma SlotIsFree(f: File, live: set<Rid>)
    requires Sound(f, live)
    ensures var r := SlotFor(f, live);
      && r !in live && 0 <= r.slotNo < f.perPage && 1 <= r.pageNo < |Opened(f).heads|
      && r.pageNo == Opened(f).firstFree && HeadAt(Opened(f), r.pageNo).numRecords < f.perPage
  {
    OpenedSound(f, live);
    var g := Opened(f);
    var chain: seq<int> :| Listed(g, chain);
    HeadHasRoom(g.heads, g.perPage, g.firstFree, chain);
    RoomFound(g, live, g.firstFree);
  }

  lemma CountedAfter(f: File, live: set<Rid>, g: File, live': set<Rid>, p: int)
    requires Counted(f, live) && g.perPage == f.perPage && |g.heads| == |f.heads| && 1 <= p < |f.heads|
    requires forall q :: 0 <= q < |f.heads| && q != p ==> g.heads[q] == f.heads[q]
    requires forall r :: r in live' ==> 1 <= r.pageNo < |f.heads| && 0 <= r.slotNo < f.perPage
    requires forall q :: q != p ==> LiveOn(live', q, f.perPage) == LiveOn(live, q, f.perPage)
    requires g.heads[p].numRecords == LiveOn(live', p, f.perPage)
    ensures Counted(g, live')
  {
    forall q | 1 <= q < |g.heads| ensures CountOk(g, live', q) {
      assert CountOk(f, live, q);
    }
  }

  /** insert_record keeps a file sound. */
  lemma FilledSound(f: File, live: set<Rid>)
    requires Sound(f, live)
    ensures Sound(Filled(f), live + {SlotFor(f, live)})
  {
    OpenedSound(f, live);
    SlotIsFree(f, live);
    var g, r := Opened(f), SlotFor(f, live);
    var p, live' := r.pageNo, live + {r};
    var h := g.heads[p].(numRecords := g.heads[p].numRecords + 1);
    var chain: seq<int> :| Listed(g, chain);
    HeadHasRoom(g.heads, g.perPage, g.firstFree, chain);
    if h.numRecords == f.perPage {
      ChainPop(g.heads, g.perPage, g.firstFree, chain, h);
      assert Listed(Filled(f), chain[1..]);
    } else {
      ChainSame(g.heads, g.perPage, g.firstFree, chain, p, h);
      assert Listed(Filled(f), chain);
    }
    forall q ensures LiveOn(live', q, f.perPage) == LiveOn(live, q, f.perPage) + if q == p then 1 else 0 {
      LiveOnAdd(live, r, q, f.perPage);
    }
    assert CountOk(g, live, p);
    CountedAfter(g, live, Filled(f), live', p);
  }

  /** So does delete_record on a live record. */
  lemma ClearedSound(f: File, live: set<Rid>, r: Rid)
    requires Sound(f, live) && r in live
    ensures Sound(Cleared(f, r.pageNo), live - {r})
  {
    var p, live' := r.pageNo, live - {r};
    var chain: seq<int> :| Listed(f, chain);
    assert CountOk(f, live, p);
    if f.heads[p].numRecords == f.perPage {
      ChainPush(f.heads, f.perPage, f.firstFree, chain, p, Head(f.firstFree, f.perPage - 1));
      assert Listed(Cleared(f, p), [p] + chain);
    } else {
      ChainSame(f.heads, f.perPage, f.firstFree, chain, p, f.heads[p].(numRecords := f.heads[p].numRecords - 1));
      assert Listed(Cleared(f, p), chain);
    }
    forall q ensures LiveOn(live', q, f.perPage) == LiveOn(live, q, f.perPage) - if q == p then 1 else 0 {
      LiveOnRemove(live, r, q, f.perPage);
    }
    CountedAfter(f, live, Cleared(f, p), live', p);
  }

  // ---------- going back to the same slot ----------

  predicate FilledBefore(live: set<Rid>, r: Rid) {
    forall s :: 0 <= s < r.slotNo ==> Rid(r.pageNo, s) in live
  }

  /** The search finds r: its page is first on the list and every earlier slot is taken. */
  lemma FindsSlot(f: File, live: set<Rid>, r: Rid)
    requires Sound(f, live) && 1 <= r.pageNo < |f.heads| && 0 <= r.slotNo < f.perPage && r !in live
    ensures SlotFor(f, live) == r <==> f.firstFree == r.pageNo && FilledBefore(live, r)
  {
    SlotIsFree(f, live);
  }

  /** Whether a record deleted now would be put back where it is: its page is full, or its
      page is first on the list and every slot before its own is taken. */
  predicate GoesBack(f: File, live: set<Rid>, r: Rid) {
    HeadAt(f, r.pageNo).numRecords == f.perPage || (f.firstFree == r.pageNo && FilledBefore(live, r))
  }

  /** A record deleted and inserted again is back in its slot exactly then. */
  lemma DeleteThenInsert(f: File, live: set<Rid>, r: Rid)
    requires Sound(f, live) && r in live
    ensures SlotFor(Cleared(f, r.pageNo), live - {r}) == r <==> GoesBack(f, live, r)
  {
    var g, live' := Cleared(f, r.pageNo), live - {r};
    ClearedSound(f, live, r);
    FindsSlot(g, live', r);
    assert FilledBefore(live', r) <==> FilledBefore(live, r) by {
      assert forall s :: 0 <= s < r.slotNo ==> Rid(r.pageNo, s) != r;
    }
    assert CountOk(f, live, r.pageNo);
    LiveOnFull(live, r.pageNo, f.perPage);
  }
}
