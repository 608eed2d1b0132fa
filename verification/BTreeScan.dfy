/** The scan over the leaf ring, from leaf_begin to leaf_end. */
module BTreeScan {
  import opened Common
  import opened BTreeNode
  import opened BTreeShape
  import opened BTreeLeaves
  import opened BTreeIndex

  datatype Iid = Iid(pageNo: int, slotNo: nat)

  /** The keys of the leaves, in ring order. */
  function Keys(pages: Pages, leaves: seq<int>): seq<Key>
    requires AllPresent(pages, leaves)
  {
    if leaves == [] then [] else Keys(pages, leaves[..|leaves| - 1]) + pages[leaves[|leaves| - 1]].keys
  }

  function Values(m: map<Key, Rid>, ks: seq<Key>): seq<Rid>
    requires forall i :: 0 <= i < |ks| ==> ks[i] in m
  {
    seq(|ks|, i requires 0 <= i < |ks| => m[ks[i]])
  }

  /** ks are the keys of m, each once, ascending. */
  ghost predicate Lists(ks: seq<Key>, m: map<Key, Rid>) {
    && SortedFrom(ks, 0)
    && (forall i :: 0 <= i < |ks| ==> ks[i] in m)
    && (forall k :: k in m ==> k in ks)
  }

  ghost predicate EntriesMatch(pages: Pages, m: map<Key, Rid>, p: int) {
    && p in pages && |pages[p].keys| == |pages[p].rids|
    && forall i :: 0 <= i < |pages[p].keys| ==> pages[p].keys[i] in m && pages[p].rids[i] == m[pages[p].keys[i]]
  }

  lemma {:induction false} KeysMember(pages: Pages, leaves: seq<int>, k: Key)
    requires AllPresent(pages, leaves)
    ensures k in Keys(pages, leaves) <==> exists i :: 0 <= i < |leaves| && k in pages[leaves[i]].keys
  {
    if leaves != [] {
      var init := leaves[..|leaves| - 1];
      KeysMember(pages, init, k);
      if i :| 0 <= i < |leaves| && k in pages[leaves[i]].keys {
        assert i < |init| ==> init[i] == leaves[i];
      }
    }
  }

  lemma {:induction false} KeysSorted(pages: Pages, leaves: seq<int>)
    requires AllPresent(pages, leaves) && KeyOrder(pages, leaves)
    requires forall i :: 0 <= i < |leaves| ==> SortedFrom(pages[leaves[i]].keys, 0)
    ensures SortedFrom(Keys(pages, leaves), 0)
  {
    if leaves != [] {
      var n := |leaves| - 1;
      var init, tail := leaves[..n], pages[leaves[n]].keys;
      forall i, j | 0 <= i < j < |init| ensures KeysBelow(pages, init[i], init[j]) {
        assert KeysBelow(pages, leaves[i], leaves[j]);
      }
      KeysSorted(pages, init);
      var ks := Keys(pages, init);
      forall i, j | 0 <= i < |ks| && 0 <= j < |tail| ensures ks[i] < tail[j] {
        KeysMember(pages, init, ks[i]);
        var o :| 0 <= o < |init| && ks[i] in pages[init[o]].keys;
        assert KeysBelow(pages, leaves[o], leaves[n]);
      }
    }
  }

  /** The ring lists every stored key once, in ascending order. */
  lemma RingListsContents(t: Tree, order: nat, m: map<Key, Rid>)
    requires Good(t, order, m, NoPage)
    ensures Lists(Keys(t.pages, t.leaves), m)
    ensures forall p :: p in t.leaves ==> EntriesMatch(t.pages, m, p)
  {
    forall i | 0 <= i < |t.leaves| ensures SortedFrom(t.pages[t.leaves[i]].keys, 0) {
      assert t.leaves[i] in t.leaves;
      assert PageOk(t.pages, t.info, t.leaves[i], NoPage);
    }
    KeysSorted(t.pages, t.leaves);
    forall p | p in t.leaves ensures EntriesMatch(t.pages, m, p) {
      assert IsLeafPage(t.pages, t.info, p) && PageOk(t.pages, t.info, p, NoPage);
    }
    forall k ensures k in Keys(t.pages, t.leaves) <==> k in m {
      KeysMember(t.pages, t.leaves, k);
      if k in m {
        var p :| IsLeafPage(t.pages, t.info, p) && k in t.pages[p].keys;
        assert p in t.leaves;
      }
      if i :| 0 <= i < |t.leaves| && k in t.pages[t.leaves[i]].keys {
        assert EntriesMatch(t.pages, m, t.leaves[i]);
      }
    }
  }

  /** With several leaves, none is empty. */
  lemma LeavesNotEmpty(t: Tree, order: nat, m: map<Key, Rid>, i: nat)
    requires Good(t, order, m, NoPage) && i < |t.leaves| && |t.leaves| > 1
    ensures |t.pages[t.leaves[i]].keys| > 0
  {
    var p := t.leaves[i];
    assert p in t.leaves;
    if p == t.root {
      var q := t.leaves[if i == 0 then 1 else 0];
      assert q in t.leaves;
      LoneLeaf(t.pages, t.info, t.root, q);
    }
  }

  class Scan {
    const ih: Index
    var iid: Iid
    const end: Iid
    ghost var at: nat // the leaf the cursor is in, by its place in the ring

    /** The cursor is at an entry, or one past the last entry of the last leaf. */
    ghost predicate Valid()
      reads this, ih
    {
      && ih.Valid()
      && at < |ih.leaves| && iid.pageNo == ih.leaves[at]
      && ih.lastLeaf in ih.pages && end == Iid(ih.lastLeaf, |ih.pages[ih.lastLeaf].keys|)
      && iid.slotNo <= |ih.pages[iid.pageNo].keys|
      && (at + 1 < |ih.leaves| ==> iid.slotNo < |ih.pages[iid.pageNo].keys|)
    }

    /** How many entries lie before the cursor. */
    ghost function Passed(): seq<Key>
      requires Valid()
      reads this, ih
    {
      Keys(ih.pages, ih.leaves[..at]) + ih.pages[iid.pageNo].keys[..iid.slotNo]
    }

    constructor (ih: Index)
      requires ih.Valid()
      ensures this.ih == ih && Valid() && Passed() == []
    {
      this.ih := ih;
      iid := Iid(ih.firstLeaf, 0);
      end := Iid(ih.lastLeaf, |ih.pages[ih.lastLeaf].keys|);
      at := 0;
      new;
      if |ih.leaves| > 1 {
        LeavesNotEmpty(ih.T(), ih.order, ih.contents, 0);
      }
    }

    predicate IsEnd()
      reads this
    {
      iid == end
    }

    /** At the end, everything has been passed; before it, the cursor is at an entry. */
    lemma EndMeansAll()
      requires Valid()
      ensures IsEnd() <==> at + 1 == |ih.leaves| && iid.slotNo == |ih.pages[iid.pageNo].keys|
      ensures IsEnd() ==> Passed() == Keys(ih.pages, ih.leaves)
      ensures !IsEnd() ==> iid.slotNo < |ih.pages[iid.pageNo].keys|
    {
      var n := |ih.leaves| - 1;
      assert at < n ==> ih.leaves[at] != ih.leaves[n];
      if at == n && iid.slotNo == |ih.pages[iid.pageNo].keys| {
        assert ih.pages[iid.pageNo].keys[..iid.slotNo] == ih.pages[iid.pageNo].keys;
      }
    }

    method Next()
      requires Valid() && !IsEnd()
      modifies this
      ensures Valid()
      ensures old(iid.slotNo < |ih.pages[iid.pageNo].keys|)
      ensures Passed() == old(Passed()) + [old(ih.pages[iid.pageNo].keys[iid.slotNo])]
    {
      EndMeansAll();
      ghost var t := ih.T();
      var node := ih.pages[iid.pageNo];
      iid := iid.(slotNo := iid.slotNo + 1);
      if iid.pageNo != ih.lastLeaf && iid.slotNo == |node.keys| {
        assert LinkedAt(ih.pages, ih.leaves, at);
        LeavesNotEmpty(t, ih.order, ih.contents, at + 1);
        iid := Iid(node.next, 0);
        at := at + 1;
        assert ih.leaves[..at][..at - 1] == ih.leaves[..at - 1];
        assert node.keys[..|node.keys|] == node.keys;
      }
    }
  }

  /** One turn of a scanning loop: take the entry under the cursor and move on. */
  method TakeEntry(scan: Scan) returns (r: Rid, ghost key: Key)
    requires scan.Valid() && !scan.IsEnd()
    modifies scan
    ensures scan.Valid() && scan.Passed() == old(scan.Passed()) + [key]
    ensures key in scan.ih.contents && r == scan.ih.contents[key]
    ensures old(|scan.Passed()|) < |Keys(scan.ih.pages, scan.ih.leaves)|
  {
    scan.EndMeansAll();
    PassedIsPrefix(scan);
    EntryUnderCursor(scan);
    r := scan.ih.pages[scan.iid.pageNo].rids[scan.iid.slotNo];
    key := scan.ih.pages[scan.iid.pageNo].keys[scan.iid.slotNo];
    scan.Next();
  }

  lemma EntryUnderCursor(scan: Scan)
    requires scan.Valid() && scan.iid.slotNo < |scan.ih.pages[scan.iid.pageNo].keys|
    ensures var n, i := scan.ih.pages[scan.iid.pageNo], scan.iid.slotNo;
      i < |n.rids| && n.keys[i] in scan.ih.contents && n.rids[i] == scan.ih.contents[n.keys[i]]
  {
    RingListsContents(scan.ih.T(), scan.ih.order, scan.ih.contents);
    assert scan.ih.leaves[scan.at] in scan.ih.leaves;
    assert EntriesMatch(scan.ih.pages, scan.ih.contents, scan.iid.pageNo);
  }

  lemma ValuesGrow(m: map<Key, Rid>, ks: seq<Key>, k: Key)
    requires k in m && forall i :: 0 <= i < |ks| ==> ks[i] in m
    ensures forall i :: 0 <= i < |ks + [k]| ==> (ks + [k])[i] in m
    ensures Values(m, ks + [k]) == Values(m, ks) + [m[k]]
  {
  }

  /** A scan from leaf_begin to leaf_end returns the value of every stored key once, in
      ascending key order, and stops. */
  method ScanAll(ih: Index) returns (rids: seq<Rid>)
    requires ih.Valid()
    ensures exists ks: seq<Key> :: Lists(ks, ih.contents) && rids == Values(ih.contents, ks)
  {
    var scan := new Scan(ih);
    rids := [];
    ghost var passed: seq<Key> := [];
    while !scan.IsEnd()
      invariant scan.ih == ih && scan.Valid() && passed == scan.Passed()
      invariant forall i :: 0 <= i < |passed| ==> passed[i] in ih.contents
      invariant rids == Values(ih.contents, passed)
      decreases |Keys(ih.pages, ih.leaves)| - |passed|
    {
      var r;
      ghost var key;
      r, key := TakeEntry(scan);
      ValuesGrow(ih.contents, passed, key);
      rids, passed := rids + [r], passed + [key];
    }
    scan.EndMeansAll();
    RingListsContents(ih.T(), ih.order, ih.contents);
  }

  /** What has been passed is the beginning of what there is. */
  lemma PassedIsPrefix(scan: Scan)
    requires scan.Valid() && !scan.IsEnd()
    ensures |scan.Passed()| < |Keys(scan.ih.pages, scan.ih.leaves)|
  {
    scan.EndMeansAll();
    KeysGrow(scan.ih.pages, scan.ih.leaves, scan.at + 1);
    assert scan.ih.leaves[..scan.at + 1][..scan.at] == scan.ih.leaves[..scan.at];
  }

  lemma {:induction false} KeysGrow(pages: Pages, leaves: seq<int>, n: nat)
    requires AllPresent(pages, leaves) && n <= |leaves|
    ensures |Keys(pages, leaves[..n])| <= |Keys(pages, leaves)|
  {
    if n == |leaves| {
      assert leaves[..n] == leaves;
    } else {
      KeysGrow(pages, leaves[..|leaves| - 1], n);
      assert leaves[..|leaves| - 1][..n] == leaves[..n];
    }
  }
}
