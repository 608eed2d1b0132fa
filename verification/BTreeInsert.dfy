/** The page changes of insertion: into a leaf, splitting a node, hooking the new half
    into the parent, growing a root. Each keeps the tree well-formed. */
module BTreeInsert {
  import opened Common
  import opened BTreeNode
  import opened BTreeShape

  // ---------- frames ----------

  /** q and its parent look the same, so q is still linked. */
  lemma LinkedFrame(pages: Pages, info: Infos, pages': Pages, info': Infos, q: int)
    requires q in pages && q in pages' && Linked(pages, info, q) && pages'[q].parent == pages[q].parent
    requires var p := pages[q].parent;
      p in info' && p in pages' && pages'[p].isLeaf == pages[p].isLeaf && pages'[p].rids == pages[p].rids
    ensures Linked(pages', info', q)
  {
    var p := pages[q].parent;
    var i :| 0 <= i < |pages[p].rids| && Kid(pages[p], i) == q;
    assert Kid(pages'[p], i) == q;
  }

  predicate Shrunk(f: Info, f': Info) {
    f'.height == f.height && LoLe(f.lo, f'.lo) && HiLe(f'.hi, f.hi)
  }

  /** Only leaves and the leaf header changed, and only in keys, rids, prev and next. */
  ghost predicate LeavesTouched(pages: Pages, pages': Pages, info: Infos) {
    forall p :: p in info && p in pages ==>
      && p in pages' && pages'[p].isLeaf == pages[p].isLeaf && pages'[p].parent == pages[p].parent
      && (!pages[p].isLeaf ==> pages'[p] == pages[p])
  }

  /** After touching leaves only, it is enough to look at the leaves again. */
  lemma LeavesFrame(pages: Pages, info: Infos, pages': Pages, info': Infos, root: int, p: int)
    requires Struct(pages, info, root, NoPage, NoPage) && LeavesTouched(pages, pages', info)
    requires p in info && p in pages && !pages[p].isLeaf && p in info' && info'[p] == info[p]
    requires forall c :: c in info && c in pages && pages[c].parent == p ==> c in info' && Shrunk(info[c], info'[c])
    ensures PageOk(pages', info', p, NoPage)
  {
    assert PageOk(pages, info, p, NoPage);
    forall i | 0 <= i < |pages[p].rids| ensures SameFace(pages, info, pages', info', Kid(pages[p], i)) {
      KidFace(pages, info, p, NoPage, i);
    }
    PageFrame(pages, info, pages', info', p, NoPage);
  }

  lemma LeavesLinked(pages: Pages, info: Infos, pages': Pages, info': Infos, root: int, p: int)
    requires Struct(pages, info, root, NoPage, NoPage) && LeavesTouched(pages, pages', info)
    requires p in info && p != root && info.Keys <= info'.Keys
    ensures p in pages' && Linked(pages', info', p)
  {
    assert PageOk(pages, info, p, NoPage) && Placed(pages, info, root, p);
    var q := pages[p].parent;
    assert PageOk(pages, info, q, NoPage);
    LinkedFrame(pages, info, pages', info', p);
  }

  // ---------- into a leaf ----------

  lemma InsertSorted(ks: seq<Key>, pos: nat, k: Key)
    requires SortedFrom(ks, 0) && pos <= |ks|
    requires forall i :: 0 <= i < pos ==> ks[i] < k
    requires forall i :: pos <= i < |ks| ==> k < ks[i]
    ensures SortedFrom(ks[..pos] + [k] + ks[pos..], 0)
  {
  }

  lemma LeafInsertOk(pages: Pages, info: Infos, root: int, p: int, pos: nat, k: Key, r: Rid)
    requires Whole(pages, info, root) && p in info && p in pages && pages[p].isLeaf && In(k, info[p])
    requires pos <= |pages[p].keys|
    requires forall i :: 0 <= i < pos ==> pages[p].keys[i] < k
    requires forall i :: pos <= i < |pages[p].keys| ==> k < pages[p].keys[i]
    ensures pos <= |pages[p].rids| && Whole(pages[p := InsertPair(pages[p], pos, k, r)], info, root)
  {
    assert PageOk(pages, info, p, NoPage);
    var pages' := pages[p := InsertPair(pages[p], pos, k, r)];
    InsertSorted(pages[p].keys, pos, k);
    forall q | q in info ensures PageOk(pages', info, q, NoPage) {
      assert PageOk(pages, info, q, NoPage);
      if q == p {
        forall i | 0 <= i < |pages'[p].keys| ensures In(pages'[p].keys[i], info[p]) {
          assert pages'[p].keys[i] ==
            if i < pos then pages[p].keys[i] else if i == pos then k else pages[p].keys[i - 1];
        }
      } else if pages[q].isLeaf {
        PageFrame(pages, info, pages', info, q, NoPage);
      } else {
        LeavesFrame(pages, info, pages', info, root, q);
      }
    }
    forall q | q in info && q != root ensures Placed(pages', info, root, q) {
      assert Placed(pages, info, root, q);
      LeavesLinked(pages, info, pages', info, root, q);
    }
  }

  /** The slot of a linked child. */
  ghost function SlotOf(pages: Pages, info: Infos, q: int, ex: int, p: int): (i: nat)
    requires q in info && PageOk(pages, info, q, ex) && !pages[q].isLeaf && IsKid(pages, q, p)
    ensures i < |pages[q].rids| && Kid(pages[q], i) == p && KidOk(pages, info, q, i)
  {
    var i :| 0 <= i < |pages[q].rids| && Kid(pages[q], i) == p;
    assert KidOk(pages, info, q, i);
    i
  }

  // ---------- splitting ----------

  /** The upper bound on the i-th child of p. */
  function SlotHi(pages: Pages, info: Infos, p: int, i: nat): Option<Key>
    requires p in pages && p in info
  {
    if i + 1 < |pages[p].keys| then Some(pages[p].keys[i + 1]) else info[p].hi
  }

  /** `half` was just split off `was` at key and waits to be put beside it. */
  ghost predicate Orphan(pages: Pages, info: Infos, root: int, was: int, half: int, key: Key) {
    && was in info && half in info && was in pages && half in pages && was != half
    && pages[half].parent == pages[was].parent
    && info[half].height == info[was].height
    && info[was].hi == Some(key) && info[half].lo == Some(key)
    && |pages[was].keys| > 0 && |pages[half].keys| > 0 && pages[half].keys[0] == key
    && (was == root ==> info[half].hi.None?)
    && (was != root ==> root in info && info[root].hi.None?)
    && (was != root ==>
          var p := pages[was].parent;
          p in pages && p in info && forall i :: 0 <= i < |pages[p].rids| && Kid(pages[p], i) == was ==>
            HiLe(info[half].hi, SlotHi(pages, info, p, i)))
  }

  function SplitInfo(info: Infos, p: int, q: int, key: Key): Infos
    requires p in info
  {
    info[p := info[p].(hi := Some(key))][q := Info(Some(key), info[p].hi, info[p].height)]
  }

  /** split on a leaf: the upper half moves to a new page q, linked in after p. */
  function SplitLeafPages(pages: Pages, p: int, q: int): Pages
    requires p in pages && pages[p].next in pages && |pages[p].keys| == |pages[p].rids|
  {
    var n := pages[p];
    var pos := |n.keys| / 2;
    pages[p := n.(keys := n.keys[..pos], rids := n.rids[..pos], next := q)]
         [q := Node(true, n.parent, p, n.next, n.keys[pos..], n.rids[pos..])]
         [n.next := pages[n.next].(prev := q)]
  }

  lemma SplitLeafHalves(n: Node, f: Info, pos: nat, parent: int, prev: int, next: int)
    requires LeafOk(n, f) && Proper(f) && 0 < pos < |n.keys| && |n.keys| == |n.rids|
    ensures LeafOk(n.(keys := n.keys[..pos], rids := n.rids[..pos], next := next), f.(hi := Some(n.keys[pos])))
    ensures LeafOk(Node(true, parent, prev, next, n.keys[pos..], n.rids[pos..]), f.(lo := Some(n.keys[pos])))
    ensures Proper(f.(hi := Some(n.keys[pos]))) && Proper(f.(lo := Some(n.keys[pos])))
  {
    assert In(n.keys[0], f) && n.keys[0] < n.keys[pos];
    assert In(n.keys[pos], f);
  }

  /** A leaf p may be split onto the unused page q. */
  ghost predicate Splittable(pages: Pages, info: Infos, root: int, p: int, q: int) {
    && Whole(pages, info, root) && p in info && p in pages && |pages[p].keys| >= 2 && |pages[p].keys| == |pages[p].rids|
    && q !in info && q != NoPage && q != LeafHeader && q !in pages
    && (pages[p].isLeaf ==> var x := pages[p].next; x in pages && x != p && (x in info ==> pages[x].isLeaf))
  }

  function SplitKey(pages: Pages, p: int): Key
    requires p in pages && |pages[p].keys| >= 2
  {
    pages[p].keys[|pages[p].keys| / 2]
  }

  lemma SplitLeafHalvesOk(pages: Pages, info: Infos, root: int, p: int, q: int)
    requires Splittable(pages, info, root, p, q) && pages[p].isLeaf
    ensures var pages', info' := SplitLeafPages(pages, p, q), SplitInfo(info, p, q, SplitKey(pages, p));
      PageOk(pages', info', p, NoPage) && PageOk(pages', info', q, NoPage)
  {
    var n, f := pages[p], info[p];
    assert PageOk(pages, info, p, NoPage);
    SplitLeafHalves(n, f, |n.keys| / 2, n.parent, p, n.next);
    SplitLeafHalves(n, f, |n.keys| / 2, n.parent, p, q);
  }

  lemma SplitLeafOther(pages: Pages, info: Infos, root: int, p: int, q: int, c: int)
    requires Splittable(pages, info, root, p, q) && pages[p].isLeaf && c in info && c != p
    ensures PageOk(SplitLeafPages(pages, p, q), SplitInfo(info, p, q, SplitKey(pages, p)), c, NoPage)
  {
    var pages', info' := SplitLeafPages(pages, p, q), SplitInfo(info, p, q, SplitKey(pages, p));
    assert PageOk(pages, info, c, NoPage) && PageOk(pages, info, p, NoPage);
    if pages[c].isLeaf {
      PageFrame(pages, info, pages', info', c, NoPage);
    } else {
      assert In(SplitKey(pages, p), info[p]);
      LeavesFrame(pages, info, pages', info', root, c);
    }
  }

  lemma SplitLeafAll(pages: Pages, info: Infos, root: int, p: int, q: int)
    requires Splittable(pages, info, root, p, q) && pages[p].isLeaf
    ensures AllOk(SplitLeafPages(pages, p, q), SplitInfo(info, p, q, SplitKey(pages, p)), NoPage)
  {
    var pages', info' := SplitLeafPages(pages, p, q), SplitInfo(info, p, q, SplitKey(pages, p));
    SplitLeafHalvesOk(pages, info, root, p, q);
    forall c | c in info' ensures PageOk(pages', info', c, NoPage) {
      if c != p && c != q {
        SplitLeafOther(pages, info, root, p, q, c);
      }
    }
  }

  lemma SplitLeafLinks(pages: Pages, info: Infos, root: int, p: int, q: int)
    requires Splittable(pages, info, root, p, q) && pages[p].isLeaf
    ensures var pages', info' := SplitLeafPages(pages, p, q), SplitInfo(info, p, q, SplitKey(pages, p));
      forall c :: c in info' && c != root && c != q ==> Placed(pages', info', root, c)
  {
    var pages', info' := SplitLeafPages(pages, p, q), SplitInfo(info, p, q, SplitKey(pages, p));
    forall c | c in info' && c != root && c != q
      ensures Placed(pages', info', root, c)
    {
      assert Placed(pages, info, root, c);
      LeavesLinked(pages, info, pages', info', root, c);
    }
  }

  lemma SplitLeafOk(pages: Pages, info: Infos, root: int, p: int, q: int)
    requires Splittable(pages, info, root, p, q) && pages[p].isLeaf
    ensures var pages', info' := SplitLeafPages(pages, p, q), SplitInfo(info, p, q, SplitKey(pages, p));
      Struct(pages', info', root, q, NoPage) && Orphan(pages', info', root, p, q, SplitKey(pages, p))
  {
    SplitLeafAll(pages, info, root, p, q);
    SplitLeafLinks(pages, info, root, p, q);
    var n := pages[p];
    if p != root {
      assert Placed(pages, info, root, p) && PageOk(pages, info, n.parent, NoPage);
      forall i | 0 <= i < |pages[n.parent].rids| && Kid(pages[n.parent], i) == p
        ensures KidOk(pages, info, n.parent, i)
      {
      }
    }
  }

  function Kids(rids: seq<Rid>): set<int> {
    set i | 0 <= i < |rids| :: rids[i].pageNo
  }

  /** maintain_child over all of a node's children. */
  function Reparent(pages: Pages, kids: set<int>, q: int): Pages {
    map c | c in pages :: if c in kids then pages[c].(parent := q) else pages[c]
  }

  /** split on an inner node: the upper half moves to q and its children follow. */
  function SplitInnerPages(pages: Pages, p: int, q: int): Pages
    requires p in pages && |pages[p].keys| == |pages[p].rids|
  {
    var n := pages[p];
    var pos := |n.keys| / 2;
    Reparent(pages[p := n.(keys := n.keys[..pos], rids := n.rids[..pos])]
                  [q := Node(false, n.parent, 0, 0, n.keys[pos..], n.rids[pos..])],
             Kids(n.rids[pos..]), q)
  }

  /** A child of p moved to q exactly when its slot is in the upper half. */
  lemma MovedKid(pages: Pages, info: Infos, p: int, i: nat)
    requires AllOk(pages, info, NoPage) && p in info && PageOk(pages, info, p, NoPage) && !pages[p].isLeaf
    requires i < |pages[p].rids|
    ensures var pos := |pages[p].keys| / 2; Kid(pages[p], i) in Kids(pages[p].rids[pos..]) <==> i >= pos
  {
    var rids, pos := pages[p].rids, |pages[p].keys| / 2;
    KidFace(pages, info, p, NoPage, i);
    assert PageOk(pages, info, Kid(pages[p], i), NoPage);
    if i >= pos {
      assert rids[pos..][i - pos] == rids[i];
    } else if Kid(pages[p], i) in Kids(rids[pos..]) {
      var j :| 0 <= j < |rids[pos..]| && rids[pos..][j].pageNo == Kid(pages[p], i);
      SlotUnique(pages, info, p, NoPage, i, pos + j);
    }
  }

  lemma SplitInnerLeft(pages: Pages, info: Infos, root: int, p: int, q: int)
    requires Splittable(pages, info, root, p, q) && !pages[p].isLeaf
    ensures PageOk(SplitInnerPages(pages, p, q), SplitInfo(info, p, q, SplitKey(pages, p)), p, NoPage)
  {
    var n, pos := pages[p], |pages[p].keys| / 2;
    var pages', info' := SplitInnerPages(pages, p, q), SplitInfo(info, p, q, n.keys[pos]);
    assert PageOk(pages, info, p, NoPage) && KidOk(pages, info, p, 0);
    assert PageOk(pages, info, Kid(n, 0), NoPage);
    forall i | 0 <= i < pos ensures KidOk(pages', info', p, i) && KeyZeroOk(pages', info', p, i) {
      assert KidOk(pages, info, p, i) && KeyZeroOk(pages, info, p, i);
      MovedKid(pages, info, p, i);
      KidFace(pages, info, p, NoPage, i);
    }
  }

  lemma SplitInnerRightKid(pages: Pages, info: Infos, root: int, p: int, q: int, i: nat)
    requires Splittable(pages, info, root, p, q) && !pages[p].isLeaf
    requires SplitInnerPages(pages, p, q)[q].keys == pages[p].keys[|pages[p].keys| / 2..]
    requires SplitInnerPages(pages, p, q)[q].rids == pages[p].rids[|pages[p].keys| / 2..]
    requires i < |SplitInnerPages(pages, p, q)[q].rids|
    ensures var pages', info' := SplitInnerPages(pages, p, q), SplitInfo(info, p, q, SplitKey(pages, p));
      KidOk(pages', info', q, i) && KeyZeroOk(pages', info', q, i)
  {
    var n, pos := pages[p], |pages[p].keys| / 2;
    assert PageOk(pages, info, p, NoPage);
    assert KidOk(pages, info, p, pos + i) && KeyZeroOk(pages, info, p, pos + i);
    MovedKid(pages, info, p, pos + i);
    KidFace(pages, info, p, NoPage, pos + i);
  }

  lemma SplitInnerRight(pages: Pages, info: Infos, root: int, p: int, q: int)
    requires Splittable(pages, info, root, p, q) && !pages[p].isLeaf
    ensures PageOk(SplitInnerPages(pages, p, q), SplitInfo(info, p, q, SplitKey(pages, p)), q, NoPage)
  {
    var n, f, pos := pages[p], info[p], |pages[p].keys| / 2;
    var pages', info' := SplitInnerPages(pages, p, q), SplitInfo(info, p, q, n.keys[pos]);
    assert PageOk(pages, info, p, NoPage) && KidOk(pages, info, p, pos);
    assert PageOk(pages, info, Kid(n, pos), NoPage);
    NotMoved(pages, info, p, q);
    assert pages'[q] == Node(false, n.parent, 0, 0, n.keys[pos..], n.rids[pos..]);
    SplitInnerKeys(n.keys, f, pos);
    forall i | 0 <= i < |pages'[q].rids| ensures KidOk(pages', info', q, i) && KeyZeroOk(pages', info', q, i) {
      SplitInnerRightKid(pages, info, root, p, q, i);
    }
  }

  lemma SplitInnerKeys(ks: seq<Key>, f: Info, pos: nat)
    requires SortedFrom(ks, 1) && 1 <= pos < |ks|
    requires forall i :: 1 <= i < |ks| ==> AtOrAbove(f.lo, ks[i]) && UpTo(ks[i], f.hi)
    ensures SortedFrom(ks[pos..], 1)
    ensures forall i :: 1 <= i < |ks[pos..]| ==> AtOrAbove(Some(ks[pos]), ks[pos..][i]) && UpTo(ks[pos..][i], f.hi)
  {
  }

  lemma SplitInnerOther(pages: Pages, info: Infos, root: int, p: int, q: int, c: int)
    requires Splittable(pages, info, root, p, q) && !pages[p].isLeaf && c in info && c != p
    ensures PageOk(SplitInnerPages(pages, p, q), SplitInfo(info, p, q, SplitKey(pages, p)), c, NoPage)
  {
    var n, pos := pages[p], |pages[p].keys| / 2;
    var pages', info' := SplitInnerPages(pages, p, q), SplitInfo(info, p, q, n.keys[pos]);
    assert PageOk(pages, info, c, NoPage) && PageOk(pages, info, p, NoPage);
    if !pages[c].isLeaf {
      forall i | 0 <= i < |pages[c].rids| ensures SameFace(pages, info, pages', info', Kid(pages[c], i)) {
        KidFace(pages, info, c, NoPage, i);
        var d := Kid(pages[c], i);
        assert d !in Kids(n.rids[pos..]) by {
          forall j | 0 <= j < |n.rids[pos..]| ensures n.rids[pos..][j].pageNo != d {
            assert KidOk(pages, info, p, pos + j);
          }
        }
        if d == p {
          assert KidOk(pages, info, p, pos) && UpTo(n.keys[pos], info[p].hi);
        }
      }
    }
    PageFrame(pages, info, pages', info', c, NoPage);
  }

  lemma SplitInnerLinked(pages: Pages, info: Infos, root: int, p: int, q: int, c: int)
    requires Splittable(pages, info, root, p, q) && !pages[p].isLeaf && c in info && c != root
    ensures var pages', info' := SplitInnerPages(pages, p, q), SplitInfo(info, p, q, SplitKey(pages, p));
      Placed(pages', info', root, c)
  {
    var n, pos := pages[p], |pages[p].keys| / 2;
    var pages', info' := SplitInnerPages(pages, p, q), SplitInfo(info, p, q, n.keys[pos]);
    assert PageOk(pages, info, c, NoPage) && Placed(pages, info, root, c) && PageOk(pages, info, p, NoPage);
    var o := pages[c].parent;
    assert PageOk(pages, info, o, NoPage);
    var i :| 0 <= i < |pages[o].rids| && Kid(pages[o], i) == c;
    if o == p {
      MovedKid(pages, info, p, i);
      assert pages'[c].parent == if i < pos then p else q;
      NotMoved(pages, info, p, q);
      NotMoved(pages, info, p, p);
      assert if i < pos then Kid(pages'[p], i) == c else Kid(pages'[q], i - pos) == c;
    } else {
      NotMoved(pages, info, p, c);
      LinkedFrame(pages, info, pages', info', c);
    }
  }

  /** Only p's own children can change parents. */
  lemma NotMoved(pages: Pages, info: Infos, p: int, c: int)
    requires AllOk(pages, info, NoPage) && p in info && PageOk(pages, info, p, NoPage) && !pages[p].isLeaf
    requires c !in info || c !in pages || pages[c].parent != p || info[c].height >= info[p].height
    ensures c !in Kids(pages[p].rids[|pages[p].keys| / 2..])
  {
    var pos := |pages[p].keys| / 2;
    forall j | 0 <= j < |pages[p].rids[pos..]| ensures pages[p].rids[pos..][j].pageNo != c {
      assert KidOk(pages, info, p, pos + j);
    }
  }

  lemma SplitInnerOk(pages: Pages, info: Infos, root: int, p: int, q: int)
    requires Splittable(pages, info, root, p, q) && !pages[p].isLeaf
    ensures var pages', info' := SplitInnerPages(pages, p, q), SplitInfo(info, p, q, SplitKey(pages, p));
      Struct(pages', info', root, q, NoPage) && Orphan(pages', info', root, p, q, SplitKey(pages, p))
  {
    var n, pos := pages[p], |pages[p].keys| / 2;
    var pages', info' := SplitInnerPages(pages, p, q), SplitInfo(info, p, q, n.keys[pos]);
    SplitInnerLeft(pages, info, root, p, q);
    SplitInnerRight(pages, info, root, p, q);
    forall c | c in info' ensures PageOk(pages', info', c, NoPage) {
      if c != p && c != q {
        SplitInnerOther(pages, info, root, p, q, c);
      }
    }
    forall c | c in info' && c != root && c != q
      ensures Placed(pages', info', root, c)
    {
      SplitInnerLinked(pages, info, root, p, q, c);
    }
    SplitInnerOrphan(pages, info, root, p, q);
  }

  lemma SplitInnerOrphan(pages: Pages, info: Infos, root: int, p: int, q: int)
    requires Splittable(pages, info, root, p, q) && !pages[p].isLeaf
    ensures var pages', info' := SplitInnerPages(pages, p, q), SplitInfo(info, p, q, SplitKey(pages, p));
      Orphan(pages', info', root, p, q, SplitKey(pages, p)) && pages'[root].parent == NoPage
  {
    var n, pos := pages[p], |pages[p].keys| / 2;
    var pages', info' := SplitInnerPages(pages, p, q), SplitInfo(info, p, q, n.keys[pos]);
    assert PageOk(pages, info, p, NoPage);
    NotMoved(pages, info, p, p);
    NotMoved(pages, info, p, q);
    NotMoved(pages, info, p, root);
    if p != root {
      var o := n.parent;
      assert Placed(pages, info, root, p) && PageOk(pages, info, o, NoPage);
      var j := SlotOf(pages, info, o, NoPage, p);
      NotMoved(pages, info, p, o);
      forall i | 0 <= i < |pages'[o].rids| && Kid(pages'[o], i) == p
        ensures HiLe(info'[q].hi, SlotHi(pages', info', o, i))
      {
        assert KidOk(pages, info, o, i);
      }
    }
  }

  // ---------- putting the new half into its parent ----------

  /** Growing a root above the split one. Its key 0 copies the old root's and is never
      read for routing. */
  function NewRootPages(pages: Pages, was: int, half: int, key: Key, r: int): Pages
    requires was in pages && half in pages && |pages[was].keys| > 0
  {
    pages[r := Node(false, NoPage, 0, 0, [pages[was].keys[0], key], [Rid(was, -1), Rid(half, -1)])]
         [half := pages[half].(parent := r)]
         [was := pages[was].(parent := r)]
  }

  lemma NewRootPage(pages: Pages, info: Infos, was: int, half: int, key: Key, r: int)
    requires Struct(pages, info, was, half, NoPage) && Orphan(pages, info, was, was, half, key)
    requires r !in info && r !in pages && r != NoPage && r != LeafHeader
    ensures PageOk(NewRootPages(pages, was, half, key, r), info[r := Info(None, None, info[was].height + 1)], r, NoPage)
  {
    var pages', info' := NewRootPages(pages, was, half, key, r), info[r := Info(None, None, info[was].height + 1)];
    assert Kid(pages'[r], 0) == was && Kid(pages'[r], 1) == half;
    assert KidOk(pages', info', r, 0) && KidOk(pages', info', r, 1);
  }

  lemma NewRootOk(pages: Pages, info: Infos, was: int, half: int, key: Key, r: int)
    requires Struct(pages, info, was, half, NoPage) && Orphan(pages, info, was, was, half, key)
    requires r !in info && r !in pages && r != NoPage && r != LeafHeader
    ensures Whole(NewRootPages(pages, was, half, key, r), info[r := Info(None, None, info[was].height + 1)], r)
  {
    var pages', info' := NewRootPages(pages, was, half, key, r), info[r := Info(None, None, info[was].height + 1)];
    NewRootPage(pages, info, was, half, key, r);
    forall c | c in info' ensures PageOk(pages', info', c, NoPage) {
      if c != r {
        assert PageOk(pages, info, c, NoPage);
        if !pages[c].isLeaf {
          forall i | 0 <= i < |pages[c].rids| ensures SameFace(pages, info, pages', info', Kid(pages[c], i)) {
            KidFace(pages, info, c, NoPage, i);
          }
        }
        PageFrame(pages, info, pages', info', c, NoPage);
      }
    }
    forall c | c in info' && c != r ensures Placed(pages', info', r, c) {
      if c == was {
        assert Kid(pages'[r], 0) == c;
      } else if c == half {
        assert Kid(pages'[r], 1) == c;
      } else {
        assert PageOk(pages, info, c, NoPage) && Placed(pages, info, was, c);
        LinkedFrame(pages, info, pages', info', c);
      }
    }
  }

  /** insert_pair on the parent, right after the old node's slot. */
  function ParentInsertPages(pages: Pages, p: int, i: nat, half: int, key: Key): Pages
    requires p in pages && i < |pages[p].keys| && |pages[p].keys| == |pages[p].rids|
  {
    pages[p := InsertPair(pages[p], i + 1, key, Rid(half, -1))]
  }

  /** m is n with one more slot, at i + 1. */
  ghost predicate Inserted(n: Node, m: Node, i: nat, key: Key, r: Rid) {
    && |n.keys| == |n.rids| && i < |n.keys|
    && |m.keys| == |m.rids| == |n.keys| + 1 && m.isLeaf == n.isLeaf && m.parent == n.parent
    && m.keys[i + 1] == key && m.rids[i + 1] == r
    && (forall j :: 0 <= j <= i ==> m.keys[j] == n.keys[j] && m.rids[j] == n.rids[j])
    && (forall j :: i + 1 < j < |m.keys| ==> m.keys[j] == n.keys[j - 1] && m.rids[j] == n.rids[j - 1])
  }

  lemma InsertedSlots(n: Node, i: nat, key: Key, r: Rid)
    requires |n.keys| == |n.rids| && i < |n.keys|
    ensures Inserted(n, InsertPair(n, i + 1, key, r), i, key, r)
  {
  }

  /** p's i-th child `was` has been split and p is about to take in the other half. */
  ghost predicate Adoptable(pages: Pages, info: Infos, root: int, was: int, half: int, key: Key, p: int, i: nat) {
    && Struct(pages, info, root, half, NoPage) && Orphan(pages, info, root, was, half, key) && was != root
    && p == pages[was].parent && p in info && p in pages && !pages[p].isLeaf && |pages[p].keys| == |pages[p].rids|
    && i < |pages[p].rids| && Kid(pages[p], i) == was
  }

  lemma AdoptKid(pages: Pages, info: Infos, root: int, was: int, half: int, key: Key, p: int, i: nat, m: Node, j: nat)
    requires Adoptable(pages, info, root, was, half, key, p, i) && j <= |pages[p].rids|
    requires Inserted(pages[p], m, i, key, Rid(half, -1))
    ensures KidOk(pages[p := m], info, p, j) && KeyZeroOk(pages[p := m], info, p, j)
  {
    assert PageOk(pages, info, p, NoPage) && KidOk(pages, info, p, i);
    assert p != was && p != half;
    if j != i + 1 {
      var o := if j <= i then j else j - 1;
      assert KidOk(pages, info, p, o) && KeyZeroOk(pages, info, p, o);
    }
  }

  lemma AdoptKeys(n: Node, m: Node, i: nat, key: Key, r: Rid, f: Info)
    requires Inserted(n, m, i, key, r) && SortedFrom(n.keys, 1)
    requires i > 0 ==> n.keys[i] < key
    requires i + 1 < |n.keys| ==> key < n.keys[i + 1]
    requires AtOrAbove(f.lo, key) && UpTo(key, f.hi)
    requires forall j :: 1 <= j < |n.keys| ==> AtOrAbove(f.lo, n.keys[j]) && UpTo(n.keys[j], f.hi)
    ensures SortedFrom(m.keys, 1)
    ensures forall j :: 1 <= j < |m.keys| ==> AtOrAbove(f.lo, m.keys[j]) && UpTo(m.keys[j], f.hi)
  {
  }

  lemma AdoptPage(pages: Pages, info: Infos, root: int, was: int, half: int, key: Key, p: int, i: nat, m: Node)
    requires Adoptable(pages, info, root, was, half, key, p, i)
    requires Inserted(pages[p], m, i, key, Rid(half, -1))
    ensures PageOk(pages[p := m], info, p, NoPage)
  {
    assert PageOk(pages, info, p, NoPage) && KidOk(pages, info, p, i);
    assert PageOk(pages, info, was, NoPage) && PageOk(pages, info, half, NoPage);
    AdoptKeys(pages[p], m, i, key, Rid(half, -1), info[p]);
    var pages' := pages[p := m];
    forall j | 0 <= j < |m.rids| ensures KidOk(pages', info, p, j) && KeyZeroOk(pages', info, p, j) {
      AdoptKid(pages, info, root, was, half, key, p, i, m, j);
    }
  }

  lemma AdoptOk(pages: Pages, info: Infos, root: int, was: int, half: int, key: Key, p: int, i: nat)
    requires Adoptable(pages, info, root, was, half, key, p, i)
    ensures Whole(ParentInsertPages(pages, p, i, half, key), info, root)
  {
    var pages' := ParentInsertPages(pages, p, i, half, key);
    InsertedSlots(pages[p], i, key, Rid(half, -1));
    AdoptPage(pages, info, root, was, half, key, p, i, pages'[p]);
    forall c | c in info ensures PageOk(pages', info, c, NoPage) {
      assert PageOk(pages, info, c, NoPage);
      if c != p {
        if !pages[c].isLeaf {
          forall j | 0 <= j < |pages[c].rids| ensures SameFace(pages, info, pages', info, Kid(pages[c], j)) {
            KidFace(pages, info, c, NoPage, j);
          }
        }
        PageFrame(pages, info, pages', info, c, NoPage);
      }
    }
    forall c | c in info && c != root ensures Placed(pages', info, root, c) {
      AdoptLinked(pages, info, root, was, half, key, p, i, c);
    }
  }

  lemma AdoptLinked(pages: Pages, info: Infos, root: int, was: int, half: int, key: Key, p: int, i: nat, c: int)
    requires Adoptable(pages, info, root, was, half, key, p, i) && c in info && c != root
    ensures var pages' := ParentInsertPages(pages, p, i, half, key);
      Placed(pages', info, root, c)
  {
    var pages' := ParentInsertPages(pages, p, i, half, key);
    assert PageOk(pages, info, c, NoPage);
    InsertedSlots(pages[p], i, key, Rid(half, -1));
    assert Placed(pages, info, root, was);
    if c == half {
      assert Kid(pages'[p], i + 1) == half;
    } else {
      assert Placed(pages, info, root, c);
      var o := pages[c].parent;
      var j :| 0 <= j < |pages[o].rids| && Kid(pages[o], j) == c;
      if o == p {
        var k := if j <= i then j else j + 1;
        assert Kid(pages'[p], k) == c;
      } else {
        LinkedFrame(pages, info, pages', info, c);
      }
    }
  }
}
