/** What every page of a well-formed B+ tree satisfies, page by page. Each live page
    has a key range (not the tightest one) and a height; a page only constrains itself
    and its own children, so an operation need only look at the pages it changed. */
module BTreeShape {
  import opened Common
  import opened BTreeNode

  // No lower bound marks the leftmost page of each height.
  datatype Info = Info(lo: Option<Key>, hi: Option<Key>, height: nat)

  type Infos = map<int, Info>

  predicate AtOrAbove(lo: Option<Key>, k: Key) {
    lo.None? || lo.value <= k
  }

  predicate Below(k: Key, hi: Option<Key>) {
    hi.None? || k < hi.value
  }

  predicate UpTo(k: Key, hi: Option<Key>) {
    hi.None? || k <= hi.value
  }

  predicate In(k: Key, f: Info) {
    AtOrAbove(f.lo, k) && Below(k, f.hi)
  }

  /** The range is not empty. */
  predicate Proper(f: Info) {
    f.lo.None? || f.hi.None? || f.lo.value < f.hi.value
  }

  /** b is at most c, both read as upper bounds. */
  predicate HiLe(b: Option<Key>, c: Option<Key>) {
    c.None? || (b.Some? && b.value <= c.value)
  }

  ghost predicate LeafOk(n: Node, f: Info) {
    && f.height == 0
    && SortedFrom(n.keys, 0)
    && forall i :: 0 <= i < |n.keys| ==> In(n.keys[i], f)
  }

  /** The i-th child of page p: it points back, sits one level down, and its range lies
      between the separators around it. */
  ghost predicate KidOk(pages: Pages, info: Infos, p: int, i: nat)
    requires p in pages && p in info && i < |pages[p].rids| && |pages[p].keys| == |pages[p].rids|
  {
    var n, f, c := pages[p], info[p], Kid(pages[p], i);
    && c in pages && c in info
    && pages[c].parent == p
    && info[c].height + 1 == f.height
    && (if i == 0 then
          if f.lo.None? then info[c].lo.None? else info[c].lo.Some? && f.lo.value <= info[c].lo.value
        else info[c].lo.Some? && n.keys[i] <= info[c].lo.value)
    && HiLe(info[c].hi, if i + 1 < |n.keys| then Some(n.keys[i + 1]) else f.hi)
  }

  /** Away from the leftmost edge, an inner child's key 0 repeats its parent's separator. */
  predicate KeyZeroOk(pages: Pages, info: Infos, p: int, i: nat)
    requires p in pages && p in info && i < |pages[p].rids| && |pages[p].keys| == |pages[p].rids|
  {
    var c := Kid(pages[p], i);
    c in pages && !pages[c].isLeaf && (i > 0 || info[p].lo.Some?) ==>
      |pages[c].keys| > 0 && pages[c].keys[0] == pages[p].keys[i]
  }

  ghost predicate InnerOk(pages: Pages, info: Infos, p: int, ex: int)
    requires p in pages && p in info && |pages[p].keys| == |pages[p].rids|
  {
    var n, f := pages[p], info[p];
    && f.height > 0
    && |n.keys| > 0
    && SortedFrom(n.keys, 1)
    && (f.lo.Some? ==> n.keys[0] <= f.lo.value)
    && (forall i :: 1 <= i < |n.keys| ==> AtOrAbove(f.lo, n.keys[i]) && UpTo(n.keys[i], f.hi))
    && (forall i {:trigger KidOk(pages, info, p, i)} :: 0 <= i < |n.rids| ==> KidOk(pages, info, p, i))
    && (forall i {:trigger KeyZeroOk(pages, info, p, i)} :: 0 <= i < |n.rids| && Kid(n, i) != ex ==>
          KeyZeroOk(pages, info, p, i))
  }

  ghost predicate PageOk(pages: Pages, info: Infos, p: int, ex: int)
    requires p in info
  {
    && p in pages
    && |pages[p].keys| == |pages[p].rids|
    && Proper(info[p])
    && if pages[p].isLeaf then LeafOk(pages[p], info[p]) else InnerOk(pages, info, p, ex)
  }

  ghost predicate IsKid(pages: Pages, q: int, p: int) {
    q in pages && exists i :: 0 <= i < |pages[q].rids| && Kid(pages[q], i) == p
  }

  /** p hangs off a live inner page. */
  ghost predicate Linked(pages: Pages, info: Infos, p: int)
    requires p in pages
  {
    var q := pages[p].parent;
    q in info && q in pages && !pages[q].isLeaf && IsKid(pages, q, p)
  }

  ghost predicate Placed(pages: Pages, info: Infos, root: int, p: int) {
    p in pages && Linked(pages, info, p) && p in info && root in info && info[p].height < info[root].height
  }

  ghost predicate AllOk(pages: Pages, info: Infos, ex: int) {
    && NoPage !in info && LeafHeader !in info
    && forall p {:trigger PageOk(pages, info, p, ex)} :: p in info ==> PageOk(pages, info, p, ex)
  }

  /** The whole tree. `orphan` is a page just split off and not yet in its parent;
      `ex` is a child whose key 0 and separator may momentarily differ. */
  ghost predicate Struct(pages: Pages, info: Infos, root: int, orphan: int, ex: int) {
    && root in info && root in pages
    && pages[root].parent == NoPage
    && info[root].lo.None?
    && (orphan == NoPage ==> info[root].hi.None?)
    && orphan != root
    && AllOk(pages, info, ex)
    && (forall p {:trigger Placed(pages, info, root, p)} :: p in info && p != root && p != orphan ==>
          Placed(pages, info, root, p))
  }

  ghost predicate Whole(pages: Pages, info: Infos, root: int) {
    Struct(pages, info, root, NoPage, NoPage)
  }

  // ---------- one page per height for every key ----------

  lemma KidWithin(pages: Pages, info: Infos, p: int, ex: int, i: nat, k: Key)
    requires p in info && PageOk(pages, info, p, ex) && !pages[p].isLeaf && i < |pages[p].rids|
    requires Kid(pages[p], i) in info && In(k, info[Kid(pages[p], i)])
    ensures In(k, info[p])
  {
    assert KidOk(pages, info, p, i);
  }

  lemma KidsDisjoint(pages: Pages, info: Infos, p: int, ex: int, i: nat, j: nat, k: Key)
    requires p in info && PageOk(pages, info, p, ex) && !pages[p].isLeaf && i < |pages[p].rids| && j < |pages[p].rids|
    requires Kid(pages[p], i) in info && In(k, info[Kid(pages[p], i)])
    requires Kid(pages[p], j) in info && In(k, info[Kid(pages[p], j)])
    ensures i == j
  {
    assert KidOk(pages, info, p, i) && KidOk(pages, info, p, j);
  }

  /** Ranges of the same height do not overlap. */
  lemma {:induction false} OnePagePerKey(pages: Pages, info: Infos, root: int, ex: int, p: int, q: int, k: Key)
    requires Struct(pages, info, root, NoPage, ex)
    requires p in info && q in info && info[p].height == info[q].height
    requires In(k, info[p]) && In(k, info[q])
    ensures p == q
    decreases info[root].height - info[p].height
  {
    assert p != root ==> Placed(pages, info, root, p);
    assert q != root ==> Placed(pages, info, root, q);
    if p != root && q != root {
      var pp, qq := pages[p].parent, pages[q].parent;
      var i :| 0 <= i < |pages[pp].rids| && Kid(pages[pp], i) == p;
      var j :| 0 <= j < |pages[qq].rids| && Kid(pages[qq], j) == q;
      assert PageOk(pages, info, pp, ex) && PageOk(pages, info, qq, ex);
      assert KidOk(pages, info, pp, i) && KidOk(pages, info, qq, j);
      KidWithin(pages, info, pp, ex, i, k);
      KidWithin(pages, info, qq, ex, j, k);
      OnePagePerKey(pages, info, root, ex, pp, qq, k);
      KidsDisjoint(pages, info, pp, ex, i, j, k);
    }
  }

  /** A child sits in one slot only. */
  lemma SlotUnique(pages: Pages, info: Infos, p: int, ex: int, i: nat, j: nat)
    requires p in info && PageOk(pages, info, p, ex) && !pages[p].isLeaf && i < |pages[p].rids| && j < |pages[p].rids|
    requires Kid(pages[p], i) == Kid(pages[p], j) && Kid(pages[p], i) in info
    requires Proper(info[Kid(pages[p], i)])
    ensures i == j
  {
    assert KidOk(pages, info, p, i) && KidOk(pages, info, p, j);
  }

  // ---------- what a change does not reach ----------

  /** lo' is no lower than lo, and marks the leftmost page exactly when lo does. */
  predicate LoLe(lo: Option<Key>, lo': Option<Key>) {
    if lo.None? then lo'.None? else lo'.Some? && lo.value <= lo'.value
  }

  /** A parent has no quarrel with what became of its child c: at most, c's range shrank. */
  ghost predicate SameFace(pages: Pages, info: Infos, pages': Pages, info': Infos, c: int) {
    && c in pages && c in pages' && c in info && c in info'
    && info'[c].height == info[c].height && LoLe(info[c].lo, info'[c].lo) && HiLe(info'[c].hi, info[c].hi)
    && pages'[c].parent == pages[c].parent && pages'[c].isLeaf == pages[c].isLeaf
    && (!pages[c].isLeaf ==> |pages[c].keys| > 0 && |pages'[c].keys| > 0 && pages'[c].keys[0] == pages[c].keys[0])
  }

  lemma PageFrame(pages: Pages, info: Infos, pages': Pages, info': Infos, p: int, ex: int)
    requires p in info && p in info' && PageOk(pages, info, p, ex)
    requires p in pages' && info'[p] == info[p]
    requires pages'[p].keys == pages[p].keys && pages'[p].rids == pages[p].rids && pages'[p].isLeaf == pages[p].isLeaf
    requires !pages[p].isLeaf ==>
      forall i :: 0 <= i < |pages[p].rids| ==> SameFace(pages, info, pages', info', Kid(pages[p], i))
    ensures PageOk(pages', info', p, ex)
  {
    if !pages[p].isLeaf {
      forall i | 0 <= i < |pages[p].rids|
        ensures KidOk(pages', info', p, i)
        ensures Kid(pages[p], i) != ex ==> KeyZeroOk(pages', info', p, i)
      {
        assert SameFace(pages, info, pages', info', Kid(pages[p], i));
        assert KidOk(pages, info, p, i);
        assert Kid(pages[p], i) != ex ==> KeyZeroOk(pages, info, p, i);
      }
    }
  }

  // ---------- descending towards a key ----------

  function WidenTo(f: Info, k: Key): Info {
    f.(lo := if f.lo.Some? && k < f.lo.value then Some(k) else f.lo,
       hi := if f.hi.Some? && f.hi.value <= k then Some(k + 1) else f.hi)
  }

  /** The slot that routing for k picks. */
  predicate Routes(n: Node, i: nat, k: Key) {
    i < |n.keys| && (i > 0 ==> n.keys[i] <= k) && (i + 1 < |n.keys| ==> k < n.keys[i + 1])
  }

  lemma KidFace(pages: Pages, info: Infos, q: int, ex: int, j: nat)
    requires q in info && PageOk(pages, info, q, ex) && !pages[q].isLeaf && j < |pages[q].rids|
    requires AllOk(pages, info, ex)
    ensures var c := Kid(pages[q], j);
      c in info && c in pages && pages[c].parent == q && info[c].height + 1 == info[q].height
      && (!pages[c].isLeaf ==> |pages[c].keys| > 0)
  {
    assert KidOk(pages, info, q, j);
    assert PageOk(pages, info, Kid(pages[q], j), ex);
  }

  lemma WidenSelf(pages: Pages, info: Infos, p: int, i: nat, k: Key)
    requires AllOk(pages, info, NoPage) && p in info && PageOk(pages, info, p, NoPage)
    requires !pages[p].isLeaf && In(k, info[p]) && Routes(pages[p], i, k)
    ensures Kid(pages[p], i) in info
    ensures var c := Kid(pages[p], i); PageOk(pages, info[c := WidenTo(info[c], k)], c, NoPage)
  {
    assert KidOk(pages, info, p, i);
    var c := Kid(pages[p], i);
    var info' := info[c := WidenTo(info[c], k)];
    assert KeyZeroOk(pages, info, p, i);
    assert PageOk(pages, info, c, NoPage);
    if !pages[c].isLeaf {
      forall j | 0 <= j < |pages[c].rids|
        ensures KidOk(pages, info', c, j) && (Kid(pages[c], j) != NoPage ==> KeyZeroOk(pages, info', c, j))
      {
        KidFace(pages, info, c, NoPage, j);
        assert KidOk(pages, info, c, j);
        assert Kid(pages[c], j) != NoPage ==> KeyZeroOk(pages, info, c, j);
      }
    }
  }

  lemma WidenParent(pages: Pages, info: Infos, p: int, i: nat, k: Key)
    requires AllOk(pages, info, NoPage) && p in info && PageOk(pages, info, p, NoPage)
    requires !pages[p].isLeaf && In(k, info[p]) && Routes(pages[p], i, k)
    ensures Kid(pages[p], i) in info
    ensures var c := Kid(pages[p], i); PageOk(pages, info[c := WidenTo(info[c], k)], p, NoPage)
  {
    assert KidOk(pages, info, p, i);
    var c := Kid(pages[p], i);
    var info' := info[c := WidenTo(info[c], k)];
    forall j | 0 <= j < |pages[p].rids|
      ensures KidOk(pages, info', p, j) && (Kid(pages[p], j) != NoPage ==> KeyZeroOk(pages, info', p, j))
    {
      assert KidOk(pages, info, p, j);
      assert Kid(pages[p], j) != NoPage ==> KeyZeroOk(pages, info, p, j);
      if Kid(pages[p], j) == c {
        assert PageOk(pages, info, c, NoPage);
        SlotUnique(pages, info, p, NoPage, i, j);
      }
    }
  }

  /** Following the separators one level down: the child's range may be widened to take
      the key in, and nothing else in the tree notices. */
  lemma WidenKid(pages: Pages, info: Infos, root: int, p: int, i: nat, k: Key)
    requires Whole(pages, info, root)
    requires p in info && p in pages && !pages[p].isLeaf && In(k, info[p]) && Routes(pages[p], i, k)
    ensures i < |pages[p].rids| && Kid(pages[p], i) in info
    ensures var c := Kid(pages[p], i); var info' := info[c := WidenTo(info[c], k)];
      Whole(pages, info', root) && In(k, info'[c]) && info'[c].height < info[p].height
  {
    assert PageOk(pages, info, p, NoPage) && KidOk(pages, info, p, i);
    var c := Kid(pages[p], i);
    var info' := info[c := WidenTo(info[c], k)];
    forall q | q in info' ensures PageOk(pages, info', q, NoPage) {
      assert PageOk(pages, info, q, NoPage);
      if q == c {
        WidenSelf(pages, info, p, i, k);
      } else if q == p {
        WidenParent(pages, info, p, i, k);
      } else {
        if !pages[q].isLeaf {
          forall j | 0 <= j < |pages[q].rids| ensures SameFace(pages, info, pages, info', Kid(pages[q], j)) {
            KidFace(pages, info, q, NoPage, j);
          }
        }
        PageFrame(pages, info, pages, info', q, NoPage);
      }
    }
    forall q | q in info' && q != root ensures Placed(pages, info', root, q) {
      assert Placed(pages, info, root, q);
    }
  }
}
