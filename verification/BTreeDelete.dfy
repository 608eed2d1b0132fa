/** The page changes of deletion: out of a leaf, moving an entry between neighbours,
    merging neighbours, collapsing the root, and repairing separators upwards. */
module BTreeDelete {
  import opened Common
  import opened BTreeNode
  import opened BTreeShape
  import opened BTreeInsert
  import opened BTreeLeaves

  // ---------- separators, from a node up ----------

  /** maintain_parent's write: the parent's key for the child becomes the child's first. */
  function WriteSlot(pages: Pages, p: int, r: nat, k: Key): Pages
    requires p in pages && r < |pages[p].keys|
  {
    pages[p := pages[p].(keys := pages[p].keys[r := k])]
  }

  /** The first key of c bounds c's range from below, if anything does. */
  predicate KeyZeroBelow(pages: Pages, info: Infos, c: int)
    requires c in pages && c in info
  {
    |pages[c].keys| > 0 && (info[c].lo.Some? ==> pages[c].keys[0] <= info[c].lo.value)
  }

  /** Writing c's first key into slot r of p would only raise it. */
  predicate SlotRises(pages: Pages, info: Infos, p: int, r: nat, c: int)
    requires p in pages && p in info && c in pages && r < |pages[p].keys| && |pages[c].keys| > 0
  {
    r > 0 || info[p].lo.Some? ==> pages[p].keys[r] <= pages[c].keys[0]
  }

  function FixInfo(info: Infos, p: int, r: nat, k: Key): Infos
    requires p in info
  {
    if r == 0 && info[p].lo.Some? && info[p].lo.value < k then info[p := info[p].(lo := Some(k))] else info
  }

  /** c is the r-th child of p, and everything is in order but for p's key for c. */
  ghost predicate Fixable(pages: Pages, info: Infos, root: int, c: int, p: int, r: nat) {
    && Struct(pages, info, root, NoPage, c) && c in info && c in pages && p in info && p in pages
    && !pages[p].isLeaf && |pages[p].keys| == |pages[p].rids| && r < |pages[p].rids| && Kid(pages[p], r) == c
    && KeyZeroBelow(pages, info, c) && SlotRises(pages, info, p, r, c)
  }

  lemma FixKeys(pages: Pages, info: Infos, root: int, c: int, p: int, r: nat)
    requires Fixable(pages, info, root, c, p, r)
    ensures var k := pages[c].keys[0]; var ks, f := pages[p].keys[r := k], FixInfo(info, p, r, k)[p];
      && SortedFrom(ks, 1) && (f.lo.Some? ==> ks[0] <= f.lo.value) && Proper(f)
      && forall i :: 1 <= i < |ks| ==> AtOrAbove(f.lo, ks[i]) && UpTo(ks[i], f.hi)
  {
    assert PageOk(pages, info, p, c) && KidOk(pages, info, p, r) && PageOk(pages, info, c, c);
  }

  lemma FixKid(pages: Pages, info: Infos, root: int, c: int, p: int, r: nat, i: nat)
    requires Fixable(pages, info, root, c, p, r) && i < |pages[p].rids|
    ensures var k := pages[c].keys[0]; var pages', info' := WriteSlot(pages, p, r, k), FixInfo(info, p, r, k);
      KidOk(pages', info', p, i) && (Kid(pages[p], i) != p ==> KeyZeroOk(pages', info', p, i))
  {
    assert PageOk(pages, info, p, c) && KidOk(pages, info, p, i) && KidOk(pages, info, p, r);
    assert PageOk(pages, info, c, c);
    if Kid(pages[p], i) == c {
      SlotUnique(pages, info, p, c, i, r);
    } else {
      assert KeyZeroOk(pages, info, p, i);
    }
  }

  lemma FixOther(pages: Pages, info: Infos, root: int, c: int, p: int, r: nat, q: int)
    requires Fixable(pages, info, root, c, p, r) && q in info && q != p
    ensures var k := pages[c].keys[0]; PageOk(WriteSlot(pages, p, r, k), FixInfo(info, p, r, k), q, p)
  {
    var k := pages[c].keys[0];
    var pages', info' := WriteSlot(pages, p, r, k), FixInfo(info, p, r, k);
    assert PageOk(pages, info, q, c) && PageOk(pages, info, p, c);
    if !pages[q].isLeaf {
      forall i | 0 <= i < |pages[q].rids| ensures KidOk(pages', info', q, i) {
        KidFace(pages, info, q, c, i);
        assert KidOk(pages, info, q, i);
      }
      forall i | 0 <= i < |pages[q].rids| && Kid(pages[q], i) != p ensures KeyZeroOk(pages', info', q, i) {
        KidFace(pages, info, q, c, i);
        assert KidOk(pages, info, p, r);
        assert Kid(pages[q], i) != c;
        assert KeyZeroOk(pages, info, q, i);
      }
    }
  }

  /** One turn of maintain_parent. What remains to be checked is the parent's own first
      key, one level up, and there it can only have risen too. */
  lemma FixOk(pages: Pages, info: Infos, root: int, c: int, p: int, r: nat)
    requires Fixable(pages, info, root, c, p, r)
    ensures var k := pages[c].keys[0]; var pages', info' := WriteSlot(pages, p, r, k), FixInfo(info, p, r, k);
      Struct(pages', info', root, NoPage, p) && KeyZeroBelow(pages', info', p)
  {
    var k := pages[c].keys[0];
    var pages', info' := WriteSlot(pages, p, r, k), FixInfo(info, p, r, k);
    FixKeys(pages, info, root, c, p, r);
    assert PageOk(pages, info, p, c);
    forall i | 0 <= i < |pages'[p].rids|
      ensures KidOk(pages', info', p, i) && (Kid(pages'[p], i) != p ==> KeyZeroOk(pages', info', p, i))
    {
      FixKid(pages, info, root, c, p, r, i);
    }
    forall q | q in info' ensures PageOk(pages', info', q, p) {
      if q != p {
        FixOther(pages, info, root, c, p, r, q);
      }
    }
    forall q | q in info' && q != root ensures Placed(pages', info', root, q) {
      assert Placed(pages, info, root, q);
      LinkedFrame(pages, info, pages', info', q);
    }
  }

  /** One level up, slot rr of pp for p: there, too, the write can only raise the key. */
  lemma FixRises(pages: Pages, info: Infos, root: int, c: int, p: int, r: nat, pp: int, rr: nat)
    requires Fixable(pages, info, root, c, p, r)
    requires pp in info && pp in pages && pp == pages[p].parent && p != root
    requires rr < |pages[pp].rids| && Kid(pages[pp], rr) == p
    ensures var k := pages[c].keys[0]; var pages', info' := WriteSlot(pages, p, r, k), FixInfo(info, p, r, k);
      Fixable(pages', info', root, p, pp, rr)
  {
    assert Placed(pages, info, root, p) && PageOk(pages, info, pp, c) && PageOk(pages, info, p, c);
    assert KidOk(pages, info, pp, rr) && KidOk(pages, info, p, r);
    assert KeyZeroOk(pages, info, pp, rr);
    FixOk(pages, info, root, c, p, r);
  }

  /** If only the root's first key is in doubt, nothing is: the root is nobody's child. */
  lemma RootIsNoKid(pages: Pages, info: Infos, root: int)
    requires Struct(pages, info, root, NoPage, root)
    ensures Whole(pages, info, root)
  {
    forall q | q in info ensures PageOk(pages, info, q, NoPage) {
      assert PageOk(pages, info, q, root);
      if !pages[q].isLeaf {
        forall i | 0 <= i < |pages[q].rids| && Kid(pages[q], i) != NoPage ensures KeyZeroOk(pages, info, q, i) {
          assert KidOk(pages, info, q, i);
          assert KeyZeroOk(pages, info, q, i);
        }
      }
    }
  }

  /** If the child in doubt has the right first key after all, the tree is whole. */
  lemma NothingInDoubt(pages: Pages, info: Infos, root: int, p: int, pp: int, rr: nat)
    requires Struct(pages, info, root, NoPage, p) && p in info && p in pages && p != root
    requires pp in info && pp in pages && pp == pages[p].parent && rr < |pages[pp].rids| && Kid(pages[pp], rr) == p
    requires |pages[pp].keys| == |pages[pp].rids| && KeyZeroOk(pages, info, pp, rr)
    ensures Whole(pages, info, root)
  {
    forall q | q in info ensures PageOk(pages, info, q, NoPage) {
      assert PageOk(pages, info, q, p);
      if !pages[q].isLeaf {
        forall i | 0 <= i < |pages[q].rids| && Kid(pages[q], i) != NoPage ensures KeyZeroOk(pages, info, q, i) {
          assert KidOk(pages, info, q, i);
          if Kid(pages[q], i) == p {
            assert PageOk(pages, info, p, p);
            SlotUnique(pages, info, q, p, i, rr);
          } else {
            assert KeyZeroOk(pages, info, q, i);
          }
        }
      }
    }
  }

  /** Ready for maintain_parent to run at c, its parent's r-th child: once the parent's
      key for c is rewritten, only the parent's own first key can be in doubt; and if
      that key is already right, the tree is whole as it stands. */
  ghost predicate Ready(pages: Pages, info: Infos, root: int, c: int, p: int, r: nat) {
    && c in pages && |pages[c].keys| > 0
    && p == pages[c].parent && p in pages && p in info && r < |pages[p].keys| && r < |pages[p].rids|
    && Kid(pages[p], r) == c
    && c in info && info[c].height < info[p].height
    && var pages' := WriteSlot(pages, p, r, pages[c].keys[0]);
       && Struct(pages', info, root, NoPage, p)
       && KeyZeroBelow(pages', info, p)
       && (pages[p].keys[r] == pages[c].keys[0] ==> Whole(pages, info, root))
       && (forall pp, rr ::
             (pp in info && pp in pages && pp == pages[p].parent && 0 <= rr < |pages[pp].rids|
              && Kid(pages[pp], rr) == p && p != root) ==>
               Fixable(pages', info, root, p, pp, rr))
  }

  lemma FixableIsReady(pages: Pages, info: Infos, root: int, c: int, p: int, r: nat)
    requires Fixable(pages, info, root, c, p, r)
    ensures Ready(pages, FixInfo(info, p, r, pages[c].keys[0]), root, c, p, r)
  {
    var k := pages[c].keys[0];
    var pages', info' := WriteSlot(pages, p, r, k), FixInfo(info, p, r, k);
    assert PageOk(pages, info, p, c) && KidOk(pages, info, p, r);
    FixOk(pages, info, root, c, p, r);
    forall pp, rr | pp in info' && pp in pages && pp == pages[p].parent && 0 <= rr < |pages[pp].rids|
                  && Kid(pages[pp], rr) == p && p != root
      ensures Fixable(pages', info', root, p, pp, rr)
    {
      FixRises(pages, info, root, c, p, r, pp, rr);
    }
    if pages[p].keys[r] == k {
      assert pages'[p] == pages[p];
      assert pages' == pages;
      if p == root {
        RootIsNoKid(pages, info', root);
      } else {
        assert Placed(pages, info, root, p);
        var pp := pages[p].parent;
        assert PageOk(pages, info, pp, c);
        var rr := SlotOf(pages, info, pp, c, p);
        assert KeyZeroOk(pages, info, pp, rr);
        NothingInDoubt(pages, info', root, p, pp, rr);
      }
    }
  }

  /** The slot is determined by the child. */
  lemma ReadySlot(pages: Pages, info: Infos, root: int, c: int, p: int, r: nat, s: nat)
    requires Ready(pages, info, root, c, p, r) && s < |pages[p].rids| && Kid(pages[p], s) == c
    ensures s == r
  {
    var pages' := WriteSlot(pages, p, r, pages[c].keys[0]);
    assert PageOk(pages', info, p, p);
    assert KidOk(pages', info, p, r);
    assert PageOk(pages', info, c, p);
    SlotUnique(pages', info, p, p, s, r);
  }

  // ---------- out of a leaf ----------

  lemma EraseKeys(ks: seq<Key>, pos: nat, x: Key)
    requires SortedFrom(ks, 0) && pos < |ks|
    ensures SortedFrom(ks[..pos] + ks[pos + 1..], 0)
    ensures x in ks[..pos] + ks[pos + 1..] <==> x in ks && x != ks[pos]
  {
    var ms := ks[..pos] + ks[pos + 1..];
    if x in ks && x != ks[pos] {
      var i :| 0 <= i < |ks| && ks[i] == x;
      assert ms[if i < pos then i else i - 1] == x;
    }
    if x in ms {
      var i :| 0 <= i < |ms| && ms[i] == x;
      assert x == ks[if i < pos then i else i + 1];
    }
  }

  lemma EraseWhole(pages: Pages, info: Infos, root: int, p: int, pos: nat)
    requires Whole(pages, info, root) && IsLeafPage(pages, info, p) && pos < |pages[p].keys|
    requires |pages[p].keys| == |pages[p].rids|
    ensures Whole(pages[p := ErasePair(pages[p], pos)], info, root)
  {
    var pages' := pages[p := ErasePair(pages[p], pos)];
    forall q | q in info ensures PageOk(pages', info, q, NoPage) {
      assert PageOk(pages, info, q, NoPage);
      if q == p {
        forall i | 0 <= i < |pages'[p].keys| ensures In(pages'[p].keys[i], info[p]) {
          assert pages'[p].keys[i] == pages[p].keys[if i < pos then i else i + 1];
        }
        EraseKeys(pages[p].keys, pos, 0);
      } else if pages[q].isLeaf {
        PageFrame(pages, info, pages', info, q, NoPage);
      } else {
        LeavesFrame(pages, info, pages', info, root, q);
      }
    }
    forall q | q in info && q != root ensures Placed(pages', info, root, q) {
      assert Placed(pages, info, root, q);
      LeavesLinked(pages, info, pages', info, root, q);
    }
  }

  lemma EraseRing(pages: Pages, info: Infos, leaves: seq<int>, last: int, p: int, pos: nat)
    requires Ring(pages, info, leaves, last) && IsLeafPage(pages, info, p) && pos < |pages[p].keys|
    requires |pages[p].keys| == |pages[p].rids|
    requires SortedFrom(pages[p].keys, 0)
    ensures Ring(pages[p := ErasePair(pages[p], pos)], info, leaves, last)
  {
    var pages' := pages[p := ErasePair(pages[p], pos)];
    forall i | 0 <= i < |leaves| ensures LinkedAt(pages', leaves, i) {
      assert LinkedAt(pages, leaves, i);
    }
    forall i, j | 0 <= i < j < |leaves| ensures KeysBelow(pages', leaves[i], leaves[j]) {
      assert KeysBelow(pages, leaves[i], leaves[j]);
      ErasedBelow(pages, p, pos, leaves[i], leaves[j]);
    }
  }

  lemma ErasedBelow(pages: Pages, p: int, pos: nat, x: int, y: int)
    requires p in pages && x in pages && y in pages && pos < |pages[p].keys| && |pages[p].keys| == |pages[p].rids|
    requires x != y
    requires KeysBelow(pages, x, y)
    ensures KeysBelow(pages[p := ErasePair(pages[p], pos)], x, y)
  {
    var pages' := pages[p := ErasePair(pages[p], pos)];
    forall a, b | 0 <= a < |pages'[x].keys| && 0 <= b < |pages'[y].keys| ensures pages'[x].keys[a] < pages'[y].keys[b] {
      assert pages'[x].keys[a] == pages[x].keys[if x == p && a >= pos then a + 1 else a];
      assert pages'[y].keys[b] == pages[y].keys[if y == p && b >= pos then b + 1 else b];
    }
  }

  lemma EraseHolds(pages: Pages, info: Infos, root: int, m: map<Key, Rid>, p: int, pos: nat)
    requires Whole(pages, info, root) && Holds(pages, info, m) && IsLeafPage(pages, info, p) && pos < |pages[p].keys|
    requires |pages[p].keys| == |pages[p].rids|
    ensures pages[p].keys[pos] in m
    ensures Holds(pages[p := ErasePair(pages[p], pos)], info, m - {pages[p].keys[pos]})
  {
    var n, k := pages[p], pages[p].keys[pos];
    var pages' := pages[p := ErasePair(n, pos)];
    assert PageOk(pages, info, p, NoPage);
    forall q, i | IsLeafPage(pages', info, q) && 0 <= i < |pages'[q].keys| && i < |pages'[q].rids|
      ensures pages'[q].keys[i] in m - {k} && (m - {k})[pages'[q].keys[i]] == pages'[q].rids[i]
    {
      assert IsLeafPage(pages, info, q) && PageOk(pages, info, q, NoPage);
      if q == p {
        var o := if i < pos then i else i + 1;
        assert pages'[p].keys[i] == n.keys[o] && pages'[p].rids[i] == n.rids[o];
      } else if pages[q].keys[i] == k {
        OnePagePerKey(pages, info, root, NoPage, p, q, k);
      }
    }
    forall x | x in m - {k} ensures Stored(pages', info, x) {
      var q :| IsLeafPage(pages, info, q) && x in pages[q].keys;
      assert IsLeafPage(pages', info, q);
      EraseKeys(n.keys, pos, x);
    }
  }

  // ---------- starting maintain_parent from a whole tree ----------

  lemma ExWeakens(pages: Pages, info: Infos, root: int, ex: int)
    requires Whole(pages, info, root)
    ensures Struct(pages, info, root, NoPage, ex)
  {
    forall q | q in info ensures PageOk(pages, info, q, ex) {
      assert PageOk(pages, info, q, NoPage);
      if !pages[q].isLeaf {
        forall i | 0 <= i < |pages[q].rids| ensures KidOk(pages, info, q, i) && KeyZeroOk(pages, info, q, i) {
          assert KidOk(pages, info, q, i);
          assert KeyZeroOk(pages, info, q, i);
        }
      }
    }
  }

  lemma WholeIsFixable(pages: Pages, info: Infos, root: int, c: int, p: int, r: nat)
    requires Whole(pages, info, root) && c in info && c in pages && c != root && |pages[c].keys| > 0
    requires p == pages[c].parent && p in info && p in pages && r < |pages[p].rids| && Kid(pages[p], r) == c
    requires pages[c].isLeaf && info[c].lo.Some? ==> pages[c].keys[0] == info[c].lo.value
    ensures Fixable(pages, info, root, c, p, r)
  {
    assert Placed(pages, info, root, c) && PageOk(pages, info, p, NoPage) && PageOk(pages, info, c, NoPage);
    assert KidOk(pages, info, p, r) && KeyZeroOk(pages, info, p, r);
    ExWeakens(pages, info, root, c);
  }

  /** A leaf's range may start at its first key. */
  function RaiseInfo(pages: Pages, info: Infos, c: int): Infos
    requires c in pages && c in info && |pages[c].keys| > 0
  {
    if info[c].lo.Some? then info[c := info[c].(lo := Some(pages[c].keys[0]))] else info
  }

  lemma RaiseOk(pages: Pages, info: Infos, root: int, c: int)
    requires Whole(pages, info, root) && IsLeafPage(pages, info, c) && |pages[c].keys| > 0
    ensures Whole(pages, RaiseInfo(pages, info, c), root)
  {
    var info' := RaiseInfo(pages, info, c);
    assert PageOk(pages, info, c, NoPage) && In(pages[c].keys[0], info[c]);
    forall q | q in info' ensures PageOk(pages, info', q, NoPage) {
      assert PageOk(pages, info, q, NoPage);
      if q != c {
        if pages[q].isLeaf {
          PageFrame(pages, info, pages, info', q, NoPage);
        } else {
          LeavesFrame(pages, info, pages, info', root, q);
        }
      }
    }
    forall q | q in info' && q != root ensures Placed(pages, info', root, q) {
      assert Placed(pages, info, root, q);
      LinkedFrame(pages, info, pages, info', q);
    }
  }

  /** The ranges with which maintain_parent starts at a child of a whole tree. */
  function ReadyInfo(pages: Pages, info: Infos, c: int, r: nat): Infos
    requires c in pages && c in info && |pages[c].keys| > 0 && pages[c].parent in info
  {
    FixInfo(if pages[c].isLeaf then RaiseInfo(pages, info, c) else info, pages[c].parent, r, pages[c].keys[0])
  }

  lemma WholeIsReady(pages: Pages, info: Infos, root: int, c: int, r: nat)
    requires Whole(pages, info, root) && c in info && c in pages && c != root && |pages[c].keys| > 0
    requires var p := pages[c].parent; p in info && p in pages && r < |pages[p].rids| && Kid(pages[p], r) == c
    ensures Ready(pages, ReadyInfo(pages, info, c, r), root, c, pages[c].parent, r)
  {
    var info1 := if pages[c].isLeaf then RaiseInfo(pages, info, c) else info;
    if pages[c].isLeaf {
      RaiseOk(pages, info, root, c);
    }
    WholeIsFixable(pages, info1, root, c, pages[c].parent, r);
    FixableIsReady(pages, info1, root, c, pages[c].parent, r);
  }

  // ---------- moving an entry between neighbours ----------

  /** Leaves a and b, children j and j + 1 of p, with what they hold dealt out anew. */
  ghost predicate Dealt(pages: Pages, info: Infos, root: int, p: int, j: nat, a: int, b: int, na: Node, nb: Node) {
    && Whole(pages, info, root) && p in info && p in pages && !pages[p].isLeaf && |pages[p].keys| == |pages[p].rids|
    && j + 1 < |pages[p].rids| && Kid(pages[p], j) == a && Kid(pages[p], j + 1) == b
    && IsLeafPage(pages, info, a) && IsLeafPage(pages, info, b) && a != b
    && na == pages[a].(keys := na.keys, rids := na.rids) && nb == pages[b].(keys := nb.keys, rids := nb.rids)
    && |na.keys| == |na.rids| && |nb.keys| == |nb.rids| && |pages[a].keys| == |pages[a].rids|
    && |pages[b].keys| == |pages[b].rids|
    && |na.keys| > 0 && |nb.keys| > 0
    && na.keys + nb.keys == pages[a].keys + pages[b].keys && na.rids + nb.rids == pages[a].rids + pages[b].rids
  }

  function DealtPages(pages: Pages, a: int, b: int, na: Node, nb: Node): Pages {
    pages[a := na][b := nb]
  }

  function DealtInfo(info: Infos, a: int, b: int, k: Key): Infos
    requires a in info && b in info
  {
    info[a := info[a].(hi := Some(k))][b := info[b].(lo := Some(k))]
  }

  /** All keys of a then b, in one sorted run within the two ranges. */
  lemma DealtRun(pages: Pages, info: Infos, root: int, p: int, j: nat, a: int, b: int, na: Node, nb: Node)
    requires Dealt(pages, info, root, p, j, a, b, na, nb)
    ensures SortedFrom(na.keys + nb.keys, 0)
    ensures forall i :: 0 <= i < |na.keys + nb.keys| ==>
      AtOrAbove(info[a].lo, (na.keys + nb.keys)[i]) && Below((na.keys + nb.keys)[i], info[b].hi)
    ensures info[b].lo.Some?
    ensures info[a].hi.Some?
  {
    var ks := pages[a].keys + pages[b].keys;
    assert PageOk(pages, info, p, NoPage) && KidOk(pages, info, p, j) && KidOk(pages, info, p, j + 1);
    assert PageOk(pages, info, a, NoPage) && PageOk(pages, info, b, NoPage);
    forall i | 0 <= i < |ks| ensures AtOrAbove(info[a].lo, ks[i]) && Below(ks[i], info[b].hi) {
      assert if i < |pages[a].keys| then In(ks[i], info[a]) else In(ks[i], info[b]);
    }
    forall x, y | 0 <= x < y < |ks| ensures ks[x] < ks[y] {
      assert if x < |pages[a].keys| then In(ks[x], info[a]) else In(ks[x], info[b]);
      assert if y < |pages[a].keys| then In(ks[y], info[a]) else In(ks[y], info[b]);
    }
  }

  lemma DealtLeaves(pages: Pages, info: Infos, root: int, p: int, j: nat, a: int, b: int, na: Node, nb: Node)
    requires Dealt(pages, info, root, p, j, a, b, na, nb)
    ensures var k := nb.keys[0]; var info' := DealtInfo(info, a, b, k);
      LeafOk(na, info'[a]) && LeafOk(nb, info'[b]) && Proper(info'[a]) && Proper(info'[b])
  {
    DealtRun(pages, info, root, p, j, a, b, na, nb);
    assert PageOk(pages, info, a, NoPage) && PageOk(pages, info, b, NoPage);
    var ks := na.keys + nb.keys;
    assert forall i :: 0 <= i < |na.keys| ==> ks[i] == na.keys[i];
    assert forall i :: 0 <= i < |nb.keys| ==> ks[|na.keys| + i] == nb.keys[i];
    assert ks[0] < ks[|na.keys|] && ks[|na.keys|] == nb.keys[0];
  }

  lemma DealtParent(pages: Pages, info: Infos, root: int, p: int, j: nat, a: int, b: int, na: Node, nb: Node)
    requires Dealt(pages, info, root, p, j, a, b, na, nb)
    ensures PageOk(WriteSlot(DealtPages(pages, a, b, na, nb), p, j + 1, nb.keys[0]),
                   DealtInfo(info, a, b, nb.keys[0]), p, NoPage)
  {
    var k := nb.keys[0];
    var pages', info' := WriteSlot(DealtPages(pages, a, b, na, nb), p, j + 1, k), DealtInfo(info, a, b, k);
    assert PageOk(pages, info, p, NoPage) && KidOk(pages, info, p, j) && KidOk(pages, info, p, j + 1);
    DealtRun(pages, info, root, p, j, a, b, na, nb);
    DealtLeaves(pages, info, root, p, j, a, b, na, nb);
    assert (na.keys + nb.keys)[|na.keys|] == k;
    forall i | 0 <= i < |pages[p].rids| ensures KidOk(pages', info', p, i) && KeyZeroOk(pages', info', p, i) {
      DealtKid(pages, info, root, p, j, a, b, na, nb, i);
    }
  }

  lemma DealtKid(pages: Pages, info: Infos, root: int, p: int, j: nat, a: int, b: int, na: Node, nb: Node, i: nat)
    requires Dealt(pages, info, root, p, j, a, b, na, nb) && p in pages && i < |pages[p].rids|
    ensures var pages' := WriteSlot(DealtPages(pages, a, b, na, nb), p, j + 1, nb.keys[0]);
      var info' := DealtInfo(info, a, b, nb.keys[0]);
      KidOk(pages', info', p, i) && KeyZeroOk(pages', info', p, i)
  {
    assert PageOk(pages, info, p, NoPage) && KidOk(pages, info, p, j) && KidOk(pages, info, p, j + 1);
    DealtRun(pages, info, root, p, j, a, b, na, nb);
    DealtLeaves(pages, info, root, p, j, a, b, na, nb);
    var ks := na.keys + nb.keys;
    assert ks[|na.keys|] == nb.keys[0] && ks[0] == na.keys[0] && ks[0] < ks[|na.keys|];
    assert KidOk(pages, info, p, i) && KeyZeroOk(pages, info, p, i);
    assert PageOk(pages, info, a, NoPage) && PageOk(pages, info, b, NoPage);
    if Kid(pages[p], i) == a {
      SlotUnique(pages, info, p, NoPage, i, j);
    } else if Kid(pages[p], i) == b {
      SlotUnique(pages, info, p, NoPage, i, j + 1);
    }
  }

  lemma DealtOther(pages: Pages, info: Infos, root: int, p: int, j: nat, a: int, b: int, na: Node, nb: Node, q: int)
    requires Dealt(pages, info, root, p, j, a, b, na, nb) && q in info && q != p && q != a && q != b
    ensures PageOk(WriteSlot(DealtPages(pages, a, b, na, nb), p, j + 1, nb.keys[0]),
                   DealtInfo(info, a, b, nb.keys[0]), q, NoPage)
  {
    var k := nb.keys[0];
    var pages', info' := WriteSlot(DealtPages(pages, a, b, na, nb), p, j + 1, k), DealtInfo(info, a, b, k);
    assert PageOk(pages, info, q, NoPage) && PageOk(pages, info, p, NoPage);
    assert KidOk(pages, info, p, j) && KidOk(pages, info, p, j + 1);
    if !pages[q].isLeaf {
      forall i | 0 <= i < |pages[q].rids| ensures SameFace(pages, info, pages', info', Kid(pages[q], i)) {
        KidFace(pages, info, q, NoPage, i);
      }
    }
    PageFrame(pages, info, pages', info', q, NoPage);
  }

  lemma DealtWhole(pages: Pages, info: Infos, root: int, p: int, j: nat, a: int, b: int, na: Node, nb: Node)
    requires Dealt(pages, info, root, p, j, a, b, na, nb)
    ensures Whole(WriteSlot(DealtPages(pages, a, b, na, nb), p, j + 1, nb.keys[0]),
                  DealtInfo(info, a, b, nb.keys[0]), root)
  {
    var k := nb.keys[0];
    var pages', info' := WriteSlot(DealtPages(pages, a, b, na, nb), p, j + 1, k), DealtInfo(info, a, b, k);
    DealtLeaves(pages, info, root, p, j, a, b, na, nb);
    DealtParent(pages, info, root, p, j, a, b, na, nb);
    forall q | q in info' ensures PageOk(pages', info', q, NoPage) {
      if q != p && q != a && q != b {
        DealtOther(pages, info, root, p, j, a, b, na, nb, q);
      }
    }
    forall q | q in info' && q != root ensures Placed(pages', info', root, q) {
      assert Placed(pages, info, root, q);
      LinkedFrame(pages, info, pages', info', q);
    }
    assert PageOk(pages, info, p, NoPage) && KidOk(pages, info, p, j) && KidOk(pages, info, p, j + 1);
  }

  /** redistribute has moved an entry; maintain_parent may now run at the right leaf. */
  lemma DealtReady(pages: Pages, info: Infos, root: int, p: int, j: nat, a: int, b: int, na: Node, nb: Node)
    requires Dealt(pages, info, root, p, j, a, b, na, nb)
    ensures Ready(DealtPages(pages, a, b, na, nb), DealtInfo(info, a, b, nb.keys[0]), root, b, p, j + 1)
  {
    var k := nb.keys[0];
    var pages1, info' := DealtPages(pages, a, b, na, nb), DealtInfo(info, a, b, k);
    var pages' := WriteSlot(pages1, p, j + 1, k);
    DealtWhole(pages, info, root, p, j, a, b, na, nb);
    ExWeakens(pages', info', root, p);
    assert PageOk(pages, info, p, NoPage) && KidOk(pages, info, p, j + 1) && PageOk(pages', info', p, NoPage);
    if pages1[p].keys[j + 1] == k {
      assert pages'[p] == pages1[p];
      assert pages' == pages1;
    }
    forall pp, rr | pp in info' && pp in pages1 && pp == pages1[p].parent && 0 <= rr < |pages1[pp].rids|
                  && Kid(pages1[pp], rr) == p && p != root
      ensures Fixable(pages', info', root, p, pp, rr)
    {
      WholeIsFixable(pages', info', root, p, pp, rr);
    }
  }

  // ---------- what dealing out does to the leaves ----------

  lemma DealtBelow(pages: Pages, info: Infos, root: int, p: int, j: nat, a: int, b: int, na: Node, nb: Node, x: int,
                   y: int)
    requires Dealt(pages, info, root, p, j, a, b, na, nb) && x in pages && y in pages && x != y
    requires KeysBelow(pages, x, y)
    requires x == a && y != b ==> KeysBelow(pages, b, y)
    requires x == b ==> y != a && KeysBelow(pages, a, y)
    requires y == a ==> KeysBelow(pages, x, b)
    requires y == b && x != a ==> KeysBelow(pages, x, a)
    ensures KeysBelow(DealtPages(pages, a, b, na, nb), x, y)
  {
    var pages' := DealtPages(pages, a, b, na, nb);
    DealtRun(pages, info, root, p, j, a, b, na, nb);
    var ks := na.keys + nb.keys;
    forall i, o | 0 <= i < |pages'[x].keys| && 0 <= o < |pages'[y].keys| ensures pages'[x].keys[i] < pages'[y].keys[o] {
      if x == a && y == b {
        assert ks[i] == na.keys[i] && ks[|na.keys| + o] == nb.keys[o];
      } else {
        DealtMember(pages, info, root, p, j, a, b, na, nb, pages'[x].keys[i]);
        DealtMember(pages, info, root, p, j, a, b, na, nb, pages'[y].keys[o]);
      }
    }
  }

  lemma DealtMember(pages: Pages, info: Infos, root: int, p: int, j: nat, a: int, b: int, na: Node, nb: Node, k: Key)
    requires Dealt(pages, info, root, p, j, a, b, na, nb)
    ensures k in na.keys || k in nb.keys <==> k in pages[a].keys || k in pages[b].keys
  {
    assert k in na.keys + nb.keys <==> k in pages[a].keys + pages[b].keys;
  }

  lemma DealtRing(pages: Pages, info: Infos, root: int, p: int, j: nat, a: int, b: int, na: Node, nb: Node,
                  leaves: seq<int>, last: int, i: nat)
    requires Dealt(pages, info, root, p, j, a, b, na, nb) && Ring(pages, info, leaves, last)
    requires i + 1 < |leaves| && leaves[i] == a && leaves[i + 1] == b
    ensures Ring(DealtPages(pages, a, b, na, nb), DealtInfo(info, a, b, nb.keys[0]), leaves, last)
  {
    var pages', info' := DealtPages(pages, a, b, na, nb), DealtInfo(info, a, b, nb.keys[0]);
    forall x | 0 <= x < |leaves| ensures LinkedAt(pages', leaves, x) {
      assert LinkedAt(pages, leaves, x);
    }
    forall x, y | 0 <= x < y < |leaves| ensures KeysBelow(pages', leaves[x], leaves[y]) {
      assert KeysBelow(pages, leaves[x], leaves[y]);
      assert y > i + 1 ==> KeysBelow(pages, a, leaves[y]) && KeysBelow(pages, b, leaves[y]);
      assert x < i ==> KeysBelow(pages, leaves[x], a) && KeysBelow(pages, leaves[x], b);
      DealtBelow(pages, info, root, p, j, a, b, na, nb, leaves[x], leaves[y]);
    }
  }

  lemma DealtHolds(pages: Pages, info: Infos, root: int, p: int, j: nat, a: int, b: int, na: Node, nb: Node,
                   m: map<Key, Rid>)
    requires Dealt(pages, info, root, p, j, a, b, na, nb) && Holds(pages, info, m)
    ensures Holds(DealtPages(pages, a, b, na, nb), DealtInfo(info, a, b, nb.keys[0]), m)
  {
    var pages', info' := DealtPages(pages, a, b, na, nb), DealtInfo(info, a, b, nb.keys[0]);
    var ks, rs, n := pages[a].keys + pages[b].keys, pages[a].rids + pages[b].rids, |pages[a].keys|;
    assert forall i :: 0 <= i < |ks| ==>
      && ks[i] == (if i < n then pages[a].keys[i] else pages[b].keys[i - n])
      && rs[i] == (if i < n then pages[a].rids[i] else pages[b].rids[i - n]);
    assert forall i :: 0 <= i < |ks| ==> ks[i] in m && m[ks[i]] == rs[i];
    forall q, i | IsLeafPage(pages', info', q) && 0 <= i < |pages'[q].keys| && i < |pages'[q].rids|
      ensures pages'[q].keys[i] in m && m[pages'[q].keys[i]] == pages'[q].rids[i]
    {
      if q == a {
        assert na.keys[i] == (na.keys + nb.keys)[i] && na.rids[i] == (na.rids + nb.rids)[i];
      } else if q == b {
        assert nb.keys[i] == (na.keys + nb.keys)[|na.keys| + i] && nb.rids[i] == (na.rids + nb.rids)[|na.keys| + i];
      } else {
        assert IsLeafPage(pages, info, q);
      }
    }
    forall k | k in m ensures Stored(pages', info', k) {
      var q :| IsLeafPage(pages, info, q) && k in pages[q].keys;
      DealtMember(pages, info, root, p, j, a, b, na, nb, k);
      assert IsLeafPage(pages', info', q) && IsLeafPage(pages', info', a) && IsLeafPage(pages', info', b);
    }
  }

  // ---------- merging neighbours ----------

  /** Leaves a and b are children j and j + 1 of p and b follows a in the ring. */
  ghost predicate Mergeable(pages: Pages, info: Infos, root: int, p: int, j: nat, a: int, b: int, leaves: seq<int>,
                            last: int, i: nat) {
    && a in pages && b in pages && Dealt(pages, info, root, p, j, a, b, pages[a], pages[b])
    && Ring(pages, info, leaves, last) && i + 1 < |leaves| && leaves[i] == a && leaves[i + 1] == b
  }

  /** coalesce: b's entries move to a, b leaves the ring and its parent's slots. */
  function MergePages(pages: Pages, p: int, j: nat, a: int, b: int): Pages
    requires p in pages && a in pages && b in pages && pages[b].next in pages
    requires j + 1 < |pages[p].keys| && j + 1 < |pages[p].rids|
  {
    var n, x := pages[a], pages[b].next;
    pages[a := n.(keys := n.keys + pages[b].keys, rids := n.rids + pages[b].rids, next := x)]
         [x := pages[x].(prev := a)]
         [p := ErasePair(pages[p], j + 1)]
  }

  function MergeInfo(info: Infos, a: int, b: int): Infos
    requires a in info && b in info
  {
    (info - {b})[a := info[a].(hi := info[b].hi)]
  }

  lemma MergeFacts(pages: Pages, info: Infos, root: int, p: int, j: nat, a: int, b: int, leaves: seq<int>, last: int,
                   i: nat)
    requires Mergeable(pages, info, root, p, j, a, b, leaves, last, i)
    ensures var x := pages[b].next;
      && x in pages && x != a && x != b && x != p && x == After(leaves, i + 1) && pages[b].prev == a
      && (x in info ==> pages[x].isLeaf)
    ensures a != p && b != p && pages[a].parent == p && pages[b].parent == p
  {
    assert LinkedAt(pages, leaves, i + 1);
    assert PageOk(pages, info, p, NoPage) && KidOk(pages, info, p, j) && KidOk(pages, info, p, j + 1);
    if i + 2 < |leaves| {
      assert leaves[i + 2] in leaves;
    }
  }

  lemma MergeLeaf(pages: Pages, info: Infos, root: int, p: int, j: nat, a: int, b: int, leaves: seq<int>, last: int,
                  i: nat)
    requires Mergeable(pages, info, root, p, j, a, b, leaves, last, i) && pages[b].next in pages
    ensures PageOk(MergePages(pages, p, j, a, b), MergeInfo(info, a, b), a, NoPage)
  {
    MergeFacts(pages, info, root, p, j, a, b, leaves, last, i);
    DealtRun(pages, info, root, p, j, a, b, pages[a], pages[b]);
    assert PageOk(pages, info, a, NoPage) && PageOk(pages, info, b, NoPage);
    var ks := pages[a].keys + pages[b].keys;
    assert ks[0] == pages[a].keys[0];
    assert AtOrAbove(info[a].lo, ks[0]) && Below(ks[0], info[b].hi);
  }

  /** m is n without slot s. */
  ghost predicate Erased(n: Node, m: Node, s: nat) {
    && |n.keys| == |n.rids| && s < |n.keys| && |m.keys| == |m.rids| == |n.keys| - 1
    && m.isLeaf == n.isLeaf && m.parent == n.parent
    && (forall i :: 0 <= i < s ==> m.keys[i] == n.keys[i] && m.rids[i] == n.rids[i])
    && (forall i :: s <= i < |m.keys| ==> m.keys[i] == n.keys[i + 1] && m.rids[i] == n.rids[i + 1])
  }

  lemma ErasedSlots(n: Node, s: nat)
    requires |n.keys| == |n.rids| && s < |n.keys|
    ensures Erased(n, ErasePair(n, s), s)
  {
  }

  lemma MergeKid(pages: Pages, info: Infos, root: int, p: int, j: nat, a: int, b: int, pages': Pages, t: nat)
    requires a in pages && b in pages && Dealt(pages, info, root, p, j, a, b, pages[a], pages[b])
    requires p in pages' && Erased(pages[p], pages'[p], j + 1) && t < |pages'[p].rids|
    requires a != p
    requires forall c :: c in info && c in pages && pages[c].parent == p && c != b ==>
      c in pages' && pages'[c].parent == p && pages'[c].isLeaf == pages[c].isLeaf
    requires forall c :: c in info && c in pages && !pages[c].isLeaf && c != p ==> c in pages' && pages'[c] == pages[c]
    ensures KidOk(pages', MergeInfo(info, a, b), p, t) && KeyZeroOk(pages', MergeInfo(info, a, b), p, t)
  {
    var o := if t <= j then t else t + 1;
    assert PageOk(pages, info, p, NoPage) && KidOk(pages, info, p, o) && KeyZeroOk(pages, info, p, o);
    assert KidOk(pages, info, p, j) && KidOk(pages, info, p, j + 1);
    assert PageOk(pages, info, a, NoPage) && PageOk(pages, info, b, NoPage);
    if Kid(pages[p], o) == a {
      SlotUnique(pages, info, p, NoPage, o, j);
    }
  }

  lemma MergeParent(pages: Pages, info: Infos, root: int, p: int, j: nat, a: int, b: int, leaves: seq<int>, last: int,
                    i: nat)
    requires Mergeable(pages, info, root, p, j, a, b, leaves, last, i) && pages[b].next in pages
    ensures PageOk(MergePages(pages, p, j, a, b), MergeInfo(info, a, b), p, NoPage)
    ensures Erased(pages[p], MergePages(pages, p, j, a, b)[p], j + 1)
  {
    var pages', info' := MergePages(pages, p, j, a, b), MergeInfo(info, a, b);
    MergeFacts(pages, info, root, p, j, a, b, leaves, last, i);
    ErasedSlots(pages[p], j + 1);
    assert PageOk(pages, info, p, NoPage);
    forall t | 0 <= t < |pages'[p].rids| ensures KidOk(pages', info', p, t) && KeyZeroOk(pages', info', p, t) {
      MergeKid(pages, info, root, p, j, a, b, pages', t);
    }
  }

  lemma MergeOther(pages: Pages, info: Infos, root: int, p: int, j: nat, a: int, b: int, leaves: seq<int>, last: int,
                   i: nat, q: int)
    requires Mergeable(pages, info, root, p, j, a, b, leaves, last, i) && pages[b].next in pages
    requires q in info && q != p && q != a && q != b
    ensures PageOk(MergePages(pages, p, j, a, b), MergeInfo(info, a, b), q, NoPage)
  {
    var pages', info' := MergePages(pages, p, j, a, b), MergeInfo(info, a, b);
    MergeFacts(pages, info, root, p, j, a, b, leaves, last, i);
    ErasedSlots(pages[p], j + 1);
    assert PageOk(pages, info, q, NoPage) && PageOk(pages, info, p, NoPage);
    if !pages[q].isLeaf {
      forall t | 0 <= t < |pages[q].rids| ensures SameFace(pages, info, pages', info', Kid(pages[q], t)) {
        KidFace(pages, info, q, NoPage, t);
      }
    }
    PageFrame(pages, info, pages', info', q, NoPage);
  }

  lemma MergePlaced(pages: Pages, info: Infos, root: int, p: int, j: nat, a: int, b: int, leaves: seq<int>, last: int,
                    i: nat, c: int)
    requires Mergeable(pages, info, root, p, j, a, b, leaves, last, i) && pages[b].next in pages
    requires c in info && c != root && c != b
    ensures Placed(MergePages(pages, p, j, a, b), MergeInfo(info, a, b), root, c)
  {
    var pages', info' := MergePages(pages, p, j, a, b), MergeInfo(info, a, b);
    MergeFacts(pages, info, root, p, j, a, b, leaves, last, i);
    assert Placed(pages, info, root, c) && b != root;
    if pages[c].parent == p {
      MergeSlot(pages, info, root, p, j, a, b, leaves, last, i, c);
    } else {
      LinkedFrame(pages, info, pages', info', c);
    }
  }

  lemma MergeSlot(pages: Pages, info: Infos, root: int, p: int, j: nat, a: int, b: int, leaves: seq<int>, last: int,
                  i: nat, c: int)
    requires Mergeable(pages, info, root, p, j, a, b, leaves, last, i) && pages[b].next in pages
    requires c in info && c in pages && c != b && IsKid(pages, p, c)
    ensures IsKid(MergePages(pages, p, j, a, b), p, c)
  {
    var pages' := MergePages(pages, p, j, a, b);
    ErasedSlots(pages[p], j + 1);
    var t :| 0 <= t < |pages[p].rids| && Kid(pages[p], t) == c;
    assert Kid(pages'[p], if t <= j then t else t - 1) == c;
  }

  lemma MergeWhole(pages: Pages, info: Infos, root: int, p: int, j: nat, a: int, b: int, leaves: seq<int>, last: int,
                   i: nat)
    requires Mergeable(pages, info, root, p, j, a, b, leaves, last, i)
    ensures pages[b].next in pages && Whole(MergePages(pages, p, j, a, b), MergeInfo(info, a, b), root)
  {
    MergeFacts(pages, info, root, p, j, a, b, leaves, last, i);
    var pages', info' := MergePages(pages, p, j, a, b), MergeInfo(info, a, b);
    MergeLeaf(pages, info, root, p, j, a, b, leaves, last, i);
    MergeParent(pages, info, root, p, j, a, b, leaves, last, i);
    forall q | q in info' ensures PageOk(pages', info', q, NoPage) {
      if q != p && q != a {
        MergeOther(pages, info, root, p, j, a, b, leaves, last, i, q);
      }
    }
    forall q | q in info' && q != root ensures Placed(pages', info', root, q) {
      MergePlaced(pages, info, root, p, j, a, b, leaves, last, i, q);
    }
    assert pages'[root].parent == NoPage;
  }

  function WithoutLeaf(leaves: seq<int>, i: nat): seq<int>
    requires i + 1 < |leaves|
  {
    leaves[..i + 1] + leaves[i + 2..]
  }

  lemma WithoutMember(leaves: seq<int>, i: nat, x: int)
    requires i + 1 < |leaves| && Distinct(leaves)
    ensures x in WithoutLeaf(leaves, i) <==> x in leaves && x != leaves[i + 1]
    ensures Distinct(WithoutLeaf(leaves, i))
  {
    var ls := WithoutLeaf(leaves, i);
    assert forall t :: 0 <= t < |ls| ==> ls[t] == leaves[if t <= i then t else t + 1];
    if x in leaves && x != leaves[i + 1] {
      var t :| 0 <= t < |leaves| && leaves[t] == x;
      assert ls[if t <= i then t else t - 1] == x;
    }
  }

  lemma MergeLinkedAt(pages: Pages, info: Infos, root: int, p: int, j: nat, a: int, b: int, leaves: seq<int>,
                      last: int, i: nat, t: nat)
    requires Mergeable(pages, info, root, p, j, a, b, leaves, last, i) && pages[b].next in pages
    requires t < |WithoutLeaf(leaves, i)|
    ensures var pages' := MergePages(pages, p, j, a, b); var ls := WithoutLeaf(leaves, i);
      ls[t] in pages' && LinkedAt(pages', ls, t) && ls[t] != p
  {
    var ls := WithoutLeaf(leaves, i);
    MergeFacts(pages, info, root, p, j, a, b, leaves, last, i);
    var o := if t <= i then t else t + 1;
    assert ls[t] == leaves[o] && leaves[o] in leaves;
    assert LinkedAt(pages, leaves, o) && LinkedAt(pages, leaves, i + 1);
    assert t != i ==> After(ls, t) == After(leaves, o);
    assert t == i ==> After(ls, t) == After(leaves, i + 1);
    assert t != i + 1 ==> Before(ls, t) == Before(leaves, o);
    assert t == i + 1 ==> Before(ls, t) == a;
    assert o != i + 1 && (leaves[o] == a <==> o == i) && leaves[o] != b;
    assert leaves[o] == pages[b].next <==> o == i + 2;
  }

  lemma MergeLinkage(pages: Pages, info: Infos, root: int, p: int, j: nat, a: int, b: int, leaves: seq<int>, last: int,
                     i: nat)
    requires Mergeable(pages, info, root, p, j, a, b, leaves, last, i) && pages[b].next in pages
    ensures var pages' := MergePages(pages, p, j, a, b); var ls := WithoutLeaf(leaves, i);
      AllPresent(pages', ls) && Linkage(pages', ls) && p !in ls
  {
    var pages' := MergePages(pages, p, j, a, b);
    var ls := WithoutLeaf(leaves, i);
    forall t | 0 <= t < |ls| ensures ls[t] in pages' && LinkedAt(pages', ls, t) && ls[t] != p {
      MergeLinkedAt(pages, info, root, p, j, a, b, leaves, last, i, t);
    }
    MergeFacts(pages, info, root, p, j, a, b, leaves, last, i);
    assert ls[0] == leaves[0];
    assert LeafHeader !in leaves && p != LeafHeader;
    assert pages'[LeafHeader].next == leaves[0];
  }

  lemma MergeOrder(pages: Pages, info: Infos, root: int, p: int, j: nat, a: int, b: int, leaves: seq<int>, last: int,
                   i: nat)
    requires Mergeable(pages, info, root, p, j, a, b, leaves, last, i) && pages[b].next in pages
    requires AllPresent(MergePages(pages, p, j, a, b), WithoutLeaf(leaves, i)) && p !in WithoutLeaf(leaves, i)
    ensures KeyOrder(MergePages(pages, p, j, a, b), WithoutLeaf(leaves, i))
  {
    var pages' := MergePages(pages, p, j, a, b);
    var ls := WithoutLeaf(leaves, i);
    MergeFacts(pages, info, root, p, j, a, b, leaves, last, i);
    forall x, y | 0 <= x < y < |ls| ensures KeysBelow(pages', ls[x], ls[y]) {
      var x', y' := (if x <= i then x else x + 1), (if y <= i then y else y + 1);
      assert ls[x] == leaves[x'] && ls[y] == leaves[y'];
      assert ls[x] in ls && ls[y] in ls;
      assert KeysBelow(pages, leaves[x'], leaves[y']);
      assert x == i ==> KeysBelow(pages, b, leaves[y']);
      assert y == i ==> KeysBelow(pages, leaves[x'], b);
    }
  }

  lemma MergeRing(pages: Pages, info: Infos, root: int, p: int, j: nat, a: int, b: int, leaves: seq<int>, last: int,
                  i: nat)
    requires Mergeable(pages, info, root, p, j, a, b, leaves, last, i) && pages[b].next in pages
    ensures Ring(MergePages(pages, p, j, a, b), MergeInfo(info, a, b), WithoutLeaf(leaves, i),
                 if last == b then a else last)
  {
    var pages', info' := MergePages(pages, p, j, a, b), MergeInfo(info, a, b);
    var ls := WithoutLeaf(leaves, i);
    MergeFacts(pages, info, root, p, j, a, b, leaves, last, i);
    MergeLinkage(pages, info, root, p, j, a, b, leaves, last, i);
    MergeOrder(pages, info, root, p, j, a, b, leaves, last, i);
    forall x ensures x in ls <==> IsLeafPage(pages', info', x) {
      WithoutMember(leaves, i, x);
    }
    WithoutMember(leaves, i, 0);
    assert ls[0] == leaves[0];
    assert last == b <==> i + 2 == |leaves|;
  }

  lemma MergeHolds(pages: Pages, info: Infos, root: int, p: int, j: nat, a: int, b: int, leaves: seq<int>, last: int,
                   i: nat, m: map<Key, Rid>)
    requires Mergeable(pages, info, root, p, j, a, b, leaves, last, i) && pages[b].next in pages
    requires Holds(pages, info, m)
    ensures Holds(MergePages(pages, p, j, a, b), MergeInfo(info, a, b), m)
  {
    var pages', info' := MergePages(pages, p, j, a, b), MergeInfo(info, a, b);
    MergeFacts(pages, info, root, p, j, a, b, leaves, last, i);
    forall q, t | IsLeafPage(pages', info', q) && 0 <= t < |pages'[q].keys| && t < |pages'[q].rids|
      ensures pages'[q].keys[t] in m && m[pages'[q].keys[t]] == pages'[q].rids[t]
    {
      assert IsLeafPage(pages, info, q) && IsLeafPage(pages, info, b);
    }
    forall k | k in m ensures Stored(pages', info', k) {
      var q :| IsLeafPage(pages, info, q) && k in pages[q].keys;
      assert IsLeafPage(pages', info', a);
      if q != a && q != b {
        assert IsLeafPage(pages', info', q);
      }
    }
  }

  // ---------- collapsing the root ----------

  /** adjust_root: an inner root with a single child gives way to it. */
  function CollapsePages(pages: Pages, c: int): Pages
    requires c in pages
  {
    pages[c := pages[c].(parent := NoPage)]
  }

  function CollapseInfo(info: Infos, root: int, c: int): Infos
    requires c in info
  {
    (info - {root})[c := info[c].(hi := None)]
  }

  lemma CollapseFacts(pages: Pages, info: Infos, root: int, q: int)
    requires Whole(pages, info, root) && !pages[root].isLeaf && |pages[root].rids| == 1 && q in info && q != root
    ensures Kid(pages[root], 0) in info && Kid(pages[root], 0) in pages
    ensures var c := Kid(pages[root], 0);
      info[c].lo.None? && c != root && pages[c].parent == root && Placed(pages, info, root, q)
      && (q != c ==> pages[q].parent != root && info[q].height < info[c].height)
  {
    assert PageOk(pages, info, root, NoPage) && KidOk(pages, info, root, 0);
    assert Placed(pages, info, root, q);
    var o := pages[q].parent;
    assert PageOk(pages, info, o, NoPage);
    var i := SlotOf(pages, info, o, NoPage, q);
    if o != root {
      assert Placed(pages, info, root, o);
    }
  }

  lemma CollapsePage(pages: Pages, info: Infos, root: int, q: int)
    requires Whole(pages, info, root) && !pages[root].isLeaf && |pages[root].rids| == 1 && q in info && q != root
    requires Kid(pages[root], 0) in info && Kid(pages[root], 0) in pages
    ensures var c := Kid(pages[root], 0); PageOk(CollapsePages(pages, c), CollapseInfo(info, root, c), q, NoPage)
  {
    var c := Kid(pages[root], 0);
    var pages', info' := CollapsePages(pages, c), CollapseInfo(info, root, c);
    CollapseFacts(pages, info, root, q);
    assert PageOk(pages, info, q, NoPage);
    if !pages[q].isLeaf {
      forall i | 0 <= i < |pages[q].rids| ensures KidOk(pages', info', q, i) && KeyZeroOk(pages', info', q, i) {
        KidFace(pages, info, q, NoPage, i);
        assert KidOk(pages, info, q, i) && KeyZeroOk(pages, info, q, i);
      }
    }
  }

  lemma CollapseOk(pages: Pages, info: Infos, root: int)
    requires Whole(pages, info, root) && !pages[root].isLeaf && |pages[root].rids| == 1
    ensures Kid(pages[root], 0) in info && Kid(pages[root], 0) in pages
    ensures var c := Kid(pages[root], 0); Whole(CollapsePages(pages, c), CollapseInfo(info, root, c), c)
  {
    assert PageOk(pages, info, root, NoPage) && KidOk(pages, info, root, 0);
    var c := Kid(pages[root], 0);
    var pages', info' := CollapsePages(pages, c), CollapseInfo(info, root, c);
    forall q | q in info' ensures PageOk(pages', info', q, NoPage) {
      CollapsePage(pages, info, root, q);
    }
    forall q | q in info' && q != c ensures Placed(pages', info', c, q) {
      CollapseFacts(pages, info, root, q);
      LinkedFrame(pages, info, pages', info', q);
    }
  }

  // ---------- neighbours in the parent are neighbours in the ring ----------

  lemma BetweenIsKid(pages: Pages, info: Infos, root: int, p: int, j: nat, a: int, b: int, m: int, x: Key)
    requires a in pages && b in pages && Dealt(pages, info, root, p, j, a, b, pages[a], pages[b])
    requires IsLeafPage(pages, info, m) && In(x, info[m])
    requires pages[a].keys[0] < x < pages[b].keys[0]
    ensures m == a || m == b
  {
    assert PageOk(pages, info, p, NoPage) && KidOk(pages, info, p, j) && KidOk(pages, info, p, j + 1);
    assert PageOk(pages, info, a, NoPage) && PageOk(pages, info, b, NoPage) && PageOk(pages, info, m, NoPage);
    KidWithin(pages, info, p, NoPage, j, pages[a].keys[0]);
    KidWithin(pages, info, p, NoPage, j + 1, pages[b].keys[0]);
    if m == root {
      LoneLeaf(pages, info, root, a);
    }
    assert Placed(pages, info, root, m);
    var o := pages[m].parent;
    assert PageOk(pages, info, o, NoPage);
    var t := SlotOf(pages, info, o, NoPage, m);
    KidWithin(pages, info, o, NoPage, t, x);
    OnePagePerKey(pages, info, root, NoPage, o, p, x);
  }

  lemma ListedInOrder(pages: Pages, leaves: seq<int>, i: nat, k: nat)
    requires AllPresent(pages, leaves) && KeyOrder(pages, leaves) && i < |leaves| && k < |leaves|
    requires |pages[leaves[i]].keys| > 0 && |pages[leaves[k]].keys| > 0
    requires pages[leaves[i]].keys[0] < pages[leaves[k]].keys[0]
    ensures i < k
  {
    assert k < i ==> KeysBelow(pages, leaves[k], leaves[i]);
  }

  /** The neighbour that coalesce_or_redistribute takes from the leaf links is the
      sibling in the same parent. */
  lemma NeighboursInRing(pages: Pages, info: Infos, root: int, order: nat, odd: int, p: int, j: nat, a: int, b: int,
                         leaves: seq<int>, last: int)
      returns (i: nat)
    requires a in pages && b in pages && Dealt(pages, info, root, p, j, a, b, pages[a], pages[b])
    requires Ring(pages, info, leaves, last) && Sizes(pages, info, root, order, odd) && order > 2
    requires odd == a || odd == b
    ensures i + 1 < |leaves| && leaves[i] == a && leaves[i + 1] == b
    ensures pages[a].next == b && pages[b].prev == a
  {
    assert a in leaves && b in leaves;
    i :| 0 <= i < |leaves| && leaves[i] == a;
    var k :| 0 <= k < |leaves| && leaves[k] == b;
    DealtRun(pages, info, root, p, j, a, b, pages[a], pages[b]);
    var ks := pages[a].keys + pages[b].keys;
    assert ks[0] < ks[|pages[a].keys|] && ks[|pages[a].keys|] == pages[b].keys[0];
    ListedInOrder(pages, leaves, i, k);
    assert LinkedAt(pages, leaves, i) && LinkedAt(pages, leaves, k);
    if k != i + 1 {
      var m := leaves[i + 1];
      assert m in leaves;
      assert PageOk(pages, info, m, NoPage);
      if m == root {
        LoneLeaf(pages, info, root, a);
      }
      assert |pages[m].keys| > 0;
      assert KeysBelow(pages, a, m) && KeysBelow(pages, m, b);
      BetweenIsKid(pages, info, root, p, j, a, b, m, pages[m].keys[0]);
    }
  }

  // ---------- all of it, through each change of deletion ----------

  lemma GoodErase(t: Tree, order: nat, m: map<Key, Rid>, p: int, pos: nat)
    requires Good(t, order, m, NoPage) && IsLeafPage(t.pages, t.info, p) && pos < |t.pages[p].keys|
    ensures |t.pages[p].keys| == |t.pages[p].rids| && t.pages[p].keys[pos] in m
    ensures Good(t.(pages := t.pages[p := ErasePair(t.pages[p], pos)]), order, m - {t.pages[p].keys[pos]}, p)
  {
    assert PageOk(t.pages, t.info, p, NoPage);
    EraseWhole(t.pages, t.info, t.root, p, pos);
    EraseRing(t.pages, t.info, t.leaves, t.last, p, pos);
    EraseHolds(t.pages, t.info, t.root, m, p, pos);
  }

  /** The tree is sound but for the separators above c, which maintain_parent mends. */
  ghost predicate Mending(t: Tree, order: nat, m: map<Key, Rid>, c: int, p: int, r: nat) {
    && order > 2
    && Ready(t.pages, t.info, t.root, c, p, r)
    && Sizes(t.pages, t.info, t.root, order, NoPage)
    && Ring(t.pages, t.info, t.leaves, t.last)
    && Holds(t.pages, t.info, m)
  }

  lemma WriteKeepsLeaves(pages: Pages, info: Infos, info': Infos, p: int, r: nat, k: Key)
    requires p in pages && !pages[p].isLeaf && r < |pages[p].keys| && info'.Keys == info.Keys && LeafHeader !in info
    requires p in info
    ensures LeavesSame(pages, info, WriteSlot(pages, p, r, k), info')
  {
  }

  lemma ReadyParent(pages: Pages, info: Infos, root: int, c: int, p: int, r: nat)
    requires Ready(pages, info, root, c, p, r)
    ensures !pages[p].isLeaf && (pages[p].parent == NoPage <==> p == root) && info[p].height <= info[root].height
  {
    var pages' := WriteSlot(pages, p, r, pages[c].keys[0]);
    assert PageOk(pages', info, p, p);
    assert PageOk(pages', info, c, p);
    assert p != root ==> Placed(pages', info, root, p);
  }

  /** After one write the loop is done, or ready one level up. */
  lemma MendStep(t: Tree, order: nat, m: map<Key, Rid>, c: int, p: int, r: nat) returns (t': Tree, rr: nat)
    requires Mending(t, order, m, c, p, r)
    ensures t' == t.(pages := WriteSlot(t.pages, p, r, t.pages[c].keys[0]), info := t'.info)
    ensures t'.info.Keys == t.info.Keys && t'.info[p].height == t.info[p].height
    ensures t'.info[t'.root].height == t.info[t.root].height
    ensures t.pages[p].parent == NoPage ==> Good(t', order, m, NoPage)
    ensures t.pages[p].parent != NoPage ==> Mending(t', order, m, p, t.pages[p].parent, rr)
  {
    var pages' := WriteSlot(t.pages, p, r, t.pages[c].keys[0]);
    ReadyParent(t.pages, t.info, t.root, c, p, r);
    t', rr := t.(pages := pages'), 0;
    WriteKeepsLeaves(t.pages, t.info, t.info, p, r, t.pages[c].keys[0]);
    RingFrame(t.pages, t.info, pages', t.info, t.leaves, t.last);
    HoldsFrame(t.pages, t.info, pages', t.info, m);
    if p == t.root {
      RootIsNoKid(pages', t.info, t.root);
    } else {
      assert Placed(pages', t.info, t.root, p);
      var pp := t.pages[p].parent;
      assert PageOk(pages', t.info, pp, p);
      rr := SlotOf(pages', t.info, pp, p, p);
      FixableIsReady(pages', t.info, t.root, p, pp, rr);
      t' := t'.(info := FixInfo(t.info, pp, rr, pages'[p].keys[0]));
      SameKeysSame(pages', t.info, t'.info, t.root, order, t.leaves, t.last, m);
    }
  }

  lemma SameKeysSame(pages: Pages, info: Infos, info': Infos, root: int, order: nat, leaves: seq<int>, last: int,
                     m: map<Key, Rid>)
    requires info'.Keys == info.Keys && Ring(pages, info, leaves, last) && Holds(pages, info, m)
    requires Sizes(pages, info, root, order, NoPage)
    ensures Ring(pages, info', leaves, last) && Holds(pages, info', m) && Sizes(pages, info', root, order, NoPage)
  {
    RingFrame(pages, info, pages, info', leaves, last);
    HoldsFrame(pages, info, pages, info', m);
  }

  lemma GoodIsMending(t: Tree, order: nat, m: map<Key, Rid>, c: int) returns (info': Infos, r: nat)
    requires Good(t, order, m, NoPage) && c in t.info && c in t.pages && c != t.root
    ensures t.pages[c].parent != NoPage
    ensures info'.Keys == t.info.Keys
    ensures Mending(t.(info := info'), order, m, c, t.pages[c].parent, r)
  {
    assert Placed(t.pages, t.info, t.root, c);
    var p := t.pages[c].parent;
    assert PageOk(t.pages, t.info, p, NoPage);
    r := SlotOf(t.pages, t.info, p, NoPage, c);
    WholeIsReady(t.pages, t.info, t.root, c, r);
    info' := ReadyInfo(t.pages, t.info, c, r);
    SameKeysSame(t.pages, t.info, info', t.root, order, t.leaves, t.last, m);
  }

  /** What redistribute leaves for maintain_parent. */
  lemma GoodDealt(t: Tree, order: nat, m: map<Key, Rid>, odd: int, p: int, j: nat, a: int, b: int, na: Node, nb: Node,
                  i: nat)
    requires Good(t, order, m, odd) && Dealt(t.pages, t.info, t.root, p, j, a, b, na, nb) && (odd == a || odd == b)
    requires i + 1 < |t.leaves| && t.leaves[i] == a && t.leaves[i + 1] == b
    requires MinSize(order) <= |na.keys| <= order && MinSize(order) <= |nb.keys| <= order
    ensures Mending(t.(pages := DealtPages(t.pages, a, b, na, nb), info := DealtInfo(t.info, a, b, nb.keys[0])),
                    order, m, b, p, j + 1)
  {
    DealtReady(t.pages, t.info, t.root, p, j, a, b, na, nb);
    DealtRing(t.pages, t.info, t.root, p, j, a, b, na, nb, t.leaves, t.last, i);
    DealtHolds(t.pages, t.info, t.root, p, j, a, b, na, nb, m);
  }

  lemma GoodMerge(t: Tree, order: nat, m: map<Key, Rid>, odd: int, p: int, j: nat, a: int, b: int, i: nat)
    requires Good(t, order, m, odd) && Mergeable(t.pages, t.info, t.root, p, j, a, b, t.leaves, t.last, i)
    requires odd == a || odd == b
    requires MinSize(order) <= |t.pages[a].keys| + |t.pages[b].keys| <= order
    ensures t.pages[b].next in t.pages
    ensures Good(Tree(MergePages(t.pages, p, j, a, b), MergeInfo(t.info, a, b), t.root, WithoutLeaf(t.leaves, i),
                      if t.last == b then a else t.last), order, m, p)
  {
    MergeWhole(t.pages, t.info, t.root, p, j, a, b, t.leaves, t.last, i);
    MergeRing(t.pages, t.info, t.root, p, j, a, b, t.leaves, t.last, i);
    MergeHolds(t.pages, t.info, t.root, p, j, a, b, t.leaves, t.last, i, m);
    MergeSizes(t.pages, t.info, t.root, order, odd, p, j, a, b, t.leaves, t.last, i);
  }

  lemma MergeSizes(pages: Pages, info: Infos, root: int, order: nat, odd: int, p: int, j: nat, a: int, b: int,
                   leaves: seq<int>, last: int, i: nat)
    requires Mergeable(pages, info, root, p, j, a, b, leaves, last, i) && pages[b].next in pages
    requires odd == a || odd == b
    requires Sizes(pages, info, root, order, odd) && order > 2
    requires MinSize(order) <= |pages[a].keys| + |pages[b].keys| <= order
    ensures Sizes(MergePages(pages, p, j, a, b), MergeInfo(info, a, b), root, order, p)
  {
    MergeFacts(pages, info, root, p, j, a, b, leaves, last, i);
  }

  lemma GoodCollapse(t: Tree, order: nat, m: map<Key, Rid>)
    requires Good(t, order, m, t.root) && !t.pages[t.root].isLeaf && |t.pages[t.root].keys| == 1
    ensures |t.pages[t.root].rids| == 1 && Kid(t.pages[t.root], 0) in t.info && Kid(t.pages[t.root], 0) in t.pages
    ensures var c := Kid(t.pages[t.root], 0);
      Good(t.(pages := CollapsePages(t.pages, c), info := CollapseInfo(t.info, t.root, c), root := c), order, m, NoPage)
  {
    assert PageOk(t.pages, t.info, t.root, NoPage);
    CollapseOk(t.pages, t.info, t.root);
    var c := Kid(t.pages[t.root], 0);
    assert KidOk(t.pages, t.info, t.root, 0);
    CollapseFacts(t.pages, t.info, t.root, c);
    var pages', info' := CollapsePages(t.pages, c), CollapseInfo(t.info, t.root, c);
    CollapseSizes(t.pages, t.info, t.root, order, c);
    RingFrame(t.pages, t.info, pages', info', t.leaves, t.last);
    HoldsFrame(t.pages, t.info, pages', info', m);
  }

  lemma CollapseSizes(pages: Pages, info: Infos, root: int, order: nat, c: int)
    requires Sizes(pages, info, root, order, root) && order > 2 && c in info && c in pages && c != root
    requires NoPage !in info
    ensures Sizes(CollapsePages(pages, c), CollapseInfo(info, root, c), c, order, NoPage)
  {
  }
}
