/** The leaves of a B+ tree: the ring that links them in key order through the leaf
    header page, what they hold, and how full every node is. */
module BTreeLeaves {
  import opened Common
  import opened BTreeNode
  import opened BTreeShape
  import opened BTreeInsert

  predicate IsLeafPage(pages: Pages, info: Infos, p: int) {
    p in info && p in pages && pages[p].isLeaf
  }

  /** Every key of leaf p is below every key of leaf q. */
  ghost predicate KeysBelow(pages: Pages, p: int, q: int)
    requires p in pages && q in pages
  {
    forall a, b :: 0 <= a < |pages[p].keys| && 0 <= b < |pages[q].keys| ==> pages[p].keys[a] < pages[q].keys[b]
  }

  ghost predicate AllPresent(pages: Pages, ps: seq<int>) {
    forall i :: 0 <= i < |ps| ==> ps[i] in pages
  }

  function After(leaves: seq<int>, i: nat): int {
    if i + 1 < |leaves| then leaves[i + 1] else LeafHeader
  }

  function Before(leaves: seq<int>, i: nat): int {
    if 0 < i <= |leaves| then leaves[i - 1] else LeafHeader
  }

  predicate LinkedAt(pages: Pages, leaves: seq<int>, i: nat)
    requires i < |leaves| && leaves[i] in pages
  {
    pages[leaves[i]].next == After(leaves, i) && pages[leaves[i]].prev == Before(leaves, i)
  }

  /** The pages of `leaves` are linked both ways, in that order. */
  ghost predicate Linkage(pages: Pages, leaves: seq<int>)
    requires AllPresent(pages, leaves)
  {
    && |leaves| > 0 && LeafHeader in pages
    && pages[LeafHeader].next == leaves[0] && pages[LeafHeader].prev == leaves[|leaves| - 1]
    && (forall i {:trigger LinkedAt(pages, leaves, i)} :: 0 <= i < |leaves| ==> LinkedAt(pages, leaves, i))
  }

  ghost predicate KeyOrder(pages: Pages, leaves: seq<int>)
    requires AllPresent(pages, leaves)
  {
    forall i, j {:trigger KeysBelow(pages, leaves[i], leaves[j])} :: 0 <= i < j < |leaves| ==>
      KeysBelow(pages, leaves[i], leaves[j])
  }

  /** The ring: first_leaf never moves off the initial root page. */
  ghost predicate Ring(pages: Pages, info: Infos, leaves: seq<int>, last: int) {
    && AllPresent(pages, leaves)
    && Distinct(leaves)
    && (forall p :: p in leaves <==> IsLeafPage(pages, info, p))
    && Linkage(pages, leaves)
    && KeyOrder(pages, leaves)
    && leaves[0] == InitRoot && last == leaves[|leaves| - 1]
  }

  ghost predicate Stored(pages: Pages, info: Infos, k: Key) {
    exists p :: IsLeafPage(pages, info, p) && k in pages[p].keys
  }

  /** The leaves hold exactly the entries of m. */
  ghost predicate Holds(pages: Pages, info: Infos, m: map<Key, Rid>) {
    && (forall p, i :: IsLeafPage(pages, info, p) && 0 <= i < |pages[p].keys| && i < |pages[p].rids| ==>
          pages[p].keys[i] in m && m[pages[p].keys[i]] == pages[p].rids[i])
    && (forall k :: k in m ==> Stored(pages, info, k))
  }

  function MaxSize(order: nat): nat {
    order + 1
  }

  function MinSize(order: nat): nat {
    MaxSize(order) / 2
  }

  predicate SizeOk(n: Node, isRoot: bool, order: nat) {
    && |n.keys| <= order
    && if isRoot then n.isLeaf || |n.keys| >= 2 else MinSize(order) <= |n.keys|
  }

  /** Every node but `odd` is between half full and full. */
  ghost predicate Sizes(pages: Pages, info: Infos, root: int, order: nat, odd: int) {
    forall p :: p in info && p != odd ==> p in pages && SizeOk(pages[p], p == root, order)
  }

  // ---------- changes that leave the leaves alone ----------

  /** The same leaves with the same entries and links; their parents may differ. */
  ghost predicate LeavesSame(pages: Pages, info: Infos, pages': Pages, info': Infos) {
    && (forall p :: IsLeafPage(pages', info', p) <==> IsLeafPage(pages, info, p))
    && (forall p :: IsLeafPage(pages, info, p) || (p == LeafHeader && p in pages) ==>
          && p in pages' && pages'[p].keys == pages[p].keys && pages'[p].rids == pages[p].rids
          && pages'[p].next == pages[p].next && pages'[p].prev == pages[p].prev)
  }

  /** The listed pages and the header look the same, as far as the ring goes. */
  ghost predicate ListedSame(pages: Pages, pages': Pages, leaves: seq<int>) {
    && (forall i :: 0 <= i < |leaves| ==>
          && leaves[i] in pages && leaves[i] in pages' && pages'[leaves[i]].keys == pages[leaves[i]].keys
          && pages'[leaves[i]].next == pages[leaves[i]].next && pages'[leaves[i]].prev == pages[leaves[i]].prev)
    && (LeafHeader in pages ==>
          && LeafHeader in pages'
          && pages'[LeafHeader].next == pages[LeafHeader].next && pages'[LeafHeader].prev == pages[LeafHeader].prev)
  }

  lemma ListFrame(pages: Pages, pages': Pages, leaves: seq<int>)
    requires AllPresent(pages, leaves) && Linkage(pages, leaves) && KeyOrder(pages, leaves)
    requires ListedSame(pages, pages', leaves)
    ensures AllPresent(pages', leaves) && Linkage(pages', leaves) && KeyOrder(pages', leaves)
  {
    forall i | 0 <= i < |leaves| ensures LinkedAt(pages', leaves, i) {
      assert LinkedAt(pages, leaves, i);
    }
    forall i, j | 0 <= i < j < |leaves| ensures KeysBelow(pages', leaves[i], leaves[j]) {
      assert KeysBelow(pages, leaves[i], leaves[j]);
    }
  }

  lemma RingFrame(pages: Pages, info: Infos, pages': Pages, info': Infos, leaves: seq<int>, last: int)
    requires Ring(pages, info, leaves, last) && LeavesSame(pages, info, pages', info')
    ensures Ring(pages', info', leaves, last)
  {
    forall i | 0 <= i < |leaves| ensures IsLeafPage(pages, info, leaves[i]) {
      assert leaves[i] in leaves;
    }
    ListFrame(pages, pages', leaves);
  }

  lemma HoldsFrame(pages: Pages, info: Infos, pages': Pages, info': Infos, m: map<Key, Rid>)
    requires Holds(pages, info, m) && LeavesSame(pages, info, pages', info')
    ensures Holds(pages', info', m)
  {
    forall k | k in m ensures Stored(pages', info', k) {
      assert Stored(pages, info, k);
      var p :| IsLeafPage(pages, info, p) && k in pages[p].keys;
      assert IsLeafPage(pages', info', p);
    }
  }

  // ---------- where a key can be ----------

  /** A key that routing brings to leaf p is stored in p or nowhere. */
  lemma StoredHere(pages: Pages, info: Infos, root: int, m: map<Key, Rid>, p: int, k: Key)
    requires Whole(pages, info, root) && Holds(pages, info, m) && IsLeafPage(pages, info, p) && In(k, info[p])
    ensures k in m <==> k in pages[p].keys
    ensures forall i :: 0 <= i < |pages[p].keys| && i < |pages[p].rids| && pages[p].keys[i] == k ==>
      k in m && m[k] == pages[p].rids[i]
  {
    assert PageOk(pages, info, p, NoPage);
    if k in m {
      var q :| IsLeafPage(pages, info, q) && k in pages[q].keys;
      assert PageOk(pages, info, q, NoPage);
      var i :| 0 <= i < |pages[q].keys| && pages[q].keys[i] == k;
      OnePagePerKey(pages, info, root, NoPage, p, q, k);
    }
  }

  /** A leaf at the root is the only page. */
  lemma LoneLeaf(pages: Pages, info: Infos, root: int, p: int)
    requires Whole(pages, info, root) && pages[root].isLeaf && p in info
    ensures p == root
  {
    assert PageOk(pages, info, root, NoPage);
    assert p != root ==> Placed(pages, info, root, p);
  }

  /** A key routed to leaf p fits between the keys of the leaves around it. */
  lemma FitsInOrder(pages: Pages, info: Infos, root: int, order: nat, leaves: seq<int>, last: int, i: nat, j: nat,
                    k: Key, b: nat)
    requires Whole(pages, info, root) && Ring(pages, info, leaves, last) && Sizes(pages, info, root, order, NoPage)
    requires order > 2
    requires i < |leaves| && j < |leaves| && i != j && leaves[i] in info && In(k, info[leaves[i]])
    requires leaves[j] in pages && b < |pages[leaves[j]].keys|
    ensures if i < j then k < pages[leaves[j]].keys[b] else pages[leaves[j]].keys[b] < k
  {
    var p, q := leaves[i], leaves[j];
    assert p in leaves && q in leaves;
    assert PageOk(pages, info, p, NoPage) && PageOk(pages, info, q, NoPage);
    var x := pages[q].keys[b];
    if p == root {
      LoneLeaf(pages, info, root, q);
    }
    assert |pages[p].keys| > 0;
    var a := pages[p].keys[0];
    assert In(a, info[p]) && In(x, info[q]);
    assert if i < j then KeysBelow(pages, p, q) else KeysBelow(pages, q, p);
    if In(x, info[p]) {
      OnePagePerKey(pages, info, root, NoPage, p, q, x);
    }
  }

  // ---------- inserting into a leaf ----------

  lemma InsertMember(ks: seq<Key>, pos: nat, k: Key, x: Key)
    requires pos <= |ks|
    ensures x in ks[..pos] + [k] + ks[pos..] <==> x == k || x in ks
  {
    var ms := ks[..pos] + [k] + ks[pos..];
    if x in ks {
      var i :| 0 <= i < |ks| && ks[i] == x;
      assert ms[if i < pos then i else i + 1] == x;
    }
    assert ms[pos] == k;
  }

  lemma InsertHolds(pages: Pages, info: Infos, m: map<Key, Rid>, p: int, pos: nat, k: Key, r: Rid)
    requires Holds(pages, info, m) && IsLeafPage(pages, info, p) && pos <= |pages[p].keys|
    requires |pages[p].keys| == |pages[p].rids|
    requires k !in m
    ensures Holds(pages[p := InsertPair(pages[p], pos, k, r)], info, m[k := r])
  {
    var n := pages[p];
    var pages' := pages[p := InsertPair(n, pos, k, r)];
    forall q, i | IsLeafPage(pages', info, q) && 0 <= i < |pages'[q].keys| && i < |pages'[q].rids|
      ensures pages'[q].keys[i] in m[k := r] && m[k := r][pages'[q].keys[i]] == pages'[q].rids[i]
    {
      assert IsLeafPage(pages, info, q);
      if q == p && i != pos {
        var o := if i < pos then i else i - 1;
        assert pages'[p].keys[i] == n.keys[o] && pages'[p].rids[i] == n.rids[o];
      }
    }
    forall x | x in m[k := r] ensures Stored(pages', info, x) {
      InsertMember(n.keys, pos, k, x);
      if x == k {
        assert IsLeafPage(pages', info, p);
      } else {
        var q :| IsLeafPage(pages, info, q) && x in pages[q].keys;
        assert IsLeafPage(pages', info, q);
      }
    }
  }

  lemma InsertRing(pages: Pages, info: Infos, root: int, order: nat, leaves: seq<int>, last: int, p: int, pos: nat,
                   k: Key, r: Rid)
    requires Whole(pages, info, root) && Ring(pages, info, leaves, last) && Sizes(pages, info, root, order, NoPage)
    requires order > 2
    requires IsLeafPage(pages, info, p) && In(k, info[p]) && pos <= |pages[p].keys|
    requires |pages[p].keys| == |pages[p].rids|
    ensures Ring(pages[p := InsertPair(pages[p], pos, k, r)], info, leaves, last)
  {
    var pages' := pages[p := InsertPair(pages[p], pos, k, r)];
    assert p in leaves;
    forall i | 0 <= i < |leaves| ensures LinkedAt(pages', leaves, i) {
      assert LinkedAt(pages, leaves, i);
    }
    forall i, j | 0 <= i < j < |leaves| ensures KeysBelow(pages', leaves[i], leaves[j]) {
      assert leaves[i] in leaves && leaves[j] in leaves;
      assert KeysBelow(pages, leaves[i], leaves[j]);
      InsertBelow(pages, info, root, order, leaves, last, p, pos, k, r, i, j);
    }
  }

  lemma InsertBelow(pages: Pages, info: Infos, root: int, order: nat, leaves: seq<int>, last: int, p: int, pos: nat,
                    k: Key, r: Rid, i: nat, j: nat)
    requires Whole(pages, info, root) && Ring(pages, info, leaves, last) && Sizes(pages, info, root, order, NoPage)
    requires order > 2
    requires IsLeafPage(pages, info, p) && In(k, info[p]) && pos <= |pages[p].keys|
    requires |pages[p].keys| == |pages[p].rids|
    requires i < j < |leaves| && KeysBelow(pages, leaves[i], leaves[j])
    ensures KeysBelow(pages[p := InsertPair(pages[p], pos, k, r)], leaves[i], leaves[j])
  {
    var pages' := pages[p := InsertPair(pages[p], pos, k, r)];
    var x, y := leaves[i], leaves[j];
    forall a, b | 0 <= a < |pages'[x].keys| && 0 <= b < |pages'[y].keys| ensures pages'[x].keys[a] < pages'[y].keys[b] {
      if x == p {
        InsertMember(pages[p].keys, pos, k, pages'[x].keys[a]);
        if pages'[x].keys[a] == k {
          FitsInOrder(pages, info, root, order, leaves, last, i, j, k, b);
        }
      } else if y == p {
        InsertMember(pages[p].keys, pos, k, pages'[y].keys[b]);
        if pages'[y].keys[b] == k {
          FitsInOrder(pages, info, root, order, leaves, last, j, i, k, a);
        }
      }
    }
  }

  // ---------- splitting a leaf ----------

  /** The ring order after q is linked in behind the leaf at i. */
  function SplitLeaves(leaves: seq<int>, i: nat, q: int): seq<int>
    requires i < |leaves|
  {
    leaves[..i + 1] + [q] + leaves[i + 1..]
  }

  lemma NextOfLeaf(pages: Pages, info: Infos, root: int, leaves: seq<int>, last: int, p: int)
    requires Ring(pages, info, leaves, last) && IsLeafPage(pages, info, p) && LeafHeader !in info
    ensures var x := pages[p].next; x in pages && x != p && (x in info ==> pages[x].isLeaf)
    ensures var x := pages[p].prev; x in pages && x != p && (x in info ==> pages[x].isLeaf)
  {
    assert p in leaves;
    var i :| 0 <= i < |leaves| && leaves[i] == p;
    if i + 1 < |leaves| {
      assert leaves[i + 1] in leaves;
    }
    if i > 0 {
      assert leaves[i - 1] in leaves;
    }
    assert LinkedAt(pages, leaves, i);
  }

  lemma SplitMember(leaves: seq<int>, i: nat, q: int, x: int)
    requires i < |leaves|
    ensures x in SplitLeaves(leaves, i, q) <==> x == q || x in leaves
  {
    var ls := SplitLeaves(leaves, i, q);
    if x in leaves {
      var j :| 0 <= j < |leaves| && leaves[j] == x;
      assert ls[if j <= i then j else j + 1] == x;
    }
    assert ls[i + 1] == q;
  }

  lemma SplitKeyOrder(pages: Pages, leaves: seq<int>, i: nat, q: int)
    requires i < |leaves| && AllPresent(pages, leaves) && Distinct(leaves) && KeyOrder(pages, leaves) && q !in pages
    requires var n := pages[leaves[i]]; |n.keys| == |n.rids| && SortedFrom(n.keys, 0)
    requires pages[leaves[i]].next in pages && pages[leaves[i]].next != leaves[i]
    ensures var pages' := SplitLeafPages(pages, leaves[i], q);
      AllPresent(pages', SplitLeaves(leaves, i, q)) && KeyOrder(pages', SplitLeaves(leaves, i, q))
  {
    var p, ls := leaves[i], SplitLeaves(leaves, i, q);
    var n, pages' := pages[p], SplitLeafPages(pages, p, q);
    var pos := |n.keys| / 2;
    assert pages'[p].keys == n.keys[..pos] && pages'[q].keys == n.keys[pos..];
    assert forall c :: c in pages && c != p ==> pages'[c].keys == pages[c].keys;
    forall x, y | 0 <= x < y < |ls| ensures KeysBelow(pages', ls[x], ls[y]) {
      var x', y' := (if x <= i then x else x - 1), (if y <= i then y else y - 1);
      assert (ls[x] == if x == i + 1 then q else leaves[x']) && (ls[y] == if y == i + 1 then q else leaves[y']);
      assert x' < y' ==> KeysBelow(pages, leaves[x'], leaves[y']);
    }
  }

  lemma SplitLinkage(pages: Pages, leaves: seq<int>, i: nat, q: int)
    requires i < |leaves| && AllPresent(pages, leaves) && Distinct(leaves) && Linkage(pages, leaves) && q !in pages
    requires q != LeafHeader
    requires LeafHeader !in leaves
    requires |pages[leaves[i]].keys| == |pages[leaves[i]].rids| && pages[leaves[i]].next in pages
    ensures var pages' := SplitLeafPages(pages, leaves[i], q);
      AllPresent(pages', SplitLeaves(leaves, i, q)) && Linkage(pages', SplitLeaves(leaves, i, q))
  {
    var p, ls, x := leaves[i], SplitLeaves(leaves, i, q), pages[leaves[i]].next;
    var pages' := SplitLeafPages(pages, p, q);
    assert LinkedAt(pages, leaves, i);
    assert ls[i] == p && ls[i + 1] == q && ls[0] == leaves[0];
    forall j | 0 <= j < |ls| ensures ls[j] in pages' && LinkedAt(pages', ls, j) {
      if j != i + 1 {
        SplitLinkedAt(pages, leaves, i, q, j);
      }
    }
  }

  lemma SplitLinkedAt(pages: Pages, leaves: seq<int>, i: nat, q: int, j: nat)
    requires i < |leaves| && AllPresent(pages, leaves) && Distinct(leaves) && Linkage(pages, leaves) && q !in pages
    requires q != LeafHeader
    requires LeafHeader !in leaves
    requires |pages[leaves[i]].keys| == |pages[leaves[i]].rids| && pages[leaves[i]].next in pages
    requires j <= |leaves| && j != i + 1
    ensures var pages', ls := SplitLeafPages(pages, leaves[i], q), SplitLeaves(leaves, i, q);
      j < |ls| && ls[j] in pages' && LinkedAt(pages', ls, j)
  {
    var ls := SplitLeaves(leaves, i, q);
    var o := if j <= i then j else j - 1;
    assert LinkedAt(pages, leaves, i) && LinkedAt(pages, leaves, o);
    assert ls[i] == leaves[i] && ls[i + 1] == q && ls[j] == leaves[o];
    assert j != i ==> After(ls, j) == After(leaves, o);
    assert j != i + 2 ==> Before(ls, j) == Before(leaves, o);
  }

  lemma SplitRing(pages: Pages, info: Infos, root: int, leaves: seq<int>, last: int, i: nat, q: int)
    requires Ring(pages, info, leaves, last) && i < |leaves| && Splittable(pages, info, root, leaves[i], q)
    requires pages[leaves[i]].isLeaf
    ensures var pages' := SplitLeafPages(pages, leaves[i], q);
      var info' := SplitInfo(info, leaves[i], q, SplitKey(pages, leaves[i]));
      Ring(pages', info', SplitLeaves(leaves, i, q), if last == leaves[i] then q else last)
  {
    var p, ls := leaves[i], SplitLeaves(leaves, i, q);
    var pages', info' := SplitLeafPages(pages, p, q), SplitInfo(info, p, q, SplitKey(pages, p));
    assert PageOk(pages, info, p, NoPage);
    NextOfLeaf(pages, info, root, leaves, last, p);
    SplitKeyOrder(pages, leaves, i, q);
    SplitLinkage(pages, leaves, i, q);
    forall x ensures x in ls <==> IsLeafPage(pages', info', x) {
      SplitMember(leaves, i, q, x);
    }
    assert q !in leaves;
    assert Distinct(ls);
    assert ls[0] == leaves[0];
    assert last == p <==> i == |leaves| - 1;
  }

  lemma SplitHolds(pages: Pages, info: Infos, root: int, m: map<Key, Rid>, p: int, q: int)
    requires Holds(pages, info, m) && Splittable(pages, info, root, p, q) && pages[p].isLeaf
    ensures Holds(SplitLeafPages(pages, p, q), SplitInfo(info, p, q, SplitKey(pages, p)), m)
  {
    var pages', info' := SplitLeafPages(pages, p, q), SplitInfo(info, p, q, SplitKey(pages, p));
    var n, pos := pages[p], |pages[p].keys| / 2;
    assert pages'[p].keys == n.keys[..pos] && pages'[q].keys == n.keys[pos..];
    assert pages'[p].rids == n.rids[..pos] && pages'[q].rids == n.rids[pos..];
    assert IsLeafPage(pages, info, p);
    forall c, i | IsLeafPage(pages', info', c) && 0 <= i < |pages'[c].keys| && i < |pages'[c].rids|
      ensures pages'[c].keys[i] in m && m[pages'[c].keys[i]] == pages'[c].rids[i]
    {
      if c == q {
        assert pages'[q].keys[i] == n.keys[pos + i] && pages'[q].rids[i] == n.rids[pos + i];
      } else if c != p {
        assert IsLeafPage(pages, info, c);
      }
    }
    forall k | k in m ensures Stored(pages', info', k) {
      var c :| IsLeafPage(pages, info, c) && k in pages[c].keys;
      assert IsLeafPage(pages', info', c) && IsLeafPage(pages', info', q);
      if c == p {
        assert k in n.keys[..pos] || k in n.keys[pos..];
      }
    }
  }

  // ---------- all of it, through each change of insertion ----------

  // The pages of an index with their root, last leaf and leaf order.
  datatype Tree = Tree(pages: Pages, info: Infos, root: int, leaves: seq<int>, last: int)

  /** Everything holds of t and it stores m, except that `odd` may have any size. */
  ghost predicate Good(t: Tree, order: nat, m: map<Key, Rid>, odd: int) {
    && order > 2
    && Whole(t.pages, t.info, t.root)
    && Sizes(t.pages, t.info, t.root, order, odd)
    && Ring(t.pages, t.info, t.leaves, t.last)
    && Holds(t.pages, t.info, m)
  }

  /** As Good, but `half` has just been split off `was` and is not in its parent yet. */
  ghost predicate Pending(t: Tree, order: nat, m: map<Key, Rid>, was: int, half: int, key: Key) {
    && order > 2
    && Struct(t.pages, t.info, t.root, half, NoPage)
    && Orphan(t.pages, t.info, t.root, was, half, key)
    && Sizes(t.pages, t.info, t.root, order, NoPage)
    && MinSize(order) <= |t.pages[was].keys|
    && Ring(t.pages, t.info, t.leaves, t.last)
    && Holds(t.pages, t.info, m)
  }

  lemma GoodInsert(t: Tree, order: nat, m: map<Key, Rid>, p: int, pos: nat, k: Key, r: Rid)
    requires Good(t, order, m, NoPage) && IsLeafPage(t.pages, t.info, p) && In(k, t.info[p]) && k !in m
    requires pos <= |t.pages[p].keys|
    requires forall i :: 0 <= i < pos ==> t.pages[p].keys[i] < k
    requires forall i :: pos <= i < |t.pages[p].keys| ==> k < t.pages[p].keys[i]
    ensures |t.pages[p].keys| == |t.pages[p].rids|
    ensures Good(t.(pages := t.pages[p := InsertPair(t.pages[p], pos, k, r)]), order, m[k := r], p)
  {
    assert PageOk(t.pages, t.info, p, NoPage);
    LeafInsertOk(t.pages, t.info, t.root, p, pos, k, r);
    InsertRing(t.pages, t.info, t.root, order, t.leaves, t.last, p, pos, k, r);
    InsertHolds(t.pages, t.info, m, p, pos, k, r);
  }

  /** An odd node whose size turns out to be in bounds is not odd. */
  lemma GoodSized(t: Tree, order: nat, m: map<Key, Rid>, odd: int)
    requires Good(t, order, m, odd)
    requires odd in t.info && odd in t.pages ==> SizeOk(t.pages[odd], odd == t.root, order)
    ensures Good(t, order, m, NoPage)
  {
    if odd in t.info {
      assert PageOk(t.pages, t.info, odd, NoPage);
    }
  }

  lemma UnusedPage(pages: Pages, info: Infos, ex: int, q: int)
    requires AllOk(pages, info, ex) && q !in pages
    ensures q !in info
  {
    assert q in info ==> PageOk(pages, info, q, ex);
  }

  lemma FullIsSplittable(t: Tree, order: nat, m: map<Key, Rid>, p: int, q: int)
    requires Good(t, order, m, p) && q !in t.pages && q != NoPage && q != LeafHeader
    requires p in t.info && p in t.pages && |t.pages[p].keys| == MaxSize(order)
    ensures Splittable(t.pages, t.info, t.root, p, q)
  {
    UnusedPage(t.pages, t.info, NoPage, q);
    assert PageOk(t.pages, t.info, p, NoPage);
    if t.pages[p].isLeaf {
      NextOfLeaf(t.pages, t.info, t.root, t.leaves, t.last, p);
    }
  }

  lemma SplitLeafSizes(pages: Pages, info: Infos, root: int, order: nat, p: int, q: int)
    requires order > 2 && Sizes(pages, info, root, order, p) && Splittable(pages, info, root, p, q) && pages[p].isLeaf
    requires |pages[p].keys| == MaxSize(order)
    ensures var pages' := SplitLeafPages(pages, p, q);
      && Sizes(pages', SplitInfo(info, p, q, SplitKey(pages, p)), root, order, NoPage)
      && MinSize(order) <= |pages'[p].keys|
  {
    SplitSizes(pages, info, root, order, p, q, SplitLeafPages(pages, p, q));
  }

  /** The tree after leaf number i has been split into itself and q. */
  ghost function SplitTree(t: Tree, i: nat, q: int): Tree
    requires i < |t.leaves| && Splittable(t.pages, t.info, t.root, t.leaves[i], q) && t.pages[t.leaves[i]].isLeaf
  {
    var p := t.leaves[i];
    Tree(SplitLeafPages(t.pages, p, q), SplitInfo(t.info, p, q, SplitKey(t.pages, p)), t.root,
         SplitLeaves(t.leaves, i, q), if t.last == p then q else t.last)
  }

  lemma GoodSplitLeaf(t: Tree, order: nat, m: map<Key, Rid>, i: nat, q: int)
    requires i < |t.leaves| && Good(t, order, m, t.leaves[i])
    requires Splittable(t.pages, t.info, t.root, t.leaves[i], q) && t.pages[t.leaves[i]].isLeaf
    requires |t.pages[t.leaves[i]].keys| == MaxSize(order)
    ensures Pending(SplitTree(t, i, q), order, m, t.leaves[i], q, SplitKey(t.pages, t.leaves[i]))
  {
    SplitLeafOk(t.pages, t.info, t.root, t.leaves[i], q);
    SplitRing(t.pages, t.info, t.root, t.leaves, t.last, i, q);
    SplitHolds(t.pages, t.info, t.root, m, t.leaves[i], q);
    SplitLeafSizes(t.pages, t.info, t.root, order, t.leaves[i], q);
  }

  lemma SplitSizes(pages: Pages, info: Infos, root: int, order: nat, p: int, q: int, pages': Pages)
    requires order > 2 && Sizes(pages, info, root, order, p) && p in pages && p in info
    requires |pages[p].keys| == MaxSize(order) && q !in info && q != root
    requires p in pages' && q in pages' && p != q
    requires pages'[p].keys == pages[p].keys[..|pages[p].keys| / 2]
    requires pages'[q].keys == pages[p].keys[|pages[p].keys| / 2..]
    requires pages'[p].isLeaf == pages[p].isLeaf
    requires forall c :: c in info && c in pages && c != p ==>
      c in pages' && pages'[c].keys == pages[c].keys && pages'[c].isLeaf == pages[c].isLeaf
    ensures Sizes(pages', SplitInfo(info, p, q, SplitKey(pages, p)), root, order, NoPage)
    ensures MinSize(order) <= |pages'[p].keys|
  {
  }

  lemma SplitInnerLeaves(pages: Pages, info: Infos, root: int, p: int, q: int)
    requires Splittable(pages, info, root, p, q) && !pages[p].isLeaf
    ensures LeavesSame(pages, info, SplitInnerPages(pages, p, q), SplitInfo(info, p, q, SplitKey(pages, p)))
  {
    assert PageOk(pages, info, p, NoPage);
    NotMoved(pages, info, p, q);
    NotMoved(pages, info, p, LeafHeader);
  }

  lemma SplitInnerSizes(pages: Pages, info: Infos, root: int, order: nat, p: int, q: int)
    requires order > 2 && Sizes(pages, info, root, order, p) && Splittable(pages, info, root, p, q) && !pages[p].isLeaf
    requires |pages[p].keys| == MaxSize(order)
    ensures var pages' := SplitInnerPages(pages, p, q);
      && Sizes(pages', SplitInfo(info, p, q, SplitKey(pages, p)), root, order, NoPage)
      && MinSize(order) <= |pages'[p].keys|
  {
    SplitSizes(pages, info, root, order, p, q, SplitInnerPages(pages, p, q));
  }

  lemma GoodSplitInner(t: Tree, order: nat, m: map<Key, Rid>, p: int, q: int)
    requires Good(t, order, m, p) && Splittable(t.pages, t.info, t.root, p, q) && !t.pages[p].isLeaf
    requires |t.pages[p].keys| == MaxSize(order)
    ensures var key := SplitKey(t.pages, p);
      Pending(t.(pages := SplitInnerPages(t.pages, p, q), info := SplitInfo(t.info, p, q, key)), order, m, p, q, key)
  {
    var pages', info' := SplitInnerPages(t.pages, p, q), SplitInfo(t.info, p, q, SplitKey(t.pages, p));
    SplitInnerOk(t.pages, t.info, t.root, p, q);
    SplitInnerSizes(t.pages, t.info, t.root, order, p, q);
    SplitInnerLeaves(t.pages, t.info, t.root, p, q);
    RingFrame(t.pages, t.info, pages', info', t.leaves, t.last);
    HoldsFrame(t.pages, t.info, pages', info', m);
  }

  lemma NewRootSizes(pages: Pages, info: Infos, was: int, order: nat, half: int, key: Key, r: int)
    requires order > 2 && Sizes(pages, info, was, order, NoPage) && was in pages && was in info && half in pages
    requires |pages[was].keys| > 0
    requires MinSize(order) <= |pages[was].keys| && r !in info && r !in pages && was != NoPage && half != was
    ensures Sizes(NewRootPages(pages, was, half, key, r), info[r := Info(None, None, info[was].height + 1)],
                  r, order, NoPage)
  {
  }

  lemma GoodNewRoot(t: Tree, order: nat, m: map<Key, Rid>, half: int, key: Key, r: int)
    requires Pending(t, order, m, t.root, half, key) && r !in t.pages && r != NoPage && r != LeafHeader
    ensures half in t.pages && |t.pages[t.root].keys| > 0
    ensures r !in t.info
    ensures Good(t.(pages := NewRootPages(t.pages, t.root, half, key, r),
                    info := t.info[r := Info(None, None, t.info[t.root].height + 1)], root := r), order, m, NoPage)
  {
    UnusedPage(t.pages, t.info, NoPage, r);
    var pages' := NewRootPages(t.pages, t.root, half, key, r);
    var info' := t.info[r := Info(None, None, t.info[t.root].height + 1)];
    NewRootOk(t.pages, t.info, t.root, half, key, r);
    NewRootSizes(t.pages, t.info, t.root, order, half, key, r);
    NewRootLeaves(t.pages, t.info, t.root, half, key, r);
    RingFrame(t.pages, t.info, pages', info', t.leaves, t.last);
    HoldsFrame(t.pages, t.info, pages', info', m);
  }

  lemma NewRootLeaves(pages: Pages, info: Infos, was: int, half: int, key: Key, r: int)
    requires was in pages && half in pages && was in info && half in info && |pages[was].keys| > 0 && r !in pages
    requires r !in info
    requires LeafHeader !in info
    ensures LeavesSame(pages, info, NewRootPages(pages, was, half, key, r),
                       info[r := Info(None, None, info[was].height + 1)])
  {
  }

  lemma GoodAdopt(t: Tree, order: nat, m: map<Key, Rid>, was: int, half: int, key: Key, p: int, i: nat)
    requires Pending(t, order, m, was, half, key) && was != t.root
    requires p == t.pages[was].parent && p in t.pages && i < |t.pages[p].rids| && Kid(t.pages[p], i) == was
    ensures p in t.info && !t.pages[p].isLeaf && |t.pages[p].keys| == |t.pages[p].rids|
    ensures SizeOk(t.pages[p], p == t.root, order)
    ensures t.info[p].height == t.info[was].height + 1
    ensures Good(t.(pages := ParentInsertPages(t.pages, p, i, half, key)), order, m, p)
  {
    assert Placed(t.pages, t.info, t.root, was) && PageOk(t.pages, t.info, p, NoPage) && KidOk(t.pages, t.info, p, i);
    AdoptOk(t.pages, t.info, t.root, was, half, key, p, i);
    var pages' := ParentInsertPages(t.pages, p, i, half, key);
    RingFrame(t.pages, t.info, pages', t.info, t.leaves, t.last);
    HoldsFrame(t.pages, t.info, pages', t.info, m);
  }
}
