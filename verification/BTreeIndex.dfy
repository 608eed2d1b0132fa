/** The B+ tree index over its pages: lookup, insertion and deletion, in place. */
module BTreeIndex {
  import opened Common
  import opened BTreeNode
  import opened BTreeShape
  import opened BTreeInsert
  import opened BTreeLeaves
  import opened BTreeDelete
  import Layout

  // How delete_entry ends. Emptied: the last key went and the root page number was
  // dropped. BadSibling: an inner node other than the root fell below half, and the
  // code is about to look for its sibling among the leaf links, where there is none.
  datatype Deletion = Removed | NotFound | Emptied | BadSibling

  /** The neighbour that the leaf links give. */
  function Brother(pages: Pages, leaf: int): int
    requires leaf in pages
  {
    var p := pages[leaf].parent;
    if p in pages && |pages[p].rids| > 0 && Kid(pages[p], 0) == leaf then pages[leaf].next else pages[leaf].prev
  }

  /** With `size` entries the leaf is less than half full and fits into one page with its
      neighbour, with room to spare: the two are merged. */
  predicate Merges(pages: Pages, root: int, order: nat, leaf: int, size: int)
    requires leaf in pages
  {
    var b := Brother(pages, leaf);
    leaf != root && 2 * size < order && b in pages && size + |pages[b].keys| < order + order % 2
  }

  /** The merge leaves the parent, not the root, less than half full. */
  predicate MergeUnderflows(pages: Pages, root: int, order: nat, leaf: int, size: int)
    requires leaf in pages
  {
    var p := pages[leaf].parent;
    Merges(pages, root, order, leaf, size) && p in pages && p != root && 2 * (|pages[p].keys| - 1) < order
  }

  /** Whatever one takes for key ranges, leaf order and contents: these pages under this
      root are no sound tree. */
  ghost predicate NoTree(pages: Pages, root: int, order: nat) {
    forall t: Tree, m: map<Key, Rid> :: t.pages == pages && t.root == root ==> !Good(t, order, m, NoPage)
  }

  /** All is well but that the inner page p, not the root, is below half. */
  ghost predicate Underfull(t: Tree, order: nat, m: map<Key, Rid>, p: int) {
    Good(t, order, m, p) && p in t.info && p in t.pages && p != t.root && |t.pages[p].keys| < MinSize(order)
  }

  /** A page that hangs off the root does so under any ranges. */
  lemma {:induction false} StillReached(t: Tree, u: Tree, p: int)
    requires Whole(t.pages, t.info, t.root) && Whole(u.pages, u.info, u.root)
    requires u.pages == t.pages && u.root == t.root && p in t.info
    ensures p in u.info
    decreases if t.root in t.info then t.info[t.root].height - t.info[p].height else 0
  {
    if p != t.root {
      assert Placed(t.pages, t.info, t.root, p);
      var q := t.pages[p].parent;
      var i :| 0 <= i < |t.pages[q].rids| && Kid(t.pages[q], i) == p;
      assert PageOk(t.pages, t.info, q, NoPage) && KidOk(t.pages, t.info, q, i);
      StillReachedBelow(t, q);
      StillReached(t, u, q);
      assert PageOk(u.pages, u.info, q, NoPage) && KidOk(u.pages, u.info, q, i);
    }
  }

  lemma StillReachedBelow(t: Tree, q: int)
    requires Whole(t.pages, t.info, t.root) && q in t.info
    ensures t.info[q].height <= t.info[t.root].height
  {
    assert q != t.root ==> Placed(t.pages, t.info, t.root, q);
  }

  lemma UnderfullIsNoTree(t: Tree, order: nat, m: map<Key, Rid>, p: int)
    requires Underfull(t, order, m, p)
    ensures NoTree(t.pages, t.root, order)
  {
    forall u: Tree, m': map<Key, Rid> | u.pages == t.pages && u.root == t.root ensures !Good(u, order, m', NoPage) {
      if Good(u, order, m', NoPage) {
        StillReached(t, u, p);
      }
    }
  }

  lemma RootlessIsNoTree(pages: Pages, order: nat)
    ensures NoTree(pages, NoPage, order)
  {
  }

  ghost predicate LeafEntriesSame(pages: Pages, pages': Pages) {
    forall p :: p in pages && pages[p].isLeaf ==>
      p in pages' && pages'[p].isLeaf && pages'[p].keys == pages[p].keys && pages'[p].rids == pages[p].rids
  }

  ghost predicate OtherLeavesSame(pages: Pages, pages': Pages, leaf: int) {
    forall p :: p in pages && pages[p].isLeaf && p != leaf ==>
      p in pages' && pages'[p].isLeaf && pages'[p].keys == pages[p].keys
  }

  ghost predicate LeafPagesSame(pages: Pages, pages': Pages) {
    forall p :: p in pages && pages[p].isLeaf ==> p in pages' && pages'[p] == pages[p]
  }

  predicate NodeFits(n: Node, slots: nat) {
    |n.keys| <= slots && |n.rids| <= slots
  }

  ghost predicate WithinSlots(pages: Pages, slots: nat) {
    forall p {:trigger NodeFits(pages[p], slots)} :: p in pages ==> NodeFits(pages[p], slots)
  }

  /** One page that fits is written or added, and no other grows. */
  lemma SlotsKept(pages: Pages, pages': Pages, q: int, slots: nat)
    requires WithinSlots(pages, slots) && (q in pages' ==> NodeFits(pages'[q], slots))
    requires forall p :: p in pages' && p != q ==>
      p in pages && |pages'[p].keys| <= |pages[p].keys| && |pages'[p].rids| <= |pages[p].rids|
    ensures WithinSlots(pages', slots)
  {
    forall p | p in pages' ensures NodeFits(pages'[p], slots) {
      assert p != q ==> NodeFits(pages[p], slots);
    }
  }

  /** The two halves make up the node, and the left one has half of its entries. */
  lemma SplitHalves(pages: Pages, info: Infos, root: int, p: int, q: int)
    requires Splittable(pages, info, root, p, q)
    ensures var pages' := if pages[p].isLeaf then SplitLeafPages(pages, p, q) else SplitInnerPages(pages, p, q);
      && p in pages' && q in pages' && |pages'[p].keys| == |pages[p].keys| / 2
      && pages'[p].keys + pages'[q].keys == pages[p].keys && pages'[p].rids + pages'[q].rids == pages[p].rids
  {
    var pos := |pages[p].keys| / 2;
    assert pages[p].keys[..pos] + pages[p].keys[pos..] == pages[p].keys;
    assert pages[p].rids[..pos] + pages[p].rids[pos..] == pages[p].rids;
  }

  lemma SplitSlots(pages: Pages, p: int, q: int, slots: nat)
    requires WithinSlots(pages, slots) && p in pages && |pages[p].keys| == |pages[p].rids| && q !in pages
    requires pages[p].isLeaf ==> pages[p].next in pages && pages[p].next != p
    ensures WithinSlots(if pages[p].isLeaf then SplitLeafPages(pages, p, q) else SplitInnerPages(pages, p, q), slots)
  {
    assert NodeFits(pages[p], slots);
    SlotsKept(pages, if pages[p].isLeaf then SplitLeafPages(pages, p, q) else SplitInnerPages(pages, p, q), q, slots);
  }

  lemma NewRootSlots(pages: Pages, was: int, half: int, key: Key, r: int, slots: nat)
    requires WithinSlots(pages, slots) && slots >= 2
    requires was in pages && half in pages && |pages[was].keys| > 0 && r !in pages
    ensures WithinSlots(NewRootPages(pages, was, half, key, r), slots)
  {
    SlotsKept(pages, NewRootPages(pages, was, half, key, r), r, slots);
  }

  lemma MergeSlots(pages: Pages, p: int, j: nat, a: int, b: int, slots: nat)
    requires WithinSlots(pages, slots) && p in pages && a in pages && b in pages && pages[b].next in pages
    requires j + 1 < |pages[p].keys| && j + 1 < |pages[p].rids| && pages[b].next != a && p != a && pages[b].next != p
    requires |pages[a].keys| + |pages[b].keys| <= slots && |pages[a].rids| + |pages[b].rids| <= slots
    ensures WithinSlots(MergePages(pages, p, j, a, b), slots)
  {
    SlotsKept(pages, MergePages(pages, p, j, a, b), a, slots);
  }

  class Index {
    const order: nat
    var pages: Pages
    var root: int
    var firstLeaf: int
    var lastLeaf: int
    var nextPage: int
    ghost var info: Infos
    ghost var leaves: seq<int>
    ghost var contents: map<Key, Rid>

    /** Page numbers not yet handed out are unused, and no page has more entries than
        there are slots in it. */
    ghost predicate FreshPages()
      reads this
    {
      && nextPage > InitRoot && LeafHeader in pages && WithinSlots(pages, MaxSize(order))
      && (forall p :: p in pages ==> p < nextPage)
      && (forall p :: p in info ==> p in pages)
    }

    /** The tree is whole, half full everywhere but at the root, its leaves ring in key
        order, and they hold exactly `contents`. */
    ghost predicate Valid()
      reads this
    {
      && order > 2
      && firstLeaf == InitRoot
      && FreshPages()
      && Whole(pages, info, root)
      && Sizes(pages, info, root, order, NoPage)
      && Ring(pages, info, leaves, lastLeaf)
      && Holds(pages, info, contents)
    }

    /** The three-page file of a new index: header, leaf header, and an empty root leaf. */
    constructor (order: nat)
      requires order > 2
      ensures Valid() && this.order == order && contents == map[]
    {
      this.order := order;
      pages := map[LeafHeader := Node(true, NoPage, InitRoot, InitRoot, [], []),
                   InitRoot := Node(true, NoPage, LeafHeader, LeafHeader, [], [])];
      root, firstLeaf, lastLeaf, nextPage := InitRoot, InitRoot, InitRoot, InitRoot + 1;
      info := map[InitRoot := Info(None, None, 0)];
      leaves, contents := [InitRoot], map[];
      new;
      assert LinkedAt(pages, leaves, 0);
    }

    /** An existing index file, opened. */
    constructor Open(order: nat, pages: Pages, root: int, lastLeaf: int, nextPage: int,
                     ghost info: Infos, ghost leaves: seq<int>, ghost contents: map<Key, Rid>)
      requires Good(Tree(pages, info, root, leaves, lastLeaf), order, contents, NoPage)
      requires nextPage > InitRoot && WithinSlots(pages, MaxSize(order))
      requires (forall p :: p in pages ==> p < nextPage) && forall p :: p in info ==> p in pages
      ensures Valid() && this.order == order && this.pages == pages && this.root == root
      ensures this.info == info && this.contents == contents
    {
      this.order, this.pages, this.root, this.nextPage := order, pages, root, nextPage;
      firstLeaf, this.lastLeaf := InitRoot, lastLeaf;
      this.info, this.leaves, this.contents := info, leaves, contents;
    }

    /** Follow the separators from the root. `wide` widens the ranges on the way so that
        they take the key in. */
    method FindLeafPage(key: Key) returns (leaf: int, ghost wide: Infos)
      requires Valid()
      ensures Whole(pages, wide, root) && wide.Keys == info.Keys
      ensures IsLeafPage(pages, wide, leaf) && In(key, wide[leaf])
    {
      leaf, wide := root, info;
      while !pages[leaf].isLeaf
        invariant Whole(pages, wide, root) && wide.Keys == info.Keys
        invariant leaf in wide && leaf in pages && In(key, wide[leaf])
        decreases if leaf in wide then wide[leaf].height else 0
      {
        assert PageOk(pages, wide, leaf, NoPage);
        var i := UpperBound(pages[leaf].keys, key);
        WidenKid(pages, wide, root, leaf, i - 1, key);
        var c := Kid(pages[leaf], i - 1);
        wide := wide[c := WidenTo(wide[c], key)];
        leaf := c;
        assert PageOk(pages, wide, leaf, NoPage);
      }
    }

    /** A lookup answers what the abstract map holds. */
    method GetValue(key: Key) returns (r: Option<Rid>)
      requires Valid()
      ensures r == if key in contents then Some(contents[key]) else None
    {
      ghost var wide;
      var leaf;
      leaf, wide := FindLeafPage(key);
      LeafDecides(wide, leaf, key);
      var i := LowerBound(pages[leaf].keys, key);
      if i < |pages[leaf].keys| && pages[leaf].keys[i] == key {
        return Some(pages[leaf].rids[i]);
      }
      return None;
    }

    /** The leaf that routing reaches settles whether the key is present. */
    lemma LeafDecides(wide: Infos, leaf: int, key: Key)
      requires Valid() && wide.Keys == info.Keys && Whole(pages, wide, root)
      requires IsLeafPage(pages, wide, leaf) && In(key, wide[leaf])
      ensures var n := pages[leaf];
        && |n.keys| == |n.rids| && SortedFrom(n.keys, 0)
        && (key in contents <==> key in n.keys)
        && (forall i :: 0 <= i < |n.keys| && n.keys[i] == key ==> key in contents && contents[key] == n.rids[i])
    {
      RingAndHoldsSame(wide);
      StoredHere(pages, wide, root, contents, leaf, key);
      assert PageOk(pages, wide, leaf, NoPage);
    }

    /** Widening ranges changes nothing about the leaves. */
    lemma RingAndHoldsSame(wide: Infos)
      requires Valid() && wide.Keys == info.Keys
      ensures Ring(pages, wide, leaves, lastLeaf) && Holds(pages, wide, contents)
      ensures Sizes(pages, wide, root, order, NoPage)
    {
      RingFrame(pages, info, pages, wide, leaves, lastLeaf);
      HoldsFrame(pages, info, pages, wide, contents);
    }

    // ---------- insertion ----------

    ghost function T(): Tree
      reads this
    {
      Tree(pages, info, root, leaves, lastLeaf)
    }

    /** maintain_child for every child of q, one at a time. */
    method MaintainChildren(q: int)
      requires q in pages && forall c :: c in Kids(pages[q].rids) ==> c in pages && c != q
      modifies this`pages
      ensures pages == Reparent(old(pages), Kids(old(pages)[q].rids), q)
    {
      var rids := pages[q].rids;
      for i := 0 to |rids|
        invariant pages == Reparent(old(pages), Kids(rids[..i]), q)
      {
        assert Kids(rids[..i + 1]) == Kids(rids[..i]) + {rids[i].pageNo} by {
          assert rids[..i + 1] == rids[..i] + [rids[i]];
          KidsConcat(rids[..i], rids[i]);
        }
        var c := rids[i].pageNo;
        assert c in Kids(rids);
        pages := pages[c := pages[c].(parent := q)];
      }
      assert rids[..|rids|] == rids;
    }

    /** split: the upper half of p moves to a page just created. */
    method Split(p: int) returns (q: int)
      requires Splittable(pages, info, root, p, nextPage)
      modifies this`pages, this`nextPage
      ensures q == old(nextPage) && nextPage == q + 1
      ensures pages ==
        if old(pages)[p].isLeaf then SplitLeafPages(old(pages), p, q) else SplitInnerPages(old(pages), p, q)
      ensures p in pages && q in pages && |pages[p].keys| == |old(pages)[p].keys| / 2
      ensures pages[p].keys + pages[q].keys == old(pages)[p].keys && pages[p].rids + pages[q].rids == old(pages)[p].rids
    {
      SplitHalves(pages, info, root, p, nextPage);
      q := nextPage;
      nextPage := nextPage + 1;
      var n := pages[p];
      var pos := |n.keys| / 2;
      ghost var pages0 := pages;
      if n.isLeaf {
        pages := pages[q := Node(true, n.parent, p, n.next, n.keys[pos..], n.rids[pos..])];
        pages := pages[p := n.(next := q)];
        pages := pages[n.next := pages[n.next].(prev := q)];
        pages := pages[p := pages[p].(keys := n.keys[..pos], rids := n.rids[..pos])];
      } else {
        assert PageOk(pages, info, p, NoPage);
        pages := pages[q := Node(false, n.parent, 0, 0, n.keys[pos..], n.rids[pos..])];
        pages := pages[p := n.(keys := n.keys[..pos], rids := n.rids[..pos])];
        forall c | c in Kids(n.rids[pos..]) ensures c in pages && c != q {
          var j :| 0 <= j < |n.rids[pos..]| && n.rids[pos..][j].pageNo == c;
          assert KidOk(pages0, info, p, pos + j);
        }
        MaintainChildren(q);
      }
    }

    /** A new root above the old one and its new half. */
    method GrowRoot(was: int, key: Key, half: int)
      requires FreshPages() && Pending(T(), order, contents, was, half, key) && pages[was].parent == NoPage
      modifies this`pages, this`nextPage, this`root, this`info
      ensures FreshPages() && Good(T(), order, contents, NoPage) && LeafEntriesSame(old(pages), pages)
    {
      PendingRoot(T(), order, contents, was, half, key);
      var r := nextPage;
      GoodNewRoot(T(), order, contents, half, key, r);
      NewRootSlots(pages, was, half, key, r, MaxSize(order));
      nextPage := nextPage + 1;
      info := info[r := Info(None, None, info[was].height + 1)];
      pages := NewRootPages(pages, was, half, key, r);
      root := r;
    }

    /** The parent takes the new half in, right after the old node. */
    method Adopt(was: int, key: Key, half: int) returns (p: int)
      requires FreshPages() && Pending(T(), order, contents, was, half, key) && pages[was].parent != NoPage
      modifies this`pages
      ensures FreshPages() && Good(T(), order, contents, p) && LeafEntriesSame(old(pages), pages)
      ensures p in info && p in pages && !pages[p].isLeaf && info[p].height == info[was].height + 1
      ensures |pages[p].keys| < MaxSize(order) ==> SizeOk(pages[p], p == root, order)
      ensures |pages[p].keys| <= MaxSize(order)
    {
      PendingParent(T(), order, contents, was, half, key);
      p := pages[was].parent;
      var i := FindChild(pages[p], was);
      GoodAdopt(T(), order, contents, was, half, key, p, i);
      pages := pages[p := InsertPair(pages[p], i + 1, key, Rid(half, -1))];
    }

    /** Splitting an overfull inner node. */
    method SplitInner(p: int) returns (q: int)
      requires FreshPages() && Good(T(), order, contents, p)
      requires p in info && p in pages && !pages[p].isLeaf && |pages[p].keys| == MaxSize(order)
      modifies this`pages, this`nextPage, this`info
      ensures FreshPages() && q in pages && |pages[q].keys| > 0 && Pending(T(), order, contents, p, q, pages[q].keys[0])
      ensures LeafEntriesSame(old(pages), pages)
      ensures root in info && root in old(info) && info[root].height == old(info)[root].height
      ensures info[p].height == old(info)[p].height
    {
      FullIsSplittable(T(), order, contents, p, nextPage);
      GoodSplitInner(T(), order, contents, p, nextPage);
      ghost var k := SplitKey(pages, p);
      SplitSlots(pages, p, nextPage, MaxSize(order));
      q := Split(p);
      info := SplitInfo(info, p, q, k);
    }

    /** insert_into_parent: hook the new half in beside the old node, splitting the
        parent in turn when that fills it, up to growing a new root. */
    method InsertIntoParent(was: int, key: Key, half: int)
      requires FreshPages() && Pending(T(), order, contents, was, half, key)
      modifies this`pages, this`nextPage, this`root, this`info
      ensures FreshPages() && Good(T(), order, contents, NoPage) && LeafEntriesSame(old(pages), pages)
      decreases info[root].height - info[was].height
    {
      if pages[was].parent == NoPage {
        GrowRoot(was, key, half);
      } else {
        var p := Adopt(was, key, half);
        if |pages[p].keys| == MaxSize(order) {
          var q := SplitInner(p);
          BelowRoot(T(), order, contents, p, q, pages[q].keys[0]);
          InsertIntoParent(p, pages[q].keys[0], q);
        } else {
          GoodSized(T(), order, contents, p);
        }
      }
    }

    /** insert_entry: false, and no change, when the key is already there. */
    method InsertEntry(key: Key, value: Rid) returns (inserted: bool)
      requires Valid()
      modifies this
      ensures Valid()
      ensures inserted <==> key !in old(contents)
      ensures contents == if inserted then old(contents)[key := value] else old(contents)
      ensures !inserted ==> pages == old(pages) && leaves == old(leaves)
      ensures forall p :: old(IsLeafPage(pages, info, p)) && old(|pages[p].keys|) < order ==>
        p in pages && |pages[p].keys| == old(|pages[p].keys|) + if inserted && key in pages[p].keys then 1 else 0
      ensures |leaves| <= |old(leaves)| + 1
      ensures |leaves| > |old(leaves)| ==> exists p :: old(IsLeafPage(pages, info, p)) && old(|pages[p].keys|) == order
    {
      var leaf, pos, found := FindEntry(key);
      if found {
        return false;
      }
      NotStored(T(), order, contents, key);
      InsertAt(leaf, pos, key, value);
      return true;
    }

    method InsertAt(leaf: int, pos: nat, key: Key, value: Rid)
      requires Valid() && IsLeafPage(pages, info, leaf) && In(key, info[leaf]) && key !in contents
      requires pos <= |pages[leaf].keys| && SizeOk(pages[leaf], leaf == root, order)
      requires forall i :: 0 <= i < pos ==> pages[leaf].keys[i] < key
      requires forall i :: pos <= i < |pages[leaf].keys| ==> key < pages[leaf].keys[i]
      modifies this
      ensures Valid() && contents == old(contents)[key := value] && OtherLeavesSame(old(pages), pages, leaf)
      ensures if old(|pages[leaf].keys|) < order
              then && leaves == old(leaves) && leaf in pages && key in pages[leaf].keys
                   && |pages[leaf].keys| == old(|pages[leaf].keys|) + 1
              else |leaves| == |old(leaves)| + 1
    {
      PutInLeaf(leaf, pos, key, value);
      if |pages[leaf].keys| == MaxSize(order) {
        SplitAndInsert(leaf);
      } else {
        GoodSized(T(), order, contents, leaf);
      }
    }

    /** insert_pair at the place lower_bound found. */
    method PutInLeaf(leaf: int, pos: nat, key: Key, value: Rid)
      requires Valid() && IsLeafPage(pages, info, leaf) && In(key, info[leaf]) && key !in contents
      requires pos <= |pages[leaf].keys| && SizeOk(pages[leaf], leaf == root, order)
      requires forall i :: 0 <= i < pos ==> pages[leaf].keys[i] < key
      requires forall i :: pos <= i < |pages[leaf].keys| ==> key < pages[leaf].keys[i]
      modifies this`pages, this`contents
      ensures FreshPages() && Good(T(), order, contents, leaf) && contents == old(contents)[key := value]
      ensures IsLeafPage(pages, info, leaf) && |pages[leaf].keys| == |old(pages)[leaf].keys| + 1 <= MaxSize(order)
      ensures key in pages[leaf].keys && OtherLeavesSame(old(pages), pages, leaf)
      ensures |pages[leaf].keys| < MaxSize(order) ==> SizeOk(pages[leaf], leaf == root, order)
    {
      GoodInsert(T(), order, contents, leaf, pos, key, value);
      pages := pages[leaf := InsertPair(pages[leaf], pos, key, value)];
      contents := contents[key := value];
    }

    /** FindLeafPage, with the widened ranges made the tree's own. */
    method Locate(key: Key) returns (leaf: int)
      requires Valid()
      modifies this`info
      ensures Valid() && IsLeafPage(pages, info, leaf) && In(key, info[leaf]) && info.Keys == old(info).Keys
      ensures |pages[leaf].keys| == |pages[leaf].rids| && SortedFrom(pages[leaf].keys, 0)
      ensures SizeOk(pages[leaf], leaf == root, order) && (key in contents <==> key in pages[leaf].keys)
    {
      ghost var wide;
      leaf, wide := FindLeafPage(key);
      LeafDecides(wide, leaf, key);
      RingAndHoldsSame(wide);
      info := wide;
    }

    /** Where the key is, or where in its leaf it would go. */
    method FindEntry(key: Key) returns (leaf: int, pos: nat, found: bool)
      requires Valid()
      modifies this`info
      ensures Valid() && IsLeafPage(pages, info, leaf) && In(key, info[leaf]) && info.Keys == old(info).Keys
      ensures SizeOk(pages[leaf], leaf == root, order) && pos <= |pages[leaf].keys|
      ensures found <==> key in contents
      ensures found ==> pos < |pages[leaf].keys| && pages[leaf].keys[pos] == key
      ensures !found ==> forall i :: 0 <= i < pos ==> pages[leaf].keys[i] < key
      ensures !found ==> forall i :: pos <= i < |pages[leaf].keys| ==> key < pages[leaf].keys[i]
    {
      leaf := Locate(key);
      pos := LowerBound(pages[leaf].keys, key);
      found := pos < |pages[leaf].keys| && pages[leaf].keys[pos] == key;
    }

    method SplitAndInsert(leaf: int)
      requires firstLeaf == InitRoot && FreshPages() && Good(T(), order, contents, leaf)
      requires IsLeafPage(pages, info, leaf) && |pages[leaf].keys| == MaxSize(order)
      modifies this`pages, this`nextPage, this`root, this`info, this`leaves, this`lastLeaf
      ensures Valid() && |leaves| == |old(leaves)| + 1
      ensures OtherLeavesSame(old(pages), pages, leaf)
    {
      assert leaf in leaves;
      ghost var i :| 0 <= i < |leaves| && leaves[i] == leaf;
      var q := SplitLeaf(leaf, i);
      InsertIntoParent(leaf, pages[q].keys[0], q);
    }

    /** Splitting an overfull leaf, and moving last_leaf along if it was the last. */
    method SplitLeaf(leaf: int, ghost i: nat) returns (q: int)
      requires FreshPages() && Good(T(), order, contents, leaf) && i < |leaves| && leaves[i] == leaf
      requires IsLeafPage(pages, info, leaf) && |pages[leaf].keys| == MaxSize(order)
      modifies this`pages, this`nextPage, this`info, this`leaves, this`lastLeaf
      ensures FreshPages() && q in pages && |pages[q].keys| > 0 && |leaves| == |old(leaves)| + 1
      ensures Pending(T(), order, contents, leaf, q, pages[q].keys[0])
      ensures OtherLeavesSame(old(pages), pages, leaf)
    {
      ghost var t := SplitReady(leaf, i);
      SplitSlots(pages, leaf, nextPage, MaxSize(order));
      q := Split(leaf);
      assert pages == t.pages;
      info, leaves := t.info, t.leaves;
      if leaf == lastLeaf {
        lastLeaf := q;
      }
      assert lastLeaf == t.last && T() == t;
    }

    lemma SplitReady(leaf: int, i: nat) returns (t: Tree)
      requires FreshPages() && Good(T(), order, contents, leaf) && i < |leaves| && leaves[i] == leaf
      requires IsLeafPage(pages, info, leaf) && |pages[leaf].keys| == MaxSize(order)
      ensures Splittable(pages, info, root, leaf, nextPage)
      ensures t.pages == SplitLeafPages(pages, leaf, nextPage) && t.root == root
      ensures t.last == if leaf == lastLeaf then nextPage else lastLeaf
      ensures nextPage in t.pages && LeafHeader in t.pages && |t.leaves| == |leaves| + 1
      ensures OtherLeavesSame(pages, t.pages, leaf)
      ensures (forall p :: p in t.pages ==> p < nextPage + 1) && forall p :: p in t.info ==> p in t.pages
      ensures |t.pages[nextPage].keys| > 0 && Pending(t, order, contents, leaf, nextPage, t.pages[nextPage].keys[0])
    {
      FullIsSplittable(T(), order, contents, leaf, nextPage);
      GoodSplitLeaf(T(), order, contents, i, nextPage);
      t := SplitTree(T(), i, nextPage);
    }

    // ---------- deletion ----------

    /** maintain_parent: rewrite separators from c up until one is already right. */
    method MaintainParent(c: int, ghost r: nat)
      requires FreshPages() && c in pages && pages[c].parent != NoPage
      requires Mending(T(), order, contents, c, pages[c].parent, r)
      modifies this`pages, this`info
      ensures FreshPages() && Good(T(), order, contents, NoPage) && LeafPagesSame(old(pages), pages)
    {
      ReadyParent(pages, info, root, c, pages[c].parent, r);
      var curr := c;
      ghost var slot := r;
      while pages[curr].parent != NoPage
        invariant FreshPages() && curr in pages && curr in info && root in info
        invariant info[curr].height <= info[root].height && LeafPagesSame(old(pages), pages)
        invariant pages[curr].parent == NoPage ==> Good(T(), order, contents, NoPage)
        invariant pages[curr].parent != NoPage ==> Mending(T(), order, contents, curr, pages[curr].parent, slot)
        decreases info[root].height - info[curr].height
      {
        var right;
        right, curr, slot := MaintainOne(curr, slot);
        if right {
          return;
        }
      }
    }

    /** One separator: right already, or rewritten and the parent is next. */
    method MaintainOne(c: int, ghost r: nat) returns (right: bool, p: int, ghost slot: nat)
      requires FreshPages() && c in pages && c in info && root in info && pages[c].parent != NoPage
      requires Mending(T(), order, contents, c, pages[c].parent, r)
      modifies this`pages, this`info
      ensures FreshPages() && root in info && info[root].height == old(info[root].height)
      ensures LeafPagesSame(old(pages), pages)
      ensures right ==> Good(T(), order, contents, NoPage)
      ensures !right ==> p in pages && p in info && old(info[c].height) < info[p].height <= info[root].height
      ensures !right && pages[p].parent == NoPage ==> Good(T(), order, contents, NoPage)
      ensures !right && pages[p].parent != NoPage ==> Mending(T(), order, contents, p, pages[p].parent, slot)
    {
      ReadyParent(pages, info, root, c, pages[c].parent, r);
      p := pages[c].parent;
      var i := FindChild(pages[p], c);
      ReadySlot(pages, info, root, c, p, r, i);
      if pages[p].keys[i] == pages[c].keys[0] {
        return true, p, r;
      }
      ghost var t;
      t, slot := MendStep(T(), order, contents, c, p, i);
      assert NodeFits(pages[p], MaxSize(order));
      pages := pages[p := pages[p].(keys := pages[p].keys[i := pages[c].keys[0]])];
      info := t.info;
      right := false;
    }

    /** Start maintain_parent from a sound tree. */
    method MaintainParentOf(c: int)
      requires FreshPages() && Good(T(), order, contents, NoPage) && c in pages && c in info && c != root
      modifies this`pages, this`info
      ensures FreshPages() && Good(T(), order, contents, NoPage)
    {
      ghost var wide, r := GoodIsMending(T(), order, contents, c);
      info := wide;
      MaintainParent(c, r);
    }

    /** adjust_root on an inner root, and the other ends coalesce_or_redistribute has
        for the parent of two merged leaves. */
    method AfterMerge(p: int) returns (res: Deletion)
      requires FreshPages() && Good(T(), order, contents, p) && p in info && p in pages && !pages[p].isLeaf
      requires 1 <= |pages[p].keys| <= order
      modifies this`pages, this`info, this`root
      ensures res == Removed || res == BadSibling
      ensures FreshPages() && (res == Removed ==> Good(T(), order, contents, NoPage))
      ensures res == BadSibling <==> old(p != root && |pages[p].keys| < MinSize(order))
      ensures res == BadSibling ==> Underfull(T(), order, contents, p)
    {
      if p == root {
        if |pages[p].keys| == 1 {
          GoodCollapse(T(), order, contents);
          var c := Kid(pages[p], 0);
          assert NodeFits(pages[c], MaxSize(order));
          pages := pages[c := pages[c].(parent := NoPage)];
          info := CollapseInfo(info, root, c);
          root := c;
        } else {
          GoodSized(T(), order, contents, p);
        }
        return Removed;
      }
      if |pages[p].keys| >= MinSize(order) {
        GoodSized(T(), order, contents, p);
        MaintainParentOf(p);
        return Removed;
      }
      return BadSibling;
    }

    /** a and b are leaf children of p in slots j and j + 1, and the i-th and next in
        the ring; all but `odd`, one of the two, has a legal size. */
    ghost predicate Neighbours(odd: int, p: int, j: nat, a: int, b: int, i: nat)
      reads this
    {
      && FreshPages() && Good(T(), order, contents, odd) && (odd == a || odd == b)
      && Mergeable(pages, info, root, p, j, a, b, leaves, lastLeaf, i)
    }

    /** redistribute: one entry moves over from the fuller neighbour, from its end
        nearest the node, and the separator follows. */
    method Redistribute(neighbor: int, node: int, p: int, index: nat, ghost i: nat)
      requires if index != 0 then Neighbours(node, p, index - 1, neighbor, node, i)
               else Neighbours(node, p, 0, node, neighbor, i)
      requires |pages[node].keys| == MinSize(order) - 1 && MinSize(order) + 1 <= |pages[neighbor].keys| <= order
      modifies this`pages, this`info
      ensures FreshPages() && Good(T(), order, contents, NoPage)
      ensures node in pages && neighbor in pages
      ensures var a, b := old(pages)[node].keys, old(pages)[neighbor].keys;
        && pages[node].keys == (if index != 0 then [b[|b| - 1]] + a else a + [b[0]])
        && pages[neighbor].keys == (if index != 0 then b[..|b| - 1] else b[1..])
      ensures forall q :: q in old(pages) && old(pages)[q].isLeaf && q != node && q != neighbor ==>
        q in pages && pages[q] == old(pages)[q]
    {
      if index != 0 {
        var pos := |pages[neighbor].keys| - 1;
        var moved := InsertPair(pages[node], 0, pages[neighbor].keys[pos], pages[neighbor].rids[pos]);
        var rest := ErasePair(pages[neighbor], pos);
        MoveLast(pages[neighbor], pages[node]);
        Deal(p, index - 1, neighbor, node, rest, moved, node, i);
      } else {
        var moved := InsertPair(pages[node], |pages[node].keys|, pages[neighbor].keys[0], pages[neighbor].rids[0]);
        var rest := ErasePair(pages[neighbor], 0);
        MoveFirst(pages[node], pages[neighbor]);
        Deal(p, 0, node, neighbor, moved, rest, node, i);
      }
    }

    /** Write both leaves and mend the separators above the right one. */
    method Deal(p: int, j: nat, a: int, b: int, na: Node, nb: Node, ghost odd: int, ghost i: nat)
      requires Neighbours(odd, p, j, a, b, i) && Dealt(pages, info, root, p, j, a, b, na, nb)
      requires MinSize(order) <= |na.keys| <= order && MinSize(order) <= |nb.keys| <= order
      modifies this`pages, this`info
      ensures FreshPages() && Good(T(), order, contents, NoPage)
      ensures a in pages && b in pages && pages[a] == na && pages[b] == nb
      ensures forall q :: q in old(pages) && old(pages)[q].isLeaf && q != a && q != b ==>
        q in pages && pages[q] == old(pages)[q]
    {
      WriteBoth(p, j, a, b, na, nb, odd, i);
      MaintainParent(b, j + 1);
    }

    method WriteBoth(p: int, j: nat, a: int, b: int, na: Node, nb: Node, ghost odd: int, ghost i: nat)
      requires Neighbours(odd, p, j, a, b, i) && Dealt(pages, info, root, p, j, a, b, na, nb)
      requires MinSize(order) <= |na.keys| <= order && MinSize(order) <= |nb.keys| <= order
      modifies this`pages, this`info
      ensures FreshPages() && pages == old(pages)[a := na][b := nb] && a != b && na.isLeaf && nb.isLeaf
      ensures nb.parent != NoPage && Mending(T(), order, contents, b, nb.parent, j + 1)
    {
      GoodDealt(T(), order, contents, odd, p, j, a, b, na, nb, i);
      DealtParents(pages, info, root, p, j, a, b, na, nb);
      pages := pages[a := na];
      pages := pages[b := nb];
      info := DealtInfo(info, a, b, nb.keys[0]);
    }

    /** coalesce: the right leaf's entries go to the left one, the right one leaves the
        ring and the parent. */
    method Coalesce(p: int, j: nat, a: int, b: int, ghost odd: int, ghost i: nat) returns (res: Deletion)
      requires Neighbours(odd, p, j, a, b, i)
      requires MinSize(order) <= |pages[a].keys| + |pages[b].keys| <= order
      modifies this`pages, this`info, this`root, this`leaves, this`lastLeaf
      ensures res == Removed || res == BadSibling
      ensures FreshPages() && (res == Removed ==> Good(T(), order, contents, NoPage))
      ensures res == BadSibling <==> old(p != root && |pages[p].keys| <= MinSize(order))
      ensures |leaves| == |old(leaves)| - 1
      ensures res == BadSibling ==> Underfull(T(), order, contents, p)
    {
      MergeInto(p, j, a, b, odd, i);
      res := AfterMerge(p);
    }

    method MergeInto(p: int, j: nat, a: int, b: int, ghost odd: int, ghost i: nat)
      requires Neighbours(odd, p, j, a, b, i)
      requires MinSize(order) <= |pages[a].keys| + |pages[b].keys| <= order
      modifies this`pages, this`info, this`leaves, this`lastLeaf
      ensures FreshPages() && Good(T(), order, contents, p) && p in info && p in pages && !pages[p].isLeaf
      ensures p in old(pages) && |pages[p].keys| == |old(pages)[p].keys| - 1 && 1 <= |pages[p].keys| <= order
      ensures |leaves| == |old(leaves)| - 1
    {
      MergeSafe(T(), order, contents, odd, p, j, a, b, i);
      assert PageOk(pages, info, a, NoPage) && PageOk(pages, info, b, NoPage);
      MergeSlots(pages, p, j, a, b, MaxSize(order));
      MoveAndUnlink(p, j, a, b);
      if b == lastLeaf {
        lastLeaf := a;
      }
      info := MergeInfo(info, a, b);
      leaves := WithoutLeaf(leaves, i);
    }

    /** insert_pairs, erase_leaf and erase_pair, in the order coalesce calls them. */
    method MoveAndUnlink(p: int, j: nat, a: int, b: int)
      requires a in pages && b in pages && p in pages && pages[b].next in pages && pages[b].prev == a
      requires a != b && a != p && b != p && pages[b].next != a && pages[b].next != b && pages[b].next != p
      requires j + 1 < |pages[p].keys| && j + 1 < |pages[p].rids|
      modifies this`pages
      ensures pages == MergePages(old(pages), p, j, a, b)
    {
      var n, x := pages[b], pages[b].next;
      pages := pages[a := pages[a].(keys := pages[a].keys + n.keys, rids := pages[a].rids + n.rids)];
      pages := pages[n.prev := pages[n.prev].(next := x)];
      pages := pages[x := pages[x].(prev := n.prev)];
      pages := pages[p := ErasePair(pages[p], j + 1)];
    }

    /** coalesce_or_redistribute on a leaf that has just lost an entry. */
    method CoalesceOrRedistribute(node: int) returns (res: Deletion)
      requires FreshPages() && Good(T(), order, contents, node) && IsLeafPage(pages, info, node)
      requires |pages[node].keys| <= order && (node != root ==> MinSize(order) - 1 <= |pages[node].keys|)
      modifies this`pages, this`info, this`root, this`leaves, this`lastLeaf
      ensures FreshPages() && (res == Removed ==> Good(T(), order, contents, NoPage))
      ensures res != NotFound
      ensures res == Emptied <==> old(node == root && pages[node].keys == [])
      ensures res == Emptied ==> root == NoPage
      ensures res == BadSibling <==> old(MergeUnderflows(pages, root, order, node, |pages[node].keys|))
      ensures |leaves| == |old(leaves)| - if old(Merges(pages, root, order, node, |pages[node].keys|)) then 1 else 0
      ensures res == BadSibling ==> exists p :: Underfull(T(), order, contents, p)
    {
      RootByParent(pages, info, root, node);
      if pages[node].parent == NoPage {
        if |pages[node].keys| == 0 {
          root := NoPage;
          return Emptied;
        }
        GoodSized(T(), order, contents, node);
        return Removed;
      }
      if |pages[node].keys| >= MinSize(order) {
        GoodSized(T(), order, contents, node);
        MaintainParentOf(node);
        return Removed;
      }
      var p := pages[node].parent;
      KidOfParent(pages, info, root, node);
      var index := FindChild(pages[p], node);
      res := WithBrother(node, p, index);
    }

    method WithBrother(node: int, p: int, index: nat) returns (res: Deletion)
      requires FreshPages() && Good(T(), order, contents, node) && IsLeafPage(pages, info, node) && node != root
      requires |pages[node].keys| == MinSize(order) - 1 && p == pages[node].parent && p in pages
      requires index < |pages[p].rids| && Kid(pages[p], index) == node
      requires forall i :: 0 <= i < index ==> Kid(pages[p], i) != node
      modifies this`pages, this`info, this`root, this`leaves, this`lastLeaf
      ensures FreshPages() && (res == Removed ==> Good(T(), order, contents, NoPage))
      ensures res == Removed || res == BadSibling
      ensures res == BadSibling <==> old(MergeUnderflows(pages, root, order, node, |pages[node].keys|))
      ensures |leaves| == |old(leaves)| - if old(Merges(pages, root, order, node, |pages[node].keys|)) then 1 else 0
      ensures res == BadSibling ==> exists p :: Underfull(T(), order, contents, p)
    {
      ghost var i := BrotherInRing(T(), order, contents, node, p, index);
      var brother := if index != 0 then pages[node].prev else pages[node].next;
      assert brother == Brother(pages, node);
      if |pages[node].keys| + |pages[brother].keys| >= MinSize(order) * 2 {
        Redistribute(brother, node, p, index, i);
        return Removed;
      }
      if index == 0 {
        res := Coalesce(p, 0, node, brother, node, i);
      } else {
        res := Coalesce(p, index - 1, brother, node, node, i);
      }
    }

    /** delete_entry removes exactly the key, and leaves a sound tree, unless it was the
        last key or a merge leaves an inner node other than the root below half; those
        two cases, and only those, end in pages that are no sound tree under any reading. */
    method DeleteEntry(key: Key) returns (res: Deletion)
      requires Valid()
      modifies this
      ensures res == NotFound <==> key !in old(contents)
      ensures contents == old(contents) - {key}
      ensures res == Emptied <==> old(contents).Keys == {key}
      ensures forall leaf :: old(IsLeafPage(pages, info, leaf)) && key in old(pages[leaf].keys) ==>
        && (res == BadSibling <==> old(MergeUnderflows(pages, root, order, leaf, |pages[leaf].keys| - 1)))
        && |leaves| == |old(leaves)| - if old(Merges(pages, root, order, leaf, |pages[leaf].keys| - 1)) then 1 else 0
      ensures FreshPages() && (Valid() <==> res == NotFound || res == Removed)
      ensures !Valid() ==> NoTree(pages, root, order)
      ensures res == Emptied ==> root == NoPage
      ensures res == BadSibling ==> exists p :: Underfull(T(), order, contents, p)
    {
      var leaf, pos, found := FindEntry(key);
      if !found {
        NotStored(T(), order, contents, key);
        return NotFound;
      }
      LeafFacts(T(), order, contents, leaf, key);
      res := RemoveAt(leaf, pos);
    }

    /** erase_pair on the leaf, then whatever its new size asks for. */
    method RemoveAt(leaf: int, pos: nat) returns (res: Deletion)
      requires firstLeaf == InitRoot && FreshPages() && Good(T(), order, contents, NoPage)
      requires IsLeafPage(pages, info, leaf) && pos < |pages[leaf].keys| && SizeOk(pages[leaf], leaf == root, order)
      requires pages[leaf].parent != leaf && Brother(pages, leaf) != leaf
      modifies this`pages, this`info, this`root, this`leaves, this`lastLeaf, this`contents
      ensures contents == old(contents) - {old(pages[leaf].keys[pos])} && res != NotFound
      ensures res == Emptied <==> old(leaf == root && |pages[leaf].keys| == 1)
      ensures res == BadSibling <==> old(MergeUnderflows(pages, root, order, leaf, |pages[leaf].keys| - 1))
      ensures |leaves| == |old(leaves)| - if old(Merges(pages, root, order, leaf, |pages[leaf].keys| - 1)) then 1 else 0
      ensures FreshPages() && (Valid() <==> res == Removed) && (!Valid() ==> NoTree(pages, root, order))
      ensures res == Emptied ==> root == NoPage
      ensures res == BadSibling ==> exists p :: Underfull(T(), order, contents, p)
    {
      EraseFrom(leaf, pos);
      res := CoalesceOrRedistribute(leaf);
      if res == BadSibling {
        ghost var p :| Underfull(T(), order, contents, p);
        UnderfullIsNoTree(T(), order, contents, p);
        assert !Good(T(), order, contents, NoPage);
      } else if res == Emptied {
        RootlessIsNoTree(pages, order);
        assert !Good(T(), order, contents, NoPage);
      }
    }

    method EraseFrom(leaf: int, pos: nat)
      requires FreshPages() && Good(T(), order, contents, NoPage) && IsLeafPage(pages, info, leaf)
      requires pos < |pages[leaf].keys|
      requires pages[leaf].parent != leaf && Brother(pages, leaf) != leaf
      modifies this`pages, this`contents
      ensures FreshPages() && Good(T(), order, contents, leaf) && IsLeafPage(pages, info, leaf)
      ensures contents == old(contents) - {old(pages[leaf].keys[pos])}
      ensures |pages[leaf].keys| == old(|pages[leaf].keys|) - 1
      ensures forall s: int :: MergeUnderflows(pages, root, order, leaf, s) <==>
        old(MergeUnderflows(pages, root, order, leaf, s))
      ensures forall s: int :: Merges(pages, root, order, leaf, s) <==> old(Merges(pages, root, order, leaf, s))
    {
      GoodErase(T(), order, contents, leaf, pos);
      contents := contents - {pages[leaf].keys[pos]};
      pages := pages[leaf := ErasePair(pages[leaf], pos)];
      UnderflowSame(old(pages), pages, root, order, leaf);
    }
  }

  function TotalLength(lens: seq<nat>): nat {
    if lens == [] then 0 else TotalLength(lens[..|lens| - 1]) + lens[|lens| - 1]
  }

  /** create_index: an empty index with as many entries to a node as a page takes, or
      InvalidColLengthError when the indexed columns are too long together. */
  method CreateIndex(lens: seq<nat>) returns (index: Option<Index>)
    ensures index == None <==> TotalLength(lens) > Layout.MAX_COL_LEN
    ensures index.Some? ==> fresh(index.value) && index.value.Valid() && index.value.contents == map[]
    ensures index.Some? ==> index.value.order == Layout.BtreeOrder(TotalLength(lens)) > 2
  {
    var len := 0;
    for i := 0 to |lens|
      invariant len == TotalLength(lens[..i])
    {
      assert lens[..i + 1][..i] == lens[..i];
      len := len + lens[i];
    }
    assert lens[..|lens|] == lens;
    if len > Layout.MAX_COL_LEN {
      return None;
    }
    Layout.IndexNodeFits(len);
    var ix := new Index(Layout.BtreeOrder(len));
    return Some(ix);
  }

  /** Every page of a sound tree but the root is at least half full, and none is overfull. */
  lemma HalfFull(index: Index, p: int)
    requires index.Valid() && p in index.info
    ensures p in index.pages && |index.pages[p].keys| <= index.order
    ensures p != index.root ==> index.order <= 2 * |index.pages[p].keys|
    ensures p == index.root && !index.pages[p].isLeaf ==> |index.pages[p].keys| >= 2
  {
  }

  /** After any operation, however it ends, and between its steps, the keys of every page end
      before its record ids start, and the record ids end within the page. */
  lemma PagesFit(index: Index, len: nat, p: int)
    requires len <= Layout.MAX_COL_LEN && index.order == Layout.BtreeOrder(len) && index.FreshPages()
    requires p in index.pages
    ensures Layout.NODE_HEADER + |index.pages[p].keys| * len <= Layout.RidStart(len)
    ensures Layout.RidStart(len) + |index.pages[p].rids| * Layout.RID_SIZE <= PAGE_SIZE
  {
    var n, slots := index.pages[p], MaxSize(index.order);
    assert NodeFits(n, slots);
    Layout.IndexNodeFits(len);
    Layout.MulMonotone(|n.keys|, slots, len);
  }

  lemma MergeSafe(t: Tree, order: nat, m: map<Key, Rid>, odd: int, p: int, j: nat, a: int, b: int, i: nat)
    requires Good(t, order, m, odd) && Mergeable(t.pages, t.info, t.root, p, j, a, b, t.leaves, t.last, i)
    requires odd == a || odd == b
    requires MinSize(order) <= |t.pages[a].keys| + |t.pages[b].keys| <= order
    ensures var x := t.pages[b].next; x in t.pages && x != a && x != b && x != p && t.pages[b].prev == a
    ensures a != p && b != p && a != b && SizeOk(t.pages[p], p == t.root, order) && |t.pages[p].keys| >= 2
    ensures !t.pages[p].isLeaf
    ensures Good(Tree(MergePages(t.pages, p, j, a, b), MergeInfo(t.info, a, b), t.root, WithoutLeaf(t.leaves, i),
                      if t.last == b then a else t.last), order, m, p)
  {
    MergeFacts(t.pages, t.info, t.root, p, j, a, b, t.leaves, t.last, i);
    GoodMerge(t, order, m, odd, p, j, a, b, i);
  }

  lemma BelowRoot(t: Tree, order: nat, m: map<Key, Rid>, was: int, half: int, key: Key)
    requires Pending(t, order, m, was, half, key)
    ensures t.info[was].height <= t.info[t.root].height
  {
    assert was != t.root ==> Placed(t.pages, t.info, t.root, was);
  }

  lemma KidsConcat(rids: seq<Rid>, r: Rid)
    ensures Kids(rids + [r]) == Kids(rids) + {r.pageNo}
  {
    var rs := rids + [r];
    assert rs[|rids|] == r;
    forall c ensures c in Kids(rs) <==> c in Kids(rids) + {r.pageNo} {
      if c in Kids(rids) {
        var i :| 0 <= i < |rids| && rids[i].pageNo == c;
        assert rs[i] == rids[i];
      }
    }
  }

  /** A split node without a parent is the root. */
  lemma PendingRoot(t: Tree, order: nat, m: map<Key, Rid>, was: int, half: int, key: Key)
    requires Pending(t, order, m, was, half, key) && t.pages[was].parent == NoPage
    ensures was == t.root
  {
    assert was != t.root ==> Placed(t.pages, t.info, t.root, was);
  }

  lemma PendingParent(t: Tree, order: nat, m: map<Key, Rid>, was: int, half: int, key: Key)
    requires Pending(t, order, m, was, half, key) && t.pages[was].parent != NoPage
    ensures was != t.root
    ensures var p := t.pages[was].parent;
      p in t.pages && exists j :: 0 <= j < |t.pages[p].rids| && Kid(t.pages[p], j) == was
  {
    assert Placed(t.pages, t.info, t.root, was);
  }

  lemma MoveLast(a: Node, b: Node)
    requires |a.keys| == |a.rids| && |b.keys| == |b.rids| && |a.keys| > 0
    ensures var pos := |a.keys| - 1; var na, nb := ErasePair(a, pos), InsertPair(b, 0, a.keys[pos], a.rids[pos]);
      na.keys + nb.keys == a.keys + b.keys && na.rids + nb.rids == a.rids + b.rids
  {
  }

  lemma MoveFirst(a: Node, b: Node)
    requires |a.keys| == |a.rids| && |b.keys| == |b.rids| && |b.keys| > 0
    ensures var na, nb := InsertPair(a, |a.keys|, b.keys[0], b.rids[0]), ErasePair(b, 0);
      na.keys + nb.keys == a.keys + b.keys && na.rids + nb.rids == a.rids + b.rids
  {
  }

  lemma DealtParents(pages: Pages, info: Infos, root: int, p: int, j: nat, a: int, b: int, na: Node, nb: Node)
    requires Dealt(pages, info, root, p, j, a, b, na, nb)
    ensures nb.parent == p && p != NoPage
  {
    assert PageOk(pages, info, p, NoPage) && KidOk(pages, info, p, j + 1);
  }

  lemma RootByParent(pages: Pages, info: Infos, root: int, p: int)
    requires Whole(pages, info, root) && p in info && p in pages
    ensures pages[p].parent == NoPage <==> p == root
  {
    assert p != root ==> Placed(pages, info, root, p);
  }

  lemma KidOfParent(pages: Pages, info: Infos, root: int, p: int)
    requires Whole(pages, info, root) && p in info && p in pages && p != root
    ensures pages[p].parent in pages
    ensures exists j :: 0 <= j < |pages[pages[p].parent].rids| && Kid(pages[pages[p].parent], j) == p
  {
    assert Placed(pages, info, root, p);
  }

  /** The brother taken from the leaf links is the neighbouring child. */
  lemma BrotherInRing(t: Tree, order: nat, m: map<Key, Rid>, node: int, p: int, index: nat) returns (i: nat)
    requires Good(t, order, m, node) && IsLeafPage(t.pages, t.info, node) && node != t.root && |t.pages[node].keys| > 0
    requires p == t.pages[node].parent && p in t.pages && index < |t.pages[p].rids| && Kid(t.pages[p], index) == node
    ensures p in t.info && p != node && SizeOk(t.pages[p], p == t.root, order)
    ensures var b := if index != 0 then t.pages[node].prev else t.pages[node].next;
      && b in t.pages && b in t.info && b != node && b != t.root && SizeOk(t.pages[b], false, order)
      && if index != 0 then Mergeable(t.pages, t.info, t.root, p, index - 1, b, node, t.leaves, t.last, i)
         else Mergeable(t.pages, t.info, t.root, p, 0, node, b, t.leaves, t.last, i)
  {
    assert Placed(t.pages, t.info, t.root, node) && PageOk(t.pages, t.info, p, NoPage);
    assert KidOk(t.pages, t.info, p, index) && PageOk(t.pages, t.info, node, NoPage);
    assert SizeOk(t.pages[p], p == t.root, order);
    var j := if index != 0 then index - 1 else 0;
    var o: nat := if index != 0 then index - 1 else 1;
    assert KidOk(t.pages, t.info, p, o);
    var b := Kid(t.pages[p], o);
    assert PageOk(t.pages, t.info, b, NoPage);
    if b == node {
      SlotUnique(t.pages, t.info, p, NoPage, index, o);
    }
    assert SizeOk(t.pages[b], b == t.root, order);
    if index != 0 {
      i := NeighboursInRing(t.pages, t.info, t.root, order, node, p, j, b, node, t.leaves, t.last);
    } else {
      i := NeighboursInRing(t.pages, t.info, t.root, order, node, p, j, node, b, t.leaves, t.last);
    }
  }

  /** The leaf that holds the key is the only one, and it holds nothing else exactly
      when the whole tree does. */
  lemma LeafFacts(t: Tree, order: nat, m: map<Key, Rid>, leaf: int, key: Key)
    requires Good(t, order, m, NoPage) && IsLeafPage(t.pages, t.info, leaf) && key in t.pages[leaf].keys
    ensures key in m
    ensures forall q :: IsLeafPage(t.pages, t.info, q) && key in t.pages[q].keys ==> q == leaf
    ensures m.Keys == {key} <==> leaf == t.root && |t.pages[leaf].keys| == 1
    ensures t.pages[leaf].parent != leaf && Brother(t.pages, leaf) != leaf
  {
    assert PageOk(t.pages, t.info, leaf, NoPage);
    NextOfLeaf(t.pages, t.info, t.root, t.leaves, t.last, leaf);
    assert leaf != t.root ==> Placed(t.pages, t.info, t.root, leaf);
    forall q | IsLeafPage(t.pages, t.info, q) && key in t.pages[q].keys ensures q == leaf {
      assert PageOk(t.pages, t.info, q, NoPage);
      OnePagePerKey(t.pages, t.info, t.root, NoPage, leaf, q, key);
    }
    if leaf == t.root && |t.pages[leaf].keys| == 1 {
      forall k | k in m ensures k == key {
        var q :| IsLeafPage(t.pages, t.info, q) && k in t.pages[q].keys;
        LoneLeaf(t.pages, t.info, t.root, q);
      }
      assert m.Keys == {key};
    } else {
      var ks := t.pages[leaf].keys;
      assert |ks| >= 2 && ks[0] in m && ks[1] in m && ks[0] != ks[1];
    }
  }

  lemma UnderflowSame(pages: Pages, pages': Pages, root: int, order: nat, leaf: int)
    requires leaf in pages && leaf in pages' && pages' == pages[leaf := pages'[leaf]]
    requires pages'[leaf].parent == pages[leaf].parent && pages'[leaf].next == pages[leaf].next
    requires pages'[leaf].prev == pages[leaf].prev
    requires pages[leaf].parent != leaf && Brother(pages, leaf) != leaf
    ensures forall s: int :: MergeUnderflows(pages', root, order, leaf, s) <==>
      MergeUnderflows(pages, root, order, leaf, s)
    ensures forall s: int :: Merges(pages', root, order, leaf, s) <==> Merges(pages, root, order, leaf, s)
  {
  }

  lemma NotStored(t: Tree, order: nat, m: map<Key, Rid>, key: Key)
    requires Good(t, order, m, NoPage) && key !in m
    ensures forall q :: IsLeafPage(t.pages, t.info, q) ==> key !in t.pages[q].keys
    ensures m - {key} == m
  {
    forall q | IsLeafPage(t.pages, t.info, q) ensures key !in t.pages[q].keys {
      assert PageOk(t.pages, t.info, q, NoPage);
    }
  }
}
