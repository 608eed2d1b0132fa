/** Deletions after which an index is no sound tree, on concrete indexes. */
module BTreeRuns {
  import opened Common
  import opened BTreeNode
  import opened BTreeShape
  import opened BTreeLeaves
  import opened BTreeIndex

  /** Deleting the only key of an index of any order. */
  method DeleteLast(order: nat, key: Key, value: Rid) returns (index: Index, res: Deletion)
    requires order > 2
    ensures res == Emptied && index.contents == map[] && index.root == NoPage
    ensures index.order == order && NoTree(index.pages, index.root, order)
  {
    index := new Index(order);
    var ok := index.InsertEntry(key, value);
    res := index.DeleteEntry(key);
  }

  // ---------- a tree of order 3 and three levels that holds the keys 1 to 8 ----------

  function Entry(k: Key): Rid {
    Rid(k, 0)
  }

  function Leaf(parent: int, prev: int, next: int, k: Key): Node {
    Node(true, parent, prev, next, [k, k + 1], [Entry(k), Entry(k + 1)])
  }

  function Inner(parent: int, k: Key, left: int, l: Key, right: int): Node {
    Node(false, parent, 0, 0, [k, l], [Rid(left, -1), Rid(right, -1)])
  }

  function EightPages(): Pages {
    map[LeafHeader := Node(true, NoPage, 6, 2, [], []),
        2 := Leaf(4, LeafHeader, 3, 1), 3 := Leaf(4, 2, 5, 3), 5 := Leaf(7, 3, 6, 5), 6 := Leaf(7, 5, LeafHeader, 7),
        4 := Inner(8, 1, 2, 3, 3), 7 := Inner(8, 5, 5, 7, 6), 8 := Inner(NoPage, 1, 4, 5, 7)]
  }

  function EightInfo(): Infos {
    map[2 := Info(None, Some(3), 0), 3 := Info(Some(3), Some(5), 0), 5 := Info(Some(5), Some(7), 0),
        6 := Info(Some(7), None, 0), 4 := Info(None, Some(5), 1), 7 := Info(Some(5), None, 1), 8 := Info(None, None, 2)]
  }

  function EightEntries(): map<Key, Rid> {
    map k: Key | 1 <= k <= 8 :: Entry(k)
  }

  function EightTree(): Tree {
    Tree(EightPages(), EightInfo(), 8, [2, 3, 5, 6], 6)
  }

  lemma InnerSound(p: int)
    requires p == 4 || p == 7 || p == 8
    ensures PageOk(EightPages(), EightInfo(), p, NoPage)
    ensures IsKid(EightPages(), p, Kid(EightPages()[p], 0)) && IsKid(EightPages(), p, Kid(EightPages()[p], 1))
  {
    var pages, info := EightPages(), EightInfo();
    assert KidOk(pages, info, p, 0) && KidOk(pages, info, p, 1);
    assert KeyZeroOk(pages, info, p, 0) && KeyZeroOk(pages, info, p, 1);
  }

  lemma LeafSound(p: int)
    requires p == 2 || p == 3 || p == 5 || p == 6
    ensures PageOk(EightPages(), EightInfo(), p, NoPage)
  {
  }

  /** Every page but the root hangs off an inner page. */
  lemma KidPlaced(q: int, i: nat)
    requires (q == 4 || q == 7 || q == 8) && i < 2
    ensures Placed(EightPages(), EightInfo(), 8, Kid(EightPages()[q], i))
  {
    InnerSound(q);
  }

  lemma EightSound(p: int)
    requires p in EightInfo()
    ensures PageOk(EightPages(), EightInfo(), p, NoPage)
  {
    if p == 4 || p == 7 || p == 8 {
      InnerSound(p);
    } else {
      LeafSound(p);
    }
  }

  lemma EightPlaced(p: int)
    requires p in EightInfo() && p != 8
    ensures Placed(EightPages(), EightInfo(), 8, p)
  {
    if p == 4 || p == 7 {
      KidPlaced(8, if p == 4 then 0 else 1);
    } else if p == 2 || p == 3 {
      KidPlaced(4, p - 2);
    } else {
      KidPlaced(7, p - 5);
    }
  }

  lemma EightWhole()
    ensures Whole(EightPages(), EightInfo(), 8)
  {
    var pages, info := EightPages(), EightInfo();
    forall p | p in info ensures PageOk(pages, info, p, NoPage) {
      EightSound(p);
    }
    forall p | p in info && p != 8 ensures Placed(pages, info, 8, p) {
      EightPlaced(p);
    }
  }

  lemma EightSizes()
    ensures Sizes(EightPages(), EightInfo(), 8, 3, NoPage) && WithinSlots(EightPages(), 4)
    ensures MergeUnderflows(EightPages(), 8, 3, 2, 1)
  {
  }

  lemma EightLinks(i: nat)
    requires i < 4
    ensures LinkedAt(EightPages(), [2, 3, 5, 6], i)
  {
  }

  lemma EightOrder(i: nat, j: nat)
    requires i < j < 4
    ensures KeysBelow(EightPages(), [2, 3, 5, 6][i], [2, 3, 5, 6][j])
  {
  }

  lemma EightRing()
    ensures Ring(EightPages(), EightInfo(), [2, 3, 5, 6], 6)
  {
    var pages, leaves := EightPages(), [2, 3, 5, 6];
    forall i | 0 <= i < |leaves| ensures LinkedAt(pages, leaves, i) {
      EightLinks(i);
    }
    forall i, j | 0 <= i < j < |leaves| ensures KeysBelow(pages, leaves[i], leaves[j]) {
      EightOrder(i, j);
    }
  }

  lemma EightStored(k: Key)
    requires 1 <= k <= 8
    ensures Stored(EightPages(), EightInfo(), k)
  {
    var p := if k <= 2 then 2 else if k <= 4 then 3 else if k <= 6 then 5 else 6;
    assert EightPages()[p].keys[0] == k || EightPages()[p].keys[1] == k;
    assert IsLeafPage(EightPages(), EightInfo(), p);
  }

  lemma EightEntry(p: int, i: nat)
    requires IsLeafPage(EightPages(), EightInfo(), p) && i < |EightPages()[p].keys| == |EightPages()[p].rids|
    ensures var k := EightPages()[p].keys[i]; k in EightEntries() && EightEntries()[k] == EightPages()[p].rids[i]
  {
  }

  lemma EightHolds()
    ensures Holds(EightPages(), EightInfo(), EightEntries())
  {
    var pages, info, m := EightPages(), EightInfo(), EightEntries();
    forall p, i | IsLeafPage(pages, info, p) && 0 <= i < |pages[p].keys| && i < |pages[p].rids|
      ensures pages[p].keys[i] in m && m[pages[p].keys[i]] == pages[p].rids[i]
    {
      EightEntry(p, i);
    }
    forall k | k in m ensures Stored(pages, info, k) {
      EightStored(k);
    }
  }

  lemma GoodFrom(t: Tree, order: nat, m: map<Key, Rid>)
    requires order > 2 && Whole(t.pages, t.info, t.root) && Sizes(t.pages, t.info, t.root, order, NoPage)
    requires Ring(t.pages, t.info, t.leaves, t.last) && Holds(t.pages, t.info, m)
    ensures Good(t, order, m, NoPage)
  {
  }

  /** The key is in a leaf that will merge under a parent that is only half full and not
      the root. */
  ghost predicate Underflowing(t: Tree, order: nat, nextPage: int, m: map<Key, Rid>, leaf: int, key: Key) {
    && Good(t, order, m, NoPage) && nextPage > InitRoot && WithinSlots(t.pages, MaxSize(order))
    && (forall p :: p in t.pages ==> p < nextPage) && (forall p :: p in t.info ==> p in t.pages)
    && IsLeafPage(t.pages, t.info, leaf) && key in t.pages[leaf].keys && key in m
    && MergeUnderflows(t.pages, t.root, order, leaf, |t.pages[leaf].keys| - 1)
  }

  method OpenAndDelete(t: Tree, order: nat, nextPage: int, m: map<Key, Rid>, ghost leaf: int, key: Key)
    returns (index: Index, res: Deletion)
    requires Underflowing(t, order, nextPage, m, leaf, key)
    ensures res == BadSibling && index.contents == m - {key}
    ensures index.order == order && NoTree(index.pages, index.root, order)
  {
    index := new Index.Open(order, t.pages, t.root, t.last, nextPage, t.info, t.leaves, m);
    assert IsLeafPage(index.pages, index.info, leaf);
    res := index.DeleteEntry(key);
  }

  lemma EightGood()
    ensures Good(EightTree(), 3, EightEntries(), NoPage)
  {
    assert Whole(EightTree().pages, EightTree().info, 8) by { EightWhole(); }
    assert Ring(EightTree().pages, EightTree().info, EightTree().leaves, 6) by { EightRing(); }
    assert Holds(EightTree().pages, EightTree().info, EightEntries()) by { EightHolds(); }
    assert Sizes(EightTree().pages, EightTree().info, 8, 3, NoPage) by { EightSizes(); }
    GoodFrom(EightTree(), 3, EightEntries());
  }

  lemma EightRest()
    ensures WithinSlots(EightPages(), 4)
    ensures (forall p :: p in EightPages() ==> p < 9) && (forall p :: p in EightInfo() ==> p in EightPages())
    ensures IsLeafPage(EightPages(), EightInfo(), 2) && 1 in EightPages()[2].keys && 1 in EightEntries()
    ensures MergeUnderflows(EightPages(), 8, 3, 2, |EightPages()[2].keys| - 1)
  {
    EightSizes();
    assert EightPages()[2].keys[0] == 1;
  }

  lemma EightUnderflowing()
    ensures Underflowing(EightTree(), 3, 9, EightEntries(), 2, 1)
  {
    EightGood();
    EightRest();
  }

  /** The first two leaves merge, and their parent falls below half. */
  method DeleteUnderflows() returns (index: Index, res: Deletion)
    ensures res == BadSibling && index.contents == EightEntries() - {1}
    ensures index.order == 3 && NoTree(index.pages, index.root, 3)
  {
    EightUnderflowing();
    index, res := OpenAndDelete(EightTree(), 3, 9, EightEntries(), 2, 1);
  }
}
