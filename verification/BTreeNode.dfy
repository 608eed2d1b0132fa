/** The pages of a B+ tree index and the operations on one node. Keys are fixed-length
    byte strings compared by one total order, so integers stand for them. */
module BTreeNode {
  import opened Common

  type Key = int

  const NoPage := -1
  const LeafHeader := 1
  const InitRoot := 2

  // For an inner node, rids[i].pageNo is the i-th child and keys[0] is not used to
  // route. prev and next are meaningful for leaves only.
  datatype Node = Node(isLeaf: bool, parent: int, prev: int, next: int, keys: seq<Key>, rids: seq<Rid>)

  type Pages = map<int, Node>

  function Kid(n: Node, i: nat): int
    requires i < |n.rids|
  {
    n.rids[i].pageNo
  }

  ghost predicate SortedFrom(ks: seq<Key>, start: nat) {
    forall i, j :: start <= i < j < |ks| ==> ks[i] < ks[j]
  }

  /** The first index whose key is at least the target, by halving. */
  method LowerBound(ks: seq<Key>, target: Key) returns (l: nat)
    requires SortedFrom(ks, 0)
    ensures l <= |ks|
    ensures forall i :: 0 <= i < l ==> ks[i] < target
    ensures forall i :: l <= i < |ks| ==> target <= ks[i]
  {
    l := 0;
    var r := |ks|;
    while l < r
      invariant l <= r <= |ks|
      invariant forall i :: 0 <= i < l ==> ks[i] < target
      invariant forall i :: r <= i < |ks| ==> target <= ks[i]
    {
      var mid := (l + r) / 2;
      if ks[mid] < target {
        l := mid + 1;
      } else {
        r := mid;
      }
    }
  }

  /** The first index from 1 on whose key exceeds the target; index 0 is skipped. */
  method UpperBound(ks: seq<Key>, target: Key) returns (l: nat)
    requires SortedFrom(ks, 1) && |ks| >= 1
    ensures 1 <= l <= |ks|
    ensures forall i :: 1 <= i < l ==> ks[i] <= target
    ensures forall i :: l <= i < |ks| ==> target < ks[i]
  {
    l := 1;
    var r := |ks|;
    while l < r
      invariant 1 <= l <= r <= |ks|
      invariant forall i :: 1 <= i < l ==> ks[i] <= target
      invariant forall i :: r <= i < |ks| ==> target < ks[i]
    {
      var mid := (l + r) / 2;
      if ks[mid] > target {
        r := mid;
      } else {
        l := mid + 1;
      }
    }
  }

  function InsertPair(n: Node, pos: nat, k: Key, r: Rid): Node
    requires pos <= |n.keys| && pos <= |n.rids|
  {
    n.(keys := n.keys[..pos] + [k] + n.keys[pos..], rids := n.rids[..pos] + [r] + n.rids[pos..])
  }

  function ErasePair(n: Node, pos: nat): Node
    requires pos < |n.keys| && pos < |n.rids|
  {
    n.(keys := n.keys[..pos] + n.keys[pos + 1..], rids := n.rids[..pos] + n.rids[pos + 1..])
  }

  /** The scan of a parent for a child's slot. */
  method FindChild(n: Node, child: int) returns (i: nat)
    requires exists j :: 0 <= j < |n.rids| && Kid(n, j) == child
    ensures i < |n.rids| && Kid(n, i) == child
    ensures forall j :: 0 <= j < i ==> Kid(n, j) != child
  {
    i := 0;
    while Kid(n, i) != child
      invariant i < |n.rids|
      invariant forall j :: 0 <= j < i ==> Kid(n, j) != child
      decreases |n.rids| - i
    {
      i := i + 1;
    }
  }
}
