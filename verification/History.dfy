/** Histories of record operations: what replaying one does to the records, and how a
    history whose conflicts follow one order of the transactions becomes serial. */
module History {
  import opened Common
  import opened LockTable

  type Bytes = seq<int>

  // A slot of a record page: its bitmap bit and its bytes. Deleting a record only
  // clears the bit, so the bytes of a dead slot are what was last written there.
  datatype Cell = Cell(live: bool, bytes: Bytes)

  type Store = map<RecId, Cell>

  datatype Op = Read(seen: Bytes) | Insert(bytes: Bytes) | Update(bytes: Bytes) | Delete

  datatype Event = Event(txn: TxnId, rec: RecId, op: Op)

  // One entry of a transaction's write set.
  datatype WriteRecord =
    | Inserted(rec: RecId)
    | Deleted(rec: RecId, before: Bytes)
    | Updated(rec: RecId, before: Bytes)

  function CellAt(s: Store, r: RecId): Cell {
    if r in s then s[r] else Cell(false, [])
  }

  /** The record a scan would find: dead slots hold none. */
  function View(c: Cell): Option<Bytes> {
    if c.live then Some(c.bytes) else None
  }

  function ApplyCell(op: Op, c: Cell): Cell {
    match op
    case Read(_) => c
    case Insert(b) => Cell(true, b)
    case Update(b) => c.(bytes := b)
    case Delete => c.(live := false)
  }

  function Apply(s: Store, e: Event): Store {
    if e.op.Read? then s else s[e.rec := ApplyCell(e.op, CellAt(s, e.rec))]
  }

  function Replay(s: Store, h: seq<Event>): Store {
    if h == [] then s else Apply(Replay(s, h[..|h| - 1]), h[|h| - 1])
  }

  /** Every read in the history saw the bytes that replaying up to it leaves. */
  ghost predicate Legal(s: Store, h: seq<Event>) {
    forall i :: 0 <= i < |h| && h[i].op.Read? ==> h[i].op.seen == CellAt(Replay(s, h[..i]), h[i].rec).bytes
  }

  predicate Conflict(e: Event, f: Event) {
    e.txn != f.txn && e.rec == f.rec && !(e.op.Read? && f.op.Read?)
  }

  // ---------- replay ----------

  lemma {:induction false} ReplayConcat(s: Store, a: seq<Event>, b: seq<Event>)
    ensures Replay(s, a + b) == Replay(Replay(s, a), b)
  {
    if b == [] {
      assert a + b == a;
    } else {
      assert (a + b)[..|a + b| - 1] == a + b[..|b| - 1];
      ReplayConcat(s, a, b[..|b| - 1]);
    }
  }

  lemma ReplayOne(s: Store, h: seq<Event>, e: Event)
    ensures Replay(s, h + [e]) == Apply(Replay(s, h), e)
  {
    assert (h + [e])[..|h + [e]| - 1] == h;
  }

  /** Two cells-worth of state seen alike: same cell at every record. */
  ghost predicate Same(s: Store, t: Store) {
    forall r: RecId :: CellAt(s, r) == CellAt(t, r)
  }

  lemma SameApply(s: Store, t: Store, e: Event)
    requires Same(s, t)
    ensures Same(Apply(s, e), Apply(t, e))
  {
    forall r: RecId ensures CellAt(Apply(s, e), r) == CellAt(Apply(t, e), r) {
      assert CellAt(s, e.rec) == CellAt(t, e.rec) && CellAt(s, r) == CellAt(t, r);
    }
  }

  lemma {:induction false} SameReplay(s: Store, t: Store, h: seq<Event>)
    requires Same(s, t)
    ensures Same(Replay(s, h), Replay(t, h))
  {
    if h != [] {
      SameReplay(s, t, h[..|h| - 1]);
      SameApply(Replay(s, h[..|h| - 1]), Replay(t, h[..|h| - 1]), h[|h| - 1]);
    }
  }

  lemma LegalExtend(s: Store, h: seq<Event>, e: Event)
    requires Legal(s, h)
    requires e.op.Read? ==> e.op.seen == CellAt(Replay(s, h), e.rec).bytes
    ensures Legal(s, h + [e])
  {
    forall i | 0 <= i < |h + [e]| && (h + [e])[i].op.Read?
      ensures (h + [e])[i].op.seen == CellAt(Replay(s, (h + [e])[..i]), (h + [e])[i].rec).bytes
    {
      assert (h + [e])[..i] == h[..i];
      if i == |h| {
        assert h[..i] == h;
      }
    }
  }

  lemma LegalPrefix(s: Store, h: seq<Event>, n: nat)
    requires Legal(s, h) && n <= |h|
    ensures Legal(s, h[..n])
  {
    forall i | 0 <= i < n && h[..n][i].op.Read?
      ensures h[..n][i].op.seen == CellAt(Replay(s, h[..n][..i]), h[..n][i].rec).bytes
    {
      assert h[..n][..i] == h[..i];
    }
  }

  // ---------- moving one event to the left ----------

  /** Sliding e left past one event that neither conflicts with it nor belongs to its
      transaction changes no read and leaves the records as they were. */
  lemma SwapTail(s: Store, h: seq<Event>, f: Event, e: Event)
    requires Legal(s, h + [f] + [e])
    requires f.txn != e.txn && !Conflict(f, e)
    ensures Legal(s, h + [e] + [f])
    ensures Same(Replay(s, h + [f] + [e]), Replay(s, h + [e] + [f]))
  {
    var g := h + [f] + [e];
    LegalPrefix(s, g, |h| + 1);
    LegalPrefix(s, g, |h|);
    assert g[..|h| + 1] == h + [f] && g[..|h|] == h;
    ReplayOne(s, h, f);
    ReplayOne(s, h, e);
    ReplayOne(s, h + [f], e);
    ReplayOne(s, h + [e], f);
    assert g[|h|] == f && g[|h| + 1] == e;
    LegalExtend(s, h, e);
    LegalExtend(s, h + [e], f);
  }

  /** Replaying the same events from states that look alike stays legal. */
  lemma {:induction false} LegalSuffix(s: Store, a: seq<Event>, b: seq<Event>, c: seq<Event>)
    requires Legal(s, a + c) && Legal(s, b) && Same(Replay(s, a), Replay(s, b))
    ensures Legal(s, b + c) && Same(Replay(s, a + c), Replay(s, b + c))
  {
    if c == [] {
      assert a + c == a && b + c == b;
    } else {
      var d, e := c[..|c| - 1], c[|c| - 1];
      assert a + c == (a + d) + [e] && b + c == (b + d) + [e];
      LegalPrefix(s, a + c, |a + d|);
      assert (a + c)[..|a + d|] == a + d;
      LegalSuffix(s, a, b, d);
      assert (a + c)[|a + d|] == e;
      LegalExtend(s, b + d, e);
      ReplayOne(s, a + d, e);
      ReplayOne(s, b + d, e);
      SameApply(Replay(s, a + d), Replay(s, b + d), e);
    }
  }

  // ---------- sorting a history by transaction ----------

  type Rank = TxnId -> int

  /** Insert e after the last event whose transaction ranks no higher than e's. */
  function InsertByRank(h: seq<Event>, e: Event, rank: Rank): seq<Event> {
    if h == [] || rank(h[|h| - 1].txn) <= rank(e.txn) then h + [e]
    else InsertByRank(h[..|h| - 1], e, rank) + [h[|h| - 1]]
  }

  /** The history with its events regrouped by the rank of their transactions. */
  function Serialize(h: seq<Event>, rank: Rank): seq<Event> {
    if h == [] then [] else InsertByRank(Serialize(h[..|h| - 1], rank), h[|h| - 1], rank)
  }

  /** What one transaction did, in its own order. */
  function ByTxn(h: seq<Event>, t: TxnId): seq<Event> {
    if h == [] then []
    else ByTxn(h[..|h| - 1], t) + if h[|h| - 1].txn == t then [h[|h| - 1]] else []
  }

  ghost predicate RankSorted(h: seq<Event>, rank: Rank) {
    forall i, j :: 0 <= i < j < |h| ==> rank(h[i].txn) <= rank(h[j].txn)
  }

  /** No transaction runs between two events of another. */
  ghost predicate IsSerial(h: seq<Event>) {
    forall i, j, k :: 0 <= i < j < k < |h| && h[i].txn == h[k].txn ==> h[j].txn == h[i].txn
  }

  ghost predicate ConflictsFollow(h: seq<Event>, rank: Rank) {
    forall i, j :: 0 <= i < j < |h| && Conflict(h[i], h[j]) ==> rank(h[i].txn) < rank(h[j].txn)
  }

  ghost predicate Injective(h: seq<Event>, rank: Rank) {
    forall i, j :: 0 <= i < |h| && 0 <= j < |h| && rank(h[i].txn) == rank(h[j].txn) ==> h[i].txn == h[j].txn
  }

  lemma ByTxnOne(h: seq<Event>, e: Event, t: TxnId)
    ensures ByTxn(h + [e], t) == ByTxn(h, t) + if e.txn == t then [e] else []
  {
    assert (h + [e])[..|h + [e]| - 1] == h;
  }

  lemma {:induction false} InsertPermutes(h: seq<Event>, e: Event, rank: Rank)
    ensures multiset(InsertByRank(h, e, rank)) == multiset(h) + multiset{e}
  {
    if h != [] && rank(h[|h| - 1].txn) > rank(e.txn) {
      assert h == h[..|h| - 1] + [h[|h| - 1]];
      InsertPermutes(h[..|h| - 1], e, rank);
    }
  }

  lemma {:induction false} InsertKeepsOrder(h: seq<Event>, e: Event, rank: Rank, t: TxnId)
    ensures ByTxn(InsertByRank(h, e, rank), t) == ByTxn(h, t) + if e.txn == t then [e] else []
  {
    if h == [] || rank(h[|h| - 1].txn) <= rank(e.txn) {
      ByTxnOne(h, e, t);
    } else {
      var g, f := h[..|h| - 1], h[|h| - 1];
      InsertKeepsOrder(g, e, rank, t);
      ByTxnOne(InsertByRank(g, e, rank), f, t);
      assert f.txn != e.txn;
      assert ByTxn(h, t) == ByTxn(g, t) + if f.txn == t then [f] else [];
    }
  }

  lemma {:induction false} InsertSorted(h: seq<Event>, e: Event, rank: Rank)
    requires RankSorted(h, rank)
    ensures RankSorted(InsertByRank(h, e, rank), rank)
    ensures multiset(InsertByRank(h, e, rank)) == multiset(h) + multiset{e}
  {
    InsertPermutes(h, e, rank);
    if h != [] && rank(h[|h| - 1].txn) > rank(e.txn) {
      var g, f := h[..|h| - 1], h[|h| - 1];
      assert h == g + [f];
      InsertSorted(g, e, rank);
      var r := InsertByRank(g, e, rank);
      forall i | 0 <= i < |r| ensures rank(r[i].txn) <= rank(f.txn) {
        InsertMember(g, e, rank, r[i]);
        assert r[i] != e ==> exists k :: 0 <= k < |g| && h[k] == r[i];
      }
      SortedSnoc(r, f, rank);
    }
  }

  lemma InsertMember(h: seq<Event>, e: Event, rank: Rank, x: Event)
    requires x in InsertByRank(h, e, rank)
    ensures x == e || x in h
  {
    InsertPermutes(h, e, rank);
    assert x in multiset(InsertByRank(h, e, rank));
  }

  lemma SortedSnoc(h: seq<Event>, f: Event, rank: Rank)
    requires RankSorted(h, rank) && forall i :: 0 <= i < |h| ==> rank(h[i].txn) <= rank(f.txn)
    ensures RankSorted(h + [f], rank)
  {
  }

  /** Moving e to its place passes only events of higher rank, none of which conflict. */
  lemma {:induction false} InsertSound(s: Store, h: seq<Event>, e: Event, rank: Rank)
    requires Legal(s, h + [e])
    requires forall i :: 0 <= i < |h| && Conflict(h[i], e) ==> rank(h[i].txn) < rank(e.txn)
    ensures Legal(s, InsertByRank(h, e, rank))
    ensures Same(Replay(s, InsertByRank(h, e, rank)), Replay(s, h + [e]))
  {
    if h != [] && rank(h[|h| - 1].txn) > rank(e.txn) {
      var g, f := h[..|h| - 1], h[|h| - 1];
      assert h + [e] == g + [f] + [e];
      SwapTail(s, g, f, e);
      LegalPrefix(s, g + [e] + [f], |g| + 1);
      assert (g + [e] + [f])[..|g| + 1] == g + [e];
      InsertSound(s, g, e, rank);
      LegalSuffix(s, g + [e], InsertByRank(g, e, rank), [f]);
    }
  }

  lemma {:induction false} SerializeKeepsOrder(h: seq<Event>, rank: Rank, t: TxnId)
    ensures multiset(Serialize(h, rank)) == multiset(h)
    ensures ByTxn(Serialize(h, rank), t) == ByTxn(h, t)
  {
    if h != [] {
      assert h == h[..|h| - 1] + [h[|h| - 1]];
      SerializeKeepsOrder(h[..|h| - 1], rank, t);
      InsertKeepsOrder(Serialize(h[..|h| - 1], rank), h[|h| - 1], rank, t);
      InsertPermutes(Serialize(h[..|h| - 1], rank), h[|h| - 1], rank);
    }
  }

  lemma {:induction false} SerializeSorted(h: seq<Event>, rank: Rank)
    ensures RankSorted(Serialize(h, rank), rank)
  {
    if h != [] {
      SerializeSorted(h[..|h| - 1], rank);
      InsertSorted(Serialize(h[..|h| - 1], rank), h[|h| - 1], rank);
    }
  }

  lemma SortedIsSerial(h: seq<Event>, rank: Rank)
    requires RankSorted(h, rank) && Injective(h, rank)
    ensures IsSerial(h)
  {
  }

  lemma {:induction false} SerializeSound(s: Store, h: seq<Event>, rank: Rank)
    requires Legal(s, h) && ConflictsFollow(h, rank)
    ensures Legal(s, Serialize(h, rank)) && Same(Replay(s, Serialize(h, rank)), Replay(s, h))
  {
    if h != [] {
      var g, e := h[..|h| - 1], h[|h| - 1];
      var r := Serialize(g, rank);
      assert h == g + [e];
      LegalPrefix(s, h, |g|);
      SerializeSound(s, g, rank);
      LegalSuffix(s, g, r, [e]);
      forall i | 0 <= i < |r| && Conflict(r[i], e) ensures rank(r[i].txn) < rank(e.txn) {
        SerializeKeepsOrder(g, rank, 0);
        assert r[i] in multiset(r);
        var k :| 0 <= k < |g| && g[k] == r[i];
        assert Conflict(h[k], h[|g|]);
      }
      InsertSound(s, r, e, rank);
    }
  }

  /** Conflict serializability, down to the bytes: a legal history whose conflicts all
      follow one ranking of the transactions can be regrouped so that transactions run
      one after another, each with its own operations in its own order, every read
      sees the same bytes, and the records end up the same. */
  lemma SerialEquivalent(s: Store, h: seq<Event>, rank: Rank)
    requires Legal(s, h) && ConflictsFollow(h, rank) && Injective(h, rank)
    ensures IsSerial(Serialize(h, rank))
    ensures Legal(s, Serialize(h, rank))
    ensures Same(Replay(s, Serialize(h, rank)), Replay(s, h))
    ensures multiset(Serialize(h, rank)) == multiset(h)
    ensures forall t: TxnId :: ByTxn(Serialize(h, rank), t) == ByTxn(h, t)
  {
    var r := Serialize(h, rank);
    SerializeSound(s, h, rank);
    SerializeSorted(h, rank);
    forall t: TxnId ensures ByTxn(r, t) == ByTxn(h, t) && multiset(r) == multiset(h) {
      SerializeKeepsOrder(h, rank, t);
    }
    SerializeKeepsOrder(h, rank, 0);
    forall i, j | 0 <= i < |r| && 0 <= j < |r| && rank(r[i].txn) == rank(r[j].txn) ensures r[i].txn == r[j].txn {
      assert r[i] in multiset(r) && r[j] in multiset(r);
      var a :| 0 <= a < |h| && h[a] == r[i];
      var b :| 0 <= b < |h| && h[b] == r[j];
    }
    SortedIsSerial(r, rank);
  }

  // ---------- the conflict graph ----------

  ghost predicate Precedes(h: seq<Event>, t: TxnId, u: TxnId) {
    exists i, j :: 0 <= i < j < |h| && Conflict(h[i], h[j]) && h[i].txn == t && h[j].txn == u
  }

  /** A path of conflicts through at least one edge. */
  ghost predicate IsPath(h: seq<Event>, p: seq<TxnId>) {
    |p| >= 2 && forall i :: 0 <= i < |p| - 1 ==> Precedes(h, p[i], p[i + 1])
  }

  lemma {:induction false} PathClimbs(h: seq<Event>, p: seq<TxnId>, rank: Rank)
    requires ConflictsFollow(h, rank) && IsPath(h, p)
    ensures rank(p[0]) < rank(p[|p| - 1])
  {
    assert Precedes(h, p[0], p[1]);
    if |p| > 2 {
      forall i | 0 <= i < |p[1..]| - 1 ensures Precedes(h, p[1..][i], p[1..][i + 1]) {
        assert Precedes(h, p[i + 1], p[i + 1 + 1]);
      }
      PathClimbs(h, p[1..], rank);
    }
  }

  /** The conflict graph has no cycle. */
  lemma Acyclic(h: seq<Event>, rank: Rank)
    requires ConflictsFollow(h, rank)
    ensures !exists p: seq<TxnId> :: IsPath(h, p) && p[0] == p[|p| - 1]
  {
    forall p: seq<TxnId> | IsPath(h, p) ensures p[0] != p[|p| - 1] {
      PathClimbs(h, p, rank);
    }
  }
}
