/** The planner: WHERE conditions are handed out to table scans and to the joins of a
    tree built condition by condition. */
module Planner {
  import opened Plans

  function SwapOp(op: CompOp): CompOp {
    match op
    case EQ => EQ
    case NE => NE
    case LT => GT
    case GT => LT
    case LE => GE
    case GE => LE
  }

  function Flip(c: Cond): Cond {
    c.(lhs := c.rhs, rhs := c.lhs, op := SwapOp(c.op))
  }

  // ---------- a condition up to which side it is written on ----------

  /** A condition together with its mirror image. */
  function Kind(c: Cond): set<Cond> {
    if c.isVal then {c} else {c, Flip(c)}
  }

  function Bag(cs: seq<Cond>): multiset<set<Cond>> {
    if cs == [] then multiset{} else Bag(cs[..|cs| - 1]) + multiset{Kind(cs[|cs| - 1])}
  }

  lemma FlipKind(c: Cond)
    requires !c.isVal
    ensures Flip(Flip(c)) == c && Kind(Flip(c)) == Kind(c)
  {
  }

  lemma {:induction false} BagConcat(a: seq<Cond>, b: seq<Cond>)
    ensures Bag(a + b) == Bag(a) + Bag(b)
  {
    if b == [] {
      assert a + b == a;
    } else {
      assert (a + b)[..|a + b| - 1] == a + b[..|b| - 1];
      BagConcat(a, b[..|b| - 1]);
    }
  }

  lemma BagOne(c: Cond)
    ensures Bag([c]) == multiset{Kind(c)}
  {
    assert [c][..0] == [];
  }

  ghost predicate KindTrue(db: Db, a: Tuple, k: set<Cond>) {
    forall c :: c in k ==> True(db, a, c)
  }

  lemma KindMeans(db: Db, a: Tuple, c: Cond)
    ensures KindTrue(db, a, Kind(c)) <==> True(db, a, c)
  {
    assert c in Kind(c);
    if !c.isVal && True(db, a, c) {
      assert True(db, a, Flip(c));
    }
  }

  /** The bag of conditions determines what a conjunction means. */
  lemma {:induction false} BagMeans(db: Db, a: Tuple, cs: seq<Cond>)
    ensures AllTrue(db, a, cs) <==> forall k :: k in Bag(cs) ==> KindTrue(db, a, k)
  {
    if cs != [] {
      var init, c := cs[..|cs| - 1], cs[|cs| - 1];
      BagMeans(db, a, init);
      KindMeans(db, a, c);
      assert cs == init + [c];
      AllTrueConcat(db, a, init, [c]);
      assert AllTrue(db, a, [c]) <==> True(db, a, [c][0]);
      assert Kind(c) in Bag(cs);
    }
  }

  // ---------- conditions of one table ----------

  /** pop_conds' test: a value condition on the table, or any condition between two
      columns of the same table, whichever table that is. */
  predicate Takes(c: Cond, tab: string) {
    (tab == c.lhs.tab && c.isVal) || c.lhs.tab == c.rhs.tab
  }

  function Taken(cs: seq<Cond>, tab: string): seq<Cond> {
    if cs == [] then []
    else Taken(cs[..|cs| - 1], tab) + if Takes(cs[|cs| - 1], tab) then [cs[|cs| - 1]] else []
  }

  function Kept(cs: seq<Cond>, tab: string): seq<Cond> {
    if cs == [] then []
    else Kept(cs[..|cs| - 1], tab) + if Takes(cs[|cs| - 1], tab) then [] else [cs[|cs| - 1]]
  }

  lemma {:induction false} TakenMember(cs: seq<Cond>, tab: string, c: Cond)
    ensures c in Taken(cs, tab) <==> c in cs && Takes(c, tab)
    ensures c in Kept(cs, tab) <==> c in cs && !Takes(c, tab)
  {
    if cs != [] {
      assert cs == cs[..|cs| - 1] + [cs[|cs| - 1]];
      TakenMember(cs[..|cs| - 1], tab, c);
    }
  }

  /** Nothing is lost or duplicated between what a scan takes and what it leaves. */
  lemma {:induction false} TakenBag(cs: seq<Cond>, tab: string)
    ensures Bag(Taken(cs, tab)) + Bag(Kept(cs, tab)) == Bag(cs)
  {
    if cs != [] {
      var init, c := cs[..|cs| - 1], cs[|cs| - 1];
      TakenBag(init, tab);
      BagOne(c);
      if Takes(c, tab) {
        BagConcat(Taken(init, tab), [c]);
        assert Kept(cs, tab) == Kept(init, tab);
        Swap(Bag(Taken(init, tab)), multiset{Kind(c)}, Bag(Kept(init, tab)));
      } else {
        BagConcat(Kept(init, tab), [c]);
        assert Taken(cs, tab) == Taken(init, tab);
        Assoc(Bag(Taken(init, tab)), Bag(Kept(init, tab)), multiset{Kind(c)});
      }
    }
  }

  lemma Assoc<T>(a: multiset<T>, b: multiset<T>, c: multiset<T>)
    ensures a + (b + c) == a + b + c
  {
  }

  lemma Swap<T>(a: multiset<T>, b: multiset<T>, c: multiset<T>)
    ensures a + b + c == a + c + b
  {
  }

  /** pop_conds: conditions taken are erased from the vector as the cursor passes. */
  method PopConds(conds: seq<Cond>, tab: string) returns (solved: seq<Cond>, rest: seq<Cond>)
    ensures solved == Taken(conds, tab) && rest == Kept(conds, tab)
  {
    solved, rest := [], conds;
    var it := 0;
    ghost var k := 0;
    while it < |rest|
      invariant 0 <= it <= |rest| && 0 <= k <= |conds|
      invariant rest[..it] == Kept(conds[..k], tab) && rest[it..] == conds[k..]
      invariant solved == Taken(conds[..k], tab)
      decreases |rest| - it
    {
      assert conds[..k + 1][..k] == conds[..k];
      assert rest[it] == conds[k];
      if (tab == rest[it].lhs.tab && rest[it].isVal) || rest[it].lhs.tab == rest[it].rhs.tab {
        solved := solved + [rest[it]];
        rest := rest[..it] + rest[it + 1..];
      } else {
        assert rest[..it + 1] == rest[..it] + [rest[it]];
        it := it + 1;
      }
      k := k + 1;
    }
    assert conds[..k] == conds && rest[..it] == rest;
  }

  // ---------- pushing a condition down the join tree ----------

  /** push_conds: 0, 1 or 2 for no column, the left or the right column found below;
      3 once the condition sits at the lowest join that has both. */
  function Push(c: Cond, p: Plan): (int, Plan) {
    match p
    case Scan(t, _) => (if t == c.lhs.tab then 1 else if t == c.rhs.tab then 2 else 0, p)
    case Join(l, r, cs) =>
      var (lc, l') := Push(c, l);
      if lc == 3 then (3, Join(l', r, cs)) else
      var (rc, r') := Push(c, r);
      if rc == 3 then (3, Join(l, r', cs))
      else if lc == 0 || rc == 0 then (lc + rc, p)
      else (3, Join(l, r, cs + [if lc == 2 then Flip(c) else c]))
  }

  function PushCode(c: Cond, ts: seq<string>): int {
    if c.lhs.tab in ts && c.rhs.tab in ts then 3 else if c.lhs.tab in ts then 1 else if c.rhs.tab in ts then 2 else 0
  }

  /** What push_conds promises for c below p. */
  ghost predicate Pushed(c: Cond, p: Plan, code: int, q: Plan) {
    && code == PushCode(c, Leaves(p))
    && JoinsPlaced(q) && Leaves(q) == Leaves(p) && (ScansPlaced(q) <==> ScansPlaced(p))
    && (if code == 3 then Bag(Conds(q)) == Bag(Conds(p)) + multiset{Kind(c)} else q == p)
  }

  lemma LeftBag(c: Cond, l: Plan, r: Plan, cs: seq<Cond>, l': Plan)
    requires Bag(Conds(l')) == Bag(Conds(l)) + multiset{Kind(c)}
    ensures Bag(Conds(Join(l', r, cs))) == Bag(Conds(Join(l, r, cs))) + multiset{Kind(c)}
  {
    JoinBag(l, r, cs);
    JoinBag(l', r, cs);
    Assoc(Bag(cs), Bag(Conds(l)), multiset{Kind(c)});
    Swap(Bag(cs) + Bag(Conds(l)), multiset{Kind(c)}, Bag(Conds(r)));
  }

  lemma RightBag(c: Cond, l: Plan, r: Plan, cs: seq<Cond>, r': Plan)
    requires Bag(Conds(r')) == Bag(Conds(r)) + multiset{Kind(c)}
    ensures Bag(Conds(Join(l, r', cs))) == Bag(Conds(Join(l, r, cs))) + multiset{Kind(c)}
  {
    JoinBag(l, r, cs);
    JoinBag(l, r', cs);
    Assoc(Bag(cs) + Bag(Conds(l)), Bag(Conds(r)), multiset{Kind(c)});
  }

  lemma PushedLeft(c: Cond, l: Plan, r: Plan, cs: seq<Cond>, l': Plan)
    requires JoinsPlaced(Join(l, r, cs)) && Pushed(c, l, 3, l')
    ensures Pushed(c, Join(l, r, cs), 3, Join(l', r, cs))
  {
    LeftBag(c, l, r, cs, l');
    forall i | 0 <= i < |cs| ensures Spans(cs[i], l', r) {
      assert Spans(cs[i], l, r);
    }
  }

  lemma PushedRight(c: Cond, l: Plan, r: Plan, cs: seq<Cond>, r': Plan)
    requires JoinsPlaced(Join(l, r, cs)) && Pushed(c, r, 3, r')
    ensures Pushed(c, Join(l, r, cs), 3, Join(l, r', cs))
  {
    RightBag(c, l, r, cs, r');
    forall i | 0 <= i < |cs| ensures Spans(cs[i], l, r') {
      assert Spans(cs[i], l, r);
    }
  }

  lemma PushedHere(c: Cond, l: Plan, r: Plan, cs: seq<Cond>, d: Cond)
    requires JoinsPlaced(Join(l, r, cs)) && Spans(d, l, r) && !c.isVal && (d == c || d == Flip(c))
    ensures Pushed(c, Join(l, r, cs), 3, Join(l, r, cs + [d]))
  {
    FlipKind(c);
    AttachBag(l, r, cs, d);
    AttachPlaced(l, r, cs, d);
  }

  lemma AttachPlaced(l: Plan, r: Plan, cs: seq<Cond>, d: Cond)
    requires JoinsPlaced(Join(l, r, cs)) && Spans(d, l, r)
    ensures JoinsPlaced(Join(l, r, cs + [d]))
  {
    forall i | 0 <= i < |cs + [d]| ensures Spans((cs + [d])[i], l, r) {
      assert i < |cs| ==> Spans(cs[i], l, r);
    }
  }

  lemma AttachBag(l: Plan, r: Plan, cs: seq<Cond>, d: Cond)
    ensures Bag(Conds(Join(l, r, cs + [d]))) == Bag(Conds(Join(l, r, cs))) + multiset{Kind(d)}
  {
    BagOne(d);
    BagConcat(cs, [d]);
    JoinBag(l, r, cs);
    JoinBag(l, r, cs + [d]);
    Swap(Bag(cs), multiset{Kind(d)}, Bag(Conds(l)));
    Swap(Bag(cs) + Bag(Conds(l)), multiset{Kind(d)}, Bag(Conds(r)));
  }

  /** Pushing a condition between two joined tables keeps every table in place and adds
      the condition, turned the right way round, at exactly one node. */
  lemma {:induction false} PushPlaces(c: Cond, p: Plan)
    requires JoinsPlaced(p) && !c.isVal && c.lhs.tab != c.rhs.tab
    ensures Pushed(c, p, Push(c, p).0, Push(c, p).1)
  {
    match p
    case Scan(t, _) =>
    case Join(l, r, cs) =>
      PushPlaces(c, l);
      PushPlaces(c, r);
      NoDupHalves(Leaves(l), Leaves(r));
      var (lc, l') := Push(c, l);
      var (rc, r') := Push(c, r);
      if lc == 3 {
        PushedLeft(c, l, r, cs, l');
      } else if rc == 3 {
        PushedRight(c, l, r, cs, r');
      } else if lc != 0 && rc != 0 {
        PushedHere(c, l, r, cs, if lc == 2 then Flip(c) else c);
      }
  }

  lemma JoinBag(l: Plan, r: Plan, cs: seq<Cond>)
    ensures Bag(Conds(Join(l, r, cs))) == Bag(cs) + Bag(Conds(l)) + Bag(Conds(r))
  {
    BagConcat(cs + Conds(l), Conds(r));
    BagConcat(cs, Conds(l));
  }
}
