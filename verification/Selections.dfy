/** What selects of common forms return, row by row and table by table. */
module Selections {
  import opened Common
  import opened Plans
  import opened Planner
  import opened MakeOneRel
  import opened Streams
  import opened Queries

  // ---------- one table, one condition ----------

  /** The value stored in row i of the table under the column. */
  ghost predicate Stores(db: Db, c: Col, i: nat, x: int) {
    c.tab in db && i < |db[c.tab]| && c.name in db[c.tab][i] && db[c.tab][i][c.name] == x
  }

  lemma CellStored(db: Db, a: Tuple, c: Col, x: int)
    requires c.tab in a && Stores(db, c, a[c.tab], x)
    ensures CellOf(db, a, c) == x
  {
  }

  /** A select from one table never fails and returns the rows that meet its conditions, each
      once, in the order of the table. */
  method SelectOne(db: Db, conds: seq<Cond>, t: string) returns (rows: Option<seq<Tuple>>)
    requires Analysed(conds, [t])
    ensures rows.Some?
    ensures forall a :: a in rows.value <==> InRange(db, a, {t}) && AllTrue(db, a, conds)
    ensures NoDup(rows.value) && InOrder(rows.value, [t])
  {
    var from := [t];
    var plan;
    rows, plan := Select(db, conds, from);
    OneGroup(conds, from);
    OneGroupScans(plan);
    PlacedRuns(db, plan);
    FlatGroups(plan);
    assert Tabs(from) == {t};
    forall a ensures a in rows.value <==> InRange(db, a, {t}) && AllTrue(db, a, conds) {
      Asked(db, conds, from, rows.value, a);
    }
    NoDupBag(db, conds, from, rows.value);
  }

  lemma OneGroupScans(p: Plan)
    requires |Groups(p)| == 1
    ensures p.Scan?
  {
    if p.Join? {
      SomeGroup(p.right);
    }
  }

  lemma SomeGroup(p: Plan)
    ensures |Groups(p)| >= 1
  {
  }

  /** select * from t where t.col op val: exactly the rows whose stored value compares so with
      the given one. */
  method SelectWhere(db: Db, col: Col, op: CompOp, val: int) returns (rows: Option<seq<Tuple>>)
    requires col.tab != ""
    ensures rows.Some?
    ensures forall i: nat, x: int :: Stores(db, col, i, x) ==> (map[col.tab := i] in rows.value <==> Meets(op, x, val))
  {
    var c := Cond(col, op, true, Col("", ""), val);
    rows := SelectOne(db, [c], col.tab);
    forall i: nat, x: int | Stores(db, col, i, x) ensures map[col.tab := i] in rows.value <==> Meets(op, x, val) {
      WhereMeans(db, c, i, x);
    }
  }

  lemma WhereMeans(db: Db, c: Cond, i: nat, x: int)
    requires c.isVal && Stores(db, c.lhs, i, x)
    ensures var a: Tuple := map[c.lhs.tab := i];
      InRange(db, a, {c.lhs.tab}) && (AllTrue(db, a, [c]) <==> Meets(c.op, x, c.val))
  {
    var a: Tuple := map[c.lhs.tab := i];
    CellStored(db, a, c.lhs, x);
    CompareMeans(c.op, x, c.val);
    assert AllTrue(db, a, [c]) <==> True(db, a, [c][0]);
  }

  /** The answer of a select, tuple by tuple. */
  lemma Asked(db: Db, conds: seq<Cond>, tables: seq<string>, rows: seq<Tuple>, a: Tuple)
    requires NoDup(tables) && multiset(rows) == multiset(Filter(db, Cross(db, tables), conds))
    ensures a in rows <==> InRange(db, a, Tabs(tables)) && AllTrue(db, a, conds)
  {
    assert a in rows <==> a in multiset(rows);
    assert a in multiset(rows) <==> a in Filter(db, Cross(db, tables), conds);
    Wanted(db, conds, tables, a);
  }

  lemma NoDupBag(db: Db, conds: seq<Cond>, tables: seq<string>, rows: seq<Tuple>)
    requires NoDup(tables) && multiset(rows) == multiset(Filter(db, Cross(db, tables), conds))
    ensures NoDup(rows)
  {
    CrossNoDup(db, tables);
    FilterNoDup(db, Cross(db, tables), conds);
    forall i, j | 0 <= i < j < |rows| ensures Differ(rows, i, j) {
      if rows[i] == rows[j] {
        TwiceCounted(rows, i, j);
        NoDupCount(Filter(db, Cross(db, tables), conds), rows[i]);
      }
    }
  }

  lemma TwiceCounted<T>(s: seq<T>, i: int, j: int)
    requires 0 <= i < j < |s| && s[i] == s[j]
    ensures multiset(s)[s[i]] >= 2
  {
    assert s == s[..j] + [s[j]] + s[j + 1..];
    assert s[i] in s[..j] && s[i] in multiset(s[..j]);
  }

  // ---------- two tables ----------

  /** Row i of the table meets all conditions that are about this table alone. */
  ghost predicate Survives(db: Db, conds: seq<Cond>, t: string, i: nat) {
    i < |Rows(db, t)| && forall c :: c in conds && OnTable(c, t) ==> True(db, map[t := i], c)
  }

  ghost predicate SomeSurvive(db: Db, conds: seq<Cond>, t: string) {
    exists i: nat :: Survives(db, conds, t, i)
  }

  lemma {:induction false} BagMember(cs: seq<Cond>, k: set<Cond>)
    ensures k in Bag(cs) <==> exists c :: c in cs && Kind(c) == k
  {
    if cs != [] {
      var init, c := cs[..|cs| - 1], cs[|cs| - 1];
      BagMember(init, k);
      assert cs == init + [c];
      assert c in cs && forall d :: d in init ==> d in cs;
    }
  }

  /** The same kind of condition: itself or turned round. */
  lemma SameKind(c: Cond, d: Cond)
    requires Kind(c) == Kind(d)
    ensures c.isVal == d.isVal && (d == c || (!c.isVal && d == Flip(c)))
  {
    assert c in Kind(c) && d in Kind(d);
  }

  lemma {:induction false} CrossingsMember(conds: seq<Cond>, c: Cond)
    ensures c in Crossings(conds) <==> c in conds && !c.isVal && c.lhs.tab != c.rhs.tab
  {
    if conds != [] {
      assert conds == conds[..|conds| - 1] + [conds[|conds| - 1]];
      CrossingsMember(conds[..|conds| - 1], c);
    }
  }

  /** With two tables the first join condition says which is left. */
  lemma {:induction false} TwoGroups(joins: seq<Cond>, from: seq<string>)
    requires |from| == 2 && joins != [] && forall c :: c in joins ==> Crossing(c, from)
    ensures CondGroups(joins) == [[joins[0].lhs.tab], [joins[0].rhs.tab]]
    ensures TreeGroups(joins, from) == CondGroups(joins)
  {
    var c, g := joins[|joins| - 1], [[joins[0].lhs.tab], [joins[0].rhs.tab]];
    assert joins[0] in joins && c in joins;
    PairGroups(joins[0], from);
    if |joins| > 1 {
      var init := joins[..|joins| - 1];
      forall d | d in init ensures Crossing(d, from) {
        assert d in joins;
      }
      TwoGroups(init, from);
      assert init[0] == joins[0];
      NextGroupsBy(g, c);
    }
  }

  lemma PairGroups(c: Cond, from: seq<string>)
    requires |from| == 2 && Crossing(c, from)
    ensures var g := [[c.lhs.tab], [c.rhs.tab]];
      RestGroups(g, from, 2) == g && forall t :: t in from ==> t in Flat(g)
  {
    var g := [[c.lhs.tab], [c.rhs.tab]];
    assert g[1..] == [g[1]] && [g[1]][1..] == [];
    assert Flat([g[1]]) == g[1] + [];
    assert Flat(g) == g[0] + g[1];
    assert RestGroups(g, from, 2) == RestGroups(g, from, 1) == RestGroups(g, from, 0);
  }

  lemma TwoScans(plan: Plan, conds: seq<Cond>, from: seq<string>)
    requires |from| == 2 && Analysed(conds, from) && Crossings(conds) != []
    requires Groups(plan) == TreeGroups(Crossings(conds), from)
    ensures plan.Join? && plan.left.Scan? && plan.right.Scan?
    ensures plan.left.tab == Crossings(conds)[0].lhs.tab && plan.right.tab == Crossings(conds)[0].rhs.tab
  {
    var joins := Crossings(conds);
    forall c | c in joins ensures Crossing(c, from) {
      CrossingsMember(conds, c);
    }
    TwoGroups(joins, from);
    assert plan.Join?;
    assert Groups(plan)[0] == Leaves(plan.left) && Groups(plan)[1..] == Groups(plan.right);
    OneGroupScans(plan.right);
    OneLeafScans(plan.left);
    assert Groups(plan.right)[0] == [plan.right.tab];
  }

  lemma OneLeafScans(p: Plan)
    requires |Leaves(p)| == 1
    ensures p.Scan?
  {
    if p.Join? {
      SomeLeaf(p.left);
      SomeLeaf(p.right);
    }
  }

  lemma SomeLeaf(p: Plan)
    ensures |Leaves(p)| >= 1
  {
  }

  /** The scan of a table holds, up to the way round, exactly its own conditions. */
  lemma OwnConditions(plan: Plan, conds: seq<Cond>, x: string, db: Db, i: nat)
    requires plan.Join? && plan.left.Scan? && plan.right.Scan? && plan.left.tab != plan.right.tab
    requires JoinsPlaced(plan) && ScansPlaced(plan) && Bag(Conds(plan)) == Bag(conds)
    requires x == plan.left.tab || x == plan.right.tab
    ensures var cs := if x == plan.left.tab then plan.left.conds else plan.right.conds;
      AllTrue(db, map[x := i], cs) <==> forall c :: c in conds && OnTable(c, x) ==> True(db, map[x := i], c)
  {
    var a: Tuple := map[x := i];
    var cs := if x == plan.left.tab then plan.left.conds else plan.right.conds;
    if AllTrue(db, a, cs) {
      forall c | c in conds && OnTable(c, x) ensures True(db, a, c) {
        OwnInScan(plan, conds, x, c);
        var d :| d in cs && Kind(d) == Kind(c);
        KindMeans(db, a, c);
        KindMeans(db, a, d);
      }
    }
    if forall c :: c in conds && OnTable(c, x) ==> True(db, a, c) {
      forall k | 0 <= k < |cs| ensures True(db, a, cs[k]) {
        var d := cs[k];
        assert d in Conds(plan) && OnTable(d, x);
        BagMember(Conds(plan), Kind(d));
        BagMember(conds, Kind(d));
        var c :| c in conds && Kind(c) == Kind(d);
        SameKind(d, c);
        KindMeans(db, a, c);
        KindMeans(db, a, d);
      }
    }
  }

  lemma OwnInScan(plan: Plan, conds: seq<Cond>, x: string, c: Cond)
    requires plan.Join? && plan.left.Scan? && plan.right.Scan? && plan.left.tab != plan.right.tab
    requires JoinsPlaced(plan) && ScansPlaced(plan) && Bag(Conds(plan)) == Bag(conds)
    requires (x == plan.left.tab || x == plan.right.tab) && c in conds && OnTable(c, x)
    ensures exists d :: d in (if x == plan.left.tab then plan.left.conds else plan.right.conds) && Kind(d) == Kind(c)
  {
    BagMember(conds, Kind(c));
    BagMember(Conds(plan), Kind(c));
    var d :| d in Conds(plan) && Kind(d) == Kind(c);
    SameKind(c, d);
    assert d in plan.left.conds || d in plan.right.conds || d in plan.conds;
    assert d in plan.conds ==> Spans(d, plan.left, plan.right);
    assert d in plan.left.conds ==> OnTable(d, plan.left.tab);
    assert d in plan.right.conds ==> OnTable(d, plan.right.tab);
  }

  lemma ScanSurvives(db: Db, plan: Plan, conds: seq<Cond>, scan: Plan)
    requires plan.Join? && plan.left.Scan? && plan.right.Scan? && plan.left.tab != plan.right.tab
    requires JoinsPlaced(plan) && ScansPlaced(plan) && Bag(Conds(plan)) == Bag(conds)
    requires scan == plan.left || scan == plan.right
    ensures Yield(db, scan) != [] <==> SomeSurvive(db, conds, scan.tab)
  {
    ScanYields(db, scan.tab, scan.conds);
    forall i: nat ensures Passes(db, scan.tab, scan.conds, i) <==> Survives(db, conds, scan.tab, i) {
      OwnConditions(plan, conds, scan.tab, db, i);
    }
  }

  ghost predicate Passes(db: Db, t: string, cs: seq<Cond>, i: nat) {
    i < |Rows(db, t)| && AllTrue(db, map[t := i], cs)
  }

  lemma ScanYields(db: Db, t: string, cs: seq<Cond>)
    ensures ScanFrom(db, t, cs, 0) != [] <==> exists i: nat :: Passes(db, t, cs, i)
  {
    var ys := ScanFrom(db, t, cs, 0);
    if ys != [] {
      ScanMember(db, t, cs, 0, ys[0]);
      assert ys[0] == map[t := ys[0][t]];
      assert Passes(db, t, cs, ys[0][t]);
    }
    if i: nat :| Passes(db, t, cs, i) {
      ScanMember(db, t, cs, 0, map[t := i]);
    }
  }

  /** A select from two tables with a join condition, of the supported shape: it fails exactly
      when the left table of its first join condition has a row that meets the conditions on
      that table alone, and the right one has none. */
  method SelectTwo(db: Db, conds: seq<Cond>, t: string, u: string) returns (rows: Option<seq<Tuple>>)
    requires Analysed(conds, [t, u]) && SelfOnFirst(conds, [t, u]) && Crossings(conds) != []
    ensures var first := Crossings(conds)[0];
      rows.Some? <==> (SomeSurvive(db, conds, first.lhs.tab) ==> SomeSurvive(db, conds, first.rhs.tab))
    ensures rows.Some? ==> forall a :: a in rows.value <==> InRange(db, a, {t, u}) && AllTrue(db, a, conds)
  {
    var from := [t, u];
    var plan;
    rows, plan := Select(db, conds, from);
    TwoRuns(db, plan, conds, from);
    assert Tabs(from) == {t, u};
    if rows.Some? {
      forall a ensures a in rows.value <==> InRange(db, a, {t, u}) && AllTrue(db, a, conds) {
        Asked(db, conds, from, rows.value, a);
      }
    }
  }

  lemma TwoRuns(db: Db, plan: Plan, conds: seq<Cond>, from: seq<string>)
    requires |from| == 2 && Analysed(conds, from) && Crossings(conds) != []
    requires Answers(plan, conds, from) && ScansPlaced(plan) && Groups(plan) == TreeGroups(Crossings(conds), from)
    ensures var first := Crossings(conds)[0];
      Runs(db, plan) <==> (SomeSurvive(db, conds, first.lhs.tab) ==> SomeSurvive(db, conds, first.rhs.tab))
  {
    TwoScans(plan, conds, from);
    CrossingsMember(conds, Crossings(conds)[0]);
    ScanSurvives(db, plan, conds, plan.left);
    ScanSurvives(db, plan, conds, plan.right);
    PlacedRuns(db, plan);
  }

  /** select * from t, u where t.x op u.y: an error exactly when t has rows and u has none,
      and otherwise exactly the pairs whose stored values compare so. */
  method SelectJoin(db: Db, x: Col, op: CompOp, y: Col) returns (rows: Option<seq<Tuple>>)
    requires x.tab != "" && y.tab != "" && x.tab != y.tab
    ensures rows.Some? <==> Rows(db, x.tab) == [] || Rows(db, y.tab) != []
    ensures rows.Some? ==> forall i: nat, j: nat, v: int, w: int :: Stores(db, x, i, v) && Stores(db, y, j, w) ==>
      (map[x.tab := i, y.tab := j] in rows.value <==> Meets(op, v, w))
  {
    var c := Cond(x, op, false, y, 0);
    assert [c][..0] == [] && Crossings([c]) == [c];
    rows := SelectTwo(db, [c], x.tab, y.tab);
    NoOwn(db, c, x.tab);
    NoOwn(db, c, y.tab);
    if rows.Some? {
      forall i: nat, j: nat, v: int, w: int | Stores(db, x, i, v) && Stores(db, y, j, w)
        ensures map[x.tab := i, y.tab := j] in rows.value <==> Meets(op, v, w)
      {
        JoinMeans(db, c, i, j, v, w);
      }
    }
  }

  lemma NoOwn(db: Db, c: Cond, t: string)
    requires !c.isVal && c.lhs.tab != c.rhs.tab
    ensures SomeSurvive(db, [c], t) <==> Rows(db, t) != []
  {
    if Rows(db, t) != [] {
      assert Survives(db, [c], t, 0);
    }
  }

  lemma JoinMeans(db: Db, c: Cond, i: nat, j: nat, v: int, w: int)
    requires !c.isVal && c.lhs.tab != c.rhs.tab && Stores(db, c.lhs, i, v) && Stores(db, c.rhs, j, w)
    ensures var a: Tuple := map[c.lhs.tab := i, c.rhs.tab := j];
      InRange(db, a, {c.lhs.tab, c.rhs.tab}) && (AllTrue(db, a, [c]) <==> Meets(c.op, v, w))
  {
    var a: Tuple := map[c.lhs.tab := i, c.rhs.tab := j];
    CellStored(db, a, c.lhs, v);
    CellStored(db, a, c.rhs, w);
    CompareMeans(c.op, v, w);
    assert AllTrue(db, a, [c]) <==> True(db, a, [c][0]);
  }
}
