/** A select from the analysed query to its rows: planner and executors together. */
module Queries {
  import opened Common
  import opened Plans
  import opened Planner
  import opened MakeOneRel
  import opened Streams
  import opened Executors

  // ---------- what a completed run delivers ----------

  lemma {:induction false} YieldRange(db: Db, p: Plan, a: Tuple)
    requires JoinsPlaced(p) && a in Yield(db, p)
    ensures InRange(db, a, Tabs(Leaves(p)))
  {
    match p
    case Scan(t, cs) =>
      ScanMember(db, t, cs, 0, a);
      assert Tabs([t]) == {t};
    case Join(l, r, cs) =>
      var ls, rs := Yield(db, l), Yield(db, r);
      JoinMember(db, ls, rs, cs, a);
      var i, j :| 0 <= i < |ls| && 0 <= j < |rs| && a == ls[i] + rs[j];
      YieldRange(db, l, ls[i]);
      YieldRange(db, r, rs[j]);
      SidesDisjoint(l, r);
      RangeMerge(db, ls[i], rs[j], Tabs(Leaves(l)), Tabs(Leaves(r)));
  }

  lemma {:induction false} YieldOnce(db: Db, p: Plan)
    requires JoinsPlaced(p)
    ensures NoDup(Yield(db, p)) && AllOver(Yield(db, p), Tabs(Leaves(p)))
  {
    forall i | 0 <= i < |Yield(db, p)| ensures Yield(db, p)[i].Keys == Tabs(Leaves(p)) {
      YieldRange(db, p, Yield(db, p)[i]);
    }
    match p
    case Scan(t, cs) => ScanNoDup(db, t, cs, 0);
    case Join(l, r, cs) =>
      YieldOnce(db, l);
      YieldOnce(db, r);
      SidesDisjoint(l, r);
      JoinNoDup(db, Yield(db, l), Yield(db, r), cs, Tabs(Leaves(l)), Tabs(Leaves(r)));
  }

  /** The rows come out sorted by the rows of the plan's tables, from left to right. */
  lemma {:induction false} YieldInOrder(db: Db, p: Plan)
    requires JoinsPlaced(p)
    ensures InOrder(Yield(db, p), Leaves(p))
  {
    match p
    case Scan(t, cs) => ScanInOrder(db, t, cs, 0);
    case Join(l, r, cs) =>
      YieldInOrder(db, l);
      YieldInOrder(db, r);
      YieldOnce(db, l);
      YieldOnce(db, r);
      SidesDisjoint(l, r);
      JoinInOrder(db, Yield(db, l), Yield(db, r), cs, Leaves(l), Leaves(r));
  }

  /** On a row that is judged without an error, the verdict is that of the whole tuple. */
  lemma {:induction false} JudgeWhole(db: Db, a: Tuple, t: string, cs: seq<Cond>)
    requires t in a && Judge(db, t, a[t], cs) != Missing
    ensures Judge(db, t, a[t], cs) == Pass <==> AllTrue(db, a, cs)
  {
    if cs != [] {
      assert cs == [cs[0]] + cs[1..];
      AllTrueConcat(db, a, [cs[0]], cs[1..]);
      assert AllTrue(db, a, [cs[0]]) <==> True(db, a, [cs[0]][0]);
      if True(db, map[t := a[t]], cs[0]) {
        JudgeWhole(db, a, t, cs[1..]);
      }
    }
  }

  lemma RestrictHalves(db: Db, a: Tuple, l: Plan, r: Plan)
    requires Tabs(Leaves(l)) + Tabs(Leaves(r)) <= a.Keys && NoDup(Leaves(l) + Leaves(r))
    ensures Restrict(a, Tabs(Leaves(l) + Leaves(r))) == Restrict(a, Tabs(Leaves(l))) + Restrict(a, Tabs(Leaves(r)))
  {
    SidesDisjoint(l, r);
  }

  lemma SpansAgree(db: Db, a: Tuple, l: Plan, r: Plan, cs: seq<Cond>)
    requires Tabs(Leaves(l)) + Tabs(Leaves(r)) <= a.Keys
    requires forall i :: 0 <= i < |cs| ==> Spans(cs[i], l, r)
    ensures AllTrueAcross(db, Restrict(a, Tabs(Leaves(l))), Restrict(a, Tabs(Leaves(r))), cs) <==> AllTrue(db, a, cs)
  {
    var x, y := Restrict(a, Tabs(Leaves(l))), Restrict(a, Tabs(Leaves(r)));
    forall i | 0 <= i < |cs| ensures TrueAcross(db, x, y, cs[i]) <==> True(db, a, cs[i]) {
      assert Spans(cs[i], l, r);
      RestrictedCell(db, a, Leaves(l), cs[i].lhs);
      RestrictedCell(db, a, Leaves(r), cs[i].rhs);
    }
  }

  lemma RestrictedCell(db: Db, a: Tuple, leaves: seq<string>, c: Col)
    requires Tabs(leaves) <= a.Keys && c.tab in leaves
    ensures CellOf(db, Restrict(a, Tabs(leaves)), c) == CellOf(db, a, c)
  {
    assert c.tab in Tabs(leaves);
  }

  /** A join delivers x + y exactly when it pairs x with y. */
  lemma JoinExact(db: Db, l: Plan, r: Plan, cs: seq<Cond>, x: Tuple, y: Tuple)
    requires JoinsPlaced(Join(l, r, cs))
    requires x.Keys == Tabs(Leaves(l)) && y.Keys == Tabs(Leaves(r))
    ensures x + y in Yield(db, Join(l, r, cs)) <==>
      x in Yield(db, l) && y in Yield(db, r) && AllTrueAcross(db, x, y, cs)
  {
    var ls, rs := Yield(db, l), Yield(db, r);
    JoinMember(db, ls, rs, cs, x + y);
    if x + y in Yield(db, Join(l, r, cs)) {
      var i, j :| 0 <= i < |ls| && 0 <= j < |rs| && x + y == ls[i] + rs[j] && AllTrueAcross(db, ls[i], rs[j], cs);
      YieldRange(db, l, ls[i]);
      YieldRange(db, r, rs[j]);
      SidesDisjoint(l, r);
      MergeInjective(x, y, ls[i], rs[j]);
    }
    if x in ls && y in rs && AllTrueAcross(db, x, y, cs) {
      var i :| 0 <= i < |ls| && ls[i] == x;
      var j :| 0 <= j < |rs| && rs[j] == y;
    }
  }

  /** When the run gets to the end, a combination of rows is delivered exactly when it
      meets every condition of the plan, even conditions that sit at a foreign scan. */
  lemma {:induction false} RunMember(db: Db, p: Plan, a: Tuple)
    requires JoinsPlaced(p) && Runs(db, p) && Tabs(Leaves(p)) <= a.Keys && InRange(db, a, a.Keys)
    ensures Restrict(a, Tabs(Leaves(p))) in Yield(db, p) <==> AllTrue(db, a, Conds(p))
  {
    match p
    case Scan(t, cs) =>
      assert Tabs([t]) == {t} && t in Tabs(Leaves(p));
      assert Found(db, t, a[t], cs);
      JudgeWhole(db, a, t, cs);
      JudgeMeans(db, t, a[t], cs);
      assert Restrict(a, {t}) == map[t := a[t]];
      ScanMember(db, t, cs, 0, Restrict(a, {t}));
    case Join(l, r, cs) =>
      SidesDisjoint(l, r);
      RunMember(db, l, a);
      var x, y := Restrict(a, Tabs(Leaves(l))), Restrict(a, Tabs(Leaves(r)));
      AllTrueConcat(db, a, cs + Conds(l), Conds(r));
      AllTrueConcat(db, a, cs, Conds(l));
      RestrictHalves(db, a, l, r);
      JoinExact(db, l, r, cs, x, y);
      SpansAgree(db, a, l, r, cs);
      if Yield(db, l) != [] {
        RunMember(db, r, a);
      }
  }

  /** The tuples a query asks for. */
  lemma Wanted(db: Db, conds: seq<Cond>, tables: seq<string>, a: Tuple)
    requires NoDup(tables)
    ensures a in Filter(db, Cross(db, tables), conds) <==> InRange(db, a, Tabs(tables)) && AllTrue(db, a, conds)
  {
    FilterMember(db, Cross(db, tables), conds, a);
    CrossMember(db, tables, a);
  }

  lemma RunDelivers(db: Db, plan: Plan, a: Tuple)
    requires JoinsPlaced(plan) && Runs(db, plan)
    ensures a in Yield(db, plan) <==> InRange(db, a, Tabs(Leaves(plan))) && AllTrue(db, a, Conds(plan))
  {
    if a in Yield(db, plan) {
      YieldRange(db, plan, a);
    }
    if InRange(db, a, Tabs(Leaves(plan))) {
      assert Restrict(a, Tabs(Leaves(plan))) == a;
      RunMember(db, plan, a);
    }
  }

  lemma RunAnswersOne(db: Db, plan: Plan, conds: seq<Cond>, tables: seq<string>, a: Tuple)
    requires NoDup(tables) && Answers(plan, conds, tables) && Runs(db, plan)
    ensures a in Yield(db, plan) <==> a in Filter(db, Cross(db, tables), conds)
  {
    SameTabs(Leaves(plan), tables);
    Wanted(db, conds, tables, a);
    RunDelivers(db, plan, a);
    SameBag(db, a, conds, Conds(plan));
  }

  lemma SameBag(db: Db, a: Tuple, c: seq<Cond>, d: seq<Cond>)
    requires Bag(c) == Bag(d)
    ensures AllTrue(db, a, c) <==> AllTrue(db, a, d)
  {
    BagMeans(db, a, c);
    BagMeans(db, a, d);
  }

  /** A completed run answers the query, whatever its conditions and the database. */
  lemma RunAnswers(db: Db, plan: Plan, conds: seq<Cond>, tables: seq<string>)
    requires NoDup(tables) && Answers(plan, conds, tables) && Runs(db, plan)
    ensures multiset(Yield(db, plan)) == multiset(Filter(db, Cross(db, tables), conds))
  {
    forall a: Tuple ensures a in Yield(db, plan) <==> a in Filter(db, Cross(db, tables), conds) {
      RunAnswersOne(db, plan, conds, tables, a);
    }
    YieldOnce(db, plan);
    CrossNoDup(db, tables);
    FilterNoDup(db, Cross(db, tables), conds);
    SameMembers(Yield(db, plan), Filter(db, Cross(db, tables), conds));
  }

  /** Without foreign scan conditions a run fails only at a join that has tuples on its
      left and none on its right. */
  lemma {:induction false} PlacedRuns(db: Db, p: Plan)
    requires ScansPlaced(p)
    ensures Runs(db, p) <==> NoEmptyRight(db, p)
  {
    match p
    case Scan(t, cs) =>
      forall i: nat | i < |Rows(db, t)| ensures Found(db, t, i, cs) {
        JudgePlaced(db, t, i, cs);
      }
    case Join(l, r, _) =>
      PlacedRuns(db, l);
      PlacedRuns(db, r);
  }

  ghost predicate NoEmptyRight(db: Db, p: Plan) {
    match p
    case Scan(_, _) => true
    case Join(l, r, _) => NoEmptyRight(db, l) && (Yield(db, l) == [] || (NoEmptyRight(db, r) && Yield(db, r) != []))
  }

  // ---------- queries with an answer ----------

  /** A row that meets all conditions gets past each of them that is about its table. */
  lemma {:induction false} JudgeForeign(db: Db, a: Tuple, t: string, cs: seq<Cond>)
    requires t in a && AllTrue(db, a, cs)
    ensures Judge(db, t, a[t], cs) != Missing ==> forall i :: 0 <= i < |cs| ==> OnTable(cs[i], t)
  {
    if cs != [] {
      assert True(db, a, cs[0]);
      assert forall i :: 0 <= i < |cs[1..]| ==> cs[1..][i] == cs[i + 1];
      JudgeForeign(db, a, t, cs[1..]);
      if Judge(db, t, a[t], cs) != Missing {
        assert OnTable(cs[0], t) && True(db, map[t := a[t]], cs[0]);
        forall i | 0 <= i < |cs| ensures OnTable(cs[i], t) {
          assert i > 0 ==> OnTable(cs[1..][i - 1], t);
        }
      }
    }
  }

  /** With a combination of rows that meets all conditions, every scan is reached. */
  lemma {:induction false} RunPlaces(db: Db, p: Plan, a: Tuple)
    requires JoinsPlaced(p) && Tabs(Leaves(p)) <= a.Keys && InRange(db, a, a.Keys) && AllTrue(db, a, Conds(p))
    ensures Runs(db, p) ==> ScansPlaced(p)
  {
    match p
    case Scan(t, cs) =>
      assert t in Tabs(Leaves(p));
      JudgeForeign(db, a, t, cs);
      assert Runs(db, p) ==> Found(db, t, a[t], cs);
    case Join(l, r, cs) =>
      SidesDisjoint(l, r);
      AllTrueConcat(db, a, cs + Conds(l), Conds(r));
      AllTrueConcat(db, a, cs, Conds(l));
      RunPlaces(db, l, a);
      RunPlaces(db, r, a);
      if Runs(db, p) {
        RunMember(db, l, a);
      }
  }

  lemma {:induction false} PlacedCompletes(db: Db, p: Plan, a: Tuple)
    requires JoinsPlaced(p) && ScansPlaced(p) && Tabs(Leaves(p)) <= a.Keys && InRange(db, a, a.Keys)
    requires AllTrue(db, a, Conds(p))
    ensures NoEmptyRight(db, p)
  {
    match p
    case Scan(t, cs) =>
    case Join(l, r, cs) =>
      SidesDisjoint(l, r);
      AllTrueConcat(db, a, cs + Conds(l), Conds(r));
      AllTrueConcat(db, a, cs, Conds(l));
      PlacedCompletes(db, l, a);
      PlacedCompletes(db, r, a);
      PlacedRuns(db, r);
      RunMember(db, r, a);
  }

  /** A query that has an answer completes exactly when its scans hold only their own
      conditions. */
  lemma AnsweredRuns(db: Db, plan: Plan, conds: seq<Cond>, tables: seq<string>)
    requires NoDup(tables) && Answers(plan, conds, tables) && Filter(db, Cross(db, tables), conds) != []
    ensures Runs(db, plan) <==> ScansPlaced(plan)
  {
    var a := Filter(db, Cross(db, tables), conds)[0];
    Wanted(db, conds, tables, a);
    SameTabs(Leaves(plan), tables);
    SameBag(db, a, conds, Conds(plan));
    RunPlaces(db, plan, a);
    if ScansPlaced(plan) {
      PlacedCompletes(db, plan, a);
      PlacedRuns(db, plan);
    }
  }

  // ---------- queries without join conditions ----------

  ghost predicate AllFilled(db: Db, tables: seq<string>, n: nat)
    requires n <= |tables|
  {
    forall i :: 0 <= i < n ==> Rows(db, tables[i]) != []
  }

  lemma AllRows(db: Db, t: string)
    ensures ScanFrom(db, t, [], 0) != [] <==> Rows(db, t) != []
    ensures Runs(db, Scan(t, []))
  {
    ScanMember(db, t, [], 0, map[t := 0]);
    PlacedRuns(db, Scan(t, []));
  }

  lemma JoinOfFilled(db: Db, ls: seq<Tuple>, rs: seq<Tuple>)
    ensures JoinAll(db, ls, rs, []) != [] <==> ls != [] && rs != []
  {
    if ls != [] && rs != [] {
      JoinMember(db, ls, rs, [], ls[0] + rs[0]);
    }
    if JoinAll(db, ls, rs, []) != [] {
      JoinMember(db, ls, rs, [], JoinAll(db, ls, rs, [])[0]);
    }
  }

  /** A select without conditions gets to the end exactly when it has one table, or its last
      table is empty, or none is: the nested loops start from the last table and ask the
      tables before it for a tuple. */
  lemma {:induction false} CrossRuns(db: Db, tables: seq<string>, n: nat)
    requires 1 <= n <= |tables|
    ensures var p := Crossed([], tables, n);
      && (Runs(db, p) <==> n == 1 || Rows(db, tables[n - 1]) == [] || AllFilled(db, tables, n))
      && (Yield(db, p) != [] <==> AllFilled(db, tables, n))
  {
    CrossedNone(tables, n);
    if n > 1 {
      CrossRuns(db, tables, n - 1);
      CrossStep(db, tables, n, Crossed([], tables, n), Crossed([], tables, n - 1));
    } else {
      AllRows(db, tables[0]);
    }
  }

  lemma CrossStep(db: Db, tables: seq<string>, n: nat, p: Plan, q: Plan)
    requires 1 < n <= |tables| && p == Join(Scan(tables[n - 1], []), q, [])
    requires Yield(db, q) != [] <==> AllFilled(db, tables, n - 1)
    requires Yield(db, q) != [] ==> Runs(db, q)
    ensures Runs(db, p) <==> Rows(db, tables[n - 1]) == [] || AllFilled(db, tables, n)
    ensures Yield(db, p) != [] <==> AllFilled(db, tables, n)
  {
    JoinAbove(db, tables[n - 1], q);
    assert AllFilled(db, tables, n) <==> AllFilled(db, tables, n - 1) && Rows(db, tables[n - 1]) != [];
  }

  lemma CrossedNone(tables: seq<string>, n: nat)
    requires 1 <= n <= |tables|
    ensures var scan := Scan(tables[n - 1], []);
      Crossed([], tables, n) == if n == 1 then scan else Join(scan, Crossed([], tables, n - 1), [])
  {
    NoneLeft(tables, n - 1);
  }

  lemma JoinAbove(db: Db, t: string, p: Plan)
    ensures Runs(db, Join(Scan(t, []), p, [])) <==> Rows(db, t) == [] || (Runs(db, p) && Yield(db, p) != [])
    ensures Yield(db, Join(Scan(t, []), p, [])) != [] <==> Rows(db, t) != [] && Yield(db, p) != []
  {
    AllRows(db, t);
    JoinOfFilled(db, ScanFrom(db, t, [], 0), Yield(db, p));
  }

  lemma {:induction false} NoneLeft(tables: seq<string>, k: nat)
    requires k <= |tables|
    ensures Rest([], tables, k) == []
  {
    if k > 0 {
      NoneLeft(tables, k - 1);
    }
  }

  /** The cross product of a filled and an empty table is empty, but the nested loop asks
      the empty side for a tuple and stops with an error. */
  lemma EmptyRightFails(db: Db, t: string, u: string)
    requires Rows(db, t) != [] && Rows(db, u) == [] && t != u
    ensures Filter(db, Cross(db, [u, t]), []) == [] && !Runs(db, Join(Scan(t, []), Scan(u, []), []))
    ensures Crossed([], [u, t], 2) == Join(Scan(t, []), Scan(u, []), [])
  {
    var from := [u, t];
    CrossRuns(db, from, 2);
    NoneLeft(from, 1);
    assert from[0] == u && Crossed([], from, 1) == Scan(u, []);
    assert Cross(db, from) == [];
  }

  /** A comparison of two columns of the second table is handed to the first table's scan,
      which cannot find the columns: the query fails exactly when the second table has rows,
      whatever is in the first. */
  lemma ForeignConditionFails(db: Db, t: string, u: string, c: Cond)
    requires t != u && SameTable(c) && c.lhs.tab == u
    ensures Rest([c], [t, u], 2) == [] && Crossed([c], [t, u], 2) == Join(Scan(u, []), Scan(t, [c]), [])
    ensures Runs(db, Crossed([c], [t, u], 2)) <==> Rows(db, u) == []
  {
    var from := [t, u];
    assert [c][..0] == [] && Taken([c], t) == [c] && Kept([c], t) == [] && from[0] == t;
    assert Rest([c], from, 1) == [] && Crossed([c], from, 1) == Scan(t, [c]);
    JoinAbove(db, u, Scan(t, [c]));
    if Rows(db, t) != [] {
      assert !Found(db, t, 0, [c]);
    }
  }

  // ---------- running a query ----------

  method MakeExecutor(db: Db, plan: Plan) returns (e: Executor)
    ensures e.Shape() && e.db == db && e.plan == plan && fresh(e.repr)
    decreases plan
  {
    match plan
    case Scan(_, _) =>
      e := new Executor(db, plan, null, null);
    case Join(l, r, _) =>
      var x := MakeExecutor(db, l);
      var y := MakeExecutor(db, r);
      e := new Executor(db, plan, x, y);
  }

  /** The loop that collects a query's tuples; None is an error on the way. */
  method Drain(e: Executor) returns (rows: Option<seq<Tuple>>)
    requires e.Shape()
    modifies e.repr
    ensures rows == if Run(e.db, e.plan).fails then None else Some(Run(e.db, e.plan).tuples)
  {
    ghost var all := Run(e.db, e.plan);
    var got: seq<Tuple> := [];
    var ok := e.BeginTuple();
    if !ok {
      return None;
    }
    var end := e.IsEnd();
    while !end
      invariant e.Ready() && (end <==> e.rest.tuples == []) && (end ==> !e.rest.fails)
      invariant got + e.rest.tuples == all.tuples && e.rest.fails == all.fails
      decreases |e.rest.tuples|
    {
      var a := e.Next();
      Shift(got, e.rest.tuples);
      got := got + [a];
      ok := e.NextTuple();
      if !ok {
        return None;
      }
      end := e.IsEnd();
    }
    assert got == all.tuples;
    return Some(got);
  }

  /** A select returns the filtered cross product of its tables, or an error: never other
      rows. It fails exactly when a scan meets a column that is not its own, or a join
      meets an empty right side. If the answer is not empty, that is so exactly when the
      query compares two columns of one table other than the first. */
  method Select(db: Db, conds: seq<Cond>, tables: seq<string>) returns (rows: Option<seq<Tuple>>, plan: Plan)
    requires tables != [] && Analysed(conds, tables)
    ensures Answers(plan, conds, tables) && (ScansPlaced(plan) <==> SelfOnFirst(conds, tables))
    ensures Rest(conds, tables, |tables|) == [] ==> plan == Crossed(conds, tables, |tables|)
    ensures rows.Some? <==> Runs(db, plan)
    ensures rows.Some? ==> multiset(rows.value) == multiset(Filter(db, Cross(db, tables), conds))
    ensures Filter(db, Cross(db, tables), conds) != [] ==> (rows.Some? <==> SelfOnFirst(conds, tables))
    ensures Groups(plan) == TreeGroups(Crossings(conds), tables)
    ensures rows.Some? ==> InOrder(rows.value, Flat(TreeGroups(Crossings(conds), tables)))
  {
    plan := Build(conds, tables);
    FlatGroups(plan);
    YieldInOrder(db, plan);
    ghost var answered := Filter(db, Cross(db, tables), conds) != [];
    if answered {
      AnsweredRuns(db, plan, conds, tables);
    }
    var e := MakeExecutor(db, plan);
    rows := Drain(e);
    RunIsYield(db, plan);
    if rows.Some? {
      RunAnswers(db, plan, conds, tables);
    }
  }

  /** A select without a WHERE clause. */
  method SelectCross(db: Db, tables: seq<string>) returns (rows: Option<seq<Tuple>>)
    requires tables != [] && NoDup(tables) && "" !in tables
    ensures rows.Some? <==>
      |tables| == 1 || Rows(db, tables[|tables| - 1]) == [] || AllFilled(db, tables, |tables|)
    ensures rows.Some? ==> multiset(rows.value) == multiset(Filter(db, Cross(db, tables), []))
  {
    var plan;
    rows, plan := Select(db, [], tables);
    NoneLeft(tables, |tables|);
    CrossRuns(db, tables, |tables|);
  }

  /** A select from two tables that compares two columns of the second one. */
  method SelectForeign(db: Db, t: string, u: string, c: Cond) returns (rows: Option<seq<Tuple>>)
    requires t != u && t != "" && u != "" && SameTable(c) && c.lhs.tab == u
    ensures rows.Some? <==> Rows(db, u) == []
    ensures rows.Some? ==> rows.value == []
  {
    var plan;
    var from := [t, u];
    rows, plan := Select(db, [c], from);
    ForeignConditionFails(db, t, u, c);
    if rows.Some? {
      NothingToCross(db, t, u);
      assert |multiset(rows.value)| == 0;
    }
  }

  lemma NothingToCross(db: Db, t: string, u: string)
    requires Rows(db, u) == []
    ensures Cross(db, [t, u]) == []
  {
    assert [t, u][1..] == [u] && Cross(db, [u]) == [];
    JoinOfFilled(db, ScanFrom(db, t, [], 0), []);
  }
}
