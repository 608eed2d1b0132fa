/** Select-join plans: conditions, the rows a plan yields, and why a plan whose
    conditions sit where they can be evaluated yields exactly the filtered cross
    product. Cell values are compared by one total order, so integers stand for them. */
module Plans {
  datatype Col = Col(tab: string, name: string)

  datatype CompOp = EQ | NE | LT | GT | LE | GE

  // A condition against a value leaves rhs empty, as the analyser does.
  datatype Cond = Cond(lhs: Col, op: CompOp, isVal: bool, rhs: Col, val: int)

  type Row = map<string, int>

  type Db = map<string, seq<Row>>

  // A result tuple, as which row of each table it comes from.
  type Tuple = map<string, nat>

  datatype Plan =
    | Scan(tab: string, conds: seq<Cond>)
    | Join(left: Plan, right: Plan, conds: seq<Cond>)

  function Rows(db: Db, t: string): seq<Row> {
    if t in db then db[t] else []
  }

  function CellOf(db: Db, a: Tuple, c: Col): int {
    if c.tab in a && a[c.tab] < |Rows(db, c.tab)| && c.name in Rows(db, c.tab)[a[c.tab]]
    then Rows(db, c.tab)[a[c.tab]][c.name] else 0
  }

  function Compare(op: CompOp, x: int, y: int): bool {
    match op
    case EQ => x == y
    case NE => x != y
    case LT => x < y
    case GT => x > y
    case LE => x <= y
    case GE => x >= y
  }

  /** The six operators: of two values exactly one is smaller or they are the same; each
      operator holds of some of these three cases. */
  predicate Meets(op: CompOp, x: int, y: int) {
    || (x < y && op in {LT, LE, NE})
    || (x == y && op in {EQ, LE, GE})
    || (x > y && op in {GT, GE, NE})
  }

  lemma CompareMeans(op: CompOp, x: int, y: int)
    ensures Compare(op, x, y) <==> Meets(op, x, y)
  {
  }

  /** The laws a comparison is expected to keep. */
  lemma OperatorLaws(x: int, y: int, z: int)
    ensures Compare(EQ, x, y) <==> x == y
    ensures Compare(LT, x, y) ==> !Compare(EQ, x, y) && !Compare(GT, x, y)
    ensures Compare(GT, x, y) ==> !Compare(EQ, x, y)
    ensures Compare(LT, x, y) || Compare(EQ, x, y) || Compare(GT, x, y)
    ensures Compare(LT, x, y) && Compare(LT, y, z) ==> Compare(LT, x, z)
    ensures Compare(GT, x, y) <==> Compare(LT, y, x)
    ensures Compare(NE, x, y) <==> !Compare(EQ, x, y)
    ensures Compare(LE, x, y) <==> Compare(LT, x, y) || Compare(EQ, x, y)
    ensures Compare(GE, x, y) <==> Compare(GT, x, y) || Compare(EQ, x, y)
  {
  }

  /** A condition on a whole tuple. */
  predicate True(db: Db, a: Tuple, c: Cond) {
    Compare(c.op, CellOf(db, a, c.lhs), if c.isVal then c.val else CellOf(db, a, c.rhs))
  }

  predicate AllTrue(db: Db, a: Tuple, cs: seq<Cond>) {
    forall i :: 0 <= i < |cs| ==> True(db, a, cs[i])
  }

  /** The join executor's test: the left column is read from the left tuple, the right
      column from the right one. */
  predicate TrueAcross(db: Db, l: Tuple, r: Tuple, c: Cond) {
    Compare(c.op, CellOf(db, l, c.lhs), if c.isVal then c.val else CellOf(db, r, c.rhs))
  }

  predicate AllTrueAcross(db: Db, l: Tuple, r: Tuple, cs: seq<Cond>) {
    forall i :: 0 <= i < |cs| ==> TrueAcross(db, l, r, cs[i])
  }

  // ---------- what a plan yields ----------

  /** Rows of t from index i on that satisfy the scan's conditions. */
  function ScanFrom(db: Db, t: string, cs: seq<Cond>, i: nat): seq<Tuple>
    decreases |Rows(db, t)| - i
  {
    if i >= |Rows(db, t)| then []
    else (if AllTrue(db, map[t := i], cs) then [map[t := i]] else []) + ScanFrom(db, t, cs, i + 1)
  }

  function Pairs(db: Db, l: Tuple, rs: seq<Tuple>, cs: seq<Cond>): seq<Tuple> {
    if rs == [] then [] else (if AllTrueAcross(db, l, rs[0], cs) then [l + rs[0]] else []) + Pairs(db, l, rs[1..], cs)
  }

  function JoinAll(db: Db, ls: seq<Tuple>, rs: seq<Tuple>, cs: seq<Cond>): seq<Tuple> {
    if ls == [] then [] else Pairs(db, ls[0], rs, cs) + JoinAll(db, ls[1..], rs, cs)
  }

  /** The tuples of a plan, in the order the executors produce them. */
  function Yield(db: Db, p: Plan): seq<Tuple> {
    match p
    case Scan(t, cs) => ScanFrom(db, t, cs, 0)
    case Join(l, r, cs) => JoinAll(db, Yield(db, l), Yield(db, r), cs)
  }

  /** The cross product of the FROM list. */
  function Cross(db: Db, ts: seq<string>): seq<Tuple> {
    if ts == [] then [map[]] else JoinAll(db, ScanFrom(db, ts[0], [], 0), Cross(db, ts[1..]), [])
  }

  function Filter(db: Db, s: seq<Tuple>, cs: seq<Cond>): seq<Tuple> {
    if s == [] then [] else (if AllTrue(db, s[0], cs) then [s[0]] else []) + Filter(db, s[1..], cs)
  }

  // ---------- where things are in a plan ----------

  function Leaves(p: Plan): seq<string> {
    match p
    case Scan(t, _) => [t]
    case Join(l, r, _) => Leaves(l) + Leaves(r)
  }

  function Conds(p: Plan): seq<Cond> {
    match p
    case Scan(_, cs) => cs
    case Join(l, r, cs) => cs + Conds(l) + Conds(r)
  }

  ghost predicate NoDup<T>(s: seq<T>) {
    forall i, j {:trigger Differ(s, i, j)} :: 0 <= i < j < |s| ==> Differ(s, i, j)
  }

  ghost predicate Differ<T>(s: seq<T>, i: int, j: int)
    requires 0 <= i < j < |s|
  {
    s[i] != s[j]
  }

  lemma NoDupTail<T>(s: seq<T>)
    requires NoDup(s) && s != []
    ensures NoDup(s[1..]) && s[0] !in s[1..]
  {
    var t := s[1..];
    forall i, j | 0 <= i < j < |t| ensures Differ(t, i, j) {
      assert Differ(s, i + 1, j + 1);
    }
    forall j | 0 <= j < |t| ensures t[j] != s[0] {
      assert Differ(s, 0, j + 1);
    }
  }

  lemma NoDupHalves<T>(a: seq<T>, b: seq<T>)
    requires NoDup(a + b)
    ensures NoDup(a) && NoDup(b) && forall x :: x in a ==> x !in b
  {
    var s := a + b;
    forall i, j | 0 <= i < j < |a| ensures Differ(a, i, j) {
      assert Differ(s, i, j);
    }
    forall i, j | 0 <= i < j < |b| ensures Differ(b, i, j) {
      assert Differ(s, |a| + i, |a| + j);
    }
    forall i, j | 0 <= i < |a| && 0 <= j < |b| ensures a[i] != b[j] {
      assert Differ(s, i, |a| + j);
    }
  }

  predicate OnTable(c: Cond, t: string) {
    c.lhs.tab == t && (c.isVal || c.rhs.tab == t)
  }

  predicate Spans(c: Cond, l: Plan, r: Plan) {
    !c.isVal && c.lhs.tab in Leaves(l) && c.rhs.tab in Leaves(r)
  }

  /** Every join condition has its left column on the left and its right one on the
      right, and no table is joined twice. */
  ghost predicate JoinsPlaced(p: Plan) {
    match p
    case Scan(_, _) => true
    case Join(l, r, cs) =>
      && JoinsPlaced(l) && JoinsPlaced(r) && NoDup(Leaves(p))
      && forall i :: 0 <= i < |cs| ==> Spans(cs[i], l, r)
  }

  /** Every scan condition is about the scanned table. */
  ghost predicate ScansPlaced(p: Plan) {
    match p
    case Scan(t, cs) => forall i :: 0 <= i < |cs| ==> OnTable(cs[i], t)
    case Join(l, r, _) => ScansPlaced(l) && ScansPlaced(r)
  }

  // ---------- membership ----------

  ghost predicate InRange(db: Db, a: Tuple, ts: set<string>) {
    a.Keys == ts && forall t :: t in ts ==> a[t] < |Rows(db, t)|
  }

  function Tabs(ts: seq<string>): set<string> {
    set t | t in ts
  }

  function Restrict(a: Tuple, ts: set<string>): Tuple {
    map t | t in a && t in ts :: a[t]
  }

  lemma {:induction false} ScanMember(db: Db, t: string, cs: seq<Cond>, i: nat, a: Tuple)
    ensures a in ScanFrom(db, t, cs, i) <==>
      InRange(db, a, {t}) && t in a && a[t] >= i && AllTrue(db, a, cs)
    decreases |Rows(db, t)| - i
  {
    if i < |Rows(db, t)| {
      ScanMember(db, t, cs, i + 1, a);
      if InRange(db, a, {t}) && a[t] == i {
        assert a == map[t := i];
      }
    }
  }

  lemma {:induction false} PairsMember(db: Db, l: Tuple, rs: seq<Tuple>, cs: seq<Cond>, a: Tuple)
    ensures a in Pairs(db, l, rs, cs) <==>
      exists j :: 0 <= j < |rs| && a == l + rs[j] && AllTrueAcross(db, l, rs[j], cs)
  {
    if rs != [] {
      PairsMember(db, l, rs[1..], cs, a);
      if a in Pairs(db, l, rs[1..], cs) {
        var j :| 0 <= j < |rs[1..]| && a == l + rs[1..][j] && AllTrueAcross(db, l, rs[1..][j], cs);
        assert rs[j + 1] == rs[1..][j];
      }
      if j :| 0 <= j < |rs| && a == l + rs[j] && AllTrueAcross(db, l, rs[j], cs) {
        assert j > 0 ==> rs[1..][j - 1] == rs[j];
      }
    }
  }

  lemma {:induction false} JoinMember(db: Db, ls: seq<Tuple>, rs: seq<Tuple>, cs: seq<Cond>, a: Tuple)
    ensures a in JoinAll(db, ls, rs, cs) <==>
      exists i, j :: 0 <= i < |ls| && 0 <= j < |rs| && a == ls[i] + rs[j] && AllTrueAcross(db, ls[i], rs[j], cs)
  {
    if ls != [] {
      JoinMember(db, ls[1..], rs, cs, a);
      PairsMember(db, ls[0], rs, cs, a);
      if a in JoinAll(db, ls[1..], rs, cs) {
        var i, j :| 0 <= i < |ls[1..]| && 0 <= j < |rs| && a == ls[1..][i] + rs[j]
                 && AllTrueAcross(db, ls[1..][i], rs[j], cs);
        assert ls[i + 1] == ls[1..][i];
      }
      if i, j :| 0 <= i < |ls| && 0 <= j < |rs| && a == ls[i] + rs[j] && AllTrueAcross(db, ls[i], rs[j], cs) {
        if i > 0 {
          assert ls[1..][i - 1] == ls[i];
        }
      }
    }
  }

  lemma {:induction false} FilterMember(db: Db, s: seq<Tuple>, cs: seq<Cond>, a: Tuple)
    ensures a in Filter(db, s, cs) <==> a in s && AllTrue(db, a, cs)
  {
    if s != [] {
      FilterMember(db, s[1..], cs, a);
    }
  }

  // ---------- a placed plan yields what its conditions say ----------

  lemma {:induction false} CondsOver(p: Plan)
    requires JoinsPlaced(p) && ScansPlaced(p)
    ensures forall i :: 0 <= i < |Conds(p)| ==> Over(Conds(p)[i], Leaves(p))
  {
    match p
    case Scan(_, _) =>
    case Join(l, r, cs) =>
      CondsOver(l);
      CondsOver(r);
      var n, m := |cs|, |cs| + |Conds(l)|;
      forall i | 0 <= i < |Conds(p)| ensures Over(Conds(p)[i], Leaves(p)) {
        if i < n {
          assert Conds(p)[i] == cs[i] && Spans(cs[i], l, r);
        } else if i < m {
          assert Conds(p)[i] == Conds(l)[i - n];
        } else {
          assert Conds(p)[i] == Conds(r)[i - m];
        }
      }
  }

  predicate Over(c: Cond, ts: seq<string>) {
    c.lhs.tab in ts && (c.isVal || c.rhs.tab in ts)
  }

  lemma TrueAgrees(db: Db, a: Tuple, b: Tuple, cs: seq<Cond>, ts: seq<string>)
    requires forall i :: 0 <= i < |cs| ==> Over(cs[i], ts)
    requires forall t :: t in ts ==> t in a && t in b && a[t] == b[t]
    ensures AllTrue(db, a, cs) <==> AllTrue(db, b, cs)
  {
    forall i | 0 <= i < |cs| ensures True(db, a, cs[i]) <==> True(db, b, cs[i]) {
      assert Over(cs[i], ts);
    }
  }

  /** A tuple over both sides of a join, taken apart. */
  lemma JoinSplits(db: Db, l: Plan, r: Plan, cs: seq<Cond>, x: Tuple, y: Tuple)
    requires JoinsPlaced(Join(l, r, cs)) && ScansPlaced(Join(l, r, cs))
    requires x.Keys == Tabs(Leaves(l)) && y.Keys == Tabs(Leaves(r))
    ensures Tabs(Leaves(Join(l, r, cs))) == x.Keys + y.Keys && x.Keys !! y.Keys
    ensures AllTrue(db, x + y, Conds(Join(l, r, cs))) <==>
      AllTrueAcross(db, x, y, cs) && AllTrue(db, x, Conds(l)) && AllTrue(db, y, Conds(r))
  {
    SidesDisjoint(l, r);
    var a := x + y;
    CondsOver(l);
    CondsOver(r);
    TrueAgrees(db, a, x, Conds(l), Leaves(l));
    TrueAgrees(db, a, y, Conds(r), Leaves(r));
    forall i | 0 <= i < |cs| ensures True(db, a, cs[i]) <==> TrueAcross(db, x, y, cs[i]) {
      assert Spans(cs[i], l, r);
    }
    AllTrueConcat(db, a, cs + Conds(l), Conds(r));
    AllTrueConcat(db, a, cs, Conds(l));
    assert AllTrue(db, a, cs) <==> AllTrueAcross(db, x, y, cs);
  }

  lemma AllTrueConcat(db: Db, a: Tuple, c: seq<Cond>, d: seq<Cond>)
    ensures AllTrue(db, a, c + d) <==> AllTrue(db, a, c) && AllTrue(db, a, d)
  {
    if AllTrue(db, a, c + d) {
      assert forall i :: 0 <= i < |c| ==> (c + d)[i] == c[i];
      assert forall i :: 0 <= i < |d| ==> (c + d)[|c| + i] == d[i];
    }
  }

  lemma SidesDisjoint(l: Plan, r: Plan)
    requires NoDup(Leaves(l) + Leaves(r))
    ensures Tabs(Leaves(l)) !! Tabs(Leaves(r)) && Tabs(Leaves(l) + Leaves(r)) == Tabs(Leaves(l)) + Tabs(Leaves(r))
  {
    NoDupHalves(Leaves(l), Leaves(r));
  }

  /** Tuples over two disjoint sets of tables, put together and taken apart. */
  lemma RangeMerge(db: Db, x: Tuple, y: Tuple, js: set<string>, ks: set<string>)
    requires js !! ks && InRange(db, x, js) && InRange(db, y, ks)
    ensures InRange(db, x + y, js + ks)
  {
  }

  lemma RangeSplit(db: Db, a: Tuple, js: set<string>, ks: set<string>)
    requires js !! ks && InRange(db, a, js + ks)
    ensures InRange(db, Restrict(a, js), js) && InRange(db, Restrict(a, ks), ks)
    ensures a == Restrict(a, js) + Restrict(a, ks)
  {
  }

  lemma JoinYieldsOnly(db: Db, l: Plan, r: Plan, cs: seq<Cond>, x: Tuple, y: Tuple)
    requires var p := Join(l, r, cs); JoinsPlaced(p) && ScansPlaced(p)
    requires InRange(db, x, Tabs(Leaves(l))) && AllTrue(db, x, Conds(l))
    requires InRange(db, y, Tabs(Leaves(r))) && AllTrue(db, y, Conds(r)) && AllTrueAcross(db, x, y, cs)
    ensures var p := Join(l, r, cs); InRange(db, x + y, Tabs(Leaves(p))) && AllTrue(db, x + y, Conds(p))
  {
    JoinSplits(db, l, r, cs, x, y);
    RangeMerge(db, x, y, Tabs(Leaves(l)), Tabs(Leaves(r)));
  }

  lemma JoinYieldsAll(db: Db, l: Plan, r: Plan, cs: seq<Cond>, a: Tuple) returns (x: Tuple, y: Tuple)
    requires var p := Join(l, r, cs);
      JoinsPlaced(p) && ScansPlaced(p) && InRange(db, a, Tabs(Leaves(p))) && AllTrue(db, a, Conds(p))
    ensures a == x + y && AllTrueAcross(db, x, y, cs)
    ensures InRange(db, x, Tabs(Leaves(l))) && AllTrue(db, x, Conds(l))
    ensures InRange(db, y, Tabs(Leaves(r))) && AllTrue(db, y, Conds(r))
  {
    SidesDisjoint(l, r);
    RangeSplit(db, a, Tabs(Leaves(l)), Tabs(Leaves(r)));
    x, y := Restrict(a, Tabs(Leaves(l))), Restrict(a, Tabs(Leaves(r)));
    JoinSplits(db, l, r, cs, x, y);
  }

  /** A plan whose conditions are all placed yields exactly the tuples over its tables
      that satisfy all its conditions. */
  lemma {:induction false} YieldMember(db: Db, p: Plan, a: Tuple)
    requires JoinsPlaced(p) && ScansPlaced(p)
    ensures a in Yield(db, p) <==> InRange(db, a, Tabs(Leaves(p))) && AllTrue(db, a, Conds(p))
  {
    match p
    case Scan(t, cs) =>
      assert Tabs([t]) == {t};
      ScanMember(db, t, cs, 0, a);
    case Join(l, r, cs) =>
      var ls, rs := Yield(db, l), Yield(db, r);
      JoinMember(db, ls, rs, cs, a);
      if a in Yield(db, p) {
        var i, j :| 0 <= i < |ls| && 0 <= j < |rs| && a == ls[i] + rs[j] && AllTrueAcross(db, ls[i], rs[j], cs);
        YieldMember(db, l, ls[i]);
        YieldMember(db, r, rs[j]);
        JoinYieldsOnly(db, l, r, cs, ls[i], rs[j]);
      }
      if InRange(db, a, Tabs(Leaves(p))) && AllTrue(db, a, Conds(p)) {
        var x, y := JoinYieldsAll(db, l, r, cs, a);
        YieldMember(db, l, x);
        YieldMember(db, r, y);
        var i :| 0 <= i < |ls| && ls[i] == x;
        var j :| 0 <= j < |rs| && rs[j] == y;
      }
  }

  lemma {:induction false} CrossYieldsOnly(db: Db, ts: seq<string>, a: Tuple)
    requires NoDup(ts) && a in Cross(db, ts)
    ensures InRange(db, a, Tabs(ts))
  {
    if ts != [] {
      var ls, rs := ScanFrom(db, ts[0], [], 0), Cross(db, ts[1..]);
      JoinMember(db, ls, rs, [], a);
      HeadApart(ts);
      var i, j :| 0 <= i < |ls| && 0 <= j < |rs| && a == ls[i] + rs[j];
      ScanMember(db, ts[0], [], 0, ls[i]);
      CrossYieldsOnly(db, ts[1..], rs[j]);
      RangeMerge(db, ls[i], rs[j], {ts[0]}, Tabs(ts[1..]));
    }
  }

  lemma {:induction false} CrossYieldsAll(db: Db, ts: seq<string>, a: Tuple)
    requires NoDup(ts) && InRange(db, a, Tabs(ts))
    ensures a in Cross(db, ts)
  {
    if ts == [] {
      assert a == map[];
    } else {
      var ls, rs := ScanFrom(db, ts[0], [], 0), Cross(db, ts[1..]);
      HeadApart(ts);
      RangeSplit(db, a, {ts[0]}, Tabs(ts[1..]));
      var x, y := Restrict(a, {ts[0]}), Restrict(a, Tabs(ts[1..]));
      ScanMember(db, ts[0], [], 0, x);
      CrossYieldsAll(db, ts[1..], y);
      var i :| 0 <= i < |ls| && ls[i] == x;
      var j :| 0 <= j < |rs| && rs[j] == y;
      assert AllTrueAcross(db, ls[i], rs[j], []);
      JoinMember(db, ls, rs, [], a);
    }
  }

  lemma CrossMember(db: Db, ts: seq<string>, a: Tuple)
    requires NoDup(ts)
    ensures a in Cross(db, ts) <==> InRange(db, a, Tabs(ts))
  {
    if a in Cross(db, ts) {
      CrossYieldsOnly(db, ts, a);
    }
    if InRange(db, a, Tabs(ts)) {
      CrossYieldsAll(db, ts, a);
    }
  }

  lemma HeadApart(ts: seq<string>)
    requires NoDup(ts) && ts != []
    ensures {ts[0]} !! Tabs(ts[1..]) && Tabs(ts) == {ts[0]} + Tabs(ts[1..]) && NoDup(ts[1..])
  {
    assert ts == [ts[0]] + ts[1..];
    NoDupTail(ts);
  }

  // ---------- nothing is yielded twice ----------

  lemma NoDupConcat<T>(s: seq<T>, t: seq<T>)
    requires NoDup(s) && NoDup(t) && forall x :: x in s ==> x !in t
    ensures NoDup(s + t)
  {
    var u := s + t;
    forall i, j | 0 <= i < j < |u| ensures Differ(u, i, j) {
      if j < |s| {
        assert Differ(s, i, j);
      } else if i >= |s| {
        assert Differ(t, i - |s|, j - |s|);
      } else {
        assert s[i] in s && t[j - |s|] in t;
      }
    }
  }

  lemma {:induction false} ScanNoDup(db: Db, t: string, cs: seq<Cond>, i: nat)
    ensures NoDup(ScanFrom(db, t, cs, i))
    decreases |Rows(db, t)| - i
  {
    if i < |Rows(db, t)| {
      ScanNoDup(db, t, cs, i + 1);
      ScanMember(db, t, cs, i + 1, map[t := i]);
      NoDupConcat<Tuple>(if AllTrue(db, map[t := i], cs) then [map[t := i]] else [], ScanFrom(db, t, cs, i + 1));
    }
  }

  ghost predicate AllOver(s: seq<Tuple>, ks: set<string>) {
    forall i :: 0 <= i < |s| ==> s[i].Keys == ks
  }

  lemma MergeInjective(l: Tuple, r: Tuple, l': Tuple, r': Tuple)
    requires l.Keys == l'.Keys && r.Keys == r'.Keys && l.Keys !! r.Keys && l + r == l' + r'
    ensures l == l' && r == r'
  {
    assert l == Restrict(l + r, l.Keys) && l' == Restrict(l' + r', l.Keys);
    assert r == Restrict(l + r, r.Keys) && r' == Restrict(l' + r', r.Keys);
  }

  lemma {:induction false} PairsNoDup(db: Db, l: Tuple, rs: seq<Tuple>, cs: seq<Cond>, ks: set<string>)
    requires NoDup(rs) && AllOver(rs, ks) && l.Keys !! ks
    ensures NoDup(Pairs(db, l, rs, cs))
  {
    if rs != [] {
      NoDupTail(rs);
      PairsNoDup(db, l, rs[1..], cs, ks);
      var x := l + rs[0];
      PairsMember(db, l, rs[1..], cs, x);
      if x in Pairs(db, l, rs[1..], cs) {
        var j :| 0 <= j < |rs[1..]| && x == l + rs[1..][j];
        MergeInjective(l, rs[0], l, rs[j + 1]);
      }
      NoDupConcat(if AllTrueAcross(db, l, rs[0], cs) then [x] else [], Pairs(db, l, rs[1..], cs));
    }
  }

  lemma {:induction false} JoinNoDup(db: Db, ls: seq<Tuple>, rs: seq<Tuple>, cs: seq<Cond>, js: set<string>,
                                     ks: set<string>)
    requires NoDup(ls) && NoDup(rs) && AllOver(ls, js) && AllOver(rs, ks) && js !! ks
    ensures NoDup(JoinAll(db, ls, rs, cs))
  {
    if ls != [] {
      NoDupTail(ls);
      JoinNoDup(db, ls[1..], rs, cs, js, ks);
      PairsNoDup(db, ls[0], rs, cs, ks);
      forall x | x in Pairs(db, ls[0], rs, cs) ensures x !in JoinAll(db, ls[1..], rs, cs) {
        PairsMember(db, ls[0], rs, cs, x);
        JoinMember(db, ls[1..], rs, cs, x);
        if x in JoinAll(db, ls[1..], rs, cs) {
          var j :| 0 <= j < |rs| && x == ls[0] + rs[j];
          var i, k :| 0 <= i < |ls[1..]| && 0 <= k < |rs| && x == ls[1..][i] + rs[k];
          MergeInjective(ls[0], rs[j], ls[i + 1], rs[k]);
        }
      }
      NoDupConcat(Pairs(db, ls[0], rs, cs), JoinAll(db, ls[1..], rs, cs));
    }
  }

  lemma {:induction false} YieldNoDup(db: Db, p: Plan)
    requires JoinsPlaced(p) && ScansPlaced(p)
    ensures NoDup(Yield(db, p)) && AllOver(Yield(db, p), Tabs(Leaves(p)))
  {
    forall i | 0 <= i < |Yield(db, p)| ensures Yield(db, p)[i].Keys == Tabs(Leaves(p)) {
      YieldMember(db, p, Yield(db, p)[i]);
    }
    match p
    case Scan(t, cs) => ScanNoDup(db, t, cs, 0);
    case Join(l, r, cs) =>
      YieldNoDup(db, l);
      YieldNoDup(db, r);
      SidesDisjoint(l, r);
      JoinNoDup(db, Yield(db, l), Yield(db, r), cs, Tabs(Leaves(l)), Tabs(Leaves(r)));
  }

  lemma {:induction false} CrossNoDup(db: Db, ts: seq<string>)
    requires NoDup(ts)
    ensures NoDup(Cross(db, ts)) && AllOver(Cross(db, ts), Tabs(ts))
  {
    forall i | 0 <= i < |Cross(db, ts)| ensures Cross(db, ts)[i].Keys == Tabs(ts) {
      CrossMember(db, ts, Cross(db, ts)[i]);
    }
    if ts != [] {
      NoDupTail(ts);
      CrossNoDup(db, ts[1..]);
      ScanNoDup(db, ts[0], [], 0);
      var ls := ScanFrom(db, ts[0], [], 0);
      forall i | 0 <= i < |ls| ensures ls[i].Keys == {ts[0]} {
        ScanMember(db, ts[0], [], 0, ls[i]);
      }
      JoinNoDup(db, ls, Cross(db, ts[1..]), [], {ts[0]}, Tabs(ts[1..]));
    }
  }

  lemma {:induction false} FilterNoDup(db: Db, s: seq<Tuple>, cs: seq<Cond>)
    requires NoDup(s)
    ensures NoDup(Filter(db, s, cs))
  {
    if s != [] {
      NoDupTail(s);
      FilterNoDup(db, s[1..], cs);
      FilterMember(db, s[1..], cs, s[0]);
      NoDupConcat(if AllTrue(db, s[0], cs) then [s[0]] else [], Filter(db, s[1..], cs));
    }
  }

  lemma {:induction false} NoDupCount<T>(s: seq<T>, x: T)
    requires NoDup(s)
    ensures multiset(s)[x] == if x in s then 1 else 0
  {
    if s != [] {
      assert s == [s[0]] + s[1..];
      NoDupTail(s);
      NoDupCount(s[1..], x);
    }
  }

  lemma SameMembers<T>(s: seq<T>, t: seq<T>)
    requires NoDup(s) && NoDup(t) && forall x :: x in s <==> x in t
    ensures multiset(s) == multiset(t)
  {
    forall x ensures multiset(s)[x] == multiset(t)[x] {
      NoDupCount(s, x);
      NoDupCount(t, x);
    }
  }

  // ---------- in which order ----------

  /** a comes before b, row by row in the order of the tables ts. */
  ghost predicate Before(a: Tuple, b: Tuple, ts: seq<string>) {
    exists k :: DiffersAt(a, b, ts, k)
  }

  ghost predicate DiffersAt(a: Tuple, b: Tuple, ts: seq<string>, k: int) {
    && 0 <= k < |ts| && (forall i :: 0 <= i <= k ==> ts[i] in a && ts[i] in b)
    && (forall i :: 0 <= i < k ==> a[ts[i]] == b[ts[i]]) && a[ts[k]] < b[ts[k]]
  }

  ghost predicate InOrder(s: seq<Tuple>, ts: seq<string>) {
    forall i, j {:trigger Before(s[i], s[j], ts)} :: 0 <= i < j < |s| ==> Before(s[i], s[j], ts)
  }

  lemma InOrderConcat(s: seq<Tuple>, t: seq<Tuple>, ts: seq<string>)
    requires InOrder(s, ts) && InOrder(t, ts) && forall a, b :: a in s && b in t ==> Before(a, b, ts)
    ensures InOrder(s + t, ts)
  {
    var u := s + t;
    forall i, j | 0 <= i < j < |u| ensures Before(u[i], u[j], ts) {
      if j < |s| {
        assert Before(s[i], s[j], ts);
      } else if i >= |s| {
        assert Before(t[i - |s|], t[j - |s|], ts);
      } else {
        assert s[i] in s && t[j - |s|] in t;
      }
    }
  }

  lemma {:induction false} ScanInOrder(db: Db, t: string, cs: seq<Cond>, i: nat)
    ensures InOrder(ScanFrom(db, t, cs, i), [t])
    decreases |Rows(db, t)| - i
  {
    if i < |Rows(db, t)| {
      ScanInOrder(db, t, cs, i + 1);
      var first: seq<Tuple> := if AllTrue(db, map[t := i], cs) then [map[t := i]] else [];
      forall a, b | a in first && b in ScanFrom(db, t, cs, i + 1) ensures Before(a, b, [t]) {
        ScanMember(db, t, cs, i + 1, b);
        assert DiffersAt(a, b, [t], 0);
      }
      InOrderConcat(first, ScanFrom(db, t, cs, i + 1), [t]);
    }
  }

  /** The right sides in order keep it behind the same left side. */
  lemma BeforeRight(l: Tuple, r: Tuple, r': Tuple, tl: seq<string>, tr: seq<string>)
    requires l.Keys == Tabs(tl) && r.Keys == Tabs(tr) && r'.Keys == Tabs(tr) && Tabs(tl) !! Tabs(tr)
    requires Before(r, r', tr)
    ensures Before(l + r, l + r', tl + tr)
  {
    var k :| DiffersAt(r, r', tr, k);
    var ts, n := tl + tr, |tl|;
    forall i | 0 <= i <= n + k ensures ts[i] in l + r && ts[i] in l + r' {
      assert i < n ==> ts[i] in Tabs(tl);
      assert i >= n ==> ts[i] == tr[i - n] && ts[i] in Tabs(tr);
    }
    forall i | 0 <= i < n + k ensures (l + r)[ts[i]] == (l + r')[ts[i]] {
      assert i < n ==> ts[i] in Tabs(tl);
      assert i >= n ==> ts[i] == tr[i - n] && ts[i] in Tabs(tr);
    }
    assert ts[n + k] == tr[k] && tr[k] in Tabs(tr);
    assert DiffersAt(l + r, l + r', ts, n + k);
  }

  /** Left sides in order decide. */
  lemma BeforeLeft(l: Tuple, l': Tuple, r: Tuple, r': Tuple, tl: seq<string>, tr: seq<string>)
    requires l.Keys == Tabs(tl) && l'.Keys == Tabs(tl) && r.Keys == Tabs(tr) && r'.Keys == Tabs(tr)
    requires Tabs(tl) !! Tabs(tr) && Before(l, l', tl)
    ensures Before(l + r, l' + r', tl + tr)
  {
    var k :| DiffersAt(l, l', tl, k);
    var ts := tl + tr;
    forall i | 0 <= i <= k ensures ts[i] == tl[i] && ts[i] in Tabs(tl) {
    }
    assert DiffersAt(l + r, l' + r', ts, k);
  }

  lemma {:induction false} PairsInOrder(db: Db, l: Tuple, rs: seq<Tuple>, cs: seq<Cond>, tl: seq<string>,
                                        tr: seq<string>)
    requires InOrder(rs, tr) && AllOver(rs, Tabs(tr)) && l.Keys == Tabs(tl) && Tabs(tl) !! Tabs(tr)
    ensures InOrder(Pairs(db, l, rs, cs), tl + tr)
  {
    if rs != [] {
      var rest := rs[1..];
      forall i, j | 0 <= i < j < |rest| ensures Before(rest[i], rest[j], tr) {
        assert Before(rs[i + 1], rs[j + 1], tr);
      }
      PairsInOrder(db, l, rest, cs, tl, tr);
      var first := if AllTrueAcross(db, l, rs[0], cs) then [l + rs[0]] else [];
      forall a, b | a in first && b in Pairs(db, l, rest, cs) ensures Before(a, b, tl + tr) {
        PairsMember(db, l, rest, cs, b);
        var j :| 0 <= j < |rest| && b == l + rest[j];
        assert Before(rs[0], rs[j + 1], tr);
        BeforeRight(l, rs[0], rest[j], tl, tr);
      }
      InOrderConcat(first, Pairs(db, l, rest, cs), tl + tr);
    }
  }

  lemma {:induction false} JoinInOrder(db: Db, ls: seq<Tuple>, rs: seq<Tuple>, cs: seq<Cond>, tl: seq<string>,
                                       tr: seq<string>)
    requires InOrder(ls, tl) && InOrder(rs, tr) && AllOver(ls, Tabs(tl)) && AllOver(rs, Tabs(tr))
    requires Tabs(tl) !! Tabs(tr)
    ensures InOrder(JoinAll(db, ls, rs, cs), tl + tr)
  {
    if ls != [] {
      var rest := ls[1..];
      forall i, j | 0 <= i < j < |rest| ensures Before(rest[i], rest[j], tl) {
        assert Before(ls[i + 1], ls[j + 1], tl);
      }
      JoinInOrder(db, rest, rs, cs, tl, tr);
      PairsInOrder(db, ls[0], rs, cs, tl, tr);
      forall a, b | a in Pairs(db, ls[0], rs, cs) && b in JoinAll(db, rest, rs, cs) ensures Before(a, b, tl + tr) {
        PairsMember(db, ls[0], rs, cs, a);
        JoinMember(db, rest, rs, cs, b);
        var j :| 0 <= j < |rs| && a == ls[0] + rs[j];
        var i, k :| 0 <= i < |rest| && 0 <= k < |rs| && b == rest[i] + rs[k];
        assert Before(ls[0], ls[i + 1], tl);
        BeforeLeft(ls[0], rest[i], rs[j], rs[k], tl, tr);
      }
      InOrderConcat(Pairs(db, ls[0], rs, cs), JoinAll(db, rest, rs, cs), tl + tr);
    }
  }
}
