/** make_one_rel: the join tree of a select, assembled from one scan per table. */
module MakeOneRel {
  import opened Common
  import opened Plans
  import opened Planner

  // ---------- one scan per table ----------

  /** What is left of the conditions after the first k tables have taken theirs. */
  function Rest(conds: seq<Cond>, tables: seq<string>, k: nat): seq<Cond>
    requires k <= |tables|
  {
    if k == 0 then conds else Kept(Rest(conds, tables, k - 1), tables[k - 1])
  }

  ghost predicate Lined(scans: seq<Plan>, tables: seq<string>) {
    |scans| == |tables| && NoDup(tables) && forall i :: 0 <= i < |scans| ==> scans[i].Scan? && scans[i].tab == tables[i]
  }

  /** Conditions as the analyser hands them over: columns of FROM tables, and an empty
      right column when the right side is a value. */
  ghost predicate Analysed(conds: seq<Cond>, tables: seq<string>) {
    && NoDup(tables) && "" !in tables
    && forall c :: c in conds ==> c.lhs.tab in tables && (if c.isVal then c.rhs.tab == "" else c.rhs.tab in tables)
  }

  predicate SameTable(c: Cond) {
    !c.isVal && c.lhs.tab == c.rhs.tab
  }

  /** The shape of query pop_conds handles: two columns of one table are compared only
      on the first table of the FROM list. */
  ghost predicate SelfOnFirst(conds: seq<Cond>, tables: seq<string>) {
    forall c :: c in conds && SameTable(c) ==> tables != [] && c.lhs.tab == tables[0]
  }

  /** The sum of the bags whose index is in m, among the first n. */
  function Sum<T>(bags: seq<multiset<T>>, m: set<int>, n: nat): multiset<T>
    requires n <= |bags|
  {
    if n == 0 then multiset{} else Sum(bags, m, n - 1) + if n - 1 in m then bags[n - 1] else multiset{}
  }

  lemma PlusNone<T>(a: multiset<T>)
    ensures a + multiset{} == a && multiset{} + a == a
  {
  }

  lemma {:induction false} SumUnion<T>(bags: seq<multiset<T>>, a: set<int>, b: set<int>, n: nat)
    requires n <= |bags| && a !! b
    ensures Sum(bags, a + b, n) == Sum(bags, a, n) + Sum(bags, b, n)
  {
    if n > 0 {
      SumUnion(bags, a, b, n - 1);
      var x := bags[n - 1];
      PlusNone(Sum(bags, a, n - 1));
      PlusNone(Sum(bags, b, n - 1));
      Swap(Sum(bags, a, n - 1), x, Sum(bags, b, n - 1));
      Assoc(Sum(bags, a, n - 1), Sum(bags, b, n - 1), x);
    }
  }

  lemma {:induction false} SumNone<T>(bags: seq<multiset<T>>, m: set<int>, n: nat)
    requires n <= |bags| && forall i :: 0 <= i < n ==> i !in m
    ensures Sum(bags, m, n) == multiset{}
  {
    if n > 0 {
      SumNone(bags, m, n - 1);
    }
  }

  lemma {:induction false} SumOne<T>(bags: seq<multiset<T>>, i: int, n: nat)
    requires 0 <= i < n <= |bags|
    ensures Sum(bags, {i}, n) == bags[i]
  {
    if i == n - 1 {
      SumNone(bags, {i}, n - 1);
      PlusNone(bags[i]);
    } else {
      SumOne(bags, i, n - 1);
      PlusNone(bags[i]);
    }
  }

  lemma {:induction false} SumPrefix<T>(bags: seq<multiset<T>>, more: seq<multiset<T>>, m: set<int>, m': set<int>,
                                        n: nat)
    requires n <= |bags| && n <= |more| && forall i :: 0 <= i < n ==> bags[i] == more[i]
    requires forall i :: 0 <= i < n ==> (i in m <==> i in m')
    ensures Sum(bags, m, n) == Sum(more, m', n)
  {
    if n > 0 {
      SumPrefix(bags, more, m, m', n - 1);
    }
  }

  /** Each scan's bag of conditions. */
  function Bags(scans: seq<Plan>): (b: seq<multiset<set<Cond>>>)
    ensures |b| == |scans| && forall i :: 0 <= i < |b| ==> b[i] == Bag(Conds(scans[i]))
  {
    seq(|scans|, i requires 0 <= i < |scans| => Bag(Conds(scans[i])))
  }

  function SumBag(scans: seq<Plan>, m: set<int>): multiset<set<Cond>> {
    Sum(Bags(scans), m, |scans|)
  }

  function Upto(n: nat): (s: set<int>)
    ensures forall i :: i in s <==> 0 <= i < n
  {
    if n == 0 then {} else Upto(n - 1) + {n - 1}
  }

  lemma {:induction false} RestMember(conds: seq<Cond>, tables: seq<string>, k: nat, c: Cond)
    requires k <= |tables|
    ensures c in Rest(conds, tables, k) <==> c in conds && forall i :: 0 <= i < k ==> !Takes(c, tables[i])
  {
    if k > 0 {
      RestMember(conds, tables, k - 1, c);
      TakenMember(Rest(conds, tables, k - 1), tables[k - 1], c);
    }
  }

  /** The scans as handed out: each table takes from what the tables before it left. */
  ghost predicate HandedOut(conds: seq<Cond>, tables: seq<string>, scans: seq<Plan>) {
    && |scans| <= |tables|
    && forall i {:trigger scans[i]} :: 0 <= i < |scans| ==>
         scans[i] == Scan(tables[i], Taken(Rest(conds, tables, i), tables[i]))
  }

  lemma {:induction false} HandedOutBag(conds: seq<Cond>, tables: seq<string>, scans: seq<Plan>)
    requires HandedOut(conds, tables, scans)
    ensures SumBag(scans, Upto(|scans|)) + Bag(Rest(conds, tables, |scans|)) == Bag(conds)
  {
    var n := |scans|;
    if n > 0 {
      var init := scans[..n - 1];
      HandedOutBag(conds, tables, init);
      SumPrefix(Bags(init), Bags(scans), Upto(n - 1), Upto(n), n - 1);
      var rest := Rest(conds, tables, n - 1);
      TakenBag(rest, tables[n - 1]);
      Assoc(SumBag(init, Upto(n - 1)), Bag(Taken(rest, tables[n - 1])), Bag(Kept(rest, tables[n - 1])));
    }
  }

  lemma HandedOutSnoc(conds: seq<Cond>, tables: seq<string>, scans: seq<Plan>, solved: seq<Cond>)
    requires HandedOut(conds, tables, scans) && |scans| < |tables|
    requires solved == Taken(Rest(conds, tables, |scans|), tables[|scans|])
    ensures HandedOut(conds, tables, scans + [Scan(tables[|scans|], solved)])
  {
  }

  method ScanPlans(conds: seq<Cond>, tables: seq<string>) returns (scans: seq<Plan>, rest: seq<Cond>)
    ensures |scans| == |tables| && HandedOut(conds, tables, scans) && rest == Rest(conds, tables, |tables|)
  {
    scans, rest := [], conds;
    for i := 0 to |tables|
      invariant |scans| == i && HandedOut(conds, tables, scans) && rest == Rest(conds, tables, i)
    {
      var solved;
      solved, rest := PopConds(rest, tables[i]);
      HandedOutSnoc(conds, tables, scans, solved);
      scans := scans + [Scan(tables[i], solved)];
    }
  }

  /** After the hand-out only conditions between two different tables remain, and only
      the first scan can hold a condition of another table. */
  lemma HandedOutPlaced(conds: seq<Cond>, tables: seq<string>, scans: seq<Plan>)
    requires tables != [] && Analysed(conds, tables)
    requires |scans| == |tables| && HandedOut(conds, tables, scans)
    ensures forall c :: c in Rest(conds, tables, |tables|) ==> Crossing(c, tables)
    ensures (forall i :: 0 <= i < |scans| ==> ScansPlaced(scans[i])) <==> SelfOnFirst(conds, tables)
  {
    forall c | c in Rest(conds, tables, |tables|) ensures Crossing(c, tables) {
      RestMember(conds, tables, |tables|, c);
      var i :| 0 <= i < |tables| && tables[i] == c.lhs.tab;
      assert !Takes(c, tables[i]);
    }
    if SelfOnFirst(conds, tables) {
      forall i | 0 <= i < |scans| ensures ScansPlaced(scans[i]) {
        TakenOnTable(conds, tables, i);
      }
    }
    if forall i :: 0 <= i < |scans| ==> ScansPlaced(scans[i]) {
      forall c | c in conds && SameTable(c) ensures c.lhs.tab == tables[0] {
        TakenMember(conds, tables[0], c);
        assert ScansPlaced(scans[0]) && c in scans[0].conds;
      }
    }
  }

  lemma TakenOnTable(conds: seq<Cond>, tables: seq<string>, i: nat)
    requires i < |tables| && Analysed(conds, tables) && SelfOnFirst(conds, tables)
    ensures ScansPlaced(Scan(tables[i], Taken(Rest(conds, tables, i), tables[i])))
  {
    var cs := Taken(Rest(conds, tables, i), tables[i]);
    forall j | 0 <= j < |cs| ensures OnTable(cs[j], tables[i]) {
      var c := cs[j];
      assert c in cs;
      TakenMember(Rest(conds, tables, i), tables[i], c);
      RestMember(conds, tables, i, c);
      assert i > 0 ==> !Takes(c, tables[0]);
    }
  }

  predicate Crossing(c: Cond, tables: seq<string>) {
    !c.isVal && c.lhs.tab in tables && c.rhs.tab in tables && c.lhs.tab != c.rhs.tab
  }

  // ---------- a tree over some of the scans ----------

  ghost predicate PlacedAt(scans: seq<Plan>, i: int)
    requires 0 <= i < |scans|
  {
    ScansPlaced(scans[i])
  }

  ghost predicate AllPlaced(scans: seq<Plan>, m: set<int>) {
    forall i {:trigger PlacedAt(scans, i)} :: 0 <= i < |scans| && i in m ==> PlacedAt(scans, i)
  }

  ghost predicate IsLeaf(leaves: seq<string>, tables: seq<string>, i: int)
    requires 0 <= i < |tables|
  {
    tables[i] in leaves
  }

  /** The leaves are the tables with index in m, each once. */
  ghost predicate LeavesAre(leaves: seq<string>, tables: seq<string>, m: set<int>) {
    && NoDup(leaves) && (forall k :: 0 <= k < |leaves| ==> leaves[k] in tables)
    && forall i {:trigger IsLeaf(leaves, tables, i)} :: 0 <= i < |tables| ==> (IsLeaf(leaves, tables, i) <==> i in m)
  }

  /** p joins exactly the scans in m, each once. */
  ghost predicate Covers(p: Plan, scans: seq<Plan>, tables: seq<string>, m: set<int>) {
    JoinsPlaced(p) && LeavesAre(Leaves(p), tables, m) && (ScansPlaced(p) <==> AllPlaced(scans, m))
  }

  lemma SameIndex(tables: seq<string>, i: int, j: int)
    requires NoDup(tables) && 0 <= i < |tables| && 0 <= j < |tables| && tables[i] == tables[j]
    ensures i == j
  {
    assert i < j ==> Differ(tables, i, j);
    assert j < i ==> Differ(tables, j, i);
  }

  lemma ScanCovers(scans: seq<Plan>, tables: seq<string>, i: int)
    requires Lined(scans, tables) && 0 <= i < |scans|
    ensures Covers(scans[i], scans, tables, {i})
  {
    var leaves := [tables[i]];
    assert Leaves(scans[i]) == leaves;
    forall k | 0 <= k < |tables| ensures IsLeaf(leaves, tables, k) <==> k in {i} {
      if tables[k] == tables[i] {
        SameIndex(tables, k, i);
      }
    }
    assert AllPlaced(scans, {i}) <==> PlacedAt(scans, i);
  }

  lemma LeavesUnion(a: seq<string>, b: seq<string>, tables: seq<string>, ma: set<int>, mb: set<int>)
    requires LeavesAre(a, tables, ma) && LeavesAre(b, tables, mb) && ma !! mb
    ensures LeavesAre(a + b, tables, ma + mb)
  {
    forall t | t in a ensures t !in b {
      var i := IndexOf(tables, t);
      assert IsLeaf(a, tables, i) && (IsLeaf(b, tables, i) <==> i in mb);
    }
    NoDupConcat(a, b);
    var c := a + b;
    forall i | 0 <= i < |tables| ensures IsLeaf(c, tables, i) <==> i in ma + mb {
      assert IsLeaf(c, tables, i) <==> IsLeaf(a, tables, i) || IsLeaf(b, tables, i);
    }
  }

  lemma PlacedUnion(scans: seq<Plan>, a: set<int>, b: set<int>)
    ensures AllPlaced(scans, a + b) <==> AllPlaced(scans, a) && AllPlaced(scans, b)
  {
    assert AllPlaced(scans, a + b) ==> AllPlaced(scans, a) && AllPlaced(scans, b);
  }

  lemma JoinCovers(l: Plan, r: Plan, cs: seq<Cond>, scans: seq<Plan>, tables: seq<string>, ml: set<int>, mr: set<int>)
    requires Covers(l, scans, tables, ml) && Covers(r, scans, tables, mr) && ml !! mr
    requires forall i :: 0 <= i < |cs| ==> Spans(cs[i], l, r)
    ensures Covers(Join(l, r, cs), scans, tables, ml + mr)
  {
    LeavesUnion(Leaves(l), Leaves(r), tables, ml, mr);
    PlacedUnion(scans, ml, mr);
  }

  lemma PushCovers(c: Cond, p: Plan, scans: seq<Plan>, tables: seq<string>, m: set<int>)
    requires Covers(p, scans, tables, m)
    requires !c.isVal && c.lhs.tab != c.rhs.tab && c.lhs.tab in Leaves(p) && c.rhs.tab in Leaves(p)
    ensures Covers(Push(c, p).1, scans, tables, m) && Leaves(Push(c, p).1) == Leaves(p)
    ensures Bag(Conds(Push(c, p).1)) == Bag(Conds(p)) + multiset{Kind(c)}
  {
    PushPlaces(c, p);
  }

  // ---------- conditions in and outside the tree ----------

  type Weight = set<int> -> multiset<set<Cond>>

  ghost predicate WeighsOne(scans: seq<Plan>, w: Weight, i: int)
    requires 0 <= i < |scans|
  {
    w({i}) == Bag(Conds(scans[i]))
  }

  ghost predicate WeighsBoth(w: Weight, a: set<int>, b: set<int>) {
    w(a + b) == w(a) + w(b)
  }

  /** w gives the conditions of a set of scans. */
  ghost predicate Weighs(scans: seq<Plan>, w: Weight) {
    && (forall i {:trigger WeighsOne(scans, w, i)} :: 0 <= i < |scans| ==> WeighsOne(scans, w, i))
    && forall a, b {:trigger WeighsBoth(w, a, b)} :: a !! b ==> WeighsBoth(w, a, b)
  }

  lemma SumWeighs(scans: seq<Plan>, w: Weight)
    requires forall m :: w(m) == SumBag(scans, m)
    ensures Weighs(scans, w)
  {
    forall i | 0 <= i < |scans| ensures WeighsOne(scans, w, i) {
      SumOne(Bags(scans), i, |scans|);
    }
    forall a, b | a !! b ensures WeighsBoth(w, a, b) {
      SumUnion(Bags(scans), a, b, |scans|);
    }
  }

  /** p holds the conditions of the scans in m, and `extra` at its joins. */
  ghost predicate Tally(p: Plan, w: Weight, m: set<int>, extra: multiset<set<Cond>>) {
    Bag(Conds(p)) == extra + w(m)
  }

  lemma TallyScan(scans: seq<Plan>, w: Weight, i: int)
    requires Weighs(scans, w) && 0 <= i < |scans|
    ensures Tally(scans[i], w, {i}, multiset{})
  {
    assert WeighsOne(scans, w, i);
    PlusNone(w({i}));
  }

  lemma TallyJoin(l: Plan, r: Plan, cs: seq<Cond>, scans: seq<Plan>, w: Weight,
                  ml: set<int>, mr: set<int>, el: multiset<set<Cond>>, er: multiset<set<Cond>>)
    requires Weighs(scans, w) && Tally(l, w, ml, el) && Tally(r, w, mr, er) && ml !! mr
    ensures Tally(Join(l, r, cs), w, ml + mr, Bag(cs) + el + er)
  {
    JoinBag(l, r, cs);
    assert WeighsBoth(w, ml, mr);
    Shuffle(Bag(cs), el, w(ml), er, w(mr));
  }

  lemma Shuffle<T>(c: multiset<T>, a: multiset<T>, x: multiset<T>, b: multiset<T>, y: multiset<T>)
    ensures c + (a + x) + (b + y) == c + a + b + (x + y)
  {
  }

  lemma TallyPush(p: Plan, q: Plan, w: Weight, m: set<int>, extra: multiset<set<Cond>>, k: set<Cond>)
    requires Tally(p, w, m, extra) && Bag(Conds(q)) == Bag(Conds(p)) + multiset{k}
    ensures Tally(q, w, m, extra + multiset{k})
  {
    Swap(extra, w(m), multiset{k});
  }

  /** One more scan on the left of the tree. */
  lemma TallyWithScan(tree: Plan, scans: seq<Plan>, w: Weight, m: set<int>, extra: multiset<set<Cond>>, i: int,
                      cs: seq<Cond>)
    requires Weighs(scans, w) && Tally(tree, w, m, extra) && 0 <= i < |scans| && i !in m
    ensures Tally(Join(scans[i], tree, cs), w, {i} + m, extra + Bag(cs))
  {
    TallyScan(scans, w, i);
    TallyJoin(scans[i], tree, cs, scans, w, {i}, m, multiset{}, extra);
    PlusNone(Bag(cs));
    Commute(Bag(cs), extra);
  }

  lemma TallyFirst(scans: seq<Plan>, w: Weight, i: int, j: int, cs: seq<Cond>)
    requires Weighs(scans, w) && 0 <= i < |scans| && 0 <= j < |scans| && i != j
    ensures Tally(Join(scans[i], scans[j], cs), w, {i} + {j}, Bag(cs))
  {
    TallyScan(scans, w, j);
    TallyWithScan(scans[j], scans, w, {j}, multiset{}, i, cs);
    PlusNone(Bag(cs));
  }

  lemma TallyTwo(tree: Plan, scans: seq<Plan>, w: Weight, m: set<int>, extra: multiset<set<Cond>>, i: int, j: int,
                 c: Cond)
    requires Weighs(scans, w) && Tally(tree, w, m, extra)
    requires 0 <= i < |scans| && i !in m && 0 <= j < |scans| && j !in m && i != j
    ensures Tally(Join(Join(scans[i], scans[j], [c]), tree, []), w, {i} + {j} + m, extra + multiset{Kind(c)})
  {
    TallyFirst(scans, w, i, j, [c]);
    BagOne(c);
    TallyJoin(Join(scans[i], scans[j], [c]), tree, [], scans, w, {i} + {j}, m, multiset{Kind(c)}, extra);
    PlusNone(multiset{Kind(c)});
    Commute(multiset{Kind(c)}, extra);
  }

  lemma Commute<T>(a: multiset<T>, b: multiset<T>)
    ensures a + b == b + a
  {
  }

  // ---------- which table is where ----------

  /** The tables that come in on the left of each join, from the top down. */
  function Groups(p: Plan): seq<seq<string>> {
    match p
    case Scan(t, _) => [[t]]
    case Join(l, r, _) => [Leaves(l)] + Groups(r)
  }

  function Flat(g: seq<seq<string>>): seq<string> {
    if g == [] then [] else g[0] + Flat(g[1..])
  }

  lemma {:induction false} FlatGroups(p: Plan)
    ensures Flat(Groups(p)) == Leaves(p)
  {
    match p
    case Scan(t, _) =>
      assert [[t]][1..] == [];
    case Join(l, r, _) =>
      FlatGroups(r);
      assert Groups(p)[1..] == Groups(r);
  }

  /** A further condition brings in, on the left of everything so far, those of its tables
      that are not yet there. */
  function NextGroups(g: seq<seq<string>>, c: Cond): seq<seq<string>> {
    var added := (if c.lhs.tab in Flat(g) then [] else [c.lhs.tab]) + if c.rhs.tab in Flat(g) then [] else [c.rhs.tab];
    if added == [] then g else [added] + g
  }

  lemma NextGroupsBy(g: seq<seq<string>>, c: Cond)
    ensures c.lhs.tab in Flat(g) && c.rhs.tab in Flat(g) ==> NextGroups(g, c) == g
    ensures c.lhs.tab !in Flat(g) && c.rhs.tab in Flat(g) ==> NextGroups(g, c) == [[c.lhs.tab]] + g
    ensures c.lhs.tab in Flat(g) && c.rhs.tab !in Flat(g) ==> NextGroups(g, c) == [[c.rhs.tab]] + g
    ensures c.lhs.tab !in Flat(g) && c.rhs.tab !in Flat(g) ==> NextGroups(g, c) == [[c.lhs.tab, c.rhs.tab]] + g
  {
    assert [c.lhs.tab] + [c.rhs.tab] == [c.lhs.tab, c.rhs.tab];
    assert [c.lhs.tab] + [] == [c.lhs.tab] && [] + [c.rhs.tab] == [c.rhs.tab];
  }

  /** The first condition's left table is on the left of its right table at the bottom. */
  function CondGroups(conds: seq<Cond>): seq<seq<string>>
    requires conds != []
  {
    var c := conds[|conds| - 1];
    if |conds| == 1 then [[c.lhs.tab], [c.rhs.tab]] else NextGroups(CondGroups(conds[..|conds| - 1]), c)
  }

  /** Each table among the first k that no condition brought in comes in on the left. */
  function RestGroups(g: seq<seq<string>>, tables: seq<string>, k: nat): seq<seq<string>>
    requires k <= |tables|
  {
    if k == 0 then g
    else if tables[k - 1] in Flat(g) then RestGroups(g, tables, k - 1)
    else [[tables[k - 1]]] + RestGroups(g, tables, k - 1)
  }

  /** Where the tables of a query are in its join tree, by its join conditions. */
  function TreeGroups(joins: seq<Cond>, tables: seq<string>): seq<seq<string>>
    requires tables != []
  {
    RestGroups(if joins == [] then [[tables[0]]] else CondGroups(joins), tables, |tables|)
  }

  lemma {:induction false} PushGroups(c: Cond, p: Plan)
    requires JoinsPlaced(p) && !c.isVal && c.lhs.tab != c.rhs.tab
    ensures Groups(Push(c, p).1) == Groups(p)
  {
    match p
    case Scan(_, _) =>
    case Join(l, r, cs) =>
      PushGroups(c, r);
      PushPlaces(c, l);
      PushPlaces(c, r);
  }

  /** The conditions between columns of two tables, in order. */
  function Crossings(conds: seq<Cond>): seq<Cond> {
    if conds == [] then []
    else
      var c := conds[|conds| - 1];
      Crossings(conds[..|conds| - 1]) + if !c.isVal && c.lhs.tab != c.rhs.tab then [c] else []
  }

  lemma KeptLast(conds: seq<Cond>, c: Cond, t: string)
    ensures Kept(conds + [c], t) == Kept(conds, t) + if Takes(c, t) then [] else [c]
  {
    assert (conds + [c])[..|conds|] == conds;
  }

  lemma {:induction false} RestLast(conds: seq<Cond>, c: Cond, tables: seq<string>, k: nat)
    requires k <= |tables|
    ensures Rest(conds + [c], tables, k) ==
      Rest(conds, tables, k) + if forall i :: 0 <= i < k ==> !Takes(c, tables[i]) then [c] else []
  {
    if k > 0 {
      RestLast(conds, c, tables, k - 1);
      var rest := Rest(conds, tables, k - 1);
      KeptLast(rest, c, tables[k - 1]);
      assert rest + [] == rest && Kept(rest, tables[k - 1]) + [] == Kept(rest, tables[k - 1]);
    }
  }

  /** The scans leave exactly the join conditions. */
  lemma {:induction false} RestIsCrossings(conds: seq<Cond>, tables: seq<string>)
    requires Analysed(conds, tables) && tables != []
    ensures Rest(conds, tables, |tables|) == Crossings(conds)
  {
    if conds == [] {
      RestNone(tables, |tables|);
    } else {
      var init, c := conds[..|conds| - 1], conds[|conds| - 1];
      assert conds == init + [c];
      RestIsCrossings(init, tables);
      RestLast(init, c, tables, |tables|);
      assert c in conds;
      var i :| 0 <= i < |tables| && tables[i] == c.lhs.tab;
      assert !c.isVal && c.lhs.tab != c.rhs.tab <==> forall i :: 0 <= i < |tables| ==> !Takes(c, tables[i]);
    }
  }

  lemma {:induction false} RestNone(tables: seq<string>, k: nat)
    requires k <= |tables|
    ensures Rest([], tables, k) == []
  {
    if k > 0 {
      RestNone(tables, k - 1);
    }
  }

  // ---------- assembling the tree ----------

  /** pop_scan: the first scan of the table, marked as used and noted as joined. */
  method PopScan(mark: seq<bool>, table: string, joined: seq<string>, scans: seq<Plan>)
    returns (found: Option<Plan>, mark': seq<bool>, joined': seq<string>, ghost at: int)
    requires |mark| == |scans| && forall i :: 0 <= i < |scans| ==> scans[i].Scan?
    ensures found == None <==> forall i :: 0 <= i < |scans| ==> scans[i].tab != table
    ensures found == None ==> mark' == mark && joined' == joined
    ensures found.Some? ==>
              && 0 <= at < |scans| && found.value == scans[at] && scans[at].tab == table
              && mark' == mark[at := true] && joined' == joined + [table]
  {
    at := 0;
    for i := 0 to |scans|
      invariant forall k :: 0 <= k < i ==> scans[k].tab != table
    {
      if scans[i].tab == table {
        at := i;
        return Some(scans[i]), mark[i := true], joined + [scans[i].tab], i;
      }
    }
    return None, mark, joined, at;
  }

  /** The loop state: the scans in m are marked, listed as joined, and joined in tree. */
  ghost predicate Assembling(tree: Plan, mark: seq<bool>, joined: seq<string>, scans: seq<Plan>, tables: seq<string>,
                             m: set<int>) {
    && Covers(tree, scans, tables, m)
    && |mark| == |scans| && Marks(mark, m) && Listed(joined, tables, Leaves(tree))
  }

  ghost predicate Marks(mark: seq<bool>, m: set<int>) {
    m <= Upto(|mark|) && forall i :: 0 <= i < |mark| ==> (mark[i] <==> i in m)
  }

  ghost predicate Listed(joined: seq<string>, tables: seq<string>, leaves: seq<string>) {
    forall t :: t in tables ==> (t in joined <==> t in leaves)
  }

  lemma MarkOne(mark: seq<bool>, m: set<int>, i: int)
    requires Marks(mark, m) && 0 <= i < |mark|
    ensures Marks(mark[i := true], {i} + m)
  {
  }

  lemma ListOne(joined: seq<string>, tables: seq<string>, leaves: seq<string>, t: string)
    requires Listed(joined, tables, leaves)
    ensures Listed(joined + [t], tables, [t] + leaves)
  {
  }

  /** One more scan joined on the left, with conditions that span the two sides. */
  lemma AddScan(tree: Plan, mark: seq<bool>, joined: seq<string>, scans: seq<Plan>, tables: seq<string>,
                m: set<int>, i: int, cs: seq<Cond>)
    requires Lined(scans, tables) && Assembling(tree, mark, joined, scans, tables, m) && 0 <= i < |scans| && i !in m
    requires forall k :: 0 <= k < |cs| ==> Spans(cs[k], scans[i], tree)
    ensures Assembling(Join(scans[i], tree, cs), mark[i := true], joined + [tables[i]], scans, tables, {i} + m)
  {
    ScanCovers(scans, tables, i);
    JoinCovers(scans[i], tree, cs, scans, tables, {i}, m);
    MarkOne(mark, m, i);
    ListOne(joined, tables, Leaves(tree), tables[i]);
  }

  lemma FirstJoin(scans: seq<Plan>, tables: seq<string>, i: int, j: int, c: Cond)
    requires Lined(scans, tables) && 0 <= i < |scans| && 0 <= j < |scans| && i != j && Spans(c, scans[i], scans[j])
    ensures Covers(Join(scans[i], scans[j], [c]), scans, tables, {i} + {j})
  {
    ScanCovers(scans, tables, i);
    ScanCovers(scans, tables, j);
    JoinCovers(scans[i], scans[j], [c], scans, tables, {i}, {j});
  }

  lemma AddTwo(tree: Plan, mark: seq<bool>, joined: seq<string>, scans: seq<Plan>, tables: seq<string>,
               m: set<int>, i: int, j: int, c: Cond)
    requires Lined(scans, tables) && Assembling(tree, mark, joined, scans, tables, m)
    requires 0 <= i < |scans| && i !in m && 0 <= j < |scans| && j !in m && i != j && Spans(c, scans[i], scans[j])
    ensures Assembling(Join(Join(scans[i], scans[j], [c]), tree, []), mark[i := true][j := true],
                       joined + [tables[i]] + [tables[j]], scans, tables, {i} + {j} + m)
  {
    FirstJoin(scans, tables, i, j, c);
    JoinCovers(Join(scans[i], scans[j], [c]), tree, [], scans, tables, {i} + {j}, m);
    MarkOne(mark, m, i);
    MarkOne(mark[i := true], {i} + m, j);
    assert {j} + ({i} + m) == {i} + {j} + m;
    ListTwo(joined, tables, Leaves(tree), tables[i], tables[j]);
  }

  lemma ListTwo(joined: seq<string>, tables: seq<string>, leaves: seq<string>, t: string, u: string)
    requires Listed(joined, tables, leaves)
    ensures Listed(joined + [t] + [u], tables, [t] + [u] + leaves)
  {
  }

  /** Where a condition's column is: not yet joined and found, or already joined. */
  lemma ColumnAt(tree: Plan, joined: seq<string>, scans: seq<Plan>, tables: seq<string>, m: set<int>, t: string)
    returns (i: int)
    requires Lined(scans, tables) && Covers(tree, scans, tables, m) && Listed(joined, tables, Leaves(tree))
    requires t in tables
    ensures 0 <= i < |tables| && tables[i] == t && scans[i].tab == t && (t in joined <==> i in m)
    ensures (t in joined <==> t in Leaves(tree))
    ensures forall k :: 0 <= k < |scans| && scans[k].tab == t ==> k == i
  {
    i := IndexOf(tables, t);
    assert IsLeaf(Leaves(tree), tables, i) <==> i in m;
    forall k | 0 <= k < |scans| && scans[k].tab == t ensures k == i {
      SameIndex(tables, k, i);
    }
  }

  /** One round of the loop over join conditions. */
  method JoinCond(c: Cond, tree: Plan, mark: seq<bool>, joined: seq<string>, scans: seq<Plan>,
                  ghost tables: seq<string>, ghost w: Weight, ghost m: set<int>, ghost extra: multiset<set<Cond>>)
    returns (tree': Plan, mark': seq<bool>, joined': seq<string>, ghost m': set<int>)
    requires Lined(scans, tables) && Assembling(tree, mark, joined, scans, tables, m) && Crossing(c, tables)
    requires Weighs(scans, w) && Tally(tree, w, m, extra)
    ensures Assembling(tree', mark', joined', scans, tables, m') && Tally(tree', w, m', extra + multiset{Kind(c)})
    ensures Groups(tree') == NextGroups(Groups(tree), c)
  {
    FlatGroups(tree);
    NextGroupsBy(Groups(tree), c);
    ghost var li := ColumnAt(tree, joined, scans, tables, m, c.lhs.tab);
    ghost var ri := ColumnAt(tree, joined, scans, tables, m, c.rhs.tab);
    FlipKind(c);
    BagOne(c);
    BagOne(Flip(c));
    mark', joined', m' := mark, joined, m;
    var left, right := None, None;
    ghost var i, j := 0, 0;
    if c.lhs.tab !in joined' {
      left, mark', joined', i := PopScan(mark', c.lhs.tab, joined', scans);
    }
    if c.rhs.tab !in joined' {
      right, mark', joined', j := PopScan(mark', c.rhs.tab, joined', scans);
    }
    if left.Some? && right.Some? {
      tree' := Join(Join(left.value, right.value, [c]), tree, []);
      assert Leaves(tree'.left) == [c.lhs.tab, c.rhs.tab];
      m' := {i} + {j} + m;
      AddTwo(tree, mark, joined, scans, tables, m, i, j, c);
      TallyTwo(tree, scans, w, m, extra, i, j, c);
    } else if left.Some? {
      tree' := Join(left.value, tree, [c]);
      m' := {i} + m;
      AddScan(tree, mark, joined, scans, tables, m, i, [c]);
      TallyWithScan(tree, scans, w, m, extra, i, [c]);
    } else if right.Some? {
      tree' := Join(right.value, tree, [Flip(c)]);
      m' := {j} + m;
      AddScan(tree, mark, joined, scans, tables, m, j, [Flip(c)]);
      TallyWithScan(tree, scans, w, m, extra, j, [Flip(c)]);
    } else {
      tree' := Push(c, tree).1;
      PushCovers(c, tree, scans, tables, m);
      PushGroups(c, tree);
      TallyPush(tree, tree', w, m, extra, Kind(c));
    }
  }

  ghost function IndexOf(tables: seq<string>, t: string): (i: int)
    requires t in tables
    ensures 0 <= i < |tables| && tables[i] == t
  {
    var i :| 0 <= i < |tables| && tables[i] == t; i
  }

  /** The joins the conditions ask for: one for the first condition, then one round each. */
  method JoinByConds(conds: seq<Cond>, scans: seq<Plan>, ghost tables: seq<string>, ghost w: Weight)
    returns (tree: Plan, mark: seq<bool>, ghost m: set<int>)
    requires Lined(scans, tables) && conds != [] && forall i :: 0 <= i < |conds| ==> Crossing(conds[i], tables)
    requires Weighs(scans, w)
    ensures Covers(tree, scans, tables, m) && Tally(tree, w, m, Bag(conds)) && |mark| == |scans| && Marks(mark, m)
    ensures Groups(tree) == CondGroups(conds)
  {
    var c := conds[0];
    var joined: seq<string>;
    tree, mark, joined, m := JoinFirst(c, scans, tables, w);
    var k := 1;
    assert conds[..1] == [c];
    while k < |conds|
      invariant 1 <= k <= |conds| && Assembling(tree, mark, joined, scans, tables, m)
      invariant Tally(tree, w, m, Bag(conds[..k])) && Groups(tree) == CondGroups(conds[..k])
    {
      assert conds[..k + 1][..k] == conds[..k];
      ghost var extra := Bag(conds[..k]);
      BagSnoc(conds, k);
      tree, mark, joined, m := JoinCond(conds[k], tree, mark, joined, scans, tables, w, m, extra);
      k := k + 1;
    }
    assert conds[..k] == conds;
  }

  lemma BagSnoc(conds: seq<Cond>, k: nat)
    requires k < |conds|
    ensures Bag(conds[..k + 1]) == Bag(conds[..k]) + multiset{Kind(conds[k])}
  {
    assert conds[..k + 1][..k] == conds[..k];
  }

  method JoinFirst(c: Cond, scans: seq<Plan>, ghost tables: seq<string>, ghost w: Weight)
    returns (tree: Plan, mark: seq<bool>, joined: seq<string>, ghost m: set<int>)
    requires Lined(scans, tables) && Crossing(c, tables) && Weighs(scans, w)
    ensures Assembling(tree, mark, joined, scans, tables, m) && Tally(tree, w, m, Bag([c]))
    ensures Groups(tree) == [[c.lhs.tab], [c.rhs.tab]]
  {
    mark, joined := seq(|scans|, _ => false), [];
    var left, right;
    ghost var i, j;
    left, mark, joined, i := PopScan(mark, c.lhs.tab, joined, scans);
    right, mark, joined, j := PopScan(mark, c.rhs.tab, joined, scans);
    assert scans[IndexOf(tables, c.lhs.tab)].tab == c.lhs.tab && scans[IndexOf(tables, c.rhs.tab)].tab == c.rhs.tab;
    tree := Join(left.value, right.value, [c]);
    m := {i} + {j};
    assert Leaves(tree) == [c.lhs.tab] + [c.rhs.tab] == joined;
    FirstJoin(scans, tables, i, j, c);
    TallyFirst(scans, w, i, j, [c]);
  }

  /** The scans one above the other, each new one on the left and the first at the bottom. */
  function LeftJoins(scans: seq<Plan>, n: nat): Plan
    requires 1 <= n <= |scans|
  {
    if n == 1 then scans[0] else Join(scans[n - 1], LeftJoins(scans, n - 1), [])
  }

  /** The join tree over all tables: first the joins the conditions ask for, then the
      tables no condition mentions. */
  method JoinTree(conds: seq<Cond>, scans: seq<Plan>, ghost tables: seq<string>) returns (tree: Plan)
    requires Lined(scans, tables) && |scans| >= 2 && forall i :: 0 <= i < |conds| ==> Crossing(conds[i], tables)
    ensures Covers(tree, scans, tables, Upto(|scans|)) && Bag(Conds(tree)) == Bag(conds) + SumBag(scans, Upto(|scans|))
    ensures conds == [] ==> tree == LeftJoins(scans, |scans|)
    ensures Groups(tree) == TreeGroups(conds, tables)
  {
    var mark;
    ghost var m;
    ghost var w: Weight := s => SumBag(scans, s);
    SumWeighs(scans, w);
    if conds != [] {
      tree, mark, m := JoinByConds(conds, scans, tables, w);
    } else {
      tree, mark := scans[0], seq(|scans|, i => i == 0);
      m := {0};
      ScanCovers(scans, tables, 0);
      TallyScan(scans, w, 0);
    }
    tree := JoinLeftovers(tree, mark, scans, tables, w, m, Bag(conds));
  }

  /** The marked scans and the first i are in m. */
  ghost predicate Done(mark: seq<bool>, m: set<int>, i: int) {
    forall k :: 0 <= k < |mark| ==> (k in m <==> mark[k] || k < i)
  }

  lemma DoneOne(mark: seq<bool>, m: set<int>, i: int)
    requires Done(mark, m, i) && 0 <= i < |mark|
    ensures Done(mark, {i} + m, i + 1)
  {
  }

  ghost predicate OnlyFirst(mark: seq<bool>) {
    forall k :: 0 <= k < |mark| ==> (mark[k] <==> k == 0)
  }

  method JoinLeftovers(tree: Plan, mark: seq<bool>, scans: seq<Plan>, ghost tables: seq<string>, ghost w: Weight,
                       ghost m: set<int>, ghost extra: multiset<set<Cond>>)
    returns (tree': Plan)
    requires Lined(scans, tables) && Covers(tree, scans, tables, m) && |mark| == |scans| && Marks(mark, m)
    requires Weighs(scans, w) && Tally(tree, w, m, extra)
    ensures Covers(tree', scans, tables, Upto(|scans|)) && Tally(tree', w, Upto(|scans|), extra)
    ensures OnlyFirst(mark) && scans != [] && tree == scans[0] ==> tree' == LeftJoins(scans, |scans|)
    ensures Groups(tree') == RestGroups(Groups(tree), tables, |tables|)
  {
    FlatGroups(tree);
    tree' := tree;
    ghost var m' := m;
    for i := 0 to |scans|
      invariant Covers(tree', scans, tables, m') && Tally(tree', w, m', extra)
      invariant Done(mark, m', i) && m' <= Upto(|scans|)
      invariant Groups(tree') == RestGroups(Groups(tree), tables, i)
      invariant OnlyFirst(mark) && scans != [] && tree == scans[0] ==>
        tree' == LeftJoins(scans, if i == 0 then 1 else i)
    {
      assert IsLeaf(Leaves(tree), tables, i) <==> i in m;
      if !mark[i] {
        DoneOne(mark, m', i);
        Leftover(tree', scans, tables, w, m', extra, i);
        tree' := Join(scans[i], tree', []);
        m' := {i} + m';
      }
    }
    assert m' == Upto(|scans|);
  }

  lemma Leftover(tree: Plan, scans: seq<Plan>, tables: seq<string>, w: Weight, m: set<int>, extra: multiset<set<Cond>>,
                 i: int)
    requires Lined(scans, tables) && Covers(tree, scans, tables, m) && 0 <= i < |scans| && i !in m
    requires Weighs(scans, w) && Tally(tree, w, m, extra)
    ensures Covers(Join(scans[i], tree, []), scans, tables, {i} + m)
    ensures Tally(Join(scans[i], tree, []), w, {i} + m, extra)
  {
    ScanCovers(scans, tables, i);
    JoinCovers(scans[i], tree, [], scans, tables, {i}, m);
    TallyWithScan(tree, scans, w, m, extra, i, []);
    PlusNone(extra);
  }

  lemma OneGroup(conds: seq<Cond>, tables: seq<string>)
    requires |tables| == 1 && Analysed(conds, tables)
    ensures TreeGroups(Crossings(conds), tables) == [[tables[0]]]
  {
    NoCrossings(conds, tables[0]);
    FlatGroups(Scan(tables[0], []));
    var g := [[tables[0]]];
    assert RestGroups(g, tables, 1) == RestGroups(g, tables, 0);
  }

  lemma {:induction false} NoCrossings(conds: seq<Cond>, t: string)
    requires forall c :: c in conds ==> c.lhs.tab == t && (c.isVal || c.rhs.tab == t)
    ensures Crossings(conds) == []
  {
    if conds != [] {
      NoCrossings(conds[..|conds| - 1], t);
      assert conds[|conds| - 1] in conds;
    }
  }

  /** The plan of a query whose conditions all go to scans. */
  function Crossed(conds: seq<Cond>, tables: seq<string>, n: nat): Plan
    requires 1 <= n <= |tables|
  {
    var scan := Scan(tables[n - 1], Taken(Rest(conds, tables, n - 1), tables[n - 1]));
    if n == 1 then scan else Join(scan, Crossed(conds, tables, n - 1), [])
  }

  lemma {:induction false} CrossedIs(conds: seq<Cond>, tables: seq<string>, scans: seq<Plan>, n: nat)
    requires |scans| == |tables| && HandedOut(conds, tables, scans) && 1 <= n <= |scans|
    ensures LeftJoins(scans, n) == Crossed(conds, tables, n)
  {
    if n > 1 {
      CrossedIs(conds, tables, scans, n - 1);
    }
  }

  /** Every table of the FROM list is scanned once, every condition is placed once, every
      join condition can be evaluated where it stands, and every scan condition too
      exactly when the query compares two columns of one table only on its first table. */
  method Build(conds: seq<Cond>, tables: seq<string>) returns (plan: Plan)
    requires tables != [] && Analysed(conds, tables)
    ensures Answers(plan, conds, tables)
    ensures ScansPlaced(plan) <==> SelfOnFirst(conds, tables)
    ensures Rest(conds, tables, |tables|) == [] ==> plan == Crossed(conds, tables, |tables|)
    ensures Groups(plan) == TreeGroups(Crossings(conds), tables)
  {
    RestIsCrossings(conds, tables);
    var scans, rest := ScanPlans(conds, tables);
    HandedOutPlaced(conds, tables, scans);
    if |tables| == 1 {
      plan := scans[0];
      assert plan == Crossed(conds, tables, 1);
      OneGroup(conds, tables);
      SingleTable(conds, tables, scans);
      return;
    }
    plan := JoinTree(rest, scans, tables);
    CrossedIs(conds, tables, scans, |tables|);
    JoinTreeAnswers(plan, conds, tables, scans);
  }

  /** Each table is scanned once and each condition placed once. */
  ghost predicate Answers(plan: Plan, conds: seq<Cond>, tables: seq<string>) {
    JoinsPlaced(plan) && multiset(Leaves(plan)) == multiset(tables) && Bag(Conds(plan)) == Bag(conds)
  }

  lemma SameTabs(a: seq<string>, b: seq<string>)
    requires multiset(a) == multiset(b)
    ensures Tabs(a) == Tabs(b)
  {
    forall t ensures t in a <==> t in b {
      assert t in a <==> t in multiset(a);
      assert t in b <==> t in multiset(b);
    }
  }

  lemma JoinTreeAnswers(plan: Plan, conds: seq<Cond>, tables: seq<string>, scans: seq<Plan>)
    requires |scans| == |tables| && HandedOut(conds, tables, scans) && NoDup(tables)
    requires Covers(plan, scans, tables, Upto(|scans|))
    requires Bag(Conds(plan)) == Bag(Rest(conds, tables, |tables|)) + SumBag(scans, Upto(|scans|))
    ensures Answers(plan, conds, tables)
    ensures ScansPlaced(plan) <==> forall i :: 0 <= i < |scans| ==> ScansPlaced(scans[i])
  {
    HandedOutBag(conds, tables, scans);
    Commute(Bag(Rest(conds, tables, |tables|)), SumBag(scans, Upto(|scans|)));
    AllLeaves(Leaves(plan), tables);
    assert forall i :: 0 <= i < |scans| ==> (PlacedAt(scans, i) <==> ScansPlaced(scans[i]));
  }

  lemma AllLeaves(leaves: seq<string>, tables: seq<string>)
    requires NoDup(tables) && LeavesAre(leaves, tables, Upto(|tables|))
    ensures multiset(leaves) == multiset(tables)
  {
    forall t | t in tables ensures t in leaves {
      assert IsLeaf(leaves, tables, IndexOf(tables, t));
    }
    SameMembers(leaves, tables);
  }

  lemma SingleTable(conds: seq<Cond>, tables: seq<string>, scans: seq<Plan>)
    requires |tables| == 1 && Analysed(conds, tables) && |scans| == 1 && HandedOut(conds, tables, scans)
    ensures Answers(scans[0], conds, tables)
  {
    var t := tables[0];
    assert Rest(conds, tables, 0) == conds;
    forall i | 0 <= i < |conds| ensures Takes(conds[i], t) {
      assert conds[i] in conds;
    }
    TakesAll(conds, t);
    assert Leaves(scans[0]) == [t] == tables;
  }

  lemma {:induction false} TakesAll(conds: seq<Cond>, t: string)
    requires forall i :: 0 <= i < |conds| ==> Takes(conds[i], t)
    ensures Bag(Taken(conds, t)) == Bag(conds)
  {
    if conds != [] {
      TakesAll(conds[..|conds| - 1], t);
      BagConcat(Taken(conds[..|conds| - 1], t), [conds[|conds| - 1]]);
      BagOne(conds[|conds| - 1]);
    }
  }

  /** Plan correctness: whatever the database holds, a query of the supported shape gets
      a plan that yields the filtered cross product of its tables, each tuple once. */
  lemma PlanYieldsQuery(db: Db, plan: Plan, conds: seq<Cond>, tables: seq<string>)
    requires NoDup(tables) && Answers(plan, conds, tables) && ScansPlaced(plan)
    ensures multiset(Yield(db, plan)) == multiset(Filter(db, Cross(db, tables), conds))
    ensures NoDup(Yield(db, plan))
  {
    SameTabs(Leaves(plan), tables);
    forall a: Tuple ensures a in Yield(db, plan) <==> a in Filter(db, Cross(db, tables), conds) {
      YieldMember(db, plan, a);
      FilterMember(db, Cross(db, tables), conds, a);
      CrossMember(db, tables, a);
      BagMeans(db, a, conds);
      BagMeans(db, a, Conds(plan));
    }
    YieldNoDup(db, plan);
    CrossNoDup(db, tables);
    FilterNoDup(db, Cross(db, tables), conds);
    SameMembers(Yield(db, plan), Filter(db, Cross(db, tables), conds));
  }
}
