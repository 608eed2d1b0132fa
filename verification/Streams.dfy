/** What a tree of executors produces, errors included. */
module Streams {
  import opened Plans

  // Tuples delivered one by one, then either the end or an error.
  datatype Stream = Stream(tuples: seq<Tuple>, fails: bool)

  datatype Verdict = Pass | Fail | Missing

  const DEAD := Stream([], true)

  function Prepend(s: seq<Tuple>, t: Stream): Stream {
    Stream(s + t.tuples, t.fails)
  }

  function Tail(s: Stream): Stream
    requires s.tuples != []
  {
    Stream(s.tuples[1..], s.fails)
  }

  /** eval_conds of a scan: conditions are tried in order until one is false, and a
      column that is not the table's own is an error when it is reached. */
  function Judge(db: Db, t: string, i: nat, cs: seq<Cond>): Verdict {
    if cs == [] then Pass
    else if !OnTable(cs[0], t) then Missing
    else if True(db, map[t := i], cs[0]) then Judge(db, t, i, cs[1..])
    else Fail
  }

  function ScanStream(db: Db, t: string, cs: seq<Cond>, i: nat): Stream
    decreases |Rows(db, t)| - i
  {
    if i >= |Rows(db, t)| then Stream([], false)
    else
      match Judge(db, t, i, cs)
      case Pass => Prepend([map[t := i]], ScanStream(db, t, cs, i + 1))
      case Fail => ScanStream(db, t, cs, i + 1)
      case Missing => DEAD
  }

  /** A join under way: the current left tuple against what is left of the right side,
      then the remaining left tuples against the whole right side. */
  function JoinFrom(db: Db, l: Stream, cur: seq<Tuple>, r: Stream, cs: seq<Cond>): Stream
    requires l.tuples != []
    decreases |l.tuples|, 0
  {
    Prepend(Pairs(db, l.tuples[0], cur, cs), if r.fails then DEAD else JoinStream(db, Tail(l), r, cs))
  }

  /** The nested loop: asking an empty right side for its tuple is an error. */
  function JoinStream(db: Db, l: Stream, r: Stream, cs: seq<Cond>): Stream
    decreases |l.tuples|, 1
  {
    if l.tuples == [] then l
    else if r.tuples == [] then DEAD
    else JoinFrom(db, l, r.tuples, r, cs)
  }

  lemma JoinFromStep(db: Db, l: Stream, cur: seq<Tuple>, r: Stream, cs: seq<Cond>)
    requires l.tuples != [] && cur != []
    ensures var more := JoinFrom(db, l, cur[1..], r, cs);
            JoinFrom(db, l, cur, r, cs) ==
              if AllTrueAcross(db, l.tuples[0], cur[0], cs) then Prepend([l.tuples[0] + cur[0]], more) else more
  {
    var x, ps := l.tuples[0] + cur[0], Pairs(db, l.tuples[0], cur[1..], cs);
    var after := if r.fails then DEAD else JoinStream(db, Tail(l), r, cs);
    assert [x] + ps + after.tuples == [x] + (ps + after.tuples);
    assert [] + ps == ps;
  }

  lemma JoinFromEnd(db: Db, l: Stream, r: Stream, cs: seq<Cond>)
    requires l.tuples != []
    ensures JoinFrom(db, l, [], r, cs) == if r.fails then DEAD else JoinStream(db, Tail(l), r, cs)
  {
  }

  function Run(db: Db, p: Plan): Stream {
    match p
    case Scan(t, cs) => ScanStream(db, t, cs, 0)
    case Join(l, r, cs) => JoinStream(db, Run(db, l), Run(db, r), cs)
  }

  // ---------- when a run gets to the end ----------

  /** No scan reaches a foreign column, and no join with something on its left finds
      nothing on its right. */
  ghost predicate Runs(db: Db, p: Plan) {
    match p
    case Scan(t, cs) => Evaluable(db, t, cs, 0)
    case Join(l, r, cs) => Runs(db, l) && (Yield(db, l) == [] || (Runs(db, r) && Yield(db, r) != []))
  }

  ghost predicate Evaluable(db: Db, t: string, cs: seq<Cond>, i: nat) {
    forall k: nat :: i <= k < |Rows(db, t)| ==> Found(db, t, k, cs)
  }

  predicate Found(db: Db, t: string, i: nat, cs: seq<Cond>) {
    Judge(db, t, i, cs) != Missing
  }

  lemma {:induction false} JudgeMeans(db: Db, t: string, i: nat, cs: seq<Cond>)
    requires Judge(db, t, i, cs) != Missing
    ensures Judge(db, t, i, cs) == Pass <==> AllTrue(db, map[t := i], cs)
  {
    if cs != [] {
      assert cs == [cs[0]] + cs[1..];
      AllTrueConcat(db, map[t := i], [cs[0]], cs[1..]);
      assert AllTrue(db, map[t := i], [cs[0]]) <==> True(db, map[t := i], [cs[0]][0]);
      if True(db, map[t := i], cs[0]) {
        JudgeMeans(db, t, i, cs[1..]);
      }
    }
  }

  lemma {:induction false} JudgePlaced(db: Db, t: string, i: nat, cs: seq<Cond>)
    requires forall k :: 0 <= k < |cs| ==> OnTable(cs[k], t)
    ensures Judge(db, t, i, cs) != Missing
  {
    if cs != [] {
      JudgePlaced(db, t, i, cs[1..]);
    }
  }

  lemma {:induction false} ScanRuns(db: Db, t: string, cs: seq<Cond>, i: nat)
    ensures !ScanStream(db, t, cs, i).fails <==> Evaluable(db, t, cs, i)
    ensures !ScanStream(db, t, cs, i).fails ==> ScanStream(db, t, cs, i).tuples == ScanFrom(db, t, cs, i)
    decreases |Rows(db, t)| - i
  {
    if i < |Rows(db, t)| {
      ScanRuns(db, t, cs, i + 1);
      assert Evaluable(db, t, cs, i) <==> Found(db, t, i, cs) && Evaluable(db, t, cs, i + 1);
      if Judge(db, t, i, cs) != Missing {
        JudgeMeans(db, t, i, cs);
      }
    }
  }

  lemma {:induction false} JoinRuns(db: Db, l: Stream, r: Stream, cs: seq<Cond>)
    ensures JoinStream(db, l, r, cs).fails <==> l.fails || (l.tuples != [] && (r.fails || r.tuples == []))
    ensures !JoinStream(db, l, r, cs).fails ==> JoinStream(db, l, r, cs).tuples == JoinAll(db, l.tuples, r.tuples, cs)
    decreases |l.tuples|
  {
    if l.tuples != [] {
      JoinRuns(db, Tail(l), r, cs);
    }
  }

  /** The executors deliver exactly the tuples of the plan when the run gets to the end,
      and it gets to the end exactly when Runs says so. */
  lemma {:induction false} RunIsYield(db: Db, p: Plan)
    ensures !Run(db, p).fails <==> Runs(db, p)
    ensures Runs(db, p) ==> Run(db, p).tuples == Yield(db, p)
  {
    match p
    case Scan(t, cs) => ScanRuns(db, t, cs, 0);
    case Join(l, r, cs) =>
      RunIsYield(db, l);
      RunIsYield(db, r);
      JoinRuns(db, Run(db, l), Run(db, r), cs);
  }
}
