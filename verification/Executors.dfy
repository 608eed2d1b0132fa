/** The iterator executors: sequential scans and nested-loop joins over each other. */
module Executors {
  import opened Plans
  import opened Streams

  class Executor {
    const db: Db
    const plan: Plan
    const left: Executor?
    const right: Executor?
    ghost const repr: set<object>
    // The scan's cursor over the table.
    var pos: nat
    // What is still to be delivered, the current tuple first.
    ghost var rest: Stream

    /** The tree of executors follows the plan, and no two of them share state. */
    ghost predicate Shape()
      decreases plan
    {
      && this in repr
      && match plan
         case Scan(_, _) => left == null && right == null && repr == {this}
         case Join(l, r, cs) =>
           && left != null && right != null && left.plan == l && right.plan == r && left.db == db && right.db == db
           && left.Shape() && right.Shape()
           && repr == {this} + left.repr + right.repr
           && this !in left.repr && this !in right.repr && left.repr !! right.repr
    }

    /** Positioned: at the end, or on a tuple that meets the conditions. */
    ghost predicate Ready()
      requires Shape()
      reads repr
      decreases plan
    {
      && (rest.tuples == [] ==> !rest.fails)
      && match plan
         case Scan(t, cs) =>
           && pos <= |Rows(db, t)| && (pos < |Rows(db, t)| ==> Judge(db, t, pos, cs) == Pass)
           && rest == ScanStream(db, t, cs, pos)
         case Join(l, r, cs) =>
           && left.Ready()
           && if left.rest.tuples == [] then rest == left.rest
              else
                && right.Ready() && right.rest.tuples != [] && right.rest.fails == Run(db, r).fails
                && Run(db, r).tuples != []
                && AllTrueAcross(db, left.rest.tuples[0], right.rest.tuples[0], cs)
                && rest == JoinFrom(db, left.rest, right.rest.tuples, Run(db, r), cs)
    }

    constructor (db: Db, plan: Plan, left: Executor?, right: Executor?)
      requires plan.Scan? ==> left == null && right == null
      requires plan.Join? ==>
        && left != null && right != null && left.plan == plan.left && right.plan == plan.right
        && left.db == db && right.db == db && left.Shape() && right.Shape() && left.repr !! right.repr
      ensures Shape() && this.db == db && this.plan == plan
      ensures fresh(repr - (if left == null then {} else left.repr) - (if right == null then {} else right.repr))
    {
      this.db, this.plan, this.left, this.right := db, plan, left, right;
      repr := {this} + (if left == null then {} else left.repr) + (if right == null then {} else right.repr);
      pos := 0;
      rest := Stream([], false);
    }

    method IsEnd() returns (end: bool)
      requires Shape() && Ready()
      ensures end <==> rest.tuples == []
      ensures end ==> !rest.fails
      decreases plan
    {
      match plan
      case Scan(t, cs) =>
        end := pos >= |Rows(db, t)|;
      case Join(l, r, cs) =>
        end := left.IsEnd();
    }

    method Next() returns (a: Tuple)
      requires Shape() && Ready() && rest.tuples != []
      ensures a == rest.tuples[0]
      decreases plan
    {
      match plan
      case Scan(t, cs) =>
        a := map[t := pos];
      case Join(l, r, cs) =>
        var x := left.Next();
        var y := right.Next();
        a := x + y;
    }

    /** Moves the cursor to the next row that meets the conditions. */
    method Seek() returns (ok: bool)
      requires Shape() && plan.Scan? && pos <= |Rows(db, plan.tab)|
      modifies this
      ensures ok <==> ScanStream(db, plan.tab, plan.conds, old(pos)) != DEAD
      ensures ok ==> Ready() && rest == ScanStream(db, plan.tab, plan.conds, old(pos))
    {
      var t, cs := plan.tab, plan.conds;
      rest := ScanStream(db, t, cs, pos);
      while pos < |Rows(db, t)|
        invariant pos <= |Rows(db, t)| && rest == ScanStream(db, t, cs, pos) == ScanStream(db, t, cs, old(pos))
      {
        var v := EvalScan(t, pos, cs);
        if v == Missing {
          return false;
        }
        if v == Pass {
          break;
        }
        pos := pos + 1;
      }
      return true;
    }

    method EvalScan(t: string, i: nat, cs: seq<Cond>) returns (v: Verdict)
      ensures v == Judge(db, t, i, cs)
    {
      var k := 0;
      while k < |cs|
        invariant k <= |cs| && Judge(db, t, i, cs) == Judge(db, t, i, cs[k..])
      {
        if !OnTable(cs[k], t) {
          return Missing;
        }
        if !True(db, map[t := i], cs[k]) {
          return Fail;
        }
        assert cs[k..][1..] == cs[k + 1..];
        k := k + 1;
      }
      return Pass;
    }

    method EvalJoin(l: Tuple, r: Tuple, cs: seq<Cond>) returns (b: bool)
      ensures b <==> AllTrueAcross(db, l, r, cs)
    {
      for k := 0 to |cs|
        invariant forall i :: 0 <= i < k ==> TrueAcross(db, l, r, cs[i])
      {
        if !TrueAcross(db, l, r, cs[k]) {
          return false;
        }
      }
      return true;
    }

    /** beginTuple: false stands for the error the source would stop with. */
    method BeginTuple() returns (ok: bool)
      requires Shape()
      modifies repr
      ensures ok <==> Run(db, plan) != DEAD
      ensures ok ==> Ready() && rest == Run(db, plan)
      decreases plan, 4
    {
      match plan
      case Scan(t, cs) =>
        pos := 0;
        ok := Seek();
      case Join(l, r, cs) =>
        ok := left.BeginTuple();
        if !ok {
          return;
        }
        var end := left.IsEnd();
        if end {
          rest := left.rest;
          return;
        }
        ok := right.BeginTuple();
        if !ok {
          return;
        }
        ok := Settle(Run(db, plan));
    }

    method NextTuple() returns (ok: bool)
      requires Shape() && Ready() && rest.tuples != []
      modifies repr
      ensures ok <==> Tail(old(rest)) != DEAD
      ensures ok ==> Ready() && rest == Tail(old(rest))
      decreases plan, 4
    {
      match plan
      case Scan(t, cs) =>
        pos := pos + 1;
        ok := Seek();
      case Join(l, r, cs) =>
        ghost var was := rest;
        JoinFromStep(db, left.rest, right.rest.tuples, Run(db, r), cs);
        ok := Step(Tail(was));
        if ok {
          ok := Settle(Tail(was));
        }
    }

    /** A join between two tuples: `target` is still to be delivered, but the current pair
        has not been compared. */
    ghost predicate Under(target: Stream)
      requires Shape() && plan.Join?
      reads repr
    {
      var all := Run(db, plan.right);
      && left.Ready()
      && if left.rest.tuples == [] then target == left.rest
         else
           && right.Ready() && right.rest.fails == all.fails && (right.rest.tuples == [] <==> all.tuples == [])
           && target == if all.tuples == [] then DEAD else JoinFrom(db, left.rest, right.rest.tuples, all, plan.conds)
    }

    /** On to the next pair: the right side first, rewound when it ends. */
    method Step(ghost target: Stream) returns (ok: bool)
      requires Shape() && plan.Join? && left.Ready() && left.rest.tuples != [] && right.Ready()
      requires right.rest.tuples != []
      requires right.rest.fails == Run(db, plan.right).fails && Run(db, plan.right).tuples != []
      requires target == JoinFrom(db, left.rest, right.rest.tuples[1..], Run(db, plan.right), plan.conds)
      modifies repr
      ensures if ok then Under(target) else target == DEAD
      ensures ok && left.rest.tuples != [] ==>
        |left.rest.tuples| < |old(left.rest.tuples)|
        || (left.rest == old(left.rest) && |right.rest.tuples| < |old(right.rest.tuples)|)
      decreases plan, 1
    {
      ghost var all := Run(db, plan.right);
      JoinFromEnd(db, left.rest, all, plan.conds);
      ok := right.NextTuple();
      if ok {
        var end := right.IsEnd();
        if end {
          ok := Rewind(target);
        }
      }
    }

    method Rewind(ghost target: Stream) returns (ok: bool)
      requires Shape() && plan.Join? && left.Ready() && left.rest.tuples != []
      requires Run(db, plan.right).tuples != [] && !Run(db, plan.right).fails
      requires target == JoinStream(db, Tail(left.rest), Run(db, plan.right), plan.conds)
      modifies left.repr + right.repr
      ensures if ok then Under(target) else target == DEAD
      ensures ok ==> |left.rest.tuples| < |old(left.rest.tuples)|
      decreases plan, 0
    {
      ok := left.NextTuple();
      if ok {
        ok := right.BeginTuple();
      }
    }

    /** The comparing loop: stops at the end or on a pair that meets the join conditions. */
    method Settle(ghost target: Stream) returns (ok: bool)
      requires Shape() && plan.Join? && Under(target)
      modifies repr
      ensures ok <==> target != DEAD
      ensures ok ==> Ready() && rest == target
      decreases plan, 3
    {
      var end := left.IsEnd();
      while !end
        invariant Under(target) && (end <==> left.rest.tuples == [])
        decreases |left.rest.tuples|, if end then 0 else |right.rest.tuples|
      {
        var found;
        found, ok := Try(target);
        if found || !ok {
          return;
        }
        end := left.IsEnd();
      }
      Hold(target);
      return true;
    }

    /** One round: stop on a pair that meets the conditions, otherwise move on. */
    method Try(ghost target: Stream) returns (found: bool, ok: bool)
      requires Shape() && plan.Join? && Under(target) && left.rest.tuples != []
      modifies repr
      ensures found ==> ok && Ready() && rest == target != DEAD
      ensures !ok ==> target == DEAD
      ensures ok && !found ==> Under(target)
      ensures ok && !found && left.rest.tuples != [] ==>
        |left.rest.tuples| < |old(left.rest.tuples)|
        || (left.rest == old(left.rest) && |right.rest.tuples| < |old(right.rest.tuples)|)
      decreases plan, 2
    {
      var none := right.IsEnd();
      if none {
        return false, false;
      }
      found := Matches();
      if found {
        Hold(target);
        return true, true;
      }
      JoinFromStep(db, left.rest, right.rest.tuples, Run(db, plan.right), plan.conds);
      ok := Step(target);
    }

    /** A state the comparing loop may stop in. */
    ghost method Hold(target: Stream)
      requires Shape() && plan.Join? && Under(target)
      requires left.rest.tuples == []
        || (right.rest.tuples != [] && AllTrueAcross(db, left.rest.tuples[0], right.rest.tuples[0], plan.conds))
      modifies this
      ensures Ready() && rest == target != DEAD
    {
      if left.rest.tuples != [] {
        JoinFromStep(db, left.rest, right.rest.tuples, Run(db, plan.right), plan.conds);
      }
      rest := target;
    }

    method Matches() returns (b: bool)
      requires Shape() && plan.Join? && left.Ready() && left.rest.tuples != [] && right.Ready()
      requires right.rest.tuples != []
      ensures b <==> AllTrueAcross(db, left.rest.tuples[0], right.rest.tuples[0], plan.conds)
    {
      var x := left.Next();
      var y := right.Next();
      b := EvalJoin(x, y, plan.conds);
    }
  }
}
