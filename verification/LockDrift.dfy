/** How far a queue's group mode and counters are from what its requests say, after any
    sequence of lock and unlock calls. */
module LockDrift {
  import opened LockTable

  // A call of a lock function, or `unlock`.
  datatype Call = Ask(t: TxnId, want: Want) | Leave(t: TxnId)

  function After(q: Queue, c: Call): Queue {
    match c
    case Ask(t, w) => var a := Decide(q, t, w); if a.Granted? then a.queue else q
    case Leave(t) => Release(q, t)
  }

  function Run(calls: seq<Call>): Queue {
    if calls == [] then EmptyQueue else After(Run(calls[..|calls| - 1]), calls[|calls| - 1])
  }

  // ---------- the counters ----------

  /** The call turns a request that counts into X, which does not. */
  predicate Uncounts(q: Queue, c: Call, p: LockMode -> bool) {
    && c.Ask? && WantedMode(c.want) == Exclusive && Decide(q, c.t, c.want).Granted?
    && ModeOf(q, c.t).Some? && p(ModeOf(q, c.t).value)
  }

  /** How many calls of the run did so. */
  function Uncounted(calls: seq<Call>, p: LockMode -> bool): nat {
    if calls == [] then 0
    else
      var init, c := calls[..|calls| - 1], calls[|calls| - 1];
      Uncounted(init, p) + if Uncounts(Run(init), c, p) then 1 else 0
  }

  /** How much too high the counter is that should count the requests of kind p. */
  function Excess(num: int, rs: seq<Request>, p: LockMode -> bool): int {
    num - Count(rs, p)
  }

  lemma CallDrift(q: Queue, c: Call)
    ensures var r := After(q, c);
      && Excess(r.sharedNum, r.requests, CountsAsShared)
         == Excess(q.sharedNum, q.requests, CountsAsShared) + (if Uncounts(q, c, CountsAsShared) then 1 else 0)
      && Excess(r.ixNum, r.requests, CountsAsIX)
         == Excess(q.ixNum, q.requests, CountsAsIX) + if Uncounts(q, c, CountsAsIX) then 1 else 0
  {
    var i := Find(q.requests, c.t);
    if c.Leave? {
      if i < |q.requests| {
        WithoutCount(q.requests, i, CountsAsShared);
        WithoutCount(q.requests, i, CountsAsIX);
      }
    } else if i < |q.requests| {
      HolderDrift(q, c);
    } else {
      AppendCount(q.requests, Request(c.t, WantedMode(c.want)), CountsAsShared);
      AppendCount(q.requests, Request(c.t, WantedMode(c.want)), CountsAsIX);
    }
  }

  lemma HolderDrift(q: Queue, c: Call)
    requires c.Ask? && Find(q.requests, c.t) < |q.requests|
    ensures var r := After(q, c);
      && Excess(r.sharedNum, r.requests, CountsAsShared)
         == Excess(q.sharedNum, q.requests, CountsAsShared) + (if Uncounts(q, c, CountsAsShared) then 1 else 0)
      && Excess(r.ixNum, r.requests, CountsAsIX)
         == Excess(q.ixNum, q.requests, CountsAsIX) + if Uncounts(q, c, CountsAsIX) then 1 else 0
  {
    var r, i := After(q, c), Find(q.requests, c.t);
    if r != q {
      CountUpdate(q.requests, i, r.requests[i], CountsAsShared);
      CountUpdate(q.requests, i, r.requests[i], CountsAsIX);
    }
  }

  /** Each counter is too high by the number of upgrades from a mode it counts to X, and
      nothing else moves it: it is exact until the first one, and never again. */
  lemma {:induction false} DriftIsUpgrades(calls: seq<Call>)
    ensures var q := Run(calls);
      && q.sharedNum == Count(q.requests, CountsAsShared) + Uncounted(calls, CountsAsShared)
      && q.ixNum == Count(q.requests, CountsAsIX) + Uncounted(calls, CountsAsIX)
  {
    if calls != [] {
      var init := calls[..|calls| - 1];
      DriftIsUpgrades(init);
      CallDrift(Run(init), calls[|calls| - 1]);
    }
  }

  // ---------- the group mode ----------

  ghost predicate GroupExact(q: Queue) {
    q.group == ExactGroup(q.requests)
  }

  ghost predicate SomeShared(rs: seq<Request>) {
    exists i :: 0 <= i < |rs| && CountsAsShared(rs[i].mode)
  }

  /** A grant leaves an exact group mode exact. */
  lemma GrantGroup(q: Queue, t: TxnId, w: Want)
    requires QueueOk(q) && GroupExact(q) && Decide(q, t, w).Granted? && (OnRecords(w) ==> RecordModes(q))
    ensures GroupExact(Decide(q, t, w).queue)
  {
    var r, i := Decide(q, t, w).queue, Find(q.requests, t);
    GrantKeeps(q, t, w);
    if i == |q.requests| {
      NewcomerGroup(q, t, w);
    } else if r != q {
      HolderGroup(q, t, w);
    }
  }

  /** The group mode a compatible queue should have is the strongest mode in it. */
  lemma StrongestIsExact(rs: seq<Request>, i: nat, g: GroupMode)
    requires PairwiseCompatible(rs) && i < |rs|
    requires match rs[i].mode
      case Exclusive => g == X
      case SharedIntentionExclusive => g == SIX
      case IntentionExclusive => g == IX
      case Shared => g == S
      case IntentionShared => g == IS && forall j :: 0 <= j < |rs| ==> rs[j].mode == IntentionShared
    requires rs[i].mode == IntentionExclusive ==> forall j :: 0 <= j < |rs| ==> rs[j].mode != SharedIntentionExclusive
    ensures ExactGroup(rs) == g
  {
    assert forall j :: 0 <= j < |rs| && j != i ==> Compatible(rs[i].mode, rs[j].mode);
  }

  lemma NewcomerGroup(q: Queue, t: TxnId, w: Want)
    requires QueueOk(q) && GroupExact(q) && Decide(q, t, w).Granted? && Find(q.requests, t) == |q.requests|
    requires PairwiseCompatible(Decide(q, t, w).queue.requests)
    ensures GroupExact(Decide(q, t, w).queue)
  {
    var r, n := Decide(q, t, w).queue, |q.requests|;
    assert r.requests[n] == Request(t, WantedMode(w));
    assert forall j :: 0 <= j < n ==> r.requests[j] == q.requests[j];
    if WantedMode(w) != IntentionShared || q.requests == [] {
      StrongestIsExact(r.requests, n, r.group);
    }
  }

  lemma HolderGroup(q: Queue, t: TxnId, w: Want)
    requires QueueOk(q) && GroupExact(q) && Decide(q, t, w).Granted? && Decide(q, t, w).queue != q
    requires Find(q.requests, t) < |q.requests| && PairwiseCompatible(Decide(q, t, w).queue.requests)
    ensures GroupExact(Decide(q, t, w).queue)
  {
    StrongestIsExact(Decide(q, t, w).queue.requests, Find(q.requests, t), Decide(q, t, w).queue.group);
  }

  /** `unlock` leaves an exact group mode exactly when it leaves nothing, or a holder of S
      or SIX: what is left of IS alone is marked S, and what has IX in it X. */
  lemma ReleaseGroup(q: Queue, t: TxnId)
    requires QueueOk(q) && ModeOf(q, t).Some?
    ensures var r := Release(q, t); GroupExact(r) <==> r.requests == [] || SomeShared(r.requests)
  {
    var i := Find(q.requests, t);
    WithoutShape(q.requests, i);
    if Without(q.requests, i) != [] {
      CastGroup(Without(q.requests, i));
    }
  }

  lemma CastGroup(rs: seq<Request>)
    requires rs != [] && PairwiseCompatible(rs) && forall j :: 0 <= j < |rs| ==> rs[j].mode != Exclusive
    ensures GroupFromRank(TopRank(rs) + 1) == ExactGroup(rs) <==> SomeShared(rs)
  {
    var n := TopRank(rs);
    if n != ModeRank(IntentionShared) {
      var k :| 0 <= k < |rs| && ModeRank(rs[k].mode) == n;
      assert forall j :: 0 <= j < |rs| && j != k ==> Compatible(rs[k].mode, rs[j].mode);
      StrongestIsExact(rs, k, if n == 4 then SIX else IX);
    } else if SomeShared(rs) {
      var k :| 0 <= k < |rs| && CountsAsShared(rs[k].mode);
      StrongestIsExact(rs, k, S);
    } else {
      StrongestIsExact(rs, 0, IS);
    }
  }

  /** The call is an `unlock` that leaves others, none of them with S or SIX. */
  ghost predicate Blurs(q: Queue, c: Call) {
    c.Leave? && ModeOf(q, c.t).Some? && Release(q, c.t).requests != [] && !SomeShared(Release(q, c.t).requests)
  }

  /** On a table, the group mode is exact until such an `unlock`. */
  lemma {:induction false} GroupOverRun(calls: seq<Call>)
    requires forall k :: 0 <= k < |calls| && calls[k].Ask? ==> OnTables(calls[k].want)
    ensures QueueOk(Run(calls))
    ensures (forall k :: 0 <= k < |calls| ==> !Blurs(Run(calls[..k]), calls[k])) ==> GroupExact(Run(calls))
  {
    if calls != [] {
      var n := |calls| - 1;
      var init, c := calls[..n], calls[n];
      GroupOverRun(init);
      assert forall k :: 0 <= k < n ==> init[..k] == calls[..k];
      CallKeeps(Run(init), c);
    }
  }

  lemma CallKeeps(q: Queue, c: Call)
    requires QueueOk(q) && (c.Ask? ==> OnTables(c.want))
    ensures QueueOk(After(q, c)) && (GroupExact(q) && !Blurs(q, c) ==> GroupExact(After(q, c)))
  {
    if c.Leave? {
      ReleaseKeeps(q, c.t);
      if ModeOf(q, c.t).Some? {
        ReleaseGroup(q, c.t);
      }
    } else if Decide(q, c.t, c.want).Granted? {
      GrantKeeps(q, c.t, c.want);
      if GroupExact(q) {
        GrantGroup(q, c.t, c.want);
      }
    }
  }

  /** On a record it is always exact. */
  lemma RowGroup(q: Queue)
    requires QueueOk(q) && RecordModes(q)
    ensures GroupExact(q)
  {
    if q.requests != [] {
      assert Covers(q.group, q.requests[0].mode);
      StrongestIsExact(q.requests, 0, q.group);
    }
  }
}
