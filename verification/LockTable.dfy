/** Lock requests on one table or record: the modes, the request queue, and what
    each of the six lock functions and `unlock` does to it. */
module LockTable {
  import opened Common

  type TxnId = nat

  datatype RecId = RecId(fd: int, rid: Rid)

  datatype LockId = OnTable(fd: int) | OnRecord(rec: RecId)

  // Declared in the order of the source's enum, which ModeRank makes explicit.
  datatype LockMode = Shared | Exclusive | IntentionShared | IntentionExclusive | SharedIntentionExclusive

  // Also in source order, which is not the order of LockMode.
  datatype GroupMode = NonLock | IS | IX | S | X | SIX

  datatype Request = Request(txn: TxnId, mode: LockMode)

  datatype Queue = Queue(requests: seq<Request>, group: GroupMode, sharedNum: int, ixNum: int)

  const EmptyQueue := Queue([], NonLock, 0, 0)

  // The six lock functions.
  datatype Want = RecordShared | RecordExclusive | TableShared | TableExclusive | TableIS | TableIX

  // Refused is the no-wait answer: the caller throws and the transaction aborts.
  datatype Answer = Granted(queue: Queue) | Refused

  function ModeRank(m: LockMode): int {
    match m
    case Shared => 0
    case Exclusive => 1
    case IntentionShared => 2
    case IntentionExclusive => 3
    case SharedIntentionExclusive => 4
  }

  function GroupFromRank(n: int): GroupMode {
    if n == 1 then IS else if n == 2 then IX else if n == 3 then S else if n == 4 then X
    else if n == 5 then SIX else NonLock
  }

  function Max(a: int, b: int): int {
    if a < b then b else a
  }

  /** The multi-granularity compatibility matrix. */
  predicate Compatible(a: LockMode, b: LockMode) {
    match a
    case IntentionShared => b != Exclusive
    case IntentionExclusive => b == IntentionShared || b == IntentionExclusive
    case Shared => b == IntentionShared || b == Shared
    case SharedIntentionExclusive => b == IntentionShared
    case Exclusive => false
  }

  /** Holding `a` excludes everything that holding `b` excludes. */
  predicate AtLeast(a: LockMode, b: LockMode) {
    forall m: LockMode :: Compatible(a, m) ==> Compatible(b, m)
  }

  /** Index of the first request of t, or the length of the queue. */
  function Find(rs: seq<Request>, t: TxnId): (i: nat)
    ensures i <= |rs|
    ensures i < |rs| ==> rs[i].txn == t
    ensures forall j :: 0 <= j < i ==> rs[j].txn != t
  {
    if rs == [] then 0 else if rs[0].txn == t then 0 else 1 + Find(rs[1..], t)
  }

  function ModeOf(q: Queue, t: TxnId): Option<LockMode> {
    var i := Find(q.requests, t);
    if i < |q.requests| then Some(q.requests[i].mode) else None
  }

  function Append(q: Queue, t: TxnId, m: LockMode, g: GroupMode): Queue {
    q.(requests := q.requests + [Request(t, m)], group := g)
  }

  function SetMode(q: Queue, i: nat, m: LockMode, g: GroupMode): Queue
    requires i < |q.requests|
  {
    q.(requests := q.requests[i := q.requests[i].(mode := m)], group := g)
  }

  function DecideRecordShared(q: Queue, t: TxnId): Answer {
    if Find(q.requests, t) < |q.requests| then Granted(q)
    else if q.group == X || q.group == IX || q.group == SIX then Refused
    else Granted(Append(q, t, Shared, S).(sharedNum := q.sharedNum + 1))
  }

  function DecideRecordExclusive(q: Queue, t: TxnId): Answer {
    var i := Find(q.requests, t);
    if i < |q.requests| then
      if q.requests[i].mode == Exclusive then Granted(q)
      else if q.requests[i].mode == Shared && |q.requests| == 1 then Granted(SetMode(q, i, Exclusive, X))
      else Refused
    else if q.group != NonLock then Refused
    else Granted(Append(q, t, Exclusive, X))
  }

  function DecideTableShared(q: Queue, t: TxnId): Answer {
    var i := Find(q.requests, t);
    if i < |q.requests| then
      var m := q.requests[i].mode;
      if m == Shared || m == Exclusive || m == SharedIntentionExclusive then Granted(q)
      else if m == IntentionShared && (q.group == S || q.group == IS) then
        Granted(SetMode(q, i, Shared, S).(sharedNum := q.sharedNum + 1))
      else if m == IntentionExclusive && q.ixNum == 1 then
        Granted(SetMode(q, i, SharedIntentionExclusive, SIX).(sharedNum := q.sharedNum + 1))
      else Refused
    else if q.group == X || q.group == IX || q.group == SIX then Refused
    else Granted(Append(q, t, Shared, S).(sharedNum := q.sharedNum + 1))
  }

  function DecideTableExclusive(q: Queue, t: TxnId): Answer {
    var i := Find(q.requests, t);
    if i < |q.requests| then
      if q.requests[i].mode == Exclusive then Granted(q)
      else if |q.requests| == 1 then Granted(SetMode(q, i, Exclusive, X))
      else Refused
    else if q.group != NonLock then Refused
    else Granted(Append(q, t, Exclusive, X))
  }

  function DecideTableIS(q: Queue, t: TxnId): Answer {
    if Find(q.requests, t) < |q.requests| then Granted(q)
    else if q.group == X then Refused
    else Granted(Append(q, t, IntentionShared, if q.group == NonLock then IS else q.group))
  }

  function DecideTableIX(q: Queue, t: TxnId): Answer {
    var i := Find(q.requests, t);
    if i < |q.requests| then
      var m := q.requests[i].mode;
      if m == IntentionExclusive || m == SharedIntentionExclusive || m == Exclusive then Granted(q)
      else if m == Shared && q.sharedNum == 1 then
        Granted(SetMode(q, i, SharedIntentionExclusive, SIX).(ixNum := q.ixNum + 1))
      else if m == IntentionShared && (q.group == IS || q.group == IX) then
        Granted(SetMode(q, i, IntentionExclusive, IX).(ixNum := q.ixNum + 1))
      else Refused
    else if q.group == S || q.group == SIX || q.group == X then Refused
    else Granted(Append(q, t, IntentionExclusive, IX).(ixNum := q.ixNum + 1))
  }

  function Decide(q: Queue, t: TxnId, w: Want): Answer {
    match w
    case RecordShared => DecideRecordShared(q, t)
    case RecordExclusive => DecideRecordExclusive(q, t)
    case TableShared => DecideTableShared(q, t)
    case TableExclusive => DecideTableExclusive(q, t)
    case TableIS => DecideTableIS(q, t)
    case TableIX => DecideTableIX(q, t)
  }

  function WantedMode(w: Want): LockMode {
    match w
    case RecordShared => Shared
    case RecordExclusive => Exclusive
    case TableShared => Shared
    case TableExclusive => Exclusive
    case TableIS => IntentionShared
    case TableIX => IntentionExclusive
  }

  function Without(rs: seq<Request>, i: nat): seq<Request>
    requires i < |rs|
  {
    rs[..i] + rs[i + 1..]
  }

  /** The highest rank in the queue, starting the search at IS as `unlock` does. */
  function TopRank(rs: seq<Request>): (n: int)
    ensures n >= ModeRank(IntentionShared)
    ensures forall i :: 0 <= i < |rs| ==> ModeRank(rs[i].mode) <= n
    ensures n == ModeRank(IntentionShared) || exists i :: 0 <= i < |rs| && ModeRank(rs[i].mode) == n
  {
    if rs == [] then ModeRank(IntentionShared)
    else
      assert rs == rs[..|rs| - 1] + [rs[|rs| - 1]];
      Max(TopRank(rs[..|rs| - 1]), ModeRank(rs[|rs| - 1].mode))
  }

  /** `unlock` for a transaction found at index i: the counters follow the removed
      mode, and the group mode is the top rank cast, one up, into the other enum. */
  function Release(q: Queue, t: TxnId): Queue {
    var i := Find(q.requests, t);
    if i == |q.requests| then q
    else
      var m := q.requests[i].mode;
      var rest := Without(q.requests, i);
      Queue(rest,
            if rest == [] then NonLock else GroupFromRank(TopRank(rest) + 1),
            if m == Shared || m == SharedIntentionExclusive then q.sharedNum - 1 else q.sharedNum,
            if m == IntentionExclusive || m == SharedIntentionExclusive then q.ixNum - 1 else q.ixNum)
  }

  // ---------- the inductive invariant ----------

  predicate CountsAsShared(m: LockMode) {
    m == Shared || m == SharedIntentionExclusive
  }

  predicate CountsAsIX(m: LockMode) {
    m == IntentionExclusive || m == SharedIntentionExclusive
  }

  function Count(rs: seq<Request>, p: LockMode -> bool): nat {
    if rs == [] then 0 else (if p(rs[0].mode) then 1 else 0) + Count(rs[1..], p)
  }

  ghost predicate OnePerTxn(rs: seq<Request>) {
    forall i, j :: 0 <= i < j < |rs| ==> rs[i].txn != rs[j].txn
  }

  ghost predicate PairwiseCompatible(rs: seq<Request>) {
    forall i, j :: 0 <= i < |rs| && 0 <= j < |rs| && i != j ==> Compatible(rs[i].mode, rs[j].mode)
  }

  /** Group mode g is not too weak for a queue holding mode m. It may be too strong:
      after `unlock`, a queue of IS requests is marked S and one with IX is marked X. */
  predicate Covers(g: GroupMode, m: LockMode) {
    match m
    case Exclusive => g == X
    case SharedIntentionExclusive => g == SIX
    case IntentionExclusive => g == IX || g == X
    case Shared => g == S
    case IntentionShared => g != NonLock
  }

  ghost predicate GroupCovers(q: Queue) {
    && (q.requests == [] <==> q.group == NonLock)
    && forall i :: 0 <= i < |q.requests| ==> Covers(q.group, q.requests[i].mode)
  }

  ghost predicate CountersCover(q: Queue) {
    && Count(q.requests, CountsAsShared) <= q.sharedNum
    && Count(q.requests, CountsAsIX) <= q.ixNum
  }

  ghost predicate QueueOk(q: Queue) {
    && OnePerTxn(q.requests)
    && PairwiseCompatible(q.requests)
    && GroupCovers(q)
    && CountersCover(q)
  }

  // ---------- counting ----------

  lemma {:induction false} CountConcat(a: seq<Request>, b: seq<Request>, p: LockMode -> bool)
    ensures Count(a + b, p) == Count(a, p) + Count(b, p)
  {
    if a == [] {
      assert a + b == b;
    } else {
      assert (a + b)[1..] == a[1..] + b;
      CountConcat(a[1..], b, p);
    }
  }

  lemma CountAt(rs: seq<Request>, i: nat, p: LockMode -> bool)
    requires i < |rs|
    ensures Count(rs, p) == Count(rs[..i], p) + (if p(rs[i].mode) then 1 else 0) + Count(rs[i + 1..], p)
  {
    CountMiddle(rs[..i], rs[i], rs[i + 1..], p);
    assert rs[..i] + ([rs[i]] + rs[i + 1..]) == rs;
  }

  lemma CountMiddle(a: seq<Request>, r: Request, b: seq<Request>, p: LockMode -> bool)
    ensures Count(a + ([r] + b), p) == Count(a, p) + (if p(r.mode) then 1 else 0) + Count(b, p)
  {
    CountConcat(a, [r] + b, p);
    CountCons(r, b, p);
  }

  lemma CountCons(r: Request, rs: seq<Request>, p: LockMode -> bool)
    ensures Count([r] + rs, p) == (if p(r.mode) then 1 else 0) + Count(rs, p)
  {
    assert ([r] + rs)[1..] == rs;
  }

  lemma CountUpdate(rs: seq<Request>, i: nat, r: Request, p: LockMode -> bool)
    requires i < |rs|
    ensures Count(rs[i := r], p)
         == Count(rs, p) - (if p(rs[i].mode) then 1 else 0) + (if p(r.mode) then 1 else 0)
  {
    CountAt(rs, i, p);
    CountAt(rs[i := r], i, p);
    assert rs[i := r][..i] == rs[..i] && rs[i := r][i + 1..] == rs[i + 1..];
  }

  lemma {:induction false} CountPositive(rs: seq<Request>, i: nat, p: LockMode -> bool)
    requires i < |rs| && p(rs[i].mode)
    ensures Count(rs, p) >= 1
  {
    CountAt(rs, i, p);
  }

  /** A counter of one means that nobody else holds such a mode. */
  lemma CountOne(rs: seq<Request>, i: nat, j: nat, p: LockMode -> bool)
    requires i < |rs| && j < |rs| && i != j
    requires p(rs[i].mode) && p(rs[j].mode)
    ensures Count(rs, p) >= 2
  {
    CountAt(rs, i, p);
    if j < i {
      CountPositive(rs[..i], j, p);
    } else {
      CountPositive(rs[i + 1..], j - i - 1, p);
    }
  }

  // ---------- what every queue operation keeps ----------

  /** The requests of every transaction but t are the same in both queues. */
  ghost predicate OthersSame(q: Queue, r: Queue, t: TxnId) {
    forall u: TxnId :: u != t ==> ModeOf(q, u) == ModeOf(r, u)
  }

  /** Record queues only ever hold S and X, and their group mode is exact. */
  ghost predicate RecordModes(q: Queue) {
    && RowModes(q.requests)
    && (q.group == NonLock || q.group == S || q.group == X)
    && (q.group == X ==> |q.requests| == 1 && q.requests[0].mode == Exclusive)
  }

  ghost predicate RowModes(rs: seq<Request>) {
    forall i :: 0 <= i < |rs| ==> rs[i].mode == Shared || rs[i].mode == Exclusive
  }

  lemma ModeOfMember(q: Queue, i: nat)
    requires OnePerTxn(q.requests) && i < |q.requests|
    ensures ModeOf(q, q.requests[i].txn) == Some(q.requests[i].mode)
  {
  }

  lemma FindIs(rs: seq<Request>, u: TxnId, i: nat)
    requires i <= |rs| && (i < |rs| ==> rs[i].txn == u)
    requires forall j :: 0 <= j < i ==> rs[j].txn != u
    ensures Find(rs, u) == i
  {
    var k := Find(rs, u);
    assert !(k < i) && !(i < k);
  }

  lemma FindAppend(rs: seq<Request>, r: Request, u: TxnId)
    ensures Find(rs + [r], u) == if Find(rs, u) < |rs| then Find(rs, u) else if r.txn == u then |rs| else |rs| + 1
  {
    FindIs(rs + [r], u, if Find(rs, u) < |rs| then Find(rs, u) else if r.txn == u then |rs| else |rs| + 1);
  }

  lemma AppendCount(rs: seq<Request>, r: Request, p: LockMode -> bool)
    ensures Count(rs + [r], p) == Count(rs, p) + if p(r.mode) then 1 else 0
  {
    CountConcat(rs, [r], p);
    CountCons(r, [], p);
    assert [r] + [] == [r];
  }

  lemma AppendShape(rs: seq<Request>, r: Request)
    requires OnePerTxn(rs) && PairwiseCompatible(rs) && Find(rs, r.txn) == |rs|
    requires forall i :: 0 <= i < |rs| ==> Compatible(r.mode, rs[i].mode)
    ensures OnePerTxn(rs + [r]) && PairwiseCompatible(rs + [r])
  {
  }

  lemma SetModeShape(rs: seq<Request>, i: nat, m: LockMode)
    requires OnePerTxn(rs) && PairwiseCompatible(rs) && i < |rs|
    requires forall j :: 0 <= j < |rs| && j != i ==> Compatible(m, rs[j].mode)
    ensures OnePerTxn(rs[i := rs[i].(mode := m)]) && PairwiseCompatible(rs[i := rs[i].(mode := m)])
  {
  }

  lemma AppendKeeps(q: Queue, t: TxnId, m: LockMode, r: Queue)
    requires QueueOk(q) && Find(q.requests, t) == |q.requests|
    requires r.requests == q.requests + [Request(t, m)]
    requires forall i :: 0 <= i < |q.requests| ==> Compatible(m, q.requests[i].mode)
    requires forall i :: 0 <= i < |q.requests| ==> Covers(r.group, q.requests[i].mode)
    requires Covers(r.group, m)
    requires r.sharedNum >= q.sharedNum + if CountsAsShared(m) then 1 else 0
    requires r.ixNum >= q.ixNum + if CountsAsIX(m) then 1 else 0
    ensures QueueOk(r) && OthersSame(q, r, t) && ModeOf(r, t) == Some(m)
  {
    AppendCount(q.requests, Request(t, m), CountsAsShared);
    AppendCount(q.requests, Request(t, m), CountsAsIX);
    AppendShape(q.requests, Request(t, m));
    forall u: TxnId ensures u != t ==> ModeOf(q, u) == ModeOf(r, u) {
      FindAppend(q.requests, Request(t, m), u);
    }
    FindAppend(q.requests, Request(t, m), t);
  }

  lemma FindSetMode(rs: seq<Request>, i: nat, m: LockMode, u: TxnId)
    requires i < |rs|
    ensures Find(rs[i := rs[i].(mode := m)], u) == Find(rs, u)
  {
    var ss := rs[i := rs[i].(mode := m)];
    assert forall j :: 0 <= j < |rs| ==> ss[j].txn == rs[j].txn;
    FindIs(ss, u, Find(rs, u));
  }

  lemma SetModeKeeps(q: Queue, i: nat, m: LockMode, r: Queue)
    requires QueueOk(q) && i < |q.requests|
    requires r.requests == q.requests[i := q.requests[i].(mode := m)]
    requires forall j :: 0 <= j < |q.requests| && j != i ==> Compatible(m, q.requests[j].mode)
    requires forall j :: 0 <= j < |q.requests| && j != i ==> Covers(r.group, q.requests[j].mode)
    requires Covers(r.group, m)
    requires r.sharedNum >= q.sharedNum + if CountsAsShared(m) && !CountsAsShared(q.requests[i].mode) then 1 else 0
    requires r.ixNum >= q.ixNum + if CountsAsIX(m) && !CountsAsIX(q.requests[i].mode) then 1 else 0
    ensures QueueOk(r) && OthersSame(q, r, q.requests[i].txn) && ModeOf(r, q.requests[i].txn) == Some(m)
  {
    SetModeShape(q.requests, i, m);
    SetModeFinds(q, i, m, r);
    SetModeCounts(q, i, m, r);
    forall j | 0 <= j < |r.requests| ensures Covers(r.group, r.requests[j].mode) {
      assert j != i ==> r.requests[j] == q.requests[j];
    }
  }

  lemma SetModeCounts(q: Queue, i: nat, m: LockMode, r: Queue)
    requires CountersCover(q) && i < |q.requests| && r.requests == q.requests[i := q.requests[i].(mode := m)]
    requires r.sharedNum >= q.sharedNum + if CountsAsShared(m) && !CountsAsShared(q.requests[i].mode) then 1 else 0
    requires r.ixNum >= q.ixNum + if CountsAsIX(m) && !CountsAsIX(q.requests[i].mode) then 1 else 0
    ensures CountersCover(r)
  {
    CountUpdate(q.requests, i, r.requests[i], CountsAsShared);
    CountUpdate(q.requests, i, r.requests[i], CountsAsIX);
  }

  lemma SetModeFinds(q: Queue, i: nat, m: LockMode, r: Queue)
    requires OnePerTxn(q.requests) && i < |q.requests| && r.requests == q.requests[i := q.requests[i].(mode := m)]
    ensures OthersSame(q, r, q.requests[i].txn) && ModeOf(r, q.requests[i].txn) == Some(m)
  {
    forall u: TxnId ensures Find(r.requests, u) == Find(q.requests, u) {
      FindSetMode(q.requests, i, m, u);
    }
    FindIs(q.requests, q.requests[i].txn, i);
  }

  /** If the counter for a kind of mode is one, the holder at i is the only one. */
  lemma SoleHolder(q: Queue, i: nat, p: LockMode -> bool)
    requires i < |q.requests| && p(q.requests[i].mode) && Count(q.requests, p) <= 1
    ensures forall j :: 0 <= j < |q.requests| && j != i ==> !p(q.requests[j].mode)
  {
    forall j | 0 <= j < |q.requests| && j != i ensures !p(q.requests[j].mode) {
      if p(q.requests[j].mode) {
        CountOne(q.requests, i, j, p);
      }
    }
  }

  predicate OnRecords(w: Want) {
    w == RecordShared || w == RecordExclusive
  }

  lemma NewcomerKeeps(q: Queue, t: TxnId, w: Want)
    requires QueueOk(q) && Decide(q, t, w).Granted? && Find(q.requests, t) == |q.requests|
    ensures var r := Decide(q, t, w).queue;
      QueueOk(r) && OthersSame(q, r, t) && ModeOf(r, t) == Some(WantedMode(w))
  {
    var r := Decide(q, t, w).queue;
    forall i | 0 <= i < |q.requests|
      ensures Compatible(WantedMode(w), q.requests[i].mode) && Covers(r.group, q.requests[i].mode)
    {
      assert Covers(q.group, q.requests[i].mode);
    }
    AppendKeeps(q, t, WantedMode(w), r);
  }

  lemma HolderKeeps(q: Queue, t: TxnId, w: Want)
    requires QueueOk(q) && Decide(q, t, w).Granted? && Find(q.requests, t) < |q.requests|
    requires OnRecords(w) ==> RecordModes(q)
    ensures var r := Decide(q, t, w).queue;
      QueueOk(r) && OthersSame(q, r, t) && ModeOf(r, t).Some?
  {
    var r := Decide(q, t, w).queue;
    var i := Find(q.requests, t);
    if r != q {
      var m := r.requests[i].mode;
      if w == TableShared && q.requests[i].mode == IntentionExclusive {
        SoleHolder(q, i, CountsAsIX);
      } else if w == TableIX && q.requests[i].mode == Shared {
        SoleHolder(q, i, CountsAsShared);
      }
      forall j | 0 <= j < |q.requests| && j != i
        ensures Compatible(m, q.requests[j].mode) && Covers(r.group, q.requests[j].mode)
      {
        assert Covers(q.group, q.requests[j].mode);
        assert Compatible(q.requests[i].mode, q.requests[j].mode);
      }
      SetModeKeeps(q, i, m, r);
    }
  }

  /** Soundness of every grant: whichever lock function grants, the queue stays
      pairwise compatible and covered although group modes and counters drift,
      nobody else's request changes, and the requester now holds at least what it
      asked for and at least what it held. */
  lemma GrantKeeps(q: Queue, t: TxnId, w: Want)
    requires QueueOk(q) && Decide(q, t, w).Granted?
    requires OnRecords(w) ==> RecordModes(q)
    ensures var r := Decide(q, t, w).queue;
      && QueueOk(r)
      && OthersSame(q, r, t)
      && ModeOf(r, t).Some?
      && AtLeast(ModeOf(r, t).value, WantedMode(w))
      && (ModeOf(q, t).Some? ==> AtLeast(ModeOf(r, t).value, ModeOf(q, t).value))
      && (OnRecords(w) ==> RecordModes(r))
  {
    if Find(q.requests, t) == |q.requests| {
      NewcomerKeeps(q, t, w);
      NewcomerStrength(q, t, w);
    } else {
      HolderKeeps(q, t, w);
      HolderStrength(q, t, w);
    }
  }

  lemma NewcomerStrength(q: Queue, t: TxnId, w: Want)
    requires GroupCovers(q) && Decide(q, t, w).Granted? && Find(q.requests, t) == |q.requests|
    requires OnRecords(w) ==> RecordModes(q)
    ensures var r := Decide(q, t, w).queue; ModeOf(r, t) == Some(WantedMode(w)) && (OnRecords(w) ==> RecordModes(r))
  {
    FindAppend(q.requests, Request(t, WantedMode(w)), t);
  }

  lemma HolderStrength(q: Queue, t: TxnId, w: Want)
    requires Decide(q, t, w).Granted? && Find(q.requests, t) < |q.requests|
    requires OnRecords(w) ==> RecordModes(q)
    ensures var r, i := Decide(q, t, w).queue, Find(q.requests, t);
      && |r.requests| == |q.requests| && ModeOf(r, t) == Some(r.requests[i].mode)
      && AtLeast(r.requests[i].mode, WantedMode(w)) && AtLeast(r.requests[i].mode, q.requests[i].mode)
      && (OnRecords(w) ==> RecordModes(r))
  {
    var r, i := Decide(q, t, w).queue, Find(q.requests, t);
    if r != q {
      FindSetMode(q.requests, i, r.requests[i].mode, t);
    }
  }

  lemma FindRemove(rs: seq<Request>, i: nat, u: TxnId)
    requires OnePerTxn(rs) && i < |rs|
    ensures var rest := Without(rs, i);
      if u == rs[i].txn then Find(rest, u) == |rest|
      else if Find(rs, u) == |rs| then Find(rest, u) == |rest|
      else Find(rest, u) < |rest| && rest[Find(rest, u)] == rs[Find(rs, u)]
  {
    var rest := Without(rs, i);
    var a, b := Find(rs, u), Find(rest, u);
    if b < |rest| {
      assert rest[b] == if b < i then rs[b] else rs[b + 1];
    }
    if a < |rs| && a != i {
      assert rest[if a < i then a else a - 1] == rs[a];
    }
  }

  lemma WithoutShape(rs: seq<Request>, i: nat)
    requires OnePerTxn(rs) && PairwiseCompatible(rs) && i < |rs|
    ensures OnePerTxn(Without(rs, i)) && PairwiseCompatible(Without(rs, i))
    ensures forall j :: 0 <= j < |Without(rs, i)| ==> Without(rs, i)[j].mode != Exclusive
  {
    var ss := Without(rs, i);
    forall j | 0 <= j < |ss| ensures ss[j].mode != Exclusive {
      assert Compatible(rs[if j < i then j else j + 1].mode, rs[i].mode);
    }
    forall j, k | 0 <= j < k < |ss| ensures ss[j].txn != ss[k].txn {
      assert rs[if j < i then j else j + 1].txn != rs[if k < i then k else k + 1].txn;
    }
    forall j, k | 0 <= j < |ss| && 0 <= k < |ss| && j != k ensures Compatible(ss[j].mode, ss[k].mode) {
      assert Compatible(rs[if j < i then j else j + 1].mode, rs[if k < i then k else k + 1].mode);
    }
  }

  lemma WithoutCount(rs: seq<Request>, i: nat, p: LockMode -> bool)
    requires i < |rs|
    ensures Count(Without(rs, i), p) == Count(rs, p) - if p(rs[i].mode) then 1 else 0
  {
    CountAt(rs, i, p);
    CountConcat(rs[..i], rs[i + 1..], p);
  }

  /** What `unlock` leaves: the transaction is gone, the others keep their requests,
      and the miscast group mode is still strong enough for what remains. */
  lemma ReleaseKeeps(q: Queue, t: TxnId)
    requires QueueOk(q)
    ensures QueueOk(Release(q, t))
    ensures OthersSame(q, Release(q, t), t)
    ensures ModeOf(Release(q, t), t) == None
    ensures RecordModes(q) ==> RecordModes(Release(q, t))
  {
    var i := Find(q.requests, t);
    if i < |q.requests| {
      ReleaseFound(q, Release(q, t), i);
    }
  }

  /** r is q without its request number i. */
  ghost predicate ReleasedAt(q: Queue, r: Queue, i: nat) {
    && i < |q.requests| && r.requests == Without(q.requests, i)
    && r.group == (if r.requests == [] then NonLock else GroupFromRank(TopRank(r.requests) + 1))
    && r.sharedNum == (if CountsAsShared(q.requests[i].mode) then q.sharedNum - 1 else q.sharedNum)
    && r.ixNum == (if CountsAsIX(q.requests[i].mode) then q.ixNum - 1 else q.ixNum)
  }

  lemma ReleaseFound(q: Queue, r: Queue, i: nat)
    requires QueueOk(q) && ReleasedAt(q, r, i)
    ensures QueueOk(r) && OthersSame(q, r, q.requests[i].txn) && ModeOf(r, q.requests[i].txn) == None
    ensures RecordModes(q) ==> RecordModes(r)
  {
    ReleaseShape(q, r, i);
    ReleaseCounts(q, r, i);
    ReleaseFinds(q, r, i);
    ReleaseRow(q, r, i);
  }

  lemma ReleaseShape(q: Queue, r: Queue, i: nat)
    requires QueueOk(q) && i < |q.requests| && r.requests == Without(q.requests, i)
    requires r.group == if r.requests == [] then NonLock else GroupFromRank(TopRank(r.requests) + 1)
    ensures OnePerTxn(r.requests) && PairwiseCompatible(r.requests) && GroupCovers(r)
    ensures forall j :: 0 <= j < |r.requests| ==> r.requests[j].mode != Exclusive
  {
    WithoutShape(q.requests, i);
    ReleaseCovers(r.requests);
  }

  lemma ReleaseCounts(q: Queue, r: Queue, i: nat)
    requires CountersCover(q) && i < |q.requests| && r.requests == Without(q.requests, i)
    requires r.sharedNum == if CountsAsShared(q.requests[i].mode) then q.sharedNum - 1 else q.sharedNum
    requires r.ixNum == if CountsAsIX(q.requests[i].mode) then q.ixNum - 1 else q.ixNum
    ensures CountersCover(r)
  {
    WithoutCount(q.requests, i, CountsAsShared);
    WithoutCount(q.requests, i, CountsAsIX);
  }

  lemma ReleaseRow(q: Queue, r: Queue, i: nat)
    requires i < |q.requests| && r.requests == Without(q.requests, i)
    requires forall j :: 0 <= j < |r.requests| ==> r.requests[j].mode != Exclusive
    requires r.group == if r.requests == [] then NonLock else GroupFromRank(TopRank(r.requests) + 1)
    ensures RecordModes(q) ==> RecordModes(r)
  {
    if RecordModes(q) {
      SharedTop(r.requests);
    }
  }

  /** Where only S remains, the cast gives S. */
  lemma SharedTop(rs: seq<Request>)
    requires RowModes(rs) && forall j :: 0 <= j < |rs| ==> rs[j].mode != Exclusive
    ensures GroupFromRank(TopRank(rs) + 1) == S
  {
  }

  lemma ReleaseFinds(q: Queue, r: Queue, i: nat)
    requires OnePerTxn(q.requests) && i < |q.requests| && r.requests == Without(q.requests, i)
    ensures OthersSame(q, r, q.requests[i].txn) && ModeOf(r, q.requests[i].txn) == None
  {
    forall u: TxnId ensures u != q.requests[i].txn ==> ModeOf(q, u) == ModeOf(r, u) {
      FindRemove(q.requests, i, u);
    }
    FindRemove(q.requests, i, q.requests[i].txn);
  }

  /** n is the top rank of a queue without X; m and the mode of rank n sit in it. */
  lemma CastCovers(m: LockMode, n: int)
    requires m != Exclusive && ModeRank(m) <= n && 2 <= n <= 4
    requires n == 3 ==> Compatible(m, IntentionExclusive)
    requires n == 4 ==> m == SharedIntentionExclusive || Compatible(m, SharedIntentionExclusive)
    ensures Covers(GroupFromRank(n + 1), m)
  {
  }

  lemma ReleaseCovers(rs: seq<Request>)
    requires PairwiseCompatible(rs)
    requires forall j :: 0 <= j < |rs| ==> rs[j].mode != Exclusive
    ensures forall j :: 0 <= j < |rs| ==> Covers(GroupFromRank(TopRank(rs) + 1), rs[j].mode)
    ensures GroupFromRank(TopRank(rs) + 1) != NonLock
  {
    var n := TopRank(rs);
    if n != 2 {
      var k :| 0 <= k < |rs| && ModeRank(rs[k].mode) == n;
      forall j | 0 <= j < |rs| ensures Covers(GroupFromRank(n + 1), rs[j].mode) {
        assert k != j ==> Compatible(rs[j].mode, rs[k].mode);
        CastCovers(rs[j].mode, n);
      }
    }
  }

  // ---------- when a compatible request is refused ----------

  /** The mode the queue would carry if `unlock` recomputed it by strength. */
  ghost function ExactGroup(rs: seq<Request>): GroupMode {
    if exists i :: 0 <= i < |rs| && rs[i].mode == Exclusive then X
    else if exists i :: 0 <= i < |rs| && rs[i].mode == SharedIntentionExclusive then SIX
    else if exists i :: 0 <= i < |rs| && rs[i].mode == IntentionExclusive then IX
    else if exists i :: 0 <= i < |rs| && rs[i].mode == Shared then S
    else if rs != [] then IS
    else NonLock
  }

  ghost predicate CompatibleWithAll(m: LockMode, rs: seq<Request>) {
    forall i :: 0 <= i < |rs| ==> Compatible(m, rs[i].mode)
  }

  predicate OnTables(w: Want) {
    w == TableShared || w == TableExclusive || w == TableIS || w == TableIX
  }

  /** A newcomer's table request that is compatible with everything held is granted
      in every mode exactly when the group mode is the exact one. */
  lemma CompatibleIsGranted(q: Queue, t: TxnId)
    requires QueueOk(q) && Find(q.requests, t) == |q.requests|
    ensures (forall w: Want :: OnTables(w) && CompatibleWithAll(WantedMode(w), q.requests) ==> Decide(q, t, w).Granted?)
       <==> q.group == ExactGroup(q.requests)
  {
    var rs := q.requests;
    if q.group == ExactGroup(rs) {
      forall w: Want | OnTables(w) && CompatibleWithAll(WantedMode(w), rs) ensures Decide(q, t, w).Granted? {
      }
    } else if q.group == X {
      assert CompatibleWithAll(WantedMode(TableIS), rs) && Decide(q, t, TableIS) == Refused && OnTables(TableIS);
    } else if q.group == IX {
      assert CompatibleWithAll(WantedMode(TableShared), rs) && OnTables(TableShared);
      assert Decide(q, t, TableShared) == Refused;
    } else {
      assert CompatibleWithAll(WantedMode(TableIX), rs) && Decide(q, t, TableIX) == Refused && OnTables(TableIX);
    }
  }

  /** What a holder ends up with if its request is granted. */
  function Target(held: LockMode, w: Want): LockMode {
    if AtLeast(held, WantedMode(w)) then held
    else if held == IntentionShared || w == TableExclusive then WantedMode(w)
    else SharedIntentionExclusive
  }

  ghost predicate CompatibleWithOthers(m: LockMode, rs: seq<Request>, i: nat) {
    forall j :: 0 <= j < |rs| && j != i ==> Compatible(m, rs[j].mode)
  }

  /** The bookkeeping has not drifted where the upgrade looks at it: the group mode for a
      holder of IS, the counter of its own kind for a holder of S or IX. */
  ghost predicate Tracked(q: Queue, held: LockMode, w: Want) {
    if AtLeast(held, WantedMode(w)) || w == TableExclusive then true
    else
      match held
      case IntentionShared => q.group == IS || q.group == if w == TableShared then S else IX
      case IntentionExclusive => q.ixNum == Count(q.requests, CountsAsIX)
      case Shared => q.sharedNum == Count(q.requests, CountsAsShared)
      case _ => true
  }

  lemma {:induction false} OnlyOne(rs: seq<Request>, i: nat, p: LockMode -> bool)
    requires i < |rs| && p(rs[i].mode) && forall j :: 0 <= j < |rs| && j != i ==> !p(rs[j].mode)
    ensures Count(rs, p) == 1
  {
    CountAt(rs, i, p);
    CountNone(rs[..i], p);
    CountNone(rs[i + 1..], p);
  }

  lemma {:induction false} CountNone(rs: seq<Request>, p: LockMode -> bool)
    requires forall j :: 0 <= j < |rs| ==> !p(rs[j].mode)
    ensures Count(rs, p) == 0
  {
    if rs != [] {
      CountNone(rs[1..], p);
    }
  }

  /** A holder's table request is granted exactly when what it would end up with is
      compatible with all others and the bookkeeping has not drifted. */
  lemma HolderIsGranted(q: Queue, t: TxnId, w: Want)
    requires QueueOk(q) && OnTables(w) && Find(q.requests, t) < |q.requests|
    ensures var i := Find(q.requests, t); var m := q.requests[i].mode;
      Decide(q, t, w).Granted? <==> CompatibleWithOthers(Target(m, w), q.requests, i) && Tracked(q, m, w)
  {
    var i := Find(q.requests, t);
    var m := q.requests[i].mode;
    if AtLeast(m, WantedMode(w)) {
      HeldIsGranted(q, t, w);
    } else if w == TableExclusive {
      assert |q.requests| > 1 ==> !Compatible(Exclusive, q.requests[if i == 0 then 1 else 0].mode);
    } else if m == IntentionShared {
      UpgradeFromIS(q, t, w);
    } else {
      UpgradeToSIX(q, t, w);
    }
  }

  lemma HeldIsGranted(q: Queue, t: TxnId, w: Want)
    requires QueueOk(q) && OnTables(w) && Find(q.requests, t) < |q.requests|
    requires AtLeast(q.requests[Find(q.requests, t)].mode, WantedMode(w))
    ensures Decide(q, t, w).Granted?
    ensures CompatibleWithOthers(q.requests[Find(q.requests, t)].mode, q.requests, Find(q.requests, t))
  {
    var m, n := q.requests[Find(q.requests, t)].mode, WantedMode(w);
    assert Compatible(m, IntentionShared) ==> Compatible(n, IntentionShared);
    assert Compatible(m, IntentionExclusive) ==> Compatible(n, IntentionExclusive);
    assert Compatible(m, Shared) ==> Compatible(n, Shared);
  }

  lemma UpgradeFromIS(q: Queue, t: TxnId, w: Want)
    requires QueueOk(q) && (w == TableShared || w == TableIX) && Find(q.requests, t) < |q.requests|
    requires q.requests[Find(q.requests, t)].mode == IntentionShared
    ensures Decide(q, t, w).Granted? <==>
      CompatibleWithOthers(WantedMode(w), q.requests, Find(q.requests, t)) && Tracked(q, IntentionShared, w)
  {
    assert Compatible(IntentionShared, Shared) && Compatible(IntentionShared, IntentionExclusive);
    assert !Compatible(Shared, IntentionExclusive) && !Compatible(IntentionExclusive, Shared);
    assert !AtLeast(IntentionShared, WantedMode(w));
    if Tracked(q, IntentionShared, w) {
      forall j | 0 <= j < |q.requests| && j != Find(q.requests, t)
        ensures Compatible(WantedMode(w), q.requests[j].mode)
      {
        assert Covers(q.group, q.requests[j].mode);
      }
    }
  }

  lemma UpgradeToSIX(q: Queue, t: TxnId, w: Want)
    requires QueueOk(q) && Find(q.requests, t) < |q.requests|
    requires var m := q.requests[Find(q.requests, t)].mode;
      (w == TableShared && m == IntentionExclusive) || (w == TableIX && m == Shared)
    ensures var i := Find(q.requests, t); var m := q.requests[i].mode;
      Decide(q, t, w).Granted? <==> CompatibleWithOthers(SharedIntentionExclusive, q.requests, i) && Tracked(q, m, w)
  {
    var i := Find(q.requests, t);
    var m := q.requests[i].mode;
    assert Compatible(m, m) && !Compatible(WantedMode(w), m) && !AtLeast(m, WantedMode(w));
    var p: LockMode -> bool := if w == TableShared then CountsAsIX else CountsAsShared;
    if Decide(q, t, w).Granted? {
      CountPositive(q.requests, i, p);
      SoleHolder(q, i, p);
      forall j | 0 <= j < |q.requests| && j != i ensures q.requests[j].mode == IntentionShared {
        assert Compatible(m, q.requests[j].mode);
      }
    }
    if CompatibleWithOthers(SharedIntentionExclusive, q.requests, i) {
      OnlyOne(q.requests, i, p);
    }
  }

  /** A shared row lock is refused exactly when someone else has the record exclusively. */
  lemma SharedRefused(q: Queue, t: TxnId)
    requires QueueOk(q) && RecordModes(q)
    ensures Decide(q, t, RecordShared).Refused? <==> exists u: TxnId :: u != t && ModeOf(q, u) == Some(Exclusive)
  {
    if Decide(q, t, RecordShared).Refused? {
      ModeOfMember(q, 0);
    }
    if u: TxnId :| u != t && ModeOf(q, u) == Some(Exclusive) {
      var k := Find(q.requests, u);
      assert Covers(q.group, q.requests[k].mode);
    }
  }

  /** The exclusive row lock is refused exactly when someone else is in the queue. */
  lemma ExclusiveRefused(q: Queue, t: TxnId)
    requires QueueOk(q) && RecordModes(q)
    ensures Decide(q, t, RecordExclusive).Refused? <==> exists u: TxnId :: u != t && ModeOf(q, u).Some?
  {
    var i := Find(q.requests, t);
    if Decide(q, t, RecordExclusive).Refused? {
      var k := if i == |q.requests| || i != 0 then 0 else 1;
      ModeOfMember(q, k);
      assert q.requests[k].txn != t;
    } else if i < |q.requests| {
      assert Covers(q.group, q.requests[i].mode);
    }
  }

  /** A table lock upgraded from S to X and released leaves the shared counter too high: the
      next transaction, alone in the queue with S, is refused IX. */
  lemma DriftRefuses()
    ensures var q0 := Decide(EmptyQueue, 1, TableShared).queue;
            var q1 := Decide(q0, 1, TableExclusive).queue;
            var q2 := Release(q1, 1);
            var q3 := Decide(q2, 2, TableShared).queue;
            && Decide(EmptyQueue, 1, TableShared).Granted? && Decide(q0, 1, TableExclusive).Granted?
            && q2.requests == [] && q2.sharedNum == 1
            && Decide(q2, 2, TableShared).Granted? && q3.requests == [Request(2, Shared)]
            && Decide(q3, 2, TableIX) == Refused
  {
    var rs := [Request(1, Shared)];
    assert [] + rs == rs;
    FindIs(rs, 1, 0);
    var xs := [Request(1, Exclusive)];
    assert rs[0 := Request(1, Exclusive)] == xs;
    FindIs(xs, 1, 0);
    assert Without(xs, 0) == [];
    var ss := [Request(2, Shared)];
    assert [] + ss == ss;
    FindIs(ss, 2, 0);
  }

  /** Two IX holders, one of them unlocks: a third IX request, compatible with the
      one that remains, is refused because IX is cast to X. */
  lemma MiscastRefuses()
    ensures var q0 := Decide(EmptyQueue, 1, TableIX).queue;
            var q1 := Decide(q0, 2, TableIX).queue;
            var q2 := Release(q1, 2);
            && Decide(EmptyQueue, 1, TableIX).Granted? && Decide(q0, 2, TableIX).Granted?
            && q2.requests == [Request(1, IntentionExclusive)] && q2.group == X
            && CompatibleWithAll(IntentionExclusive, q2.requests)
            && Decide(q2, 3, TableIX) == Refused
  {
    var q0 := Decide(EmptyQueue, 1, TableIX).queue;
    var rs := [Request(1, IntentionExclusive)];
    assert q0.requests == [] + rs == rs;
    FindIs(rs, 2, 1);
    var q1 := Decide(q0, 2, TableIX).queue;
    var both := rs + [Request(2, IntentionExclusive)];
    assert q1.requests == both;
    FindIs(both, 2, 1);
    assert Without(both, 1) == rs;
    assert rs[..0] == [] && TopRank(rs) == 3;
    FindIs(rs, 3, 1);
  }
}
