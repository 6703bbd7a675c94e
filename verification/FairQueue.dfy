/** The fair packet queue of flow/PacketPassFairQueue.c as a state machine over values.

    A flow is named by its address, which is also what breaks ties between equal times.
    The same machine is run with two arithmetics: Wrapping is the code (uint64_t times,
    rebased when they would pass maxTime); Unbounded is the reference scheduler, whose
    times are integers that only grow. */
module FairQueue {
  import opened Wrappers

  const UINT64_MOD: int := 0x1_0000_0000_0000_0000

  type FlowId = nat

  /** packet_weight, the MTU of the output, and FAIRQUEUE_MAX_TIME. */
  datatype Config = Config(weight: nat, mtu: nat, maxTime: nat) {
    predicate Valid() {
      0 < weight && mtu + weight <= maxTime < UINT64_MOD
    }
  }

  datatype Arithmetic = Wrapping | Unbounded

  /** flows is flows_list, queued is queued_tree in tree order, job is schedule_job being set. */
  datatype Queue = Queue(
    flows: seq<FlowId>,
    time: map<FlowId, int>,
    len: map<FlowId, nat>,
    queued: seq<FlowId>,
    sending: Option<FlowId>,
    sendingLen: nat,
    previous: Option<FlowId>,
    job: bool,
    freeing: bool)

  const EMPTY := Queue([], map[], map[], [], None, 0, None, false, false)

  /** What can happen to the queue: a flow's input sends, the output finishes, the
      schedule job runs, a flow is added or freed, freeing starts. */
  datatype Event =
    | Send(flow: FlowId, len: nat)
    | OutputDone
    | ScheduleJob
    | FlowInit(flow: FlowId)
    | FlowFree(flow: FlowId)
    | PrepareFree

  // ----- the queued tree -----

  predicate Less(time: map<FlowId, int>, f: FlowId, g: FlowId)
    requires f in time && g in time
  {
    time[f] < time[g] || (time[f] == time[g] && f < g)
  }

  predicate AllIn(s: seq<FlowId>, time: map<FlowId, int>) {
    forall f | f in s :: f in time
  }

  function TreeInsert(time: map<FlowId, int>, tree: seq<FlowId>, f: FlowId): (r: seq<FlowId>)
    requires AllIn(tree, time) && f in time
  {
    if tree == [] || Less(time, f, tree[0]) then [f] + tree
    else [tree[0]] + TreeInsert(time, tree[1..], f)
  }

  function Remove(s: seq<FlowId>, f: FlowId): (r: seq<FlowId>) {
    if s == [] then []
    else if s[0] == f then s[1..]
    else [s[0]] + Remove(s[1..], f)
  }

  // ----- the handlers -----

  /** The arguments every handler relies on: the maps cover the listed flows. */
  predicate Shape(q: Queue) {
    && q.time.Keys == (set f | f in q.flows)
    && q.len.Keys == q.time.Keys
    && AllIn(q.queued, q.time)
    && (q.sending.Some? ==> q.sending.value in q.time)
    && (q.previous.Some? ==> q.previous.value in q.time)
  }

  function CurrentTime(q: Queue): int
    requires Shape(q)
  {
    if q.sending.Some? then q.time[q.sending.value]
    else if q.queued != [] then
      var first := q.time[q.queued[0]];
      if q.previous.Some? && q.time[q.previous.value] < first then q.time[q.previous.value] else first
    else if q.previous.Some? then q.time[q.previous.value]
    else 0
  }

  /** Whether adding amount to time t would pass maxTime. */
  predicate Overflows(cfg: Config, t: int, amount: nat) {
    amount > cfg.maxTime - t
  }

  /** The time taken off every flow when it does: that of the first queued flow, or the
      finished flow's own. */
  function Subtrahend(time: map<FlowId, int>, tree: seq<FlowId>, f: FlowId): int
    requires AllIn(tree, time) && f in time
  {
    if tree == [] then time[f] else time[tree[0]]
  }

  function Wrap(x: int): int { x % UINT64_MOD }

  /** One flow's time after the subtraction loop. */
  function Rebased(t: int, subtract: int, finished: bool): int {
    if subtract > t && !finished then 0 else Wrap(t - subtract)
  }

  function RebaseAll(time: map<FlowId, int>, f: FlowId, subtract: int): (r: map<FlowId, int>) {
    map g | g in time :: Rebased(time[g], subtract, g == f)
  }

  /** The times once there is room to add amount to that of f; tree is the queue when f finishes. */
  function MakeRoom(cfg: Config, time: map<FlowId, int>, tree: seq<FlowId>, f: FlowId, amount: nat): map<FlowId, int>
    requires AllIn(tree, time) && f in time
  {
    if Overflows(cfg, time[f], amount) then RebaseAll(time, f, Subtrahend(time, tree, f)) else time
  }

  /** increment_sent_flow, as the new times. */
  function IncrementSent(cfg: Config, arith: Arithmetic, time: map<FlowId, int>, tree: seq<FlowId>,
                         f: FlowId, amount: nat): map<FlowId, int>
    requires AllIn(tree, time) && f in time
  {
    match arith
    case Unbounded => time[f := time[f] + amount]
    case Wrapping =>
      var room := MakeRoom(cfg, time, tree, f, amount);
      room[f := Wrap(room[f] + amount)]
  }

  lemma IncrementKeys(cfg: Config, arith: Arithmetic, q: Queue)
    requires Shape(q) && q.sending.Some?
    ensures Shape(AfterOutputDone(cfg, arith, q))
  {
    assert FinishTimes(cfg, arith, q).Keys == q.time.Keys;
  }

  /** schedule: the first queued flow becomes the sending flow. */
  function Schedule(q: Queue): Queue
    requires Shape(q) && q.queued != []
  {
    var f := q.queued[0];
    q.(queued := q.queued[1..], sending := Some(f), sendingLen := q.len[f])
  }

  /** schedule_job_handler; the job leaves the pending list before its handler runs. */
  function AfterScheduleJob(q: Queue): Queue
    requires Shape(q)
  {
    var q1 := q.(job := false, previous := None);
    if q1.queued == [] then q1 else Schedule(q1)
  }

  /** input_handler_send: a flow that just finished keeps its time and stops being the previous
      one; any other flow is raised to the current time. */
  function Raise(q: Queue, f: FlowId): Queue
    requires Shape(q) && f in q.time
  {
    if q.previous == Some(f) then q.(previous := None)
    else q.(time := q.time[f := Max(q.time[f], CurrentTime(q))])
  }

  /** ... and joins the tree. */
  function Enqueue(q: Queue, f: FlowId, len: nat): (r: Queue)
    requires Shape(q) && f in q.time
    ensures r.queued != [] && Shape(r)
  {
    var q1 := Raise(q, f);
    TreeInsertElements(q1.time, q1.queued, f);
    q1.(len := q1.len[f := len], queued := TreeInsert(q1.time, q1.queued, f))
  }

  lemma TreeInsertElements(time: map<FlowId, int>, tree: seq<FlowId>, f: FlowId)
    requires AllIn(tree, time) && f in time
    ensures TreeInsert(time, tree, f) != []
    ensures forall g :: g in TreeInsert(time, tree, f) <==> g in tree || g == f
  {
  }

  function AfterSend(q: Queue, f: FlowId, len: nat): Queue
    requires Shape(q) && f in q.time
  {
    var q1 := Enqueue(q, f, len);
    if q1.sending.None? && !q1.job then Schedule(q1) else q1
  }

  /** What the finished packet costs its flow. */
  function Cost(cfg: Config, q: Queue): nat { cfg.weight + q.sendingLen }

  function FinishTimes(cfg: Config, arith: Arithmetic, q: Queue): map<FlowId, int>
    requires Shape(q) && q.sending.Some?
  {
    IncrementSent(cfg, arith, q.time, q.queued, q.sending.value, Cost(cfg, q))
  }

  /** output_handler_done. */
  function AfterOutputDone(cfg: Config, arith: Arithmetic, q: Queue): Queue
    requires Shape(q) && q.sending.Some?
  {
    q.(time := FinishTimes(cfg, arith, q), sending := None, previous := q.sending, job := true)
  }

  function AfterFlowInit(q: Queue, f: FlowId): Queue {
    q.(flows := q.flows + [f], time := q.time[f := 0], len := q.len[f := 0])
  }

  function AfterFlowFree(q: Queue, f: FlowId): Queue {
    q.(flows := Remove(q.flows, f), time := q.time - {f}, len := q.len - {f},
       queued := Remove(q.queued, f),
       sending := if q.sending == Some(f) then None else q.sending,
       previous := if q.previous == Some(f) then None else q.previous)
  }

  /** The asserted obligations of the queue's users: who may call what, when. */
  predicate Enabled(cfg: Config, q: Queue, e: Event) {
    match e
    case Send(f, len) =>
      f in q.time && q.sending != Some(f) && f !in q.queued && !q.freeing && len <= cfg.mtu
    case OutputDone => q.sending.Some? && !q.freeing
    case ScheduleJob => q.job && !q.freeing
    case FlowInit(f) => f !in q.time && !q.freeing
    case FlowFree(f) => f in q.time && (q.freeing || q.sending != Some(f))
    case PrepareFree => true
  }

  function Step(cfg: Config, arith: Arithmetic, q: Queue, e: Event): Queue
    requires Shape(q) && Enabled(cfg, q, e)
  {
    match e
    case Send(f, len) => AfterSend(q, f, len)
    case OutputDone => AfterOutputDone(cfg, arith, q)
    case ScheduleJob => AfterScheduleJob(q)
    case FlowInit(f) => AfterFlowInit(q, f)
    case FlowFree(f) => AfterFlowFree(q, f)
    case PrepareFree => q.(freeing := true)
  }

  // ----- the invariant -----

  predicate Sorted(time: map<FlowId, int>, s: seq<FlowId>)
    requires AllIn(s, time)
  {
    forall i, j | 0 <= i < j < |s| :: Less(time, s[i], s[j])
  }

  predicate TimesInRange(cfg: Config, arith: Arithmetic, time: map<FlowId, int>) {
    forall f | f in time :: 0 <= time[f] && (arith.Wrapping? ==> time[f] <= cfg.maxTime)
  }

  /** The sending flow is first in time, is out of the tree, and excludes both a
      previous flow and a pending schedule job. */
  predicate SendingFirst(cfg: Config, q: Queue)
    requires Shape(q)
  {
    q.sending.Some? ==>
      && q.sending.value !in q.queued
      && q.previous.None? && !q.job
      && q.sendingLen <= cfg.mtu
      && forall g | g in q.queued :: q.time[q.sending.value] <= q.time[g]
  }

  /** Work conservation: an idle output with nothing scheduled has nothing to send. */
  predicate WorkConserving(q: Queue) {
    !q.freeing && q.sending.None? && !q.job ==> q.queued == []
  }

  predicate Inv(cfg: Config, arith: Arithmetic, q: Queue) {
    CoreInv(cfg, arith, q) && WorkConserving(q)
  }

  predicate CoreInv(cfg: Config, arith: Arithmetic, q: Queue) {
    && Shape(q)
    && Once(q.flows)
    && Sorted(q.time, q.queued)
    && TimesInRange(cfg, arith, q.time)
    && (forall f | f in q.len :: q.len[f] <= cfg.mtu)
    && SendingFirst(cfg, q)
    && (q.previous.Some? ==> q.previous.value !in q.queued && q.job)
  }

  /** Queued, sending or just sent: the flows whose times order the service. */
  predicate Active(q: Queue, f: FlowId) {
    f in q.queued || q.sending == Some(f) || q.previous == Some(f)
  }

  predicate Busy(q: Queue) {
    q.queued != [] || q.sending.Some? || q.previous.Some?
  }

  lemma EmptyInv(cfg: Config, arith: Arithmetic)
    ensures Inv(cfg, arith, EMPTY)
  {
  }

  lemma SortedCons(time: map<FlowId, int>, f: FlowId, s: seq<FlowId>)
    requires f in time && AllIn(s, time) && Sorted(time, s)
    requires forall g | g in s :: Less(time, f, g)
    ensures AllIn([f] + s, time) && Sorted(time, [f] + s)
  {
    var r := [f] + s;
    forall i, j | 0 <= i < j < |r| ensures Less(time, r[i], r[j]) {
      assert r[j] == s[j - 1] && r[j] in s;
      if i > 0 { assert r[i] == s[i - 1]; }
    }
  }

  lemma SortedHead(time: map<FlowId, int>, s: seq<FlowId>)
    requires s != [] && AllIn(s, time) && Sorted(time, s)
    ensures AllIn(s[1..], time) && Sorted(time, s[1..])
    ensures s[0] !in s[1..]
    ensures forall g | g in s[1..] :: Less(time, s[0], g)
  {
    forall g | g in s[1..] ensures Less(time, s[0], g) {
      var i :| 0 <= i < |s[1..]| && s[1..][i] == g;
      assert s[i + 1] == g;
    }
  }

  lemma {:induction false} TreeInsertSorted(time: map<FlowId, int>, tree: seq<FlowId>, f: FlowId)
    requires AllIn(tree, time) && f in time && f !in tree && Sorted(time, tree)
    ensures AllIn(TreeInsert(time, tree, f), time)
    ensures Sorted(time, TreeInsert(time, tree, f))
  {
    TreeInsertElements(time, tree, f);
    if tree == [] {
    } else {
      SortedHead(time, tree);
      if Less(time, f, tree[0]) {
        SortedCons(time, f, tree);
      } else {
        TreeInsertSorted(time, tree[1..], f);
        TreeInsertElements(time, tree[1..], f);
        SortedCons(time, tree[0], TreeInsert(time, tree[1..], f));
      }
    }
  }

  lemma {:induction false} RemoveElements(s: seq<FlowId>, f: FlowId)
    requires Once(s)
    ensures Once(Remove(s, f))
    ensures forall g :: g in Remove(s, f) <==> g in s && g != f
  {
    if s != [] && s[0] != f {
      RemoveElements(s[1..], f);
      assert s[0] !in s[1..];
      assert s == [s[0]] + s[1..];
    }
  }

  lemma {:induction false} RemoveAbsent(s: seq<FlowId>, f: FlowId)
    requires f !in s
    ensures Remove(s, f) == s
  {
    if s != [] { RemoveAbsent(s[1..], f); }
  }

  lemma {:induction false} RemoveSorted(time: map<FlowId, int>, s: seq<FlowId>, f: FlowId)
    requires AllIn(s, time) && Sorted(time, s)
    ensures AllIn(Remove(s, f), time) && Sorted(time, Remove(s, f))
    ensures forall g :: g in Remove(s, f) <==> g in s && g != f
  {
    if s != [] {
      SortedHead(time, s);
      assert s == [s[0]] + s[1..];
      if s[0] != f {
        RemoveSorted(time, s[1..], f);
        SortedCons(time, s[0], Remove(s[1..], f));
      }
    }
  }

  lemma WrapInRange(x: int)
    requires 0 <= x < UINT64_MOD
    ensures Wrap(x) == x
  {
  }

  /** An underflow followed by an overflow lands on the integer result. */
  lemma WrapBack(x: int, amount: int)
    requires -UINT64_MOD < x < UINT64_MOD && 0 <= x + amount < UINT64_MOD
    ensures Wrap(Wrap(x) + amount) == x + amount
  {
    if x < 0 {
      assert Wrap(x) == x + UINT64_MOD;
      assert Wrap(x) + amount == x + amount + UINT64_MOD;
    }
  }

  /** The finished flow is out of the tree and not behind any flow in it. */
  predicate Finished(time: map<FlowId, int>, tree: seq<FlowId>, f: FlowId)
    requires AllIn(tree, time)
  {
    f in time && f !in tree && Sorted(time, tree) && forall g | g in tree :: time[f] <= time[g]
  }

  lemma SubtrahendFirst(cfg: Config, time: map<FlowId, int>, tree: seq<FlowId>, f: FlowId)
    requires AllIn(tree, time) && Finished(time, tree, f) && TimesInRange(cfg, Wrapping, time)
    ensures time[f] <= Subtrahend(time, tree, f) <= cfg.maxTime
    ensures forall g | g in tree :: Subtrahend(time, tree, f) <= time[g]
  {
    if tree != [] {
      SortedHead(time, tree);
      assert tree == [tree[0]] + tree[1..];
      assert tree[0] in tree;
    }
  }

  /** The rebase in one place: for a flow that just finished and is not behind any queued
      flow, the wrapped subtraction and addition give the integer result, no queued flow
      is clamped, and every time stays in range. */
  lemma RebaseExact(cfg: Config, time: map<FlowId, int>, tree: seq<FlowId>, f: FlowId, amount: nat)
    requires cfg.Valid() && amount <= cfg.maxTime
    requires AllIn(tree, time) && Finished(time, tree, f) && TimesInRange(cfg, Wrapping, time)
    ensures
      var r := IncrementSent(cfg, Wrapping, time, tree, f, amount);
      var subtract := if Overflows(cfg, time[f], amount) then Subtrahend(time, tree, f) else 0;
      && r.Keys == time.Keys && TimesInRange(cfg, Wrapping, r)
      && r[f] == time[f] + amount - subtract
      && (forall g | g in tree :: subtract <= time[g] && r[g] == time[g] - subtract)
      && (forall g | g in time && g != f :: r[g] == Max(0, time[g] - subtract))
  {
    var r := IncrementSent(cfg, Wrapping, time, tree, f, amount);
    SubtrahendFirst(cfg, time, tree, f);
    assert r.Keys == time.Keys;
    var subtract := if Overflows(cfg, time[f], amount) then Subtrahend(time, tree, f) else 0;
    assert r[f] == time[f] + amount - subtract by {
      WrapInRange(time[f]);
      WrapBack(time[f] - subtract, amount);
    }
    forall g | g in time && g != f
      ensures r[g] == Max(0, time[g] - subtract)
      ensures 0 <= r[g] <= cfg.maxTime
    {
      if subtract <= time[g] { WrapInRange(time[g] - subtract); }
    }
  }

  // ----- every step keeps the invariant -----

  /** Raising one unqueued flow leaves the tree sorted. */
  lemma SortedElsewhere(time: map<FlowId, int>, s: seq<FlowId>, f: FlowId, t: int)
    requires AllIn(s, time) && Sorted(time, s) && f !in s
    ensures AllIn(s, time[f := t]) && Sorted(time[f := t], s)
  {
    forall i, j | 0 <= i < j < |s| ensures Less(time[f := t], s[i], s[j]) {
      assert Less(time, s[i], s[j]);
    }
  }

  lemma RaiseKeepsCore(cfg: Config, arith: Arithmetic, q: Queue, f: FlowId)
    requires cfg.Valid() && CoreInv(cfg, arith, q)
    requires f in q.time && q.sending != Some(f) && f !in q.queued
    ensures CoreInv(cfg, arith, Raise(q, f))
    ensures Raise(q, f).previous != Some(f)
    ensures Raise(q, f).sending.Some? ==> q.time[q.sending.value] <= Raise(q, f).time[f]
  {
    var r := Raise(q, f);
    assert r.time.Keys == q.time.Keys;
    if q.previous != Some(f) {
      SortedElsewhere(q.time, q.queued, f, Max(q.time[f], CurrentTime(q)));
    }
  }

  lemma QueueingKeepsCore(cfg: Config, arith: Arithmetic, q: Queue, f: FlowId, len: nat)
    requires cfg.Valid() && CoreInv(cfg, arith, q) && len <= cfg.mtu
    requires f in q.time && q.sending != Some(f) && q.previous != Some(f) && f !in q.queued
    requires q.sending.Some? ==> q.time[q.sending.value] <= q.time[f]
    ensures CoreInv(cfg, arith, q.(len := q.len[f := len], queued := TreeInsert(q.time, q.queued, f)))
  {
    TreeInsertSorted(q.time, q.queued, f);
    TreeInsertElements(q.time, q.queued, f);
    assert q.len[f := len].Keys == q.len.Keys;
  }

  lemma ScheduleKeepsCore(cfg: Config, arith: Arithmetic, q: Queue)
    requires cfg.Valid() && CoreInv(cfg, arith, q)
    requires q.queued != [] && q.previous.None? && !q.job
    ensures CoreInv(cfg, arith, Schedule(q))
  {
    SortedHead(q.time, q.queued);
  }

  lemma SendKeepsInv(cfg: Config, arith: Arithmetic, q: Queue, f: FlowId, len: nat)
    requires cfg.Valid() && Inv(cfg, arith, q) && Enabled(cfg, q, Send(f, len))
    ensures Inv(cfg, arith, AfterSend(q, f, len))
  {
    RaiseKeepsCore(cfg, arith, q, f);
    QueueingKeepsCore(cfg, arith, Raise(q, f), f, len);
    var q1 := Enqueue(q, f, len);
    if q1.sending.None? && !q1.job {
      ScheduleKeepsCore(cfg, arith, q1);
    }
  }

  lemma EnqueueHead(cfg: Config, arith: Arithmetic, q: Queue, f: FlowId, len: nat)
    requires cfg.Valid() && Inv(cfg, arith, q) && Enabled(cfg, q, Send(f, len))
    ensures var queued := Enqueue(q, f, len).queued; queued[0] !in queued[1..]
  {
    RaiseKeepsCore(cfg, arith, q, f);
    QueueingKeepsCore(cfg, arith, Raise(q, f), f, len);
    SortedHead(Raise(q, f).time, Enqueue(q, f, len).queued);
  }

  /** The current time is a lower bound on the active flows and is attained by one of them. */
  lemma CurrentTimeBelow(q: Queue)
    requires Shape(q) && Sorted(q.time, q.queued)
    requires q.sending.Some? ==>
      q.previous.None? && forall g | g in q.queued :: q.time[q.sending.value] <= q.time[g]
    ensures forall g | Active(q, g) :: CurrentTime(q) <= q.time[g]
    ensures if Busy(q) then exists g :: Active(q, g) && CurrentTime(q) == q.time[g] else CurrentTime(q) == 0
  {
    if q.queued != [] {
      SortedHead(q.time, q.queued);
      assert q.queued == [q.queued[0]] + q.queued[1..];
      assert Active(q, q.queued[0]);
    }
    if q.sending.Some? { assert Active(q, q.sending.value); }
    if q.previous.Some? { assert Active(q, q.previous.value); }
  }

  /** Adding to the finished flow keeps times and order, in either arithmetic. */
  lemma IncrementKeeps(cfg: Config, arith: Arithmetic, time: map<FlowId, int>, tree: seq<FlowId>,
                       f: FlowId, amount: nat)
    requires cfg.Valid() && amount <= cfg.maxTime
    requires AllIn(tree, time) && Finished(time, tree, f) && TimesInRange(cfg, arith, time)
    ensures
      var r := IncrementSent(cfg, arith, time, tree, f, amount);
      r.Keys == time.Keys && TimesInRange(cfg, arith, r) && Sorted(r, tree)
  {
    var r := IncrementSent(cfg, arith, time, tree, f, amount);
    if arith.Wrapping? {
      RebaseExact(cfg, time, tree, f, amount);
      forall i, j | 0 <= i < j < |tree| ensures Less(r, tree[i], tree[j]) {
        assert Less(time, tree[i], tree[j]);
        assert tree[i] in tree && tree[j] in tree;
      }
    } else {
      SortedElsewhere(time, tree, f, time[f] + amount);
    }
  }

  lemma OutputDoneKeepsInv(cfg: Config, arith: Arithmetic, q: Queue)
    requires cfg.Valid() && Inv(cfg, arith, q) && Enabled(cfg, q, OutputDone)
    ensures Inv(cfg, arith, AfterOutputDone(cfg, arith, q))
  {
    IncrementKeeps(cfg, arith, q.time, q.queued, q.sending.value, Cost(cfg, q));
  }

  lemma ScheduleJobKeepsInv(cfg: Config, arith: Arithmetic, q: Queue)
    requires cfg.Valid() && Inv(cfg, arith, q) && Enabled(cfg, q, ScheduleJob)
    ensures Inv(cfg, arith, AfterScheduleJob(q))
  {
    if q.queued != [] {
      SortedHead(q.time, q.queued);
    }
  }

  lemma FlowInitKeepsInv(cfg: Config, arith: Arithmetic, q: Queue, f: FlowId)
    requires cfg.Valid() && Inv(cfg, arith, q) && Enabled(cfg, q, FlowInit(f))
    ensures Inv(cfg, arith, AfterFlowInit(q, f))
  {
    assert f !in q.flows;
    assert forall g :: g in q.flows + [f] <==> g in q.flows || g == f;
  }

  lemma FlowFreeKeepsInv(cfg: Config, arith: Arithmetic, q: Queue, f: FlowId)
    requires cfg.Valid() && Inv(cfg, arith, q) && Enabled(cfg, q, FlowFree(f))
    ensures Inv(cfg, arith, AfterFlowFree(q, f))
  {
    RemoveElements(q.flows, f);
    RemoveSorted(q.time, q.queued, f);
    FreeKeepsOrder(q.time, q.queued, f);
  }

  lemma FreeKeepsOrder(time: map<FlowId, int>, s: seq<FlowId>, f: FlowId)
    requires AllIn(s, time) && Sorted(time, s)
    ensures AllIn(Remove(s, f), time - {f}) && Sorted(time - {f}, Remove(s, f))
  {
    RemoveSorted(time, s, f);
    var r := Remove(s, f);
    forall i, j | 0 <= i < j < |r| ensures Less(time - {f}, r[i], r[j]) {
      assert Less(time, r[i], r[j]);
      assert r[i] in r && r[j] in r;
    }
  }

  lemma StepKeepsInv(cfg: Config, arith: Arithmetic, q: Queue, e: Event)
    requires cfg.Valid() && Inv(cfg, arith, q) && Enabled(cfg, q, e)
    ensures Inv(cfg, arith, Step(cfg, arith, q, e))
  {
    match e
    case Send(f, len) => SendKeepsInv(cfg, arith, q, f, len);
    case OutputDone => OutputDoneKeepsInv(cfg, arith, q);
    case ScheduleJob => ScheduleJobKeepsInv(cfg, arith, q);
    case FlowInit(f) => FlowInitKeepsInv(cfg, arith, q, f);
    case FlowFree(f) => FlowFreeKeepsInv(cfg, arith, q, f);
    case PrepareFree =>
  }
}
