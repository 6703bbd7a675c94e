/** What the fair queue promises over whole runs: the invariant holds in every state that can
    be reached, and the rebase is invisible to scheduling, with the exact condition. */
module FairQueueTheorems {
  import opened Wrappers
  import opened FairQueue

  // ----- runs -----

  predicate Legal(cfg: Config, arith: Arithmetic, q: Queue, events: seq<Event>)
    requires cfg.Valid() && Inv(cfg, arith, q)
    decreases |events|
  {
    events != [] ==>
      && Enabled(cfg, q, events[0])
      && (StepKeepsInv(cfg, arith, q, events[0]);
          Legal(cfg, arith, Step(cfg, arith, q, events[0]), events[1..]))
  }

  /** The flow a step hands to the output, if it does. */
  function Dispatched(q: Queue, next: Queue): seq<FlowId> {
    if q.sending.None? && next.sending.Some? then [next.sending.value] else []
  }

  function Dispatches(cfg: Config, arith: Arithmetic, q: Queue, events: seq<Event>): seq<FlowId>
    requires cfg.Valid() && Inv(cfg, arith, q) && Legal(cfg, arith, q, events)
    decreases |events|
  {
    if events == [] then [] else
      StepKeepsInv(cfg, arith, q, events[0]);
      var next := Step(cfg, arith, q, events[0]);
      Dispatched(q, next) + Dispatches(cfg, arith, next, events[1..])
  }

  function Final(cfg: Config, arith: Arithmetic, q: Queue, events: seq<Event>): (r: Queue)
    requires cfg.Valid() && Inv(cfg, arith, q) && Legal(cfg, arith, q, events)
    ensures Inv(cfg, arith, r)
    decreases |events|
  {
    if events == [] then q else
      StepKeepsInv(cfg, arith, q, events[0]);
      Final(cfg, arith, Step(cfg, arith, q, events[0]), events[1..])
  }

  /** The queue can be in state q after these events since it was set up. */
  ghost predicate Reaches(cfg: Config, arith: Arithmetic, events: seq<Event>, q: Queue) {
    if events == [] then q == EMPTY else
      var e := events[|events| - 1];
      exists p :: Reaches(cfg, arith, events[..|events| - 1], p) && Follows(cfg, arith, p, e, q)
  }

  predicate Follows(cfg: Config, arith: Arithmetic, p: Queue, e: Event, q: Queue) {
    Shape(p) && Enabled(cfg, p, e) && q == Step(cfg, arith, p, e)
  }

  /** Every reachable state has the invariant. */
  lemma {:induction false} ReachableInv(cfg: Config, arith: Arithmetic, events: seq<Event>, q: Queue)
    requires cfg.Valid() && Reaches(cfg, arith, events, q)
    ensures Inv(cfg, arith, q)
    decreases |events|
  {
    if events == [] {
      EmptyInv(cfg, arith);
    } else {
      var before, e := events[..|events| - 1], events[|events| - 1];
      var p :| Reaches(cfg, arith, before, p) && Follows(cfg, arith, p, e, q);
      ReachableInv(cfg, arith, before, p);
      StepKeepsInv(cfg, arith, p, e);
    }
  }

  // ----- the rebase is invisible -----

  /** Everything but the times agrees. */
  predicate SameControl(q: Queue, u: Queue) {
    && q.flows == u.flows && q.len == u.len && q.queued == u.queued
    && q.sending == u.sending && q.sendingLen == u.sendingLen && q.previous == u.previous
    && q.job == u.job && q.freeing == u.freeing
  }

  /** t is the unbounded time with base taken off, stopping at zero for idle flows only. */
  predicate TimeRefines(t: int, unbounded: int, base: int, active: bool) {
    t == Max(0, unbounded - base) && (active ==> base <= unbounded)
  }

  predicate Refines(q: Queue, u: Queue, base: int) {
    && 0 <= base && SameControl(q, u) && q.time.Keys == u.time.Keys
    && forall f | f in q.time :: TimeRefines(q.time[f], u.time[f], base, Active(q, f))
  }

  /** What a step takes off every time. */
  function Subtracted(cfg: Config, q: Queue, e: Event): int
    requires Shape(q) && Enabled(cfg, q, e)
  {
    if e.OutputDone? && Overflows(cfg, q.time[q.sending.value], Cost(cfg, q))
    then Subtrahend(q.time, q.queued, q.sending.value) else 0
  }

  /** A send into a busy queue, or by a flow the rebases never clamped. */
  predicate Anchored(q: Queue, u: Queue, base: int, e: Event) {
    e.Send? && !Busy(q) && e.flow in u.time ==> base <= u.time[e.flow]
  }

  lemma {:induction false} TreeInsertShifted(a: map<FlowId, int>, b: map<FlowId, int>, shift: int,
                                             tree: seq<FlowId>, f: FlowId)
    requires AllIn(tree, a) && AllIn(tree, b) && f in a && f in b
    requires forall g | g in tree || g == f :: b[g] == a[g] + shift
    ensures TreeInsert(a, tree, f) == TreeInsert(b, tree, f)
  {
    if tree != [] {
      assert tree[0] in tree;
      TreeInsertShifted(a, b, shift, tree[1..], f);
    }
  }

  lemma CurrentTimeShifted(q: Queue, u: Queue, base: int)
    requires Shape(q) && Shape(u) && Refines(q, u, base) && Busy(q)
    ensures CurrentTime(u) == CurrentTime(q) + base
  {
    if q.queued != [] { assert q.queued[0] in q.queued && Active(q, q.queued[0]); }
    if q.sending.Some? { assert Active(q, q.sending.value); }
    if q.previous.Some? { assert Active(q, q.previous.value); }
  }

  lemma RaiseRefines(cfg: Config, q: Queue, u: Queue, base: int, f: FlowId)
    requires cfg.Valid() && Inv(cfg, Wrapping, q) && Inv(cfg, Unbounded, u) && Refines(q, u, base)
    requires f in q.time
    requires Busy(q) || base <= u.time[f]
    ensures Refines(Raise(q, f), Raise(u, f), base)
    ensures base <= Raise(u, f).time[f]
  {
    if q.previous == Some(f) {
      assert Active(q, f);
    } else {
      RaisedTime(cfg, q, u, base, f);
      RetimeRefines(q, u, base, f, Max(q.time[f], CurrentTime(q)), Max(u.time[f], CurrentTime(u)));
    }
  }

  /** A flow raised on both sides has the same time again, with base taken off. */
  lemma RaisedTime(cfg: Config, q: Queue, u: Queue, base: int, f: FlowId)
    requires Inv(cfg, Wrapping, q) && Inv(cfg, Unbounded, u) && Refines(q, u, base)
    requires f in q.time && (Busy(q) || base <= u.time[f])
    ensures Max(u.time[f], CurrentTime(u)) == Max(q.time[f], CurrentTime(q)) + base
  {
    assert TimeRefines(q.time[f], u.time[f], base, Active(q, f));
    if Busy(q) {
      CurrentTimeBelow(q);
      CurrentTimeShifted(q, u, base);
    }
  }

  lemma RetimeRefines(q: Queue, u: Queue, base: int, f: FlowId, t: int, v: int)
    requires Refines(q, u, base) && f in q.time && v == t + base && 0 <= t
    ensures Refines(q.(time := q.time[f := t]), u.(time := u.time[f := v]), base)
  {
    var r := q.(time := q.time[f := t]);
    assert forall g | g in r.time :: Active(r, g) == Active(q, g);
  }

  lemma QueueingRefines(q: Queue, u: Queue, base: int, f: FlowId, len: nat)
    requires Shape(q) && Shape(u) && Refines(q, u, base) && f in q.time && base <= u.time[f]
    ensures Refines(
      q.(len := q.len[f := len], queued := TreeInsert(q.time, q.queued, f)),
      u.(len := u.len[f := len], queued := TreeInsert(u.time, u.queued, f)), base)
  {
    forall g | g in q.queued || g == f ensures u.time[g] == q.time[g] + base {
      assert g in q.queued ==> Active(q, g);
      assert TimeRefines(q.time[g], u.time[g], base, Active(q, g));
    }
    TreeInsertShifted(q.time, u.time, base, q.queued, f);
    TreeInsertElements(q.time, q.queued, f);
  }

  lemma ScheduleRefines(q: Queue, u: Queue, base: int)
    requires Shape(q) && Shape(u) && Refines(q, u, base) && q.queued != []
    ensures Refines(Schedule(q), Schedule(u), base)
  {
    assert q.queued[0] in q.queued;
    assert forall f | Active(Schedule(q), f) :: Active(q, f);
  }

  lemma SendRefines(cfg: Config, q: Queue, u: Queue, base: int, f: FlowId, len: nat)
    requires cfg.Valid() && Inv(cfg, Wrapping, q) && Inv(cfg, Unbounded, u) && Refines(q, u, base)
    requires Enabled(cfg, q, Send(f, len))
    requires Busy(q) || base <= u.time[f]
    ensures Refines(AfterSend(q, f, len), AfterSend(u, f, len), base)
  {
    RaiseRefines(cfg, q, u, base, f);
    QueueingRefines(Raise(q, f), Raise(u, f), base, f, len);
    var q1 := Enqueue(q, f, len);
    if q1.sending.None? && !q1.job {
      ScheduleRefines(q1, Enqueue(u, f, len), base);
    }
  }

  /** Flags that no flow's activity depends on can be changed on both sides. */
  lemma FlagsRefine(q: Queue, u: Queue, base: int, job: bool, freeing: bool)
    requires Refines(q, u, base)
    ensures Refines(q.(job := job, freeing := freeing), u.(job := job, freeing := freeing), base)
  {
    assert forall g | g in q.time :: Active(q.(job := job, freeing := freeing), g) == Active(q, g);
  }

  lemma OutputDoneRefines(cfg: Config, q: Queue, u: Queue, base: int)
    requires cfg.Valid() && Inv(cfg, Wrapping, q) && Inv(cfg, Unbounded, u) && Refines(q, u, base)
    requires Enabled(cfg, q, OutputDone)
    ensures Refines(AfterOutputDone(cfg, Wrapping, q), AfterOutputDone(cfg, Unbounded, u),
                    base + Subtracted(cfg, q, OutputDone))
  {
    RebaseExact(cfg, q.time, q.queued, q.sending.value, Cost(cfg, q));
    SubtrahendFirst(cfg, q.time, q.queued, q.sending.value);
    forall g | g in q.time
      ensures TimeRefines(FinishTimes(cfg, Wrapping, q)[g], FinishTimes(cfg, Unbounded, u)[g],
                          base + Subtracted(cfg, q, OutputDone), Active(q, g))
    {
      OutputDoneTime(cfg, q, u, base, g);
    }
    var r := AfterOutputDone(cfg, Wrapping, q);
    assert forall g | g in r.time :: Active(r, g) == Active(q, g);
  }

  lemma OutputDoneTime(cfg: Config, q: Queue, u: Queue, base: int, g: FlowId)
    requires cfg.Valid() && Inv(cfg, Wrapping, q) && Shape(u) && Refines(q, u, base)
    requires Enabled(cfg, q, OutputDone) && g in q.time
    ensures g in FinishTimes(cfg, Wrapping, q) && g in FinishTimes(cfg, Unbounded, u)
    ensures TimeRefines(FinishTimes(cfg, Wrapping, q)[g], FinishTimes(cfg, Unbounded, u)[g],
                        base + Subtracted(cfg, q, OutputDone), Active(q, g))
  {
    RebaseExact(cfg, q.time, q.queued, q.sending.value, Cost(cfg, q));
    SubtrahendFirst(cfg, q.time, q.queued, q.sending.value);
    assert Active(q, q.sending.value);
    assert TimeRefines(q.time[g], u.time[g], base, Active(q, g));
  }

  lemma ScheduleJobRefines(q: Queue, u: Queue, base: int)
    requires Shape(q) && Shape(u) && Refines(q, u, base)
    ensures Refines(AfterScheduleJob(q), AfterScheduleJob(u), base)
  {
    var q1 := q.(job := false, previous := None);
    assert forall g | Active(q1, g) :: Active(q, g);
    if q.queued != [] {
      ScheduleRefines(q1, u.(job := false, previous := None), base);
    }
  }

  lemma FlowFreeRefines(cfg: Config, q: Queue, u: Queue, base: int, f: FlowId)
    requires cfg.Valid() && Inv(cfg, Wrapping, q) && Shape(u) && Refines(q, u, base) && f in q.time
    ensures Refines(AfterFlowFree(q, f), AfterFlowFree(u, f), base)
  {
    RemoveSorted(q.time, q.queued, f);
    var r := AfterFlowFree(q, f);
    forall g | g in r.time ensures Active(r, g) ==> Active(q, g) {
    }
  }

  lemma FlowInitRefines(cfg: Config, q: Queue, u: Queue, base: int, f: FlowId)
    requires cfg.Valid() && Inv(cfg, Wrapping, q) && Refines(q, u, base) && f !in q.time
    ensures Refines(AfterFlowInit(q, f), AfterFlowInit(u, f), base)
  {
    var r := AfterFlowInit(q, f);
    assert forall g | g in r.time :: Active(r, g) == (g != f && Active(q, g));
  }

  lemma AnchoredStepRefines(cfg: Config, q: Queue, u: Queue, base: int, e: Event)
    requires cfg.Valid() && Inv(cfg, Wrapping, q) && Inv(cfg, Unbounded, u) && Refines(q, u, base)
    requires Enabled(cfg, q, e) && Enabled(cfg, u, e) && Anchored(q, u, base, e)
    ensures Refines(Step(cfg, Wrapping, q, e), Step(cfg, Unbounded, u, e), base + Subtracted(cfg, q, e))
  {
    match e
    case Send(f, len) => SendRefines(cfg, q, u, base, f, len);
    case OutputDone => OutputDoneRefines(cfg, q, u, base);
    case ScheduleJob => ScheduleJobRefines(q, u, base);
    case FlowInit(f) => FlowInitRefines(cfg, q, u, base, f);
    case FlowFree(f) => FlowFreeRefines(cfg, q, u, base, f);
    case PrepareFree => FlagsRefine(q, u, base, q.job, true);
  }

  /** The two states are the same but for some total rebase. */
  ghost predicate Related(q: Queue, u: Queue) {
    exists base :: Refines(q, u, base)
  }

  predicate Latest(u: Queue, f: FlowId) {
    f in u.time && forall g | g in u.time :: u.time[g] <= u.time[f]
  }

  /** A send into an idle queue keeps the times and makes the flow the only active one. */
  lemma IdleSend(q: Queue, f: FlowId, len: nat)
    requires Shape(q) && f in q.time && 0 <= q.time[f] && !Busy(q)
    ensures var r := AfterSend(q, f, len);
      && r.time == q.time && (forall g :: Active(r, g) <==> g == f)
      && r == q.(len := q.len[f := len], queued := r.queued, sending := r.sending, sendingLen := r.sendingLen)
      && r.queued == (if q.job then [f] else []) && r.sending == (if q.job then None else Some(f))
      && r.sendingLen == if q.job then q.sendingLen else len
  {
    assert q.time[f := q.time[f]] == q.time;
  }

  /** A send into an idle queue, by a flow that was clamped: the flow is at zero again, which is
      right exactly when no other flow is ahead of it. */
  lemma IdleSendRelated(q: Queue, u: Queue, base: int, f: FlowId, len: nat)
    requires Shape(q) && Shape(u) && Refines(q, u, base) && f in q.time && !Busy(q)
    requires 0 <= u.time[f] < base
    ensures Related(AfterSend(q, f, len), AfterSend(u, f, len)) <==> Latest(u, f)
  {
    var r, v := AfterSend(q, f, len), AfterSend(u, f, len);
    assert q.time[f] == 0;
    IdleSend(q, f, len);
    IdleSend(u, f, len);
    assert SameControl(r, v);
    if Latest(u, f) {
      assert Refines(r, v, u.time[f]);
    }
    forall b | Refines(r, v, b) ensures Latest(u, f) {
      assert TimeRefines(r.time[f], v.time[f], b, Active(r, f)) && b == u.time[f];
      forall g | g in u.time ensures u.time[g] <= u.time[f] {
        assert TimeRefines(r.time[g], v.time[g], b, Active(r, g));
        assert TimeRefines(q.time[g], u.time[g], base, Active(q, g));
      }
    }
  }

  /** One step of the code against one step of the unbounded scheduler: afterwards they are the
      same, but for some total rebase, exactly when the step is not a send, into an idle queue, by
      a flow that is clamped and behind another. */
  lemma StepRefines(cfg: Config, q: Queue, u: Queue, base: int, e: Event)
    requires cfg.Valid() && Inv(cfg, Wrapping, q) && Inv(cfg, Unbounded, u) && Refines(q, u, base)
    requires Enabled(cfg, q, e)
    ensures Enabled(cfg, u, e)
    ensures Related(Step(cfg, Wrapping, q, e), Step(cfg, Unbounded, u, e))
       <==> Anchored(q, u, base, e) || (e.Send? && Latest(u, e.flow))
  {
    if Anchored(q, u, base, e) {
      AnchoredStepRefines(cfg, q, u, base, e);
    } else {
      IdleSendRelated(q, u, base, e.flow, e.len);
    }
  }

  // ----- what the caller of the code can see of it -----

  /** A send into a busy queue, or by a flow with time left, or by the only flow there is. */
  predicate Settled(q: Queue, f: FlowId) {
    Busy(q) || f !in q.time || 0 < q.time[f] || q.time.Keys == {f}
  }

  /** After rebases totalling base, a send keeps the code and the unbounded scheduler together,
      whatever times the rebases hid, exactly when it is settled. */
  lemma SettledExactly(cfg: Config, q: Queue, base: int, f: FlowId, len: nat)
    requires cfg.Valid() && Inv(cfg, Wrapping, q) && Enabled(cfg, q, Send(f, len)) && 0 < base
    ensures (forall u | Inv(cfg, Unbounded, u) && Refines(q, u, base) :: Related(AfterSend(q, f, len), AfterSend(u, f, len)))
       <==> Settled(q, f)
  {
    if Settled(q, f) {
      forall u | Inv(cfg, Unbounded, u) && Refines(q, u, base)
        ensures Related(AfterSend(q, f, len), AfterSend(u, f, len))
      {
        assert TimeRefines(q.time[f], u.time[f], base, Active(q, f));
        StepRefines(cfg, q, u, base, Send(f, len));
      }
    } else {
      var u := Hidden(q, base, f);
      HiddenFine(cfg, q, base, f);
      var g :| g in q.time && g != f;
      assert u.time[g] > u.time[f];
      IdleSendRelated(q, u, base, f, len);
    }
  }

  /** The idle flow f may never have sent, and all others just as much as they can. */
  function Hidden(q: Queue, base: int, f: FlowId): Queue {
    q.(time := map g | g in q.time :: if g == f then 0 else q.time[g] + base)
  }

  lemma HiddenFine(cfg: Config, q: Queue, base: int, f: FlowId)
    requires Inv(cfg, Wrapping, q) && f in q.time && q.time[f] == 0 && !Busy(q) && 0 < base
    ensures Inv(cfg, Unbounded, Hidden(q, base, f)) && Refines(q, Hidden(q, base, f), base)
    ensures Hidden(q, base, f).time.Keys == q.time.Keys && Hidden(q, base, f).time[f] == 0
    ensures forall g | g in q.time && g != f :: Hidden(q, base, f).time[g] == q.time[g] + base
  {
    var u := Hidden(q, base, f);
    assert u.time.Keys == q.time.Keys;
  }

  // ----- the same dispatch order -----

  /** Every send after the first rebase is settled. */
  predicate Unclamped(cfg: Config, q: Queue, rebased: bool, events: seq<Event>)
    requires cfg.Valid() && Inv(cfg, Wrapping, q) && Legal(cfg, Wrapping, q, events)
    decreases |events|
  {
    events != [] ==>
      var e := events[0];
      && (rebased && e.Send? ==> Settled(q, e.flow))
      && (StepKeepsInv(cfg, Wrapping, q, e);
          Unclamped(cfg, Step(cfg, Wrapping, q, e), rebased || Subtracted(cfg, q, e) > 0, events[1..]))
  }

  /** What one unclamped step passes on to the rest of the run. */
  lemma UnclampedStep(cfg: Config, q: Queue, u: Queue, base: int, e: Event, q': Queue, u': Queue) returns (base': int)
    requires cfg.Valid() && Inv(cfg, Wrapping, q) && Inv(cfg, Unbounded, u) && Refines(q, u, base)
    requires Enabled(cfg, q, e) && Enabled(cfg, u, e)
    requires base > 0 && e.Send? ==> Settled(q, e.flow)
    requires q' == Step(cfg, Wrapping, q, e) && u' == Step(cfg, Unbounded, u, e)
    ensures Inv(cfg, Wrapping, q') && Inv(cfg, Unbounded, u')
    ensures Refines(q', u', base') && (base' > 0 ==> base > 0 || Subtracted(cfg, q, e) > 0)
    ensures Dispatched(q, q') == Dispatched(u, u')
  {
    StepKeepsInv(cfg, Wrapping, q, e);
    StepKeepsInv(cfg, Unbounded, u, e);
    base' := StaysRelated(cfg, q, u, base, e);
  }

  lemma StaysRelated(cfg: Config, q: Queue, u: Queue, base: int, e: Event) returns (base': int)
    requires cfg.Valid() && Inv(cfg, Wrapping, q) && Inv(cfg, Unbounded, u) && Refines(q, u, base)
    requires Enabled(cfg, q, e) && Enabled(cfg, u, e)
    requires base > 0 && e.Send? ==> Settled(q, e.flow)
    ensures Refines(Step(cfg, Wrapping, q, e), Step(cfg, Unbounded, u, e), base')
    ensures base' > 0 ==> base > 0 || Subtracted(cfg, q, e) > 0
  {
    if Anchored(q, u, base, e) {
      AnchoredStepRefines(cfg, q, u, base, e);
      base' := base + Subtracted(cfg, q, e);
    } else {
      assert TimeRefines(q.time[e.flow], u.time[e.flow], base, Active(q, e.flow));
      StepRefines(cfg, q, u, base, e);
      base' :| Refines(Step(cfg, Wrapping, q, e), Step(cfg, Unbounded, u, e), base');
    }
  }

  lemma {:induction false} RunRefines(cfg: Config, q: Queue, u: Queue, base: int, rebased: bool, events: seq<Event>)
    requires cfg.Valid() && Inv(cfg, Wrapping, q) && Inv(cfg, Unbounded, u) && Refines(q, u, base)
    requires Legal(cfg, Wrapping, q, events) && Unclamped(cfg, q, rebased, events) && (base > 0 ==> rebased)
    ensures Legal(cfg, Unbounded, u, events)
    ensures Dispatches(cfg, Unbounded, u, events) == Dispatches(cfg, Wrapping, q, events)
    decreases |events|
  {
    if events != [] {
      var e := events[0];
      EnabledAlike(cfg, q, u, base, e);
      var q', u' := Step(cfg, Wrapping, q, e), Step(cfg, Unbounded, u, e);
      var base' := UnclampedStep(cfg, q, u, base, e, q', u');
      RunRefines(cfg, q', u', base', rebased || Subtracted(cfg, q, e) > 0, events[1..]);
    }
  }

  lemma EnabledAlike(cfg: Config, q: Queue, u: Queue, base: int, e: Event)
    requires Refines(q, u, base)
    ensures Enabled(cfg, q, e) <==> Enabled(cfg, u, e)
  {
  }

  /** The rebase is invisible: from any reachable state, over any run whose sends are
      settled, the code hands the output the same flows in the same order as the
      scheduler with unbounded times started from the same state. */
  lemma RebaseInvisible(cfg: Config, q: Queue, events: seq<Event>)
    requires cfg.Valid() && Inv(cfg, Wrapping, q)
    requires Legal(cfg, Wrapping, q, events) && Unclamped(cfg, q, false, events)
    ensures Inv(cfg, Unbounded, q) && Legal(cfg, Unbounded, q, events)
    ensures Dispatches(cfg, Unbounded, q, events) == Dispatches(cfg, Wrapping, q, events)
  {
    RunRefines(cfg, q, q, 0, false, events);
  }
}
