/** What each step of the queue does to the times, said without the functions that compute it: what
    a packet costs, what a send raises a flow to, what a rebase takes off, who goes next. */
module FairQueueLaws {
  import opened Wrappers
  import opened FairQueue
  import opened FairQueueTheorems

  // ----- a packet costs its weight and its length -----

  /** The length of the last packet that f sent. */
  function LastLen(events: seq<Event>, f: FlowId): nat {
    if events == [] then 0
    else
      var n := |events| - 1;
      if events[n].Send? && events[n].flow == f then events[n].len else LastLen(events[..n], f)
  }

  /** A packet that waits or is on its way is the last one its flow sent. */
  predicate Remembers(past: seq<Event>, q: Queue)
    requires Shape(q)
  {
    && (forall f | f in q.queued :: q.len[f] == LastLen(past, f))
    && (q.sending.Some? ==> q.sendingLen == LastLen(past, q.sending.value))
  }

  lemma {:induction false} LastLenSnoc(past: seq<Event>, e: Event, f: FlowId)
    ensures LastLen(past + [e], f) == if e.Send? && e.flow == f then e.len else LastLen(past, f)
  {
    assert (past + [e])[..|past|] == past;
  }

  lemma StepRemembers(cfg: Config, arith: Arithmetic, past: seq<Event>, q: Queue, e: Event)
    requires cfg.Valid() && Inv(cfg, arith, q) && Enabled(cfg, q, e) && Remembers(past, q)
    ensures Inv(cfg, arith, Step(cfg, arith, q, e)) && Remembers(past + [e], Step(cfg, arith, q, e))
  {
    StepKeepsInv(cfg, arith, q, e);
    forall f ensures LastLen(past + [e], f) == if e.Send? && e.flow == f then e.len else LastLen(past, f) {
      LastLenSnoc(past, e, f);
    }
    match e
    case Send(f, len) => SendRemembers(past, q, f, len);
    case FlowFree(f) => RemoveSorted(q.time, q.queued, f);
    case _ =>
  }

  lemma SendRemembers(past: seq<Event>, q: Queue, f: FlowId, len: nat)
    requires Shape(q) && Remembers(past, q) && f in q.time && q.sending != Some(f)
    requires forall g :: LastLen(past + [Send(f, len)], g) == if g == f then len else LastLen(past, g)
    ensures Shape(AfterSend(q, f, len)) && Remembers(past + [Send(f, len)], AfterSend(q, f, len))
  {
    var q1 := Enqueue(q, f, len);
    EnqueueRemembers(past, q, f, len);
    if q1.sending.None? && !q1.job {
      assert q1.queued[0] in q1.queued && q1.queued == [q1.queued[0]] + q1.queued[1..];
    }
  }

  lemma EnqueueRemembers(past: seq<Event>, q: Queue, f: FlowId, len: nat)
    requires Shape(q) && Remembers(past, q) && f in q.time && q.sending != Some(f)
    requires forall g :: LastLen(past + [Send(f, len)], g) == if g == f then len else LastLen(past, g)
    ensures Remembers(past + [Send(f, len)], Enqueue(q, f, len))
  {
    var q1 := Raise(q, f);
    assert q1.queued == q.queued && q1.sending == q.sending && q1.sendingLen == q.sendingLen && q1.len == q.len;
    TreeInsertElements(q1.time, q1.queued, f);
  }

  lemma EmptyRemembers(cfg: Config, arith: Arithmetic)
    ensures Inv(cfg, arith, EMPTY) && Remembers([], EMPTY)
  {
    EmptyInv(cfg, arith);
  }

  /** Every run keeps this, and it holds of a new queue. */
  lemma {:induction false} RunRemembers(cfg: Config, arith: Arithmetic, past: seq<Event>, q: Queue, events: seq<Event>)
    requires cfg.Valid() && Inv(cfg, arith, q) && Remembers(past, q) && Legal(cfg, arith, q, events)
    ensures Remembers(past + events, Final(cfg, arith, q, events))
    decreases |events|
  {
    if events == [] {
      assert past + events == past;
    } else {
      StepRemembers(cfg, arith, past, q, events[0]);
      RunRemembers(cfg, arith, past + [events[0]], Step(cfg, arith, q, events[0]), events[1..]);
      assert past + [events[0]] + events[1..] == past + events;
    }
  }

  /** In the scheduler with unbounded times, the flow that finishes pays the packet weight and the
      length of the packet it sent; no other flow pays. */
  lemma PacketCosts(cfg: Config, past: seq<Event>, u: Queue)
    requires Inv(cfg, Unbounded, u) && Remembers(past, u) && Enabled(cfg, u, OutputDone)
    ensures var f := u.sending.value;
      && AfterOutputDone(cfg, Unbounded, u).time == u.time[f := u.time[f] + (cfg.weight + LastLen(past, f))]
  {
    CostPaid(cfg, past, u);
  }

  lemma CostPaid(cfg: Config, past: seq<Event>, q: Queue)
    requires Shape(q) && q.sending.Some? && Remembers(past, q)
    ensures Cost(cfg, q) == cfg.weight + LastLen(past, q.sending.value)
  {
  }

  // ----- what a rebase takes off -----

  /** m is the least of the times of these flows. */
  predicate IsLeast(time: map<FlowId, int>, s: seq<FlowId>, m: int)
    requires AllIn(s, time)
  {
    (exists g :: g in s && time[g] == m) && forall g | g in s :: m <= time[g]
  }

  /** In the code, a flow that finishes with room for its packet pays, and nothing else changes;
      without room, all times are first moved down until the least queued flow is at zero, or the
      finished flow itself when none is queued, idle flows stopping at zero. */
  lemma PacketCostsRebased(cfg: Config, past: seq<Event>, q: Queue)
    requires cfg.Valid() && Inv(cfg, Wrapping, q) && Remembers(past, q) && Enabled(cfg, q, OutputDone)
    ensures Paid(cfg, q, q.sending.value, cfg.weight + LastLen(past, q.sending.value), AfterOutputDone(cfg, Wrapping, q).time)
  {
    CostPaid(cfg, past, q);
    FinishPaid(cfg, q, q.sending.value, Cost(cfg, q));
  }

  /** f has paid amount from q on, leaving the times r. */
  ghost predicate Paid(cfg: Config, q: Queue, f: FlowId, amount: nat, r: map<FlowId, int>)
    requires Shape(q) && f in q.time
  {
    if q.time[f] + amount <= cfg.maxTime then r == q.time[f := q.time[f] + amount]
    else exists m :: (if q.queued == [] then m == q.time[f] else IsLeast(q.time, q.queued, m)) && MovedDown(q.time, f, amount, m, r)
  }

  predicate MovedDown(time: map<FlowId, int>, f: FlowId, amount: nat, m: int, r: map<FlowId, int>) {
    && f in time && r.Keys == time.Keys && r[f] == time[f] + amount - m
    && forall g | g in time && g != f :: r[g] == Max(0, time[g] - m)
  }

  lemma FinishPaid(cfg: Config, q: Queue, f: FlowId, amount: nat)
    requires cfg.Valid() && Inv(cfg, Wrapping, q) && q.sending == Some(f) && amount == Cost(cfg, q)
    ensures Paid(cfg, q, f, amount, IncrementSent(cfg, Wrapping, q.time, q.queued, f, amount))
  {
    var r := IncrementSent(cfg, Wrapping, q.time, q.queued, f, amount);
    RebaseExact(cfg, q.time, q.queued, f, amount);
    if q.time[f] + amount <= cfg.maxTime {
      assert r == q.time[f := q.time[f] + amount];
    } else {
      if q.queued != [] { SubtrahendIsLeast(cfg, q); }
      assert MovedDown(q.time, f, amount, Subtrahend(q.time, q.queued, f), r);
    }
  }

  lemma SubtrahendIsLeast(cfg: Config, q: Queue)
    requires Inv(cfg, Wrapping, q) && q.sending.Some? && q.queued != []
    ensures IsLeast(q.time, q.queued, Subtrahend(q.time, q.queued, q.sending.value))
  {
    SortedHead(q.time, q.queued);
    assert q.queued == [q.queued[0]] + q.queued[1..] && q.queued[0] in q.queued;
  }

  // ----- what a send raises a flow to -----

  /** m is the least time of an active flow. */
  ghost predicate Clock(q: Queue, m: int)
    requires Shape(q)
  {
    (exists g :: Active(q, g) && q.time[g] == m) && forall g | Active(q, g) :: m <= q.time[g]
  }

  /** A flow that sends goes up to the least active one, if it is behind it; the flow that has just
      finished keeps its time, and so do all others. */
  lemma SendRaises(cfg: Config, arith: Arithmetic, q: Queue, f: FlowId, len: nat)
    requires cfg.Valid() && Inv(cfg, arith, q) && Enabled(cfg, q, Send(f, len))
    ensures var r := AfterSend(q, f, len);
      && r.time.Keys == q.time.Keys && (forall g | g in q.time && g != f :: r.time[g] == q.time[g])
      && (q.previous == Some(f) || !Busy(q) ==> r.time[f] == q.time[f])
      && (q.previous != Some(f) && Busy(q) ==> exists m :: Clock(q, m) && r.time[f] == Max(q.time[f], m))
  {
    CurrentTimeBelow(q);
    if Busy(q) { assert Clock(q, CurrentTime(q)); }
  }

  /** A new flow starts at the least active one, or at zero. */
  lemma NewcomerStarts(cfg: Config, arith: Arithmetic, q: Queue, f: FlowId, len: nat)
    requires cfg.Valid() && Inv(cfg, arith, q) && Enabled(cfg, q, FlowInit(f)) && len <= cfg.mtu
    ensures var q1 := AfterFlowInit(q, f);
      Shape(q1) && var r := AfterSend(q1, f, len);
        if Busy(q) then exists m :: Clock(q, m) && r.time[f] == m else r.time[f] == 0
  {
    var q1 := AfterFlowInit(q, f);
    FlowInitKeepsInv(cfg, arith, q, f);
    SendRaises(cfg, arith, q1, f, len);
    if Busy(q) {
      var m :| Clock(q1, m) && AfterSend(q1, f, len).time[f] == Max(0, m);
      ClockUnmoved(cfg, arith, q, f, m);
    }
  }

  lemma ClockUnmoved(cfg: Config, arith: Arithmetic, q: Queue, f: FlowId, m: int)
    requires Inv(cfg, arith, q) && f !in q.time && Shape(AfterFlowInit(q, f)) && Clock(AfterFlowInit(q, f), m)
    ensures Clock(q, m) && 0 <= m
  {
    var q1 := AfterFlowInit(q, f);
    assert forall g :: Active(q1, g) <==> Active(q, g);
    var g :| Active(q1, g) && q1.time[g] == m;
    assert Active(q, g) && q.time[g] == m;
  }

  // ----- the flow that has just finished -----

  /** Nothing that may happen before the job runs, but a send or the end of the flow itself, keeps
      it from being the one that has just finished. */
  predicate Between(events: seq<Event>, f: FlowId) {
    forall i | 0 <= i < |events| ::
      !events[i].ScheduleJob? && !(events[i].Send? && events[i].flow == f) && !(events[i].FlowFree? && events[i].flow == f)
  }

  lemma {:induction false} StaysPrevious(cfg: Config, arith: Arithmetic, q: Queue, events: seq<Event>, f: FlowId)
    requires cfg.Valid() && Inv(cfg, arith, q) && Legal(cfg, arith, q, events)
    requires q.previous == Some(f) && Between(events, f)
    ensures var r := Final(cfg, arith, q, events); r.previous == Some(f) && r.time[f] == q.time[f]
    decreases |events|
  {
    if events != [] {
      StepKeepsInv(cfg, arith, q, events[0]);
      var q' := Step(cfg, arith, q, events[0]);
      assert q'.previous == Some(f) && q'.time[f] == q.time[f];
      assert forall i | 0 <= i < |events[1..]| :: events[1..][i] == events[i + 1];
      StaysPrevious(cfg, arith, q', events[1..], f);
    }
  }

  /** A flow that sends again before the job runs does so at the time it finished at, however far
      behind the others that is. */
  lemma SendsAgain(cfg: Config, arith: Arithmetic, q: Queue, events: seq<Event>, len: nat)
    requires cfg.Valid() && Inv(cfg, arith, q) && Enabled(cfg, q, OutputDone) && Inv(cfg, arith, AfterOutputDone(cfg, arith, q))
    requires Legal(cfg, arith, AfterOutputDone(cfg, arith, q), events) && Between(events, q.sending.value)
    requires Enabled(cfg, Final(cfg, arith, AfterOutputDone(cfg, arith, q), events), Send(q.sending.value, len))
    ensures var f, q1 := q.sending.value, AfterOutputDone(cfg, arith, q);
      AfterSend(Final(cfg, arith, q1, events), f, len).time[f] == q1.time[f]
  {
    var f, q1 := q.sending.value, AfterOutputDone(cfg, arith, q);
    StaysPrevious(cfg, arith, q1, events, f);
    SendRaises(cfg, arith, Final(cfg, arith, q1, events), f, len);
  }

  /** Once the job has run, a flow that has not sent again no longer holds the clock. */
  lemma JobForgets(cfg: Config, arith: Arithmetic, q: Queue)
    requires cfg.Valid() && Inv(cfg, arith, q) && Enabled(cfg, q, ScheduleJob)
    ensures forall g :: Active(AfterScheduleJob(q), g) <==> g in q.queued
  {
    if q.queued != [] {
      assert q.queued == [q.queued[0]] + q.queued[1..];
    }
  }

  /** A flow that is freed is gone, wherever it was, and no other notices. */
  lemma FreeForgets(cfg: Config, arith: Arithmetic, q: Queue, f: FlowId)
    requires cfg.Valid() && Inv(cfg, arith, q) && Enabled(cfg, q, FlowFree(f))
    ensures var r := AfterFlowFree(q, f);
      && f !in r.time && !Active(r, f) && f !in r.flows
      && forall g | g in q.time && g != f ::
           g in r.time && r.time[g] == q.time[g] && g in r.flows && (Active(r, g) <==> Active(q, g))
  {
    RemoveElements(q.flows, f);
    RemoveSorted(q.time, q.queued, f);
  }

  // ----- who goes next -----

  /** What the output gets is the first of the waiting flows, by time and then by address, and the
      packet that this flow sent. */
  lemma DispatchesFirst(cfg: Config, arith: Arithmetic, past: seq<Event>, q: Queue, e: Event, f: FlowId)
    requires cfg.Valid() && Inv(cfg, arith, q) && Remembers(past, q) && Enabled(cfg, q, e)
    requires Dispatched(q, Step(cfg, arith, q, e)) == [f]
    ensures var r := Step(cfg, arith, q, e);
      && f in r.time && AllIn(r.queued, r.time)
      && (forall g | g in r.queued :: r.time[f] < r.time[g] || (r.time[f] == r.time[g] && f < g))
      && (forall g :: g in r.queued || g == f <==> g in q.queued || (e.Send? && g == e.flow))
      && r.sendingLen == LastLen(past + [e], f)
  {
    StepRemembers(cfg, arith, past, q, e);
    if e.Send? {
      SendDispatches(cfg, arith, q, e.flow, e.len);
    } else {
      SortedHead(q.time, q.queued);
      assert q.queued == [q.queued[0]] + q.queued[1..];
    }
  }

  lemma SendDispatches(cfg: Config, arith: Arithmetic, q: Queue, f: FlowId, len: nat)
    requires cfg.Valid() && Inv(cfg, arith, q) && Enabled(cfg, q, Send(f, len)) && q.sending.None? && !q.job
    ensures AfterSend(q, f, len).queued == [] && AfterSend(q, f, len).sending == Some(f) && q.queued == []
  {
    TreeInsertElements(Raise(q, f).time, [], f);
    assert TreeInsert(Raise(q, f).time, [], f) == [f];
  }
}
