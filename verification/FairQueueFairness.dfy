/** Fairness of the queue as the code runs it, rebases included: flows that stay in service
    receive weighted service within a fixed distance of each other, and a queued flow is
    passed over a bounded number of times. */
module FairQueueFairness {
  import opened Arithmetic
  import opened Wrappers
  import opened FairQueue
  import opened FairQueueLaws
  import opened FairQueueTheorems

  // ----- the service gap -----

  /** The weighted service a step completes for a flow. */
  function Served(cfg: Config, q: Queue, e: Event, f: FlowId): nat {
    if e.OutputDone? && q.sending == Some(f) then Cost(cfg, q) else 0
  }

  function Abs(x: int): int { if x < 0 then -x else x }

  /** From q to r, f and g move apart by exactly the service they got, and their gap stays
      within the initial one or one packet's cost. */
  predicate GapKept(cfg: Config, time: map<FlowId, int>, time': map<FlowId, int>, f: FlowId, g: FlowId,
                    servedF: int, servedG: int)
  {
    && f in time && g in time && f in time' && g in time'
    && time'[f] - time'[g] == time[f] - time[g] + servedF - servedG
    && Abs(time'[f] - time'[g]) <= Max(Abs(time[f] - time[g]), cfg.weight + cfg.mtu)
  }

  lemma GapSend(cfg: Config, q: Queue, f: FlowId, g: FlowId, h: FlowId, len: nat)
    requires cfg.Valid() && Inv(cfg, Wrapping, q) && Enabled(cfg, q, Send(h, len))
    requires Active(q, f) && Active(q, g)
    ensures GapKept(cfg, q.time, AfterSend(q, h, len).time, f, g, 0, 0)
  {
  }

  lemma GapOutputDone(cfg: Config, q: Queue, f: FlowId, g: FlowId)
    requires cfg.Valid() && Inv(cfg, Wrapping, q) && Enabled(cfg, q, OutputDone)
    requires f != g && Active(q, f) && Active(q, g)
    ensures GapKept(cfg, q.time, FinishTimes(cfg, Wrapping, q), f, g,
                    Served(cfg, q, OutputDone, f), Served(cfg, q, OutputDone, g))
  {
    RebaseExact(cfg, q.time, q.queued, q.sending.value, Cost(cfg, q));
  }

  /** One step moves two active flows apart by exactly the service it completes. */
  lemma GapStep(cfg: Config, q: Queue, e: Event, f: FlowId, g: FlowId, q': Queue)
    requires cfg.Valid() && Inv(cfg, Wrapping, q) && Enabled(cfg, q, e) && q' == Step(cfg, Wrapping, q, e)
    requires f != g && Active(q, f) && Active(q, g) && f in q'.time && g in q'.time
    ensures GapKept(cfg, q.time, q'.time, f, g, Served(cfg, q, e, f), Served(cfg, q, e, g))
  {
    match e
    case Send(h, len) => GapSend(cfg, q, f, g, h, len);
    case OutputDone => GapOutputDone(cfg, q, f, g);
    case _ =>
  }

  lemma GapCompose(cfg: Config, a: map<FlowId, int>, b: map<FlowId, int>, c: map<FlowId, int>,
                   f: FlowId, g: FlowId, f1: int, g1: int, f2: int, g2: int)
    requires GapKept(cfg, a, b, f, g, f1, g1) && GapKept(cfg, b, c, f, g, f2, g2)
    ensures GapKept(cfg, a, c, f, g, f1 + f2, g1 + g2)
  {
  }

  predicate StayActive(cfg: Config, q: Queue, events: seq<Event>, f: FlowId, g: FlowId)
    requires cfg.Valid() && Inv(cfg, Wrapping, q) && Legal(cfg, Wrapping, q, events)
    decreases |events|
  {
    && Active(q, f) && Active(q, g)
    && (events != [] ==>
         (StepKeepsInv(cfg, Wrapping, q, events[0]);
          StayActive(cfg, Step(cfg, Wrapping, q, events[0]), events[1..], f, g)))
  }

  function TotalServed(cfg: Config, q: Queue, events: seq<Event>, f: FlowId): nat
    requires cfg.Valid() && Inv(cfg, Wrapping, q) && Legal(cfg, Wrapping, q, events)
    decreases |events|
  {
    if events == [] then 0 else
      StepKeepsInv(cfg, Wrapping, q, events[0]);
      Served(cfg, q, events[0], f) + TotalServed(cfg, Step(cfg, Wrapping, q, events[0]), events[1..], f)
  }

  lemma {:induction false} GapRun(cfg: Config, q: Queue, events: seq<Event>, f: FlowId, g: FlowId)
    requires cfg.Valid() && Inv(cfg, Wrapping, q) && Legal(cfg, Wrapping, q, events)
    requires f != g && StayActive(cfg, q, events, f, g)
    ensures GapKept(cfg, q.time, Final(cfg, Wrapping, q, events).time, f, g,
                    TotalServed(cfg, q, events, f), TotalServed(cfg, q, events, g))
    decreases |events|
  {
    if events != [] {
      var e := events[0];
      StepKeepsInv(cfg, Wrapping, q, e);
      var q' := Step(cfg, Wrapping, q, e);
      GapRun(cfg, q', events[1..], f, g);
      GapStep(cfg, q, e, f, g, q');
      GapCompose(cfg, q.time, q'.time, Final(cfg, Wrapping, q', events[1..]).time, f, g,
                 Served(cfg, q, e, f), Served(cfg, q, e, g),
                 TotalServed(cfg, q', events[1..], f), TotalServed(cfg, q', events[1..], g));
    }
  }

  /** Flows with these times may have been served a and b since. */
  predicate Fair(cfg: Config, time: map<FlowId, int>, f: FlowId, g: FlowId, a: int, b: int) {
    && f in time && g in time
    && var gap := Abs(time[f] - time[g]); Abs(a - b) <= gap + Max(gap, cfg.weight + cfg.mtu)
  }

  lemma ServedFairly(cfg: Config, q: Queue, events: seq<Event>, f: FlowId, g: FlowId)
    requires cfg.Valid() && Inv(cfg, Wrapping, q) && Legal(cfg, Wrapping, q, events)
    requires f != g && StayActive(cfg, q, events, f, g)
    ensures Fair(cfg, q.time, f, g, TotalServed(cfg, q, events, f), TotalServed(cfg, q, events, g))
  {
    var a, b := TotalServed(cfg, q, events, f), TotalServed(cfg, q, events, g);
    GapRun(cfg, q, events, f, g);
    GapIsFair(cfg, q.time, Final(cfg, Wrapping, q, events).time, f, g, a, b);
  }

  lemma GapIsFair(cfg: Config, time: map<FlowId, int>, time': map<FlowId, int>, f: FlowId, g: FlowId, a: int, b: int)
    requires GapKept(cfg, time, time', f, g, a, b)
    ensures Fair(cfg, time, f, g, a, b)
  {
  }

  // ----- the same, by the packets sent -----

  /** For every event, the flow whose packet it finishes, if it does: the flow that is told so. */
  function Finished(cfg: Config, q: Queue, events: seq<Event>): (r: seq<Option<FlowId>>)
    requires cfg.Valid() && Inv(cfg, Wrapping, q) && Legal(cfg, Wrapping, q, events)
    ensures |r| == |events|
    decreases |events|
  {
    if events == [] then [] else
      StepKeepsInv(cfg, Wrapping, q, events[0]);
      [if events[0].OutputDone? then q.sending else None] + Finished(cfg, Step(cfg, Wrapping, q, events[0]), events[1..])
  }

  /** The sum, over the packets of f that finished, of the packet weight and the length of the Send
      that queued each; past is what was before the events. */
  function Billed(weight: nat, past: seq<Event>, events: seq<Event>, finished: seq<Option<FlowId>>, f: FlowId): nat
    requires |finished| == |events|
    decreases |events|
  {
    if events == [] then 0 else
      (if finished[0] == Some(f) then weight + LastLen(past, f) else 0)
      + Billed(weight, past + [events[0]], events[1..], finished[1..], f)
  }

  lemma {:induction false} ServedIsBilled(cfg: Config, past: seq<Event>, q: Queue, events: seq<Event>, f: FlowId)
    requires cfg.Valid() && Inv(cfg, Wrapping, q) && Remembers(past, q) && Legal(cfg, Wrapping, q, events)
    ensures TotalServed(cfg, q, events, f) == Billed(cfg.weight, past, events, Finished(cfg, q, events), f)
    decreases |events|
  {
    if events != [] {
      var e, q' := events[0], Step(cfg, Wrapping, q, events[0]);
      StepRemembers(cfg, Wrapping, past, q, e);
      ServedIsBilled(cfg, past + [e], q', events[1..], f);
      var rest := Finished(cfg, q', events[1..]);
      assert Finished(cfg, q, events)[1..] == rest;
      assert Served(cfg, q, e, f) == if e.OutputDone? && q.sending == Some(f) then cfg.weight + LastLen(past, f) else 0;
    }
  }

  /** Two flows that stay queued, sending or just sent over a part of a run of a queue get service
      there that differs by at most their gap at its start plus the larger of that gap and one
      packet's cost, however often the times are rebased meanwhile. Service is the packet weight and
      the length of each packet that finished. */
  lemma ServiceGap(cfg: Config, past: seq<Event>, q: Queue, events: seq<Event>, f: FlowId, g: FlowId)
    requires cfg.Valid() && Inv(cfg, Wrapping, EMPTY) && Legal(cfg, Wrapping, EMPTY, past)
    requires q == Final(cfg, Wrapping, EMPTY, past) && Legal(cfg, Wrapping, q, events)
    requires f != g && StayActive(cfg, q, events, f, g)
    ensures var finished := Finished(cfg, q, events);
      Fair(cfg, q.time, f, g, Billed(cfg.weight, past, events, finished, f), Billed(cfg.weight, past, events, finished, g))
  {
    EmptyRemembers(cfg, Wrapping);
    RunRemembers(cfg, Wrapping, [], EMPTY, past);
    assert [] + past == past;
    ServedIsBilled(cfg, past, q, events, f);
    ServedIsBilled(cfg, past, q, events, g);
    ServedFairly(cfg, q, events, f, g);
  }

  /** All that f has sent. */
  function Sent(weight: nat, events: seq<Event>, f: FlowId): nat {
    if events == [] then 0 else
      (if events[0].Send? && events[0].flow == f then weight + events[0].len else 0) + Sent(weight, events[1..], f)
  }

  predicate Waiting(q: Queue, f: FlowId) {
    f in q.queued || q.sending == Some(f)
  }

  /** The packet of f that has not finished yet. */
  function Due(weight: nat, past: seq<Event>, q: Queue, f: FlowId): nat {
    if Waiting(q, f) then weight + LastLen(past, f) else 0
  }

  lemma StepConserves(cfg: Config, past: seq<Event>, q: Queue, e: Event, f: FlowId)
    requires cfg.Valid() && Inv(cfg, Wrapping, q) && Remembers(past, q) && Enabled(cfg, q, e) && e != FlowFree(f)
    ensures Served(cfg, q, e, f) + Due(cfg.weight, past + [e], Step(cfg, Wrapping, q, e), f)
         == (if e.Send? && e.flow == f then cfg.weight + e.len else 0) + Due(cfg.weight, past, q, f)
  {
    LastLenSnoc(past, e, f);
    match e
    case Send(g, len) => TreeInsertElements(Raise(q, g).time, q.queued, g); SendWaits(q, g, len, f);
    case ScheduleJob => if q.queued != [] { assert q.queued == [q.queued[0]] + q.queued[1..]; }
    case FlowFree(g) => RemoveSorted(q.time, q.queued, g);
    case _ =>
  }

  lemma SendWaits(q: Queue, g: FlowId, len: nat, f: FlowId)
    requires Shape(q) && g in q.time
    ensures Waiting(AfterSend(q, g, len), f) <==> Waiting(q, f) || f == g
  {
    var q1 := Enqueue(q, g, len);
    TreeInsertElements(Raise(q, g).time, Raise(q, g).queued, g);
    if q1.sending.None? && !q1.job {
      assert q1.queued == [q1.queued[0]] + q1.queued[1..];
    }
  }

  lemma {:induction false} ServedConserved(cfg: Config, past: seq<Event>, q: Queue, events: seq<Event>, f: FlowId)
    requires cfg.Valid() && Inv(cfg, Wrapping, q) && Remembers(past, q) && Legal(cfg, Wrapping, q, events)
    requires FlowFree(f) !in events
    ensures TotalServed(cfg, q, events, f) + Due(cfg.weight, past + events, Final(cfg, Wrapping, q, events), f)
         == Sent(cfg.weight, events, f) + Due(cfg.weight, past, q, f)
    decreases |events|
  {
    if events == [] {
      assert past + events == past;
    } else {
      var e, q' := events[0], Step(cfg, Wrapping, q, events[0]);
      StepRemembers(cfg, Wrapping, past, q, e);
      StepConserves(cfg, past, q, e, f);
      ServedConserved(cfg, past + [e], q', events[1..], f);
      assert past + [e] + events[1..] == past + events;
    }
  }

  /** Nothing is charged twice and nothing is lost: for a flow that is not freed, what it has been
      charged for and the packet that still waits make up all that it has sent. */
  lemma ServiceConserved(cfg: Config, past: seq<Event>, q: Queue, events: seq<Event>, f: FlowId)
    requires cfg.Valid() && Inv(cfg, Wrapping, q) && Remembers(past, q) && Legal(cfg, Wrapping, q, events)
    requires FlowFree(f) !in events
    ensures Billed(cfg.weight, past, events, Finished(cfg, q, events), f)
            + Due(cfg.weight, past + events, Final(cfg, Wrapping, q, events), f)
         == Sent(cfg.weight, events, f) + Due(cfg.weight, past, q, f)
  {
    ServedIsBilled(cfg, past, q, events, f);
    ServedConserved(cfg, past, q, events, f);
  }

  // ----- bounded bypass -----

  /** How often a flow at time t can still go before one at time limit. */
  function Credit(cfg: Config, t: int, limit: int): nat
    requires cfg.Valid()
  {
    if t <= limit then (limit - t) / cfg.weight + 1 else 0
  }

  /** The bypass bound of f: the credits of all the other flows. */
  function Rank(cfg: Config, time: map<FlowId, int>, flows: seq<FlowId>, f: FlowId): nat
    requires cfg.Valid() && AllIn(flows, time) && f in time
  {
    if flows == [] then 0 else
      var first := if flows[0] == f then 0 else Credit(cfg, time[flows[0]], time[f]);
      first + Rank(cfg, time, flows[1..], f)
  }

  lemma CreditPositive(cfg: Config, t: int, limit: int)
    requires cfg.Valid() && t <= limit
    ensures 1 <= Credit(cfg, t, limit)
  {
    DivMonotone(0, limit - t, cfg.weight);
  }

  lemma CreditMonotone(cfg: Config, t: int, limit: int, t': int, limit': int)
    requires cfg.Valid() && limit' - t' <= limit - t
    ensures Credit(cfg, t', limit') <= Credit(cfg, t, limit)
  {
    if t' <= limit' {
      DivMonotone(limit' - t', limit - t, cfg.weight);
    }
  }

  /** Paying at least the packet weight uses up at least one credit. */
  lemma CreditSpent(cfg: Config, t: int, limit: int, t': int, limit': int)
    requires cfg.Valid() && t <= limit && limit' - t' <= limit - t - cfg.weight
    ensures Credit(cfg, t', limit') + 1 <= Credit(cfg, t, limit)
  {
    if t' <= limit' {
      DivMonotone(limit' - t', limit - t - cfg.weight, cfg.weight);
      DivMinusOne(limit - t, cfg.weight);
    }
  }

  lemma {:induction false} RankMonotone(cfg: Config, time: map<FlowId, int>, time': map<FlowId, int>,
                                        flows: seq<FlowId>, f: FlowId)
    requires cfg.Valid() && AllIn(flows, time) && AllIn(flows, time') && f in time && f in time'
    requires forall g | g in flows && g != f :: time'[f] - time'[g] <= time[f] - time[g]
    ensures Rank(cfg, time', flows, f) <= Rank(cfg, time, flows, f)
  {
    if flows != [] {
      if flows[0] != f {
        assert flows[0] in flows;
        CreditMonotone(cfg, time[flows[0]], time[f], time'[flows[0]], time'[f]);
      }
      RankMonotone(cfg, time, time', flows[1..], f);
    }
  }

  lemma {:induction false} RankSpent(cfg: Config, time: map<FlowId, int>, time': map<FlowId, int>,
                                     flows: seq<FlowId>, f: FlowId, g: FlowId)
    requires cfg.Valid() && AllIn(flows, time) && AllIn(flows, time') && f in time && f in time'
    requires forall h | h in flows && h != f :: time'[f] - time'[h] <= time[f] - time[h]
    requires g in flows && g != f && time[g] <= time[f]
    requires time'[f] - time'[g] <= time[f] - time[g] - cfg.weight
    ensures Rank(cfg, time', flows, f) + 1 <= Rank(cfg, time, flows, f)
  {
    if flows[0] == g {
      CreditSpent(cfg, time[g], time[f], time'[g], time'[f]);
      RankMonotone(cfg, time, time', flows[1..], f);
    } else {
      if flows[0] != f {
        assert flows[0] in flows;
        CreditMonotone(cfg, time[flows[0]], time[f], time'[flows[0]], time'[f]);
      }
      RankSpent(cfg, time, time', flows[1..], f, g);
    }
  }

  lemma {:induction false} RankRemove(cfg: Config, time: map<FlowId, int>, time': map<FlowId, int>,
                                      flows: seq<FlowId>, f: FlowId, g: FlowId)
    requires cfg.Valid() && AllIn(flows, time) && f in time && f != g && Once(flows)
    requires time' == time - {g} && g in flows
    ensures AllIn(Remove(flows, g), time')
    ensures Rank(cfg, time', Remove(flows, g), f) + Credit(cfg, time[g], time[f]) == Rank(cfg, time, flows, f)
  {
    RemoveElements(flows, g);
    if flows[0] == g {
      assert flows == [g] + flows[1..];
      RankSame(cfg, time, time', flows[1..], f);
    } else {
      RankRemove(cfg, time, time', flows[1..], f, g);
    }
  }

  lemma RankSame(cfg: Config, time: map<FlowId, int>, time': map<FlowId, int>, flows: seq<FlowId>, f: FlowId)
    requires cfg.Valid() && AllIn(flows, time) && AllIn(flows, time') && f in time && f in time'
    requires time'[f] == time[f] && forall g | g in flows :: time'[g] == time[g]
    ensures Rank(cfg, time', flows, f) == Rank(cfg, time, flows, f)
  {
    RankMonotone(cfg, time, time', flows, f);
    RankMonotone(cfg, time', time, flows, f);
  }

  /** The bound of a queued flow, less the packet now on its way. */
  function Distance(cfg: Config, q: Queue, f: FlowId): int
    requires cfg.Valid() && Shape(q) && f in q.time
  {
    assert AllIn(q.flows, q.time);
    Rank(cfg, q.time, q.flows, f) - (if q.sending.Some? then 1 else 0)
  }

  lemma DistanceNonnegative(cfg: Config, q: Queue, f: FlowId)
    requires cfg.Valid() && Inv(cfg, Wrapping, q) && f in q.queued
    ensures 0 <= Distance(cfg, q, f)
  {
    if q.sending.Some? {
      RankCovers(cfg, q.time, q.flows, f, q.sending.value);
    }
  }

  lemma {:induction false} RankCovers(cfg: Config, time: map<FlowId, int>, flows: seq<FlowId>, f: FlowId, g: FlowId)
    requires cfg.Valid() && AllIn(flows, time) && f in time && g in flows && g != f && time[g] <= time[f]
    ensures 1 <= Rank(cfg, time, flows, f)
  {
    CreditPositive(cfg, time[g], time[f]);
    if flows[0] != g {
      RankCovers(cfg, time, flows[1..], f, g);
    }
  }

  lemma DistanceSend(cfg: Config, q: Queue, f: FlowId, g: FlowId, len: nat, q': Queue)
    requires cfg.Valid() && Inv(cfg, Wrapping, q) && Enabled(cfg, q, Send(g, len)) && f in q.queued
    requires q' == Step(cfg, Wrapping, q, Send(g, len)) && Shape(q')
    ensures f in q'.time && Dispatched(q, q') == [] && Distance(cfg, q', f) <= Distance(cfg, q, f)
  {
    RankMonotone(cfg, q.time, q'.time, q.flows, f);
  }

  lemma DistanceOutputDone(cfg: Config, q: Queue, f: FlowId, q': Queue)
    requires cfg.Valid() && Inv(cfg, Wrapping, q) && Enabled(cfg, q, OutputDone) && f in q.queued
    requires q' == Step(cfg, Wrapping, q, OutputDone) && Shape(q')
    ensures f in q'.time && Dispatched(q, q') == [] && Distance(cfg, q', f) <= Distance(cfg, q, f)
  {
    RebaseExact(cfg, q.time, q.queued, q.sending.value, Cost(cfg, q));
    RankSpent(cfg, q.time, q'.time, q.flows, f, q.sending.value);
  }

  /** Freeing the sending flow of a queue being freed gives up its credit. */
  lemma DistanceFlowFree(cfg: Config, q: Queue, f: FlowId, g: FlowId, q': Queue)
    requires cfg.Valid() && Inv(cfg, Wrapping, q) && Enabled(cfg, q, FlowFree(g)) && f in q.queued && f != g
    requires q' == AfterFlowFree(q, g) && Shape(q')
    ensures f in q'.time && Dispatched(q, q') == [] && Distance(cfg, q', f) <= Distance(cfg, q, f)
  {
    RankRemove(cfg, q.time, q'.time, q.flows, f, g);
    if q.sending == Some(g) {
      assert q.time[g] <= q.time[f];
      CreditPositive(cfg, q.time[g], q.time[f]);
    }
  }

  /** While f waits and no flow is added, every dispatch of another flow brings it closer, and
      no other step (requeueing, raising or rebasing included) moves it away. */
  lemma DistanceStep(cfg: Config, q: Queue, e: Event, f: FlowId, q': Queue)
    requires cfg.Valid() && Inv(cfg, Wrapping, q) && Enabled(cfg, q, e) && !e.FlowInit?
    requires q' == Step(cfg, Wrapping, q, e) && f in q.queued && f in q'.queued
    ensures Inv(cfg, Wrapping, q')
    ensures Distance(cfg, q', f) + |Dispatched(q, q')| <= Distance(cfg, q, f)
  {
    StepKeepsInv(cfg, Wrapping, q, e);
    match e
    case Send(g, len) => DistanceSend(cfg, q, f, g, len, q');
    case OutputDone => DistanceOutputDone(cfg, q, f, q');
    case FlowFree(g) =>
      RemoveSorted(q.time, q.queued, g);
      DistanceFlowFree(cfg, q, f, g, q');
    case _ =>
  }

  predicate StaysQueued(cfg: Config, q: Queue, events: seq<Event>, f: FlowId)
    requires cfg.Valid() && Inv(cfg, Wrapping, q) && Legal(cfg, Wrapping, q, events)
    decreases |events|
  {
    && f in q.queued
    && (events != [] ==>
         (StepKeepsInv(cfg, Wrapping, q, events[0]);
          StaysQueued(cfg, Step(cfg, Wrapping, q, events[0]), events[1..], f)))
  }

  predicate NoNewFlow(events: seq<Event>) {
    forall i | 0 <= i < |events| :: !events[i].FlowInit?
  }

  lemma {:induction false} DistanceRun(cfg: Config, q: Queue, events: seq<Event>, f: FlowId)
    requires cfg.Valid() && Inv(cfg, Wrapping, q) && Legal(cfg, Wrapping, q, events)
    requires StaysQueued(cfg, q, events, f) && NoNewFlow(events)
    ensures |Dispatches(cfg, Wrapping, q, events)| <= Distance(cfg, q, f)
    decreases |events|
  {
    if events == [] {
      DistanceNonnegative(cfg, q, f);
    } else {
      var q' := Step(cfg, Wrapping, q, events[0]);
      StepKeepsInv(cfg, Wrapping, q, events[0]);
      assert f in q'.queued;
      DistanceStep(cfg, q, events[0], f, q');
      DistanceRun(cfg, q', events[1..], f);
    }
  }

  /** Bounded bypass: over any run during which f stays queued and no flow is added, at most
      the sum over the other flows g with t_g <= t_f of (t_f - t_g) / packet_weight + 1
      packets are dispatched. */
  lemma BoundedBypass(cfg: Config, q: Queue, events: seq<Event>, f: FlowId)
    requires cfg.Valid() && Inv(cfg, Wrapping, q) && Legal(cfg, Wrapping, q, events)
    requires StaysQueued(cfg, q, events, f) && NoNewFlow(events)
    ensures AllIn(q.flows, q.time)
    ensures |Dispatches(cfg, Wrapping, q, events)| <= Rank(cfg, q.time, q.flows, f)
  {
    assert AllIn(q.flows, q.time);
    DistanceRun(cfg, q, events, f);
  }

  function JobRunCount(events: seq<Event>): nat {
    if events == [] then 0 else (if events[0].ScheduleJob? then 1 else 0) + JobRunCount(events[1..])
  }

  /** A waiting flow is never stuck: the output is working or the schedule job is set, and
      each run of the job dispatches a flow. */
  lemma Progress(cfg: Config, q: Queue, f: FlowId)
    requires cfg.Valid() && Inv(cfg, Wrapping, q) && f in q.queued && !q.freeing
    ensures Enabled(cfg, q, OutputDone) || Enabled(cfg, q, ScheduleJob)
    ensures Enabled(cfg, q, ScheduleJob) ==> |Dispatched(q, Step(cfg, Wrapping, q, ScheduleJob))| == 1
  {
  }

  lemma {:induction false} JobRunsDispatch(cfg: Config, q: Queue, events: seq<Event>, f: FlowId)
    requires cfg.Valid() && Inv(cfg, Wrapping, q) && Legal(cfg, Wrapping, q, events)
    requires StaysQueued(cfg, q, events, f)
    ensures JobRunCount(events) <= |Dispatches(cfg, Wrapping, q, events)|
    decreases |events|
  {
    if events != [] {
      var q' := Step(cfg, Wrapping, q, events[0]);
      StepKeepsInv(cfg, Wrapping, q, events[0]);
      if events[0].ScheduleJob? { Progress(cfg, q, f); }
      JobRunsDispatch(cfg, q', events[1..], f);
    }
  }

  /** No starvation: once the schedule job has run more often than the bypass bound, with no
      flow added, f is no longer waiting. */
  lemma NoStarvation(cfg: Config, q: Queue, events: seq<Event>, f: FlowId)
    requires cfg.Valid() && Inv(cfg, Wrapping, q) && Legal(cfg, Wrapping, q, events) && NoNewFlow(events)
    requires f in q.queued && AllIn(q.flows, q.time)
    requires Rank(cfg, q.time, q.flows, f) < JobRunCount(events)
    ensures !StaysQueued(cfg, q, events, f)
  {
    if StaysQueued(cfg, q, events, f) {
      BoundedBypass(cfg, q, events, f);
      JobRunsDispatch(cfg, q, events, f);
    }
  }
}
