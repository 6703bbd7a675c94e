/** Where the rebase shows. It forgets how far ahead idle flows are: two flows that it clamped to
    zero may be served, once the idle queue starts again, in another order than by the scheduler
    with unbounded times. This happens with every configuration. */
module FairQueueRestart {
  import opened Wrappers
  import opened FairQueue
  import opened FairQueueTheorems

  lemma RunCons(cfg: Config, arith: Arithmetic, q: Queue, e: Event, rest: seq<Event>, q': Queue)
    requires cfg.Valid() && Inv(cfg, arith, q) && Enabled(cfg, q, e) && q' == Step(cfg, arith, q, e)
    requires Inv(cfg, arith, q') && Legal(cfg, arith, q', rest)
    ensures Legal(cfg, arith, q, [e] + rest)
    ensures Dispatches(cfg, arith, q, [e] + rest) == Dispatched(q, q') + Dispatches(cfg, arith, q', rest)
  {
    assert ([e] + rest)[1..] == rest;
  }

  // ----- what a restart dispatches -----

  predicate Idle(q: Queue) {
    !Busy(q) && !q.job && !q.freeing
  }

  /** The flow f restarts the queue, a new flow h and then g join, and f finishes. */
  function Finishing(): seq<Event> { [OutputDone, ScheduleJob] }
  function Joining(g: FlowId): seq<Event> { [Send(g, 0)] + Finishing() }
  function Competing(g: FlowId, h: FlowId): seq<Event> { [Send(h, 0)] + Joining(g) }
  function Starting(f: FlowId, g: FlowId, h: FlowId): seq<Event> { [Send(f, 0)] + Competing(g, h) }
  function Restart(f: FlowId, g: FlowId, h: FlowId): seq<Event> { [FlowInit(h)] + Starting(f, g, h) }

  /** A flow that queues while another sends is raised to that one's time. */
  lemma SendWhileSending(q: Queue, f: FlowId, len: nat)
    requires Shape(q) && f in q.time && q.sending.Some? && q.previous.None?
    ensures var r, time := AfterSend(q, f, len), q.time[f := Max(q.time[f], q.time[q.sending.value])];
      AllIn(q.queued, time)
      && r == q.(time := time, len := q.len[f := len], queued := TreeInsert(time, q.queued, f))
  {
  }

  lemma FinishingRun(cfg: Config, arith: Arithmetic, q: Queue)
    requires cfg.Valid() && Inv(cfg, arith, q) && !q.freeing && q.sending.Some? && q.queued != []
    ensures Legal(cfg, arith, q, Finishing())
    ensures Dispatches(cfg, arith, q, Finishing()) == [q.queued[0]]
  {
    var q1 := Step(cfg, arith, q, OutputDone);
    StepKeepsInv(cfg, arith, q, OutputDone);
    var q2 := Step(cfg, arith, q1, ScheduleJob);
    StepKeepsInv(cfg, arith, q1, ScheduleJob);
    RunCons(cfg, arith, q1, ScheduleJob, [], q2);
    assert [ScheduleJob] + [] == [ScheduleJob];
    RunCons(cfg, arith, q, OutputDone, [ScheduleJob], q1);
    assert [OutputDone] + [ScheduleJob] == Finishing();
  }

  lemma JoiningRun(cfg: Config, arith: Arithmetic, q: Queue, f: FlowId, g: FlowId, h: FlowId)
    requires cfg.Valid() && Inv(cfg, arith, q) && !q.freeing && f != g && g < h && g in q.time
    requires q.sending == Some(f) && q.queued == [h] && q.time[h] == q.time[f] <= q.time[g]
    ensures Legal(cfg, arith, q, Joining(g))
    ensures Dispatches(cfg, arith, q, Joining(g)) == [if q.time[g] <= q.time[f] then g else h]
  {
    var q1 := Step(cfg, arith, q, Send(g, 0));
    SendWhileSending(q, g, 0);
    StepKeepsInv(cfg, arith, q, Send(g, 0));
    FinishingRun(cfg, arith, q1);
    RunCons(cfg, arith, q, Send(g, 0), Finishing(), q1);
  }

  lemma CompetingRun(cfg: Config, arith: Arithmetic, q: Queue, f: FlowId, g: FlowId, h: FlowId)
    requires cfg.Valid() && Inv(cfg, arith, q) && !q.freeing && f != g && g < h && f != h
    requires {g, h} <= q.time.Keys && q.sending == Some(f) && q.queued == []
    requires q.time[h] == 0 <= q.time[f] <= q.time[g]
    ensures Legal(cfg, arith, q, Competing(g, h))
    ensures Dispatches(cfg, arith, q, Competing(g, h)) == [if q.time[g] <= q.time[f] then g else h]
  {
    var q1 := Step(cfg, arith, q, Send(h, 0));
    SendWhileSending(q, h, 0);
    StepKeepsInv(cfg, arith, q, Send(h, 0));
    JoiningRun(cfg, arith, q1, f, g, h);
    RunCons(cfg, arith, q, Send(h, 0), Joining(g), q1);
  }

  lemma StartingRun(cfg: Config, arith: Arithmetic, q: Queue, f: FlowId, g: FlowId, h: FlowId)
    requires cfg.Valid() && Inv(cfg, arith, q) && Idle(q) && f != g && g < h && f != h
    requires {f, g, h} <= q.time.Keys && q.time[h] == 0 && q.time[f] <= q.time[g]
    ensures Legal(cfg, arith, q, Starting(f, g, h))
    ensures Dispatches(cfg, arith, q, Starting(f, g, h)) == [f, if q.time[g] <= q.time[f] then g else h]
  {
    var q1 := Step(cfg, arith, q, Send(f, 0));
    IdleSend(q, f, 0);
    StepKeepsInv(cfg, arith, q, Send(f, 0));
    CompetingRun(cfg, arith, q1, f, g, h);
    RunCons(cfg, arith, q, Send(f, 0), Competing(g, h), q1);
  }

  /** In either arithmetic: after f, the old flow g comes before the new flow h exactly when it is
      not ahead of f. */
  lemma RestartRun(cfg: Config, arith: Arithmetic, q: Queue, f: FlowId, g: FlowId, h: FlowId)
    requires cfg.Valid() && Inv(cfg, arith, q) && Idle(q) && {f, g} <= q.time.Keys
    requires f != g && g < h && h !in q.time && q.time[f] <= q.time[g]
    ensures Legal(cfg, arith, q, Restart(f, g, h))
    ensures Dispatches(cfg, arith, q, Restart(f, g, h)) == [f, if q.time[g] <= q.time[f] then g else h]
  {
    var q1 := Step(cfg, arith, q, FlowInit(h));
    StepKeepsInv(cfg, arith, q, FlowInit(h));
    StartingRun(cfg, arith, q1, f, g, h);
    RunCons(cfg, arith, q, FlowInit(h), Starting(f, g, h), q1);
  }

  /** Any two clamped flows that are not even are told apart by a restart: the code dispatches the
      one ahead, the unbounded scheduler the new flow. */
  lemma RestartDiffers(cfg: Config, q: Queue, u: Queue, base: int, f: FlowId, g: FlowId, h: FlowId)
    requires cfg.Valid() && Inv(cfg, Wrapping, q) && Inv(cfg, Unbounded, u) && Refines(q, u, base) && Idle(q)
    requires {f, g} <= q.time.Keys && q.time[f] == 0 == q.time[g] && u.time[f] < u.time[g]
    requires g < h && h !in q.time
    ensures Legal(cfg, Wrapping, q, Restart(f, g, h)) && Legal(cfg, Unbounded, u, Restart(f, g, h))
    ensures Dispatches(cfg, Wrapping, q, Restart(f, g, h)) == [f, g]
    ensures Dispatches(cfg, Unbounded, u, Restart(f, g, h)) == [f, h]
  {
    RestartRun(cfg, Wrapping, q, f, g, h);
    RestartRun(cfg, Unbounded, u, f, g, h);
  }

  // ----- every configuration gets there -----

  ghost predicate Differ(cfg: Config, q: Queue, u: Queue, events: seq<Event>) {
    && cfg.Valid() && Inv(cfg, Wrapping, q) && Inv(cfg, Unbounded, u)
    && Legal(cfg, Wrapping, q, events) && Legal(cfg, Unbounded, u, events)
    && Dispatches(cfg, Wrapping, q, events) != Dispatches(cfg, Unbounded, u, events)
  }

  /** Some run from these states is dispatched in two orders. */
  ghost predicate Apart(cfg: Config, q: Queue, u: Queue) {
    exists events :: Differ(cfg, q, u, events)
  }

  ghost predicate Joint(cfg: Config, q: Queue, u: Queue, base: int) {
    cfg.Valid() && Inv(cfg, Wrapping, q) && Inv(cfg, Unbounded, u) && Refines(q, u, base)
  }

  /** So it is for every state of the code that the unbounded scheduler's may stand for. */
  ghost predicate AlwaysApart(cfg: Config, u: Queue) {
    forall q, base | Joint(cfg, q, u, base) :: Apart(cfg, q, u)
  }

  lemma ApartCons(cfg: Config, q: Queue, u: Queue, e: Event, q': Queue, u': Queue)
    requires cfg.Valid() && Inv(cfg, Wrapping, q) && Inv(cfg, Unbounded, u)
    requires Enabled(cfg, q, e) && q' == Step(cfg, Wrapping, q, e)
    requires Enabled(cfg, u, e) && u' == Step(cfg, Unbounded, u, e)
    requires Dispatched(q, q') == Dispatched(u, u') && Apart(cfg, q', u')
    ensures Apart(cfg, q, u)
  {
    var rest :| Differ(cfg, q', u', rest);
    RunCons(cfg, Wrapping, q, e, rest, q');
    RunCons(cfg, Unbounded, u, e, rest, u');
    PrependDistinct(Dispatched(q, q'), Dispatches(cfg, Wrapping, q', rest), Dispatches(cfg, Unbounded, u', rest));
    assert Differ(cfg, q, u, [e] + rest);
  }

  lemma PrependDistinct(d: seq<FlowId>, a: seq<FlowId>, b: seq<FlowId>)
    requires a != b
    ensures d + a != d + b
  {
    assert a == (d + a)[|d|..] && b == (d + b)[|d|..];
  }

  lemma JointStep(cfg: Config, q: Queue, u: Queue, base: int, e: Event, q': Queue, u': Queue)
    requires Joint(cfg, q, u, base) && Enabled(cfg, q, e) && Enabled(cfg, u, e) && (e.Send? ==> Busy(u))
    requires q' == Step(cfg, Wrapping, q, e) && u' == Step(cfg, Unbounded, u, e)
    ensures Joint(cfg, q', u', base + Subtracted(cfg, q, e))
    ensures Dispatched(q, q') == Dispatched(u, u')
  {
    StepKeepsInv(cfg, Wrapping, q, e);
    StepKeepsInv(cfg, Unbounded, u, e);
    AnchoredStepRefines(cfg, q, u, base, e);
  }

  lemma AlwaysApartBefore(cfg: Config, u: Queue, e: Event, u': Queue)
    requires Shape(u) && Enabled(cfg, u, e) && (e.Send? ==> Busy(u)) && u' == Step(cfg, Unbounded, u, e)
    requires AlwaysApart(cfg, u')
    ensures AlwaysApart(cfg, u)
  {
    forall q, base | Joint(cfg, q, u, base) ensures Apart(cfg, q, u) {
      EnabledAlike(cfg, q, u, base, e);
      var q' := Step(cfg, Wrapping, q, e);
      JointStep(cfg, q, u, base, e, q', u');
      ApartCons(cfg, q, u, e, q', u');
    }
  }

  /** The unbounded scheduler with flow 0, which never sent, flow 1, whose time is w, and flow 2,
      at time t. */
  function Worked(w: int, t: int, queued: seq<FlowId>, sending: Option<FlowId>, previous: Option<FlowId>, job: bool): (u: Queue)
    ensures u.time.Keys == {0, 1, 2} == u.len.Keys && u.time[0] == 0 && u.time[1] == w && u.time[2] == t
  {
    Queue([0, 1, 2], map[0 := 0, 1 := w, 2 := t], map[0 := 0, 1 := 0, 2 := 0], queued, sending, 0, previous, job, false)
  }

  lemma WorkedShape(u: Queue)
    requires u.flows == [0, 1, 2] && u.time.Keys == {0, 1, 2} == u.len.Keys
    requires u.queued == [] || u.queued == [2]
    requires u.sending.Some? ==> u.sending.value in {1, 2}
    requires u.previous.Some? ==> u.previous.value in {1, 2}
    ensures Shape(u)
  {
    assert (set f | f in u.flows) == {0, 1, 2};
  }

  /** Once flow 2 has worked long enough, both others are clamped. */
  lemma Clamped(cfg: Config, q: Queue, u: Queue, base: int, t: int)
    requires Joint(cfg, q, u, base)
    requires u == Worked(cfg.weight, t, [], None, None, false) && cfg.maxTime + cfg.weight < t
    ensures q.time.Keys == {0, 1, 2} && q.time[0] == 0 == q.time[1] && Idle(q)
  {
    assert 2 in q.time && 1 in q.time && 0 in q.time;
  }

  lemma WorkedEnough(cfg: Config, t: int)
    requires cfg.Valid() && cfg.maxTime + cfg.weight < t
    ensures AlwaysApart(cfg, Worked(cfg.weight, t, [], None, None, false))
  {
    var u := Worked(cfg.weight, t, [], None, None, false);
    forall q, base | Joint(cfg, q, u, base) ensures Apart(cfg, q, u) {
      Clamped(cfg, q, u, base, t);
      RestartDiffers(cfg, q, u, base, 0, 1, 3);
      assert Dispatches(cfg, Wrapping, q, Restart(0, 1, 3))[1] == 1;
      assert Differ(cfg, q, u, Restart(0, 1, 3));
    }
  }

  lemma WorkedDone(cfg: Config, w: int, t: int)
    ensures var u := Worked(w, t, [], Some(2), None, false);
      Shape(u) && Enabled(cfg, u, OutputDone)
      && Step(cfg, Unbounded, u, OutputDone) == Worked(w, t + cfg.weight, [], None, Some(2), true)
  {
    WorkedShape(Worked(w, t, [], Some(2), None, false));
  }

  lemma WorkedStops(cfg: Config, w: int, t: int)
    ensures var u := Worked(w, t, [], None, Some(2), true);
      Shape(u) && Enabled(cfg, u, ScheduleJob)
      && Step(cfg, Unbounded, u, ScheduleJob) == Worked(w, t, [], None, None, false)
  {
    WorkedShape(Worked(w, t, [], None, Some(2), true));
  }

  /** The flow that just finished may send again before the job runs. */
  lemma WorkedAgain(cfg: Config, w: int, t: int)
    ensures var u := Worked(w, t, [], None, Some(2), true);
      Shape(u) && Busy(u) && Enabled(cfg, u, Send(2, 0))
      && Step(cfg, Unbounded, u, Send(2, 0)) == Worked(w, t, [2], None, None, true)
  {
    var u := Worked(w, t, [], None, Some(2), true);
    WorkedShape(u);
    assert u.len[2 := 0] == u.len;
  }

  lemma WorkedNext(cfg: Config, w: int, t: int)
    ensures var u := Worked(w, t, [2], None, None, true);
      Shape(u) && Enabled(cfg, u, ScheduleJob)
      && Step(cfg, Unbounded, u, ScheduleJob) == Worked(w, t, [], Some(2), None, false)
  {
    WorkedShape(Worked(w, t, [2], None, None, true));
  }

  /** Flow 2 sends packet after packet. */
  lemma {:induction false} KeepsWorking(cfg: Config, t: int)
    requires cfg.Valid()
    ensures AlwaysApart(cfg, Worked(cfg.weight, t, [], Some(2), None, false))
    decreases cfg.maxTime - t
  {
    var w, t' := cfg.weight, t + cfg.weight;
    WorkedDone(cfg, w, t);
    if cfg.maxTime < t {
      WorkedEnough(cfg, t');
      WorkedStops(cfg, w, t');
      AlwaysApartBefore(cfg, Worked(w, t', [], None, Some(2), true), ScheduleJob, Worked(w, t', [], None, None, false));
    } else {
      KeepsWorking(cfg, t');
      WorkedNext(cfg, w, t');
      AlwaysApartBefore(cfg, Worked(w, t', [2], None, None, true), ScheduleJob, Worked(w, t', [], Some(2), None, false));
      WorkedAgain(cfg, w, t');
      AlwaysApartBefore(cfg, Worked(w, t', [], None, Some(2), true), Send(2, 0), Worked(w, t', [2], None, None, true));
    }
    AlwaysApartBefore(cfg, Worked(w, t, [], Some(2), None, false), OutputDone, Worked(w, t', [], None, Some(2), true));
  }

  // ----- from the empty queue -----

  /** A step that is the same in both arithmetics. */
  lemma Alike(cfg: Config, q: Queue, e: Event, q': Queue)
    requires cfg.Valid() && Inv(cfg, Wrapping, q) && Inv(cfg, Unbounded, q) && Enabled(cfg, q, e)
    requires q' == Step(cfg, Wrapping, q, e) == Step(cfg, Unbounded, q, e)
    ensures Inv(cfg, Wrapping, q') && Inv(cfg, Unbounded, q')
    ensures Apart(cfg, q', q') ==> Apart(cfg, q, q)
  {
    StepKeepsInv(cfg, Wrapping, q, e);
    StepKeepsInv(cfg, Unbounded, q, e);
    if Apart(cfg, q', q') {
      ApartCons(cfg, q, q, e, q', q');
    }
  }

  lemma ThreeFlows(cfg: Config) returns (q: Queue)
    requires cfg.Valid()
    ensures q == Worked(0, 0, [], None, None, false) && Inv(cfg, Wrapping, q) && Inv(cfg, Unbounded, q)
    ensures Apart(cfg, q, q) ==> Apart(cfg, EMPTY, EMPTY)
  {
    EmptyInv(cfg, Wrapping);
    EmptyInv(cfg, Unbounded);
    var q0 := Step(cfg, Wrapping, EMPTY, FlowInit(0));
    Alike(cfg, EMPTY, FlowInit(0), q0);
    var q1 := Step(cfg, Wrapping, q0, FlowInit(1));
    Alike(cfg, q0, FlowInit(1), q1);
    q := Step(cfg, Wrapping, q1, FlowInit(2));
    Alike(cfg, q1, FlowInit(2), q);
  }

  /** Flow 1 sends one packet. */
  lemma OneSends(cfg: Config, q: Queue) returns (q': Queue)
    requires cfg.Valid() && q == Worked(0, 0, [], None, None, false) && Inv(cfg, Wrapping, q) && Inv(cfg, Unbounded, q)
    ensures q' == Worked(0, 0, [], Some(1), None, false) && Inv(cfg, Wrapping, q') && Inv(cfg, Unbounded, q')
    ensures Apart(cfg, q', q') ==> Apart(cfg, q, q)
  {
    IdleSend(q, 1, 0);
    q' := AfterSend(q, 1, 0);
    assert q.len[1 := 0] == q.len;
    Alike(cfg, q, Send(1, 0), q');
  }

  lemma OneFinishes(cfg: Config, q: Queue) returns (q': Queue)
    requires cfg.Valid() && q == Worked(0, 0, [], Some(1), None, false) && Inv(cfg, Wrapping, q) && Inv(cfg, Unbounded, q)
    ensures q' == Worked(cfg.weight, 0, [], None, Some(1), true) && Inv(cfg, Wrapping, q') && Inv(cfg, Unbounded, q')
    ensures Apart(cfg, q', q') ==> Apart(cfg, q, q)
  {
    RebaseExact(cfg, q.time, q.queued, 1, cfg.weight);
    q' := Worked(cfg.weight, 0, [], None, Some(1), true);
    assert Step(cfg, Wrapping, q, OutputDone).time == q'.time;
    Alike(cfg, q, OutputDone, q');
  }

  /** It is idle again and flow 2 sends. */
  lemma TwoSends(cfg: Config, q: Queue) returns (q': Queue)
    requires cfg.Valid() && q == Worked(cfg.weight, 0, [], None, Some(1), true)
    requires Inv(cfg, Wrapping, q) && Inv(cfg, Unbounded, q)
    ensures q' == Worked(cfg.weight, 0, [], Some(2), None, false) && Inv(cfg, Wrapping, q') && Inv(cfg, Unbounded, q')
    ensures Apart(cfg, q', q') ==> Apart(cfg, q, q)
  {
    var q1 := AfterScheduleJob(q);
    Alike(cfg, q, ScheduleJob, q1);
    IdleSend(q1, 2, 0);
    q' := AfterSend(q1, 2, 0);
    assert q1.len[2 := 0] == q1.len;
    Alike(cfg, q1, Send(2, 0), q');
  }

  /** Whatever the weight, the MTU and the greatest time, there is a run of a new queue that the
      code dispatches in another order than the unbounded scheduler. */
  lemma RebaseShows(cfg: Config) returns (events: seq<Event>)
    requires cfg.Valid()
    ensures Inv(cfg, Wrapping, EMPTY) && Inv(cfg, Unbounded, EMPTY)
    ensures Legal(cfg, Wrapping, EMPTY, events) && Legal(cfg, Unbounded, EMPTY, events)
    ensures Dispatches(cfg, Wrapping, EMPTY, events) != Dispatches(cfg, Unbounded, EMPTY, events)
  {
    var q0 := ThreeFlows(cfg);
    var q1 := OneSends(cfg, q0);
    var q2 := OneFinishes(cfg, q1);
    var q3 := TwoSends(cfg, q2);
    KeepsWorking(cfg, 0);
    assert Joint(cfg, q3, q3, 0);
    events :| Differ(cfg, EMPTY, EMPTY, events);
  }
}
