/** The fair queue as the objects of flow/PacketPassFairQueue.c, updated in place, and the
    proof that every handler performs the step FairQueue.Step says. */
module FairQueueObject {
  import opened Wrappers
  import opened FairQueue

  class Flow {
    const addr: FlowId
    var time: nat
    var isQueued: bool
    var dataLen: nat

    /** Whether handler_busy is set. */
    var handlerBusy: bool

    constructor (addr: FlowId)
      ensures this.addr == addr && time == 0 && !isQueued && dataLen == 0 && !handlerBusy
    {
      this.addr := addr;
      time, isQueued, dataLen, handlerBusy := 0, false, 0, false;
    }
  }

  ghost predicate Named(flows: seq<Flow>, names: seq<FlowId>) {
    |flows| == |names| && forall i | 0 <= i < |flows| :: flows[i].addr == names[i]
  }

  ghost predicate NamedBy(f: Flow?, name: Option<FlowId>) {
    if f == null then name.None? else name == Some(f.addr)
  }

  /** compare_flows(f, g) < 0 */
  predicate Before(f: Flow, g: Flow)
    reads f, g
  {
    f.time < g.time || (f.time == g.time && f.addr < g.addr)
  }

  function InsertFlow(tree: seq<Flow>, f: Flow): seq<Flow>
    reads tree, f
  {
    if tree == [] || Before(f, tree[0]) then [f] + tree
    else [tree[0]] + InsertFlow(tree[1..], f)
  }

  function RemoveFlow(s: seq<Flow>, f: Flow): seq<Flow> {
    if s == [] then [] else if s[0] == f then s[1..] else [s[0]] + RemoveFlow(s[1..], f)
  }

  lemma {:induction false} InsertFlowNamed(time: map<FlowId, int>, tree: seq<Flow>, names: seq<FlowId>, f: Flow)
    requires Named(tree, names) && AllIn(names, time)
    requires forall i | 0 <= i < |tree| :: names[i] in time && time[names[i]] == tree[i].time
    requires f.addr in time && time[f.addr] == f.time
    ensures Named(InsertFlow(tree, f), TreeInsert(time, names, f.addr))
    ensures forall g :: g in InsertFlow(tree, f) <==> g in tree || g == f
  {
    if tree != [] && !Before(f, tree[0]) {
      InsertFlowNamed(time, tree[1..], names[1..], f);
      assert tree == [tree[0]] + tree[1..];
    }
  }

  lemma {:induction false} RemoveFlowNamed(s: seq<Flow>, names: seq<FlowId>, f: Flow)
    requires Named(s, names) && Once(names)
    requires forall i | 0 <= i < |s| && s[i].addr == f.addr :: s[i] == f
    ensures Named(RemoveFlow(s, f), Remove(names, f.addr))
    ensures forall g :: g in RemoveFlow(s, f) <==> g in s && g != f
  {
    if s != [] {
      assert s == [s[0]] + s[1..];
      if s[0] != f {
        RemoveFlowNamed(s[1..], names[1..], f);
      }
    }
  }

  class PacketPassFairQueue {
    const cfg: Config
    var sendingFlow: Flow?
    var sendingLen: nat
    var previousFlow: Flow?
    var queuedTree: seq<Flow>
    var flowsList: seq<Flow>
    var freeing: bool
    var scheduleJob: bool

    /** The objects listed in flowsList. */
    ghost var flows: set<Flow>

    /** The abstract state these fields and the flows' fields stand for. */
    ghost var model: Queue

    ghost predicate TimesAre(time: map<FlowId, int>)
      reads `flowsList, `flows, flows
    {
      (forall i | 0 <= i < |flowsList| :: flowsList[i] in flows) &&
      forall i | 0 <= i < |flowsList| ::
        flowsList[i].addr in time && time[flowsList[i].addr] == flowsList[i].time
    }

    ghost predicate LengthsAre(len: map<FlowId, nat>)
      reads `flowsList, `flows, flows
    {
      (forall i | 0 <= i < |flowsList| :: flowsList[i] in flows) &&
      forall i | 0 <= i < |flowsList| ::
        flowsList[i].addr in len && len[flowsList[i].addr] == flowsList[i].dataLen
    }

    ghost predicate FlagsAre(queued: seq<FlowId>)
      reads `flowsList, `flows, flows
    {
      (forall i | 0 <= i < |flowsList| :: flowsList[i] in flows) &&
      forall i | 0 <= i < |flowsList| :: flowsList[i].isQueued == (flowsList[i].addr in queued)
    }

    /** The objects the queue points to are listed flows, named as in q. */
    ghost predicate PointersAre(q: Queue)
      reads this
    {
      && Named(flowsList, q.flows) && Named(queuedTree, q.queued)
      && (forall i | 0 <= i < |queuedTree| :: queuedTree[i] in flowsList)
      && NamedBy(sendingFlow, q.sending) && (sendingFlow != null ==> sendingFlow in flowsList)
      && NamedBy(previousFlow, q.previous) && (previousFlow != null ==> previousFlow in flowsList)
      && sendingLen == q.sendingLen && freeing == q.freeing && scheduleJob == q.job
    }

    /** The part the accounting works on: the listed flows, their times, and the tree. */
    ghost predicate TimesLinked()
      reads `flowsList, `flows, `queuedTree, `model, flows
    {
      && Named(flowsList, model.flows) && Once(model.flows)
      && Named(queuedTree, model.queued) && AllIn(model.queued, model.time)
      && (forall i | 0 <= i < |queuedTree| :: queuedTree[i] in flowsList)
      && TimesAre(model.time)
    }

    ghost predicate Linked()
      reads this, flows
    {
      && Shape(model) && Once(model.flows) && PointersAre(model)
      && TimesAre(model.time) && LengthsAre(model.len) && FlagsAre(model.queued)
    }

    ghost predicate Valid()
      reads this, flows
    {
      cfg.Valid() && Linked() && Inv(cfg, Wrapping, model)
    }

    /** The abstract state catches up with the fields. */
    ghost method Become(next: Queue)
      requires Shape(next) && Once(next.flows) && PointersAre(next)
      requires TimesAre(next.time) && LengthsAre(next.len) && FlagsAre(next.queued)
      modifies `model
      ensures Linked() && model == next
    {
      model := next;
    }

    /** PacketPassFairQueue_Init, after its check that the configuration fits. */
    constructor (cfg: Config)
      requires cfg.Valid()
      ensures Valid() && this.cfg == cfg && model == EMPTY
    {
      this.cfg := cfg;
      sendingFlow, sendingLen, previousFlow := null, 0, null;
      queuedTree, flowsList, freeing, scheduleJob := [], [], false, false;
      flows, model := {}, EMPTY;
    }

    /** PacketPassFairQueue_Init: refuses exactly the configurations whose largest packet
        could cost more than the time range holds. */
    static method Init(weight: nat, mtu: nat, maxTime: nat) returns (m: PacketPassFairQueue?)
      requires 0 < weight && maxTime < UINT64_MOD
      ensures m != null <==> weight + mtu <= maxTime
      ensures m != null ==> fresh(m) && m.Valid() && m.cfg == Config(weight, mtu, maxTime) && m.model == EMPTY
    {
      if !(mtu <= maxTime && weight <= maxTime - mtu) {
        return null;
      }
      m := new PacketPassFairQueue(Config(weight, mtu, maxTime));
    }

    lemma TimeOf(time: map<FlowId, int>, f: Flow)
      requires TimesAre(time) && f in flowsList
      ensures f.addr in time && time[f.addr] == f.time
    {
    }

    lemma SameName(q: Queue, f: Flow, i: nat)
      requires Named(flowsList, q.flows) && Once(q.flows) && f in flowsList && i < |flowsList|
      ensures f == flowsList[i] <==> f.addr == flowsList[i].addr
    {
    }

    /** get_current_time */
    method GetCurrentTime() returns (time: nat)
      requires Linked()
      ensures time == CurrentTime(model)
    {
      if sendingFlow != null {
        return sendingFlow.time;
      }
      time := 0;
      var have := false;
      if queuedTree != [] {
        TimeOf(model.time, queuedTree[0]);
        time, have := queuedTree[0].time, true;
      }
      if previousFlow != null {
        if !have || previousFlow.time < time {
          time, have := previousFlow.time, true;
        }
      }
    }

    /** increment_sent_flow; time is what the flows' times become. */
    method IncrementSentFlow(flow: Flow, amount: nat, ghost time: map<FlowId, int>)
      requires TimesLinked() && LengthsAre(model.len) && FlagsAre(model.queued)
      requires flow in flowsList && flow.addr in model.time
      requires time == IncrementSent(cfg, Wrapping, model.time, model.queued, flow.addr, amount)
      modifies flows`time
      ensures TimesAre(time) && LengthsAre(model.len) && FlagsAre(model.queued)
    {
      ghost var room := MakeRoom(cfg, model.time, model.queued, flow.addr, amount);
      assert time == room[flow.addr := Wrap(room[flow.addr] + amount)];
      MakeRoomFor(flow, amount);
      AddTime(flow, amount, room);
    }

    /** On overflow the same amount is taken off every flow in place; the finished flow's time
        may underflow until the addition brings it back. */
    method MakeRoomFor(flow: Flow, amount: nat)
      requires TimesLinked() && flow in flowsList && flow.addr in model.time
      modifies flows`time
      ensures TimesAre(MakeRoom(cfg, model.time, model.queued, flow.addr, amount))
    {
      TimeOf(model.time, flow);
      if amount > cfg.maxTime - flow.time {
        var subtract := flow.time;
        if queuedTree != [] {
          TimeOf(model.time, queuedTree[0]);
          subtract := queuedTree[0].time;
        }
        SubtractFromAll(flow, subtract);
      }
    }

    method AddTime(flow: Flow, amount: nat, ghost time: map<FlowId, int>)
      requires Named(flowsList, model.flows) && Once(model.flows)
      requires flow in flowsList && TimesAre(time) && flow.addr in time
      modifies flow`time
      ensures TimesAre(time[flow.addr := Wrap(time[flow.addr] + amount)])
    {
      TimeOf(time, flow);
      SetTime(flow, (flow.time + amount) % UINT64_MOD, time);
    }

    method SetTime(flow: Flow, t: nat, ghost time: map<FlowId, int>)
      requires Named(flowsList, model.flows) && Once(model.flows)
      requires flow in flowsList && TimesAre(time)
      modifies flow`time
      ensures TimesAre(time[flow.addr := t])
    {
      forall i | 0 <= i < |flowsList| ensures flow == flowsList[i] <==> flow.addr == flowsList[i].addr {
        SameName(model, flow, i);
      }
      flow.time := t;
    }

    method SubtractFromAll(flow: Flow, subtract: nat)
      requires Named(flowsList, model.flows) && Once(model.flows)
      requires flow in flowsList && TimesAre(model.time)
      modifies flows`time
      ensures TimesAre(RebaseAll(model.time, flow.addr, subtract))
    {
      for i := 0 to |flowsList|
        invariant forall k | 0 <= k < i ::
          flowsList[k].time == Rebased(old(flowsList[k].time), subtract, flowsList[k] == flow)
        invariant forall k | i <= k < |flowsList| :: flowsList[k].time == old(flowsList[k].time)
      {
        var someflow := flowsList[i];
        if subtract > someflow.time && someflow != flow {
          someflow.time := 0;
        } else {
          someflow.time := (someflow.time - subtract) % UINT64_MOD;
        }
      }
      forall i | 0 <= i < |flowsList| ensures flow == flowsList[i] <==> flow.addr == flowsList[i].addr {
        SameName(model, flow, i);
      }
    }

    /** schedule */
    method ScheduleFirst()
      requires Linked() && queuedTree != [] && model.queued[0] !in model.queued[1..]
      modifies `queuedTree, `sendingFlow, `sendingLen, {queuedTree[0]}`isQueued, `model
      ensures Linked() && model == Schedule(old(model))
    {
      ghost var next := Schedule(model);
      TakeFirst(queuedTree[0]);
      StartSending(queuedTree[0]);
      Become(next);
    }

    /** The first flow leaves the tree's order; its links and flag. */
    method TakeFirst(qflow: Flow)
      requires Linked() && queuedTree != [] && qflow == queuedTree[0] && model.queued[0] !in model.queued[1..]
      modifies qflow`isQueued
      ensures TimesAre(model.time) && LengthsAre(model.len) && FlagsAre(model.queued[1..])
    {
      assert model.queued == [qflow.addr] + model.queued[1..];
      forall i | 0 <= i < |flowsList| ensures qflow == flowsList[i] <==> qflow.addr == flowsList[i].addr {
        SameName(model, qflow, i);
      }
      qflow.isQueued := false;
    }

    method StartSending(qflow: Flow)
      requires Shape(model) && PointersAre(model) && LengthsAre(model.len)
      requires queuedTree != [] && qflow == queuedTree[0]
      modifies `queuedTree, `sendingFlow, `sendingLen
      ensures PointersAre(Schedule(model))
    {
      assert qflow in flowsList && qflow.addr == model.queued[0] && qflow.dataLen == model.len[qflow.addr];
      queuedTree := queuedTree[1..];
      sendingFlow, sendingLen := qflow, qflow.dataLen;
    }

    /** schedule_job_handler */
    method ScheduleJobHandler()
      requires Valid() && Enabled(cfg, model, ScheduleJob)
      modifies this, flows`isQueued
      ensures Valid() && model == Step(cfg, Wrapping, old(model), ScheduleJob)
    {
      ScheduleJobKeepsInv(cfg, Wrapping, model);
      ghost var next := AfterScheduleJob(model);
      // the job leaves the pending list before its handler is called
      scheduleJob := false;
      previousFlow := null;
      if queuedTree != [] { SortedHead(model.time, model.queued); }
      Become(model.(job := false, previous := None));
      if queuedTree != [] {
        ScheduleFirst();
      }
      assert model == next;
    }

    /** output_handler_done: the flow whose input is told that its packet is done, and whether its
        busy handler is called, which happens once. */
    method OutputHandlerDone() returns (done: Flow, callBusy: bool)
      requires Valid() && Enabled(cfg, model, OutputDone)
      modifies `sendingFlow, `previousFlow, `scheduleJob, `model, flows`time, sendingFlow`handlerBusy
      ensures Valid() && model == Step(cfg, Wrapping, old(model), OutputDone)
      ensures done == old(sendingFlow) && callBusy == old(done.handlerBusy) && !done.handlerBusy
    {
      OutputDoneKeepsInv(cfg, Wrapping, model);
      done := sendingFlow;
      callBusy := TakeBusyHandler(done);
      FinishSending();
    }

    method TakeBusyHandler(flow: Flow) returns (had: bool)
      requires Valid() && flow in flowsList
      modifies flow`handlerBusy
      ensures Valid() && had == old(flow.handlerBusy) && !flow.handlerBusy
    {
      had := flow.handlerBusy;
      flow.handlerBusy := false;
    }

    method FinishSending()
      requires Linked() && sendingFlow != null
      modifies `sendingFlow, `previousFlow, `scheduleJob, `model, flows`time
      ensures Linked() && model == AfterOutputDone(cfg, Wrapping, old(model))
    {
      ghost var next := AfterOutputDone(cfg, Wrapping, model);
      IncrementKeys(cfg, Wrapping, model);
      var flow := sendingFlow;
      var amount := cfg.weight + sendingLen;
      assert next.time == IncrementSent(cfg, Wrapping, model.time, model.queued, flow.addr, amount);
      SwitchToPrevious();
      IncrementSentFlow(flow, amount, next.time);
      Become(next);
    }

    /** The sending flow is remembered so that the schedule job can drop it if it does not
        send again by then. */
    method SwitchToPrevious()
      requires Linked() && sendingFlow != null
      modifies `sendingFlow, `previousFlow, `scheduleJob
      ensures TimesLinked() && LengthsAre(model.len) && FlagsAre(model.queued)
      ensures PointersAre(AfterOutputDone(cfg, Wrapping, model))
    {
      previousFlow := sendingFlow;
      sendingFlow := null;
      scheduleJob := true;
    }

    /** input_handler_send */
    method InputHandlerSend(flow: Flow, dataLen: nat)
      requires Valid() && flow in flowsList && Enabled(cfg, model, Send(flow.addr, dataLen))
      modifies this, flows
      ensures Valid() && model == Step(cfg, Wrapping, old(model), Send(flow.addr, dataLen))
      ensures flowsList == old(flowsList)
    {
      SendKeepsInv(cfg, Wrapping, model, flow.addr, dataLen);
      EnqueueHead(cfg, Wrapping, model, flow.addr, dataLen);
      AcceptPacket(flow, dataLen);
    }

    method AcceptPacket(flow: Flow, dataLen: nat)
      requires Linked() && flow in flowsList && flow.addr in model.time
      requires var queued := Enqueue(model, flow.addr, dataLen).queued; queued[0] !in queued[1..]
      modifies `previousFlow, `queuedTree, `sendingFlow, `sendingLen, `model, flows
      ensures Linked() && model == AfterSend(old(model), flow.addr, dataLen)
    {
      RaiseFlow(flow);
      EnqueueFlow(flow, dataLen);
      if sendingFlow == null && !scheduleJob {
        ScheduleFirst();
      }
    }

    method RaiseFlow(flow: Flow)
      requires Linked() && flow in flowsList && flow.addr in model.time
      modifies `previousFlow, `model, flow`time
      ensures Linked() && model == Raise(old(model), flow.addr)
    {
      if flow == previousFlow {
        DropPrevious();
      } else {
        RaiseTime(flow);
      }
    }

    method DropPrevious()
      requires Linked()
      modifies `previousFlow, `model
      ensures Linked() && model == old(model).(previous := None)
    {
      previousFlow := null;
      Become(model.(previous := None));
    }

    method RaiseTime(flow: Flow)
      requires Linked() && flow in flowsList && flow.addr in model.time
      modifies `model, flow`time
      ensures Linked()
      ensures model == old(model).(time :=
        old(model).time[flow.addr := Max(old(model).time[flow.addr], CurrentTime(old(model)))])
    {
      var now := GetCurrentTime();
      TimeOf(model.time, flow);
      RaiseTo(flow, if flow.time > now then flow.time else now);
    }

    method RaiseTo(flow: Flow, t: nat)
      requires Linked() && flow in flowsList && flow.addr in model.time
      modifies `model, flow`time
      ensures Linked() && model == old(model).(time := old(model).time[flow.addr := t])
    {
      ghost var next := model.(time := model.time[flow.addr := t]);
      Retimed(flow.addr, next);
      SetTime(flow, t, model.time);
      Become(next);
    }

    lemma Retimed(f: FlowId, next: Queue)
      requires Shape(model) && PointersAre(model) && f in model.time && next.time.Keys == model.time.Keys
      requires next == model.(time := next.time)
      ensures Shape(next) && PointersAre(next)
    {
    }

    method EnqueueFlow(flow: Flow, dataLen: nat)
      requires Linked() && flow in flowsList && flow.addr in model.time
      modifies `queuedTree, `model, flow`dataLen, flow`isQueued
      ensures Linked()
      ensures model == old(model).(len := old(model).len[flow.addr := dataLen],
                                   queued := TreeInsert(old(model).time, old(model).queued, flow.addr))
    {
      ghost var queued := TreeInsert(model.time, model.queued, flow.addr);
      ghost var next := model.(len := model.len[flow.addr := dataLen], queued := queued);
      TreeInsertElements(model.time, model.queued, flow.addr);
      assert Shape(next);
      InsertInTree(flow);
      MarkQueued(flow, dataLen, queued);
      Become(next);
    }

    method InsertInTree(flow: Flow)
      requires Linked() && flow in flowsList && flow.addr in model.time
      modifies `queuedTree
      ensures Named(queuedTree, TreeInsert(model.time, model.queued, flow.addr))
      ensures forall i | 0 <= i < |queuedTree| :: queuedTree[i] in flowsList
    {
      TimeOf(model.time, flow);
      forall i | 0 <= i < |queuedTree| ensures model.time[model.queued[i]] == queuedTree[i].time {
        TimeOf(model.time, queuedTree[i]);
      }
      InsertFlowNamed(model.time, queuedTree, model.queued, flow);
      queuedTree := InsertFlow(queuedTree, flow);
      assert forall i | 0 <= i < |queuedTree| :: queuedTree[i] in queuedTree;
    }

    method MarkQueued(flow: Flow, dataLen: nat, ghost queued: seq<FlowId>)
      requires Named(flowsList, model.flows) && Once(model.flows)
      requires flow in flowsList && LengthsAre(model.len) && FlagsAre(model.queued)
      requires forall a :: a in queued <==> a in model.queued || a == flow.addr
      modifies flow`dataLen, flow`isQueued
      ensures LengthsAre(model.len[flow.addr := dataLen]) && FlagsAre(queued)
    {
      forall i | 0 <= i < |flowsList| ensures flow == flowsList[i] <==> flow.addr == flowsList[i].addr {
        SameName(model, flow, i);
      }
      flow.dataLen := dataLen;
      flow.isQueued := true;
    }

    /** PacketPassFairQueueFlow_Init */
    method FlowInit(flow: Flow)
      requires Valid() && Enabled(cfg, model, Event.FlowInit(flow.addr)) && flow !in flows
      modifies this, flow
      ensures Valid() && model == Step(cfg, Wrapping, old(model), Event.FlowInit(flow.addr))
      ensures flowsList == old(flowsList) + [flow] && flows == old(flows) + {flow}
    {
      FlowInitKeepsInv(cfg, Wrapping, model, flow.addr);
      AppendFlow(flow);
    }

    method AppendFlow(flow: Flow)
      requires Linked() && flow !in flows && flow.addr !in model.time
      requires Shape(AfterFlowInit(model, flow.addr)) && Once(AfterFlowInit(model, flow.addr).flows)
      modifies `flowsList, `flows, `model, flow
      ensures Linked() && model == AfterFlowInit(old(model), flow.addr)
      ensures flowsList == old(flowsList) + [flow] && flows == old(flows) + {flow}
    {
      ghost var next := AfterFlowInit(model, flow.addr);
      flow.time, flow.isQueued, flow.dataLen, flow.handlerBusy := 0, false, 0, false;
      assert TimesAre(model.time) && LengthsAre(model.len) && FlagsAre(model.queued);
      AddToList(flow);
      Become(next);
    }

    method AddToList(flow: Flow)
      requires Named(flowsList, model.flows) && PointersAre(model) && AllIn(model.queued, model.time)
      requires flow.addr !in model.time && flow !in flows
      requires flow.time == 0 && !flow.isQueued && flow.dataLen == 0
      requires TimesAre(model.time) && LengthsAre(model.len) && FlagsAre(model.queued)
      modifies `flowsList, `flows
      ensures var next := AfterFlowInit(model, flow.addr);
        PointersAre(next) && TimesAre(next.time) && LengthsAre(next.len) && FlagsAre(next.queued)
      ensures flowsList == old(flowsList) + [flow] && flows == old(flows) + {flow}
    {
      flowsList := flowsList + [flow];
      flows := flows + {flow};
    }

    /** PacketPassFairQueueFlow_Free */
    method FlowFree(flow: Flow)
      requires Valid() && flow in flowsList && Enabled(cfg, model, Event.FlowFree(flow.addr))
      modifies this
      ensures Valid() && model == Step(cfg, Wrapping, old(model), Event.FlowFree(flow.addr))
      ensures flowsList == RemoveFlow(old(flowsList), flow)
    {
      FlowFreeKeepsInv(cfg, Wrapping, model, flow.addr);
      RemoveSorted(model.time, model.queued, flow.addr);
      RemoveElements(model.flows, flow.addr);
      DetachFlow(flow);
    }

    method DetachFlow(flow: Flow)
      requires Linked() && flow in flowsList && Once(model.queued)
      requires var next := AfterFlowFree(model, flow.addr); Shape(next) && Once(next.flows)
      requires forall a :: a in Remove(model.queued, flow.addr) <==> a in model.queued && a != flow.addr
      modifies `sendingFlow, `previousFlow, `queuedTree, `flowsList, `model
      ensures Linked() && model == AfterFlowFree(old(model), flow.addr)
      ensures flowsList == RemoveFlow(old(flowsList), flow)
    {
      ghost var next := AfterFlowFree(model, flow.addr);
      ForgetFlow(flow);
      RemoveFromList(flow);
      Become(next);
    }

    method ForgetFlow(flow: Flow)
      requires Linked() && flow in flowsList && Once(model.queued)
      modifies `sendingFlow, `previousFlow, `queuedTree
      ensures OnlyListed(flow)
    {
      RemoveFromTree(flow);
      RemoveFromOutput(flow);
    }

    lemma ListedName(q: Queue, f: Flow, g: Flow)
      requires Named(flowsList, q.flows) && Once(q.flows) && f in flowsList && g in flowsList
      ensures f == g <==> f.addr == g.addr
    {
      var i :| 0 <= i < |flowsList| && flowsList[i] == g;
      SameName(q, f, i);
    }

    method RemoveFromTree(flow: Flow)
      requires Linked() && flow in flowsList && Once(model.queued)
      modifies `queuedTree
      ensures Named(queuedTree, Remove(model.queued, flow.addr))
      ensures forall i | 0 <= i < |queuedTree| :: queuedTree[i] in flowsList && queuedTree[i] != flow
    {
      forall i | 0 <= i < |queuedTree| ensures queuedTree[i].addr == flow.addr ==> queuedTree[i] == flow {
        ListedName(model, queuedTree[i], flow);
      }
      RemoveFlowNamed(queuedTree, model.queued, flow);
      FlagOf(flow);
      if flow.isQueued {
        queuedTree := RemoveFlow(queuedTree, flow);
        assert forall i | 0 <= i < |queuedTree| :: queuedTree[i] in queuedTree;
      } else {
        RemoveAbsent(model.queued, flow.addr);
        assert forall i | 0 <= i < |queuedTree| :: queuedTree[i].addr == model.queued[i];
      }
    }

    lemma FlagOf(f: Flow)
      requires FlagsAre(model.queued) && f in flowsList
      ensures f.isQueued == (f.addr in model.queued)
    {
    }

    method RemoveFromOutput(flow: Flow)
      requires Named(flowsList, model.flows) && Once(model.flows) && flow in flowsList
      requires NamedBy(sendingFlow, model.sending) && (sendingFlow != null ==> sendingFlow in flowsList)
      requires NamedBy(previousFlow, model.previous) && (previousFlow != null ==> previousFlow in flowsList)
      modifies `sendingFlow, `previousFlow
      ensures var next := AfterFlowFree(model, flow.addr);
        NamedBy(sendingFlow, next.sending) && NamedBy(previousFlow, next.previous)
      ensures sendingFlow != null ==> sendingFlow in flowsList && sendingFlow != flow
      ensures previousFlow != null ==> previousFlow in flowsList && previousFlow != flow
    {
      if sendingFlow != null { ListedName(model, sendingFlow, flow); }
      if previousFlow != null { ListedName(model, previousFlow, flow); }
      if flow == sendingFlow { sendingFlow := null; }
      if flow == previousFlow { previousFlow := null; }
    }

    /** Nothing but the flows list mentions flow any more. */
    ghost predicate OnlyListed(flow: Flow)
      requires Shape(model)
      reads this
    {
      var next := AfterFlowFree(model, flow.addr);
      && Named(queuedTree, next.queued)
      && (forall i | 0 <= i < |queuedTree| :: queuedTree[i] in flowsList && queuedTree[i] != flow)
      && NamedBy(sendingFlow, next.sending)
      && (sendingFlow != null ==> sendingFlow in flowsList && sendingFlow != flow)
      && NamedBy(previousFlow, next.previous)
      && (previousFlow != null ==> previousFlow in flowsList && previousFlow != flow)
      && sendingLen == next.sendingLen && freeing == next.freeing && scheduleJob == next.job
    }

    method RemoveFromList(flow: Flow)
      requires Shape(model) && OnlyListed(flow)
      requires Named(flowsList, model.flows) && Once(model.flows) && flow in flowsList
      requires TimesAre(model.time) && LengthsAre(model.len) && FlagsAre(model.queued)
      requires forall a :: a in Remove(model.queued, flow.addr) <==> a in model.queued && a != flow.addr
      modifies `flowsList
      ensures flowsList == RemoveFlow(old(flowsList), flow)
      ensures var next := AfterFlowFree(model, flow.addr);
        PointersAre(next) && TimesAre(next.time) && LengthsAre(next.len) && FlagsAre(next.queued)
    {
      CutFromList(flow);
    }

    method CutFromList(flow: Flow)
      requires Named(flowsList, model.flows) && Once(model.flows) && flow in flowsList
      requires TimesAre(model.time) && LengthsAre(model.len) && FlagsAre(model.queued)
      requires forall a :: a in Remove(model.queued, flow.addr) <==> a in model.queued && a != flow.addr
      modifies `flowsList
      ensures flowsList == RemoveFlow(old(flowsList), flow)
      ensures forall g | g in old(flowsList) && g != flow :: g in flowsList
      ensures var next := AfterFlowFree(model, flow.addr);
        Named(flowsList, next.flows) && TimesAre(next.time) && LengthsAre(next.len) && FlagsAre(next.queued)
    {
      forall g | g in flowsList
        ensures g.addr == flow.addr ==> g == flow
        ensures g in flows && g.addr in model.time && model.time[g.addr] == g.time
        ensures g.addr in model.len && model.len[g.addr] == g.dataLen
        ensures g.isQueued == (g.addr in model.queued)
      {
        ListedName(model, g, flow);
        var i :| 0 <= i < |flowsList| && flowsList[i] == g;
      }
      RemoveFlowNamed(flowsList, model.flows, flow);
      flowsList := RemoveFlow(flowsList, flow);
      assert forall i | 0 <= i < |flowsList| :: flowsList[i] in flowsList;
    }

    /** PacketPassFairQueue_PrepareFree */
    method PrepareToFree()
      requires Valid()
      modifies `freeing, `model
      ensures Valid() && model == Step(cfg, Wrapping, old(model), PrepareFree)
    {
      StepKeepsInv(cfg, Wrapping, model, PrepareFree);
      StartFreeing();
    }

    method StartFreeing()
      requires Linked()
      modifies `freeing, `model
      ensures Linked() && model == old(model).(freeing := true)
    {
      ghost var next := model.(freeing := true);
      freeing := true;
      Become(next);
    }
  }
}
