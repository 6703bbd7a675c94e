/** The job list of base/BPending.c: a stack that a job is in at most once. */
module Pending {
  import opened Wrappers

  /** A BSmallPending, by identity. */
  type Job = nat

  /** The list with j taken out, the others in their order. */
  function Without(jobs: seq<Job>, j: Job): (r: seq<Job>)
    ensures forall x :: x in r <==> x in jobs && x != j
    ensures j !in jobs ==> r == jobs
    ensures |r| <= |jobs|
  {
    if jobs == [] then []
    else if jobs[0] == j then Without(jobs[1..], j)
    else [jobs[0]] + Without(jobs[1..], j)
  }

  function SetJob(jobs: seq<Job>, j: Job): seq<Job> { [j] + Without(jobs, j) }

  lemma {:induction false} WithoutOnce(jobs: seq<Job>, j: Job)
    requires Once(jobs)
    ensures Once(Without(jobs, j))
  {
    if jobs != [] {
      WithoutOnce(jobs[1..], j);
      assert jobs[0] !in jobs[1..];
      if jobs[0] != j { OnceCons(jobs[0], Without(jobs[1..], j)); }
    }
  }

  lemma {:induction false} SetJobOnce(jobs: seq<Job>, j: Job)
    requires Once(jobs)
    ensures Once(SetJob(jobs, j))
  {
    WithoutOnce(jobs, j);
    OnceCons(j, Without(jobs, j));
  }

  /** BPendingGroup, with the operations of BSmallPending on it. */
  class BPendingGroup {
    var jobs: seq<Job>

    predicate Valid()
      reads this
    {
      Once(jobs)
    }

    /** BPendingGroup_Init */
    constructor ()
      ensures Valid() && jobs == []
    {
      jobs := [];
    }

    /** BSmallPending_IsSet */
    predicate IsSet(j: Job)
      reads this
    {
      j in jobs
    }

    /** BPending__List_Remove of a job that is in the list. */
    method Remove(j: Job)
      requires Valid() && j in jobs
      modifies this
      ensures Valid() && jobs == Without(old(jobs), j)
    {
      WithoutOnce(jobs, j);
      var i: nat := 0;
      while jobs[i] != j
        invariant i < |jobs| && j !in jobs[..i] && j in jobs[i..]
        decreases |jobs| - i
      {
        i := i + 1;
      }
      WithoutAt(jobs, j, i);
      jobs := jobs[..i] + jobs[i + 1..];
    }

    /** BSmallPending_Set: on top of the list, wherever the job was before. */
    method Set(j: Job)
      requires Valid()
      modifies this
      ensures Valid() && jobs == SetJob(old(jobs), j)
      ensures jobs[0] == j && forall i | 0 <= i < |old(jobs)| && old(jobs)[i] == j ::
        jobs[1..] == old(jobs)[..i] + old(jobs)[i + 1..]
      ensures j !in old(jobs) ==> jobs[1..] == old(jobs)
    {
      SetJobOnce(jobs, j);
      SetOnTop(jobs, j);
      if IsSet(j) {
        Remove(j);
      }
      jobs := [j] + jobs;
    }

    /** BSmallPending_Unset */
    method Unset(j: Job)
      requires Valid()
      modifies this
      ensures Valid() && jobs == Without(old(jobs), j)
    {
      if IsSet(j) {
        Remove(j);
      }
    }

    /** BPendingGroup_ExecuteJob, up to the call of the handler of the job it returns. */
    method ExecuteJob() returns (j: Job)
      requires Valid() && jobs != []
      modifies this
      ensures Valid() && [j] + jobs == old(jobs) && !IsSet(j)
    {
      j := jobs[0];
      jobs := jobs[1..];
    }
  }

  /** The job set last is first; all others keep their order behind it. */
  lemma {:induction false} SetOnTop(jobs: seq<Job>, j: Job)
    requires Once(jobs)
    ensures SetJob(jobs, j)[0] == j && (j !in jobs ==> SetJob(jobs, j)[1..] == jobs)
    ensures forall i | 0 <= i < |jobs| && jobs[i] == j :: SetJob(jobs, j)[1..] == jobs[..i] + jobs[i + 1..]
  {
    assert SetJob(jobs, j)[1..] == Without(jobs, j);
    forall i | 0 <= i < |jobs| && jobs[i] == j ensures Without(jobs, j) == jobs[..i] + jobs[i + 1..] {
      WithoutAt(jobs, j, i);
    }
  }

  /** The job set last runs first, and leaves the others as they were. */
  method SetAndExecute(group: BPendingGroup, j: Job) returns (r: Job)
    requires group.Valid()
    modifies group
    ensures group.Valid() && r == j && j !in group.jobs
    ensures j !in old(group.jobs) ==> group.jobs == old(group.jobs)
    ensures forall i | 0 <= i < |old(group.jobs)| && old(group.jobs)[i] == j ::
      group.jobs == old(group.jobs)[..i] + old(group.jobs)[i + 1..]
  {
    group.Set(j);
    ghost var jobs := group.jobs;
    r := group.ExecuteJob();
    assert jobs[1..] == group.jobs;
  }

  lemma {:induction false} WithoutAt(jobs: seq<Job>, j: Job, i: nat)
    requires Once(jobs) && i < |jobs| && jobs[i] == j
    ensures Without(jobs, j) == jobs[..i] + jobs[i + 1..]
  {
    if i == 0 {
      assert j !in jobs[1..];
      assert jobs[..0] + jobs[1..] == jobs[1..];
    } else {
      WithoutAt(jobs[1..], j, i - 1);
      assert jobs[..i] + jobs[i + 1..] == [jobs[0]] + (jobs[1..][..i - 1] + jobs[1..][i..]);
    }
  }
}

/** flow/PacketPassInterface: one packet operation at a time, driven by jobs. */
module PacketPassInterface {
  import opened Wrappers
  import opened Pending

  datatype State = Idle | OperationPending | Busy | DonePending

  /** What a packet is does not matter here, only which one it is. */
  type Packet = int

  datatype Interface = Interface(state: State, cancelRequested: bool, canCancel: bool, packet: Packet)

  /** The three jobs of an interface. */
  datatype Jobs = Jobs(operation: Job, requestCancel: Job, done: Job) {
    predicate Valid() { operation != requestCancel && operation != done && requestCancel != done }

    predicate Has(j: Job) { j == operation || j == requestCancel || j == done }
  }

  /** An interface and the job list that it shares with everything else. */
  datatype World = World(i: Interface, jobs: seq<Job>)

  /** Calls of the sender, calls of the provider, other users' jobs, and the event loop. */
  datatype Event = Send(packet: Packet) | RequestCancel | Done | SetOther(job: Job) | UnsetOther(job: Job) | Execute

  /** The handler that an event calls. */
  datatype Call = Nothing | Operation(packet: Packet) | Cancel | Finished | Foreign(job: Job)

  /** The callers' obligations. */
  predicate Enabled(k: Jobs, w: World, e: Event) {
    match e
    case Send(_) => w.i.state.Idle?
    case RequestCancel => !w.i.state.Idle? && w.i.canCancel
    case Done => w.i.state.Busy?
    case SetOther(j) => !k.Has(j)
    case UnsetOther(j) => !k.Has(j)
    case Execute => w.jobs != []
  }

  function Step(k: Jobs, w: World, e: Event): (World, Call) {
    var i, jobs := w.i, w.jobs;
    match e
    case Send(packet) =>
      (World(Interface(OperationPending, false, i.canCancel, packet), SetJob(jobs, k.operation)), Nothing)
    case RequestCancel =>
      if i.cancelRequested then
        (w, Nothing)
      else if i.state.OperationPending? then
        (World(i.(cancelRequested := true, state := DonePending), SetJob(Without(jobs, k.operation), k.done)), Nothing)
      else if i.state.Busy? then
        (World(i.(cancelRequested := true), SetJob(jobs, k.requestCancel)), Nothing)
      else
        (World(i.(cancelRequested := true), jobs), Nothing)
    case Done =>
      (World(i.(state := DonePending), SetJob(Without(jobs, k.requestCancel), k.done)), Nothing)
    case SetOther(j) => (World(i, SetJob(jobs, j)), Nothing)
    case UnsetOther(j) => (World(i, Without(jobs, j)), Nothing)
    case Execute =>
      if jobs == [] then (w, Nothing)
      else if jobs[0] == k.operation then (World(i.(state := Busy), jobs[1..]), Operation(i.packet))
      else if jobs[0] == k.requestCancel then (World(i, jobs[1..]), Cancel)
      else if jobs[0] == k.done then (World(i.(state := Idle), jobs[1..]), Finished)
      else (World(i, jobs[1..]), Foreign(jobs[0]))
  }

  /** Which jobs are in the list in which state. */
  predicate Inv(k: Jobs, w: World) {
    && Once(w.jobs)
    && (k.operation in w.jobs <==> w.i.state.OperationPending?)
    && (w.i.state.OperationPending? ==> !w.i.cancelRequested)
    && (k.done in w.jobs <==> w.i.state.DonePending?)
    && (k.requestCancel in w.jobs ==> w.i.state.Busy? && w.i.cancelRequested && w.i.canCancel)
  }

  lemma StepKeepsInv(k: Jobs, w: World, e: Event)
    requires k.Valid() && Inv(k, w) && Enabled(k, w, e)
    ensures Inv(k, Step(k, w, e).0)
  {
    var jobs := w.jobs;
    match e
    case Send(_) => SetJobOnce(jobs, k.operation);
    case RequestCancel =>
      WithoutOnce(jobs, k.operation);
      SetJobOnce(Without(jobs, k.operation), k.done);
      SetJobOnce(jobs, k.requestCancel);
    case Done =>
      WithoutOnce(jobs, k.requestCancel);
      SetJobOnce(Without(jobs, k.requestCancel), k.done);
    case SetOther(j) => SetJobOnce(jobs, j);
    case UnsetOther(j) => WithoutOnce(jobs, j);
    case Execute =>
      assert jobs == [jobs[0]] + jobs[1..];
      assert jobs[0] !in jobs[1..];
  }

  // ----- whole runs -----

  ghost predicate Legal(k: Jobs, w: World, es: seq<Event>)
    decreases |es|
  {
    es == [] || (Enabled(k, w, es[0]) && Legal(k, Step(k, w, es[0]).0, es[1..]))
  }

  function Final(k: Jobs, w: World, es: seq<Event>): World
    decreases |es|
  {
    if es == [] then w else Final(k, Step(k, w, es[0]).0, es[1..])
  }

  /** What a step adds to the calls. */
  function Made(call: Call): seq<Call> {
    if call.Nothing? || call.Foreign? then [] else [call]
  }

  /** The calls of the interface's handlers, in order. */
  function Calls(k: Jobs, w: World, es: seq<Event>): seq<Call>
    decreases |es|
  {
    if es == [] then []
    else
      var (next, call) := Step(k, w, es[0]);
      Made(call) + Calls(k, next, es[1..])
  }

  lemma {:induction false} RunKeepsInv(k: Jobs, w: World, es: seq<Event>)
    requires k.Valid() && Inv(k, w) && Legal(k, w, es)
    ensures Inv(k, Final(k, w, es))
    decreases |es|
  {
    if es != [] {
      StepKeepsInv(k, w, es[0]);
      RunKeepsInv(k, Step(k, w, es[0]).0, es[1..]);
    }
  }

  predicate NoSend(es: seq<Event>) {
    forall j | 0 <= j < |es| :: !es[j].Send?
  }

  predicate NoCancel(es: seq<Event>) {
    forall j | 0 <= j < |es| :: !es[j].RequestCancel?
  }

  /** What may still be called before the next Send: nothing, the end, or the operation, perhaps
      one cancel request, and the end; done says whether the end has been reached. */
  predicate Expected(state: State, packet: Packet, cancel: bool, calls: seq<Call>, done: bool)
    decreases |calls|
  {
    match state
    case Idle => done && calls == []
    case DonePending => calls == if done then [Finished] else []
    case Busy =>
      || calls == (if done then [Finished] else [])
      || (cancel && calls == (if done then [Cancel, Finished] else [Cancel]))
    case OperationPending =>
      || (calls == [] && !done)
      || (cancel && done && calls == [Finished])
      || (calls != [] && calls[0] == Operation(packet) && Expected(Busy, packet, cancel, calls[1..], done))
  }

  /** Whether one cancel call may still come: it was requested and is in the list, or may be. */
  predicate MayCancel(k: Jobs, w: World, es: seq<Event>) {
    k.requestCancel in w.jobs || (!w.i.cancelRequested && !NoCancel(es))
  }

  lemma {:induction false} CallsStep(k: Jobs, w: World, es: seq<Event>)
    requires es != []
    ensures var (next, call) := Step(k, w, es[0]);
      Calls(k, w, es) == Made(call) + Calls(k, next, es[1..])
  {
  }

  lemma {:induction false} RunExpected(k: Jobs, w: World, es: seq<Event>)
    requires k.Valid() && Inv(k, w) && Legal(k, w, es) && NoSend(es)
    ensures Expected(w.i.state, w.i.packet, MayCancel(k, w, es), Calls(k, w, es), Final(k, w, es).i.state.Idle?)
    decreases |es|
  {
    if es != [] {
      var e, rest := es[0], es[1..];
      var next := Step(k, w, e).0;
      StepKeepsInv(k, w, e);
      assert forall j | 0 <= j < |rest| :: rest[j] == es[j + 1];
      RunExpected(k, next, rest);
      CallsStep(k, w, es);
      StillMayCancel(k, w, es);
      ExpectedBefore(k, w, e, MayCancel(k, w, es), MayCancel(k, next, rest), Calls(k, next, rest), Final(k, next, rest).i.state.Idle?);
    }
  }

  lemma StillMayCancel(k: Jobs, w: World, es: seq<Event>)
    requires k.Valid() && Inv(k, w) && Legal(k, w, es) && es != [] && !es[0].Send?
    ensures var (next, call) := Step(k, w, es[0]);
      && (MayCancel(k, next, es[1..]) ==> MayCancel(k, w, es))
      && (call.Cancel? ==> MayCancel(k, w, es) && !MayCancel(k, next, es[1..]))
      && (es[0].RequestCancel? && w.i.state.OperationPending? ==> MayCancel(k, w, es))
  {
    var next := Step(k, w, es[0]).0;
    if !NoCancel(es[1..]) {
      var j :| 0 <= j < |es[1..]| && es[1..][j].RequestCancel?;
      assert es[j + 1].RequestCancel?;
    }
    if es[0].RequestCancel? { assert !NoCancel(es); }
    if w.jobs != [] {
      assert w.jobs == [w.jobs[0]] + w.jobs[1..];
      assert w.jobs[0] !in w.jobs[1..];
    }
  }

  /** One step in front of what is expected. */
  lemma ExpectedBefore(k: Jobs, w: World, e: Event, may: bool, mayNext: bool, calls: seq<Call>, done: bool)
    requires k.Valid() && Inv(k, w) && Enabled(k, w, e) && !e.Send?
    requires var (next, call) := Step(k, w, e);
      && Expected(next.i.state, next.i.packet, mayNext, calls, done) && (mayNext ==> may)
      && (call.Cancel? ==> may && !mayNext) && (e.RequestCancel? && w.i.state.OperationPending? ==> may)
    ensures Expected(w.i.state, w.i.packet, may, Made(Step(k, w, e).1) + calls, done)
  {
    var call := Step(k, w, e).1;
    if Made(call) == [] { assert Made(call) + calls == calls; }
  }

  /** A Send leads to at most one operation call, of its own packet, and at most one done call,
      which is the last call; the done call has been made exactly when the interface is idle
      again. A cancel call, or a done call without an operation call, needs a RequestCancel. */
  lemma {:induction false} OncePerSend(k: Jobs, w: World, p: Packet, es: seq<Event>)
    requires k.Valid() && Inv(k, w) && Legal(k, w, [Send(p)] + es) && NoSend(es)
    ensures var calls, idle := Calls(k, w, [Send(p)] + es), Final(k, w, [Send(p)] + es).i.state.Idle?;
      if idle then
        || calls == [Operation(p), Finished]
        || (!NoCancel(es) && (calls == [Operation(p), Cancel, Finished] || calls == [Finished]))
      else
        || calls == [] || calls == [Operation(p)]
        || (!NoCancel(es) && calls == [Operation(p), Cancel])
  {
    var run := [Send(p)] + es;
    var next := Step(k, w, Send(p)).0;
    assert run[1..] == es;
    StepKeepsInv(k, w, Send(p));
    RunExpected(k, next, es);
    CallsStep(k, w, run);
    var calls := Calls(k, next, es);
    if calls != [] && calls[0] == Operation(p) {
      assert calls == [Operation(p)] + calls[1..];
    }
  }

  // ----- what a Send and what follows it lead to -----

  predicate NoDone(es: seq<Event>) {
    forall j | 0 <= j < |es| :: !es[j].Done?
  }

  lemma {:induction false} RunCons(k: Jobs, w: World, e: Event, rest: seq<Event>, next: World, call: Call)
    requires (next, call) == Step(k, w, e)
    ensures Legal(k, w, [e] + rest) <==> Enabled(k, w, e) && Legal(k, next, rest)
    ensures Final(k, w, [e] + rest) == Final(k, next, rest)
    ensures Calls(k, w, [e] + rest) == Made(call) + Calls(k, next, rest)
  {
    assert ([e] + rest)[1..] == rest;
  }

  lemma {:induction false} RunConcat(k: Jobs, w: World, es: seq<Event>, fs: seq<Event>)
    requires Legal(k, w, es + fs)
    ensures Legal(k, w, es) && Legal(k, Final(k, w, es), fs)
    ensures Final(k, w, es + fs) == Final(k, Final(k, w, es), fs)
    ensures Calls(k, w, es + fs) == Calls(k, w, es) + Calls(k, Final(k, w, es), fs)
    decreases |es|, 0
  {
    if es == [] {
      assert es + fs == fs && [] + Calls(k, w, fs) == Calls(k, w, fs);
    } else {
      var (next, call) := Step(k, w, es[0]);
      assert es == [es[0]] + es[1..] && es + fs == [es[0]] + (es[1..] + fs);
      RunConcatCons(k, w, es[0], es[1..], fs, next, call);
    }
  }

  lemma {:induction false} RunConcatCons(k: Jobs, w: World, e: Event, es: seq<Event>, fs: seq<Event>, next: World, call: Call)
    requires (next, call) == Step(k, w, e) && Legal(k, w, [e] + (es + fs))
    ensures Legal(k, w, [e] + es) && Legal(k, Final(k, w, [e] + es), fs)
    ensures Final(k, w, [e] + (es + fs)) == Final(k, Final(k, w, [e] + es), fs)
    ensures Calls(k, w, [e] + (es + fs)) == Calls(k, w, [e] + es) + Calls(k, Final(k, w, [e] + es), fs)
    decreases |es|, 1
  {
    RunCons(k, w, e, es + fs, next, call);
    RunCons(k, w, e, es, next, call);
    RunConcat(k, next, es, fs);
    Concat(Made(call), Calls(k, next, es), Calls(k, Final(k, next, es), fs));
  }

  /** Before any cancel request and before the provider is done. */
  lemma {:induction false} Quiet(k: Jobs, w: World, es: seq<Event>)
    requires k.Valid() && Inv(k, w) && Legal(k, w, es) && NoSend(es) && NoCancel(es) && NoDone(es)
    requires (w.i.state.OperationPending? || w.i.state.Busy?) && !w.i.cancelRequested
    ensures var r := Final(k, w, es);
      && Inv(k, r) && !r.i.cancelRequested && r.i.packet == w.i.packet && r.i.canCancel == w.i.canCancel
      && (r.i.state.OperationPending? || r.i.state.Busy?)
      && (w.i.state.Busy? ==> r.i.state.Busy?)
      && Calls(k, w, es) == if w.i.state.OperationPending? && r.i.state.Busy? then [Operation(w.i.packet)] else []
    decreases |es|
  {
    if es != [] {
      var next := Step(k, w, es[0]).0;
      StepKeepsInv(k, w, es[0]);
      assert forall j | 0 <= j < |es[1..]| :: es[1..][j] == es[j + 1];
      Quiet(k, next, es[1..]);
      CallsStep(k, w, es);
    }
  }

  /** While the provider is at work and a cancel has been requested. */
  lemma {:induction false} Cancelling(k: Jobs, w: World, es: seq<Event>)
    requires k.Valid() && Inv(k, w) && Legal(k, w, es) && NoSend(es) && NoDone(es)
    requires w.i.state.Busy? && w.i.cancelRequested
    ensures var r := Final(k, w, es);
      && Inv(k, r) && r.i.state.Busy? && (k.requestCancel in r.jobs ==> k.requestCancel in w.jobs)
      && Calls(k, w, es) == if k.requestCancel in w.jobs && k.requestCancel !in r.jobs then [Cancel] else []
    decreases |es|
  {
    if es != [] {
      var next := Step(k, w, es[0]).0;
      StepKeepsInv(k, w, es[0]);
      assert forall j | 0 <= j < |es[1..]| :: es[1..][j] == es[j + 1];
      Cancelling(k, next, es[1..]);
      CallsStep(k, w, es);
    }
  }

  /** Once the packet is done, or given up. */
  lemma {:induction false} Finishing(k: Jobs, w: World, es: seq<Event>)
    requires k.Valid() && Inv(k, w) && Legal(k, w, es) && NoSend(es)
    requires w.i.state.DonePending? || w.i.state.Idle?
    ensures var r := Final(k, w, es);
      && Inv(k, r) && (k.done in r.jobs ==> k.done in w.jobs)
      && Calls(k, w, es) == if k.done in w.jobs && k.done !in r.jobs then [Finished] else []
    decreases |es|
  {
    if es != [] {
      var next := Step(k, w, es[0]).0;
      StepKeepsInv(k, w, es[0]);
      assert forall j | 0 <= j < |es[1..]| :: es[1..][j] == es[j + 1];
      Finishing(k, next, es[1..]);
      CallsStep(k, w, es);
    }
  }

  /** A Send that nothing else happens to reaches the provider once, as soon as its job has run. */
  lemma {:induction false} SendReachesProvider(k: Jobs, w: World, p: Packet, es: seq<Event>)
    requires k.Valid() && Inv(k, w) && Legal(k, w, [Send(p)] + es) && NoSend(es) && NoCancel(es) && NoDone(es)
    ensures Calls(k, w, [Send(p)] + es) == if k.operation in Final(k, w, [Send(p)] + es).jobs then [] else [Operation(p)]
  {
    AfterSend(k, w, p, es);
  }

  /** The state behind a Send and what follows it, up to a cancel request or the provider's Done. */
  lemma {:induction false} AfterSend(k: Jobs, w: World, p: Packet, es: seq<Event>)
    requires k.Valid() && Inv(k, w) && Legal(k, w, [Send(p)] + es) && NoSend(es) && NoCancel(es) && NoDone(es)
    ensures var r := Final(k, w, [Send(p)] + es);
      && Inv(k, r) && !r.i.cancelRequested && (r.i.state.OperationPending? || r.i.state.Busy?)
      && Calls(k, w, [Send(p)] + es) == if r.i.state.Busy? then [Operation(p)] else []
  {
    var next := Step(k, w, Send(p)).0;
    assert ([Send(p)] + es)[1..] == es;
    StepKeepsInv(k, w, Send(p));
    Quiet(k, next, es);
    CallsStep(k, w, [Send(p)] + es);
  }

  /** The first cancel request. Before the operation call it takes that call back, and the sender is
      told that its packet is finished as soon as the job for it has run. After it, the provider is
      told once, as soon as that job has run, unless it is done by then. */
  lemma {:induction false} CancelAnswered(k: Jobs, w: World, p: Packet, es: seq<Event>, fs: seq<Event>)
    requires k.Valid() && Inv(k, w) && Legal(k, w, [Send(p)] + es + ([RequestCancel] + fs))
    requires NoSend(es) && NoCancel(es) && NoDone(es) && NoSend(fs) && NoDone(fs)
    ensures var run := [Send(p)] + es + ([RequestCancel] + fs);
      var calls, jobs := Calls(k, w, run), Final(k, w, run).jobs;
      if Calls(k, w, [Send(p)] + es) == [] then calls == if k.done in jobs then [] else [Finished]
      else calls == [Operation(p)] + if k.requestCancel in jobs then [] else [Cancel]
  {
    RunConcat(k, w, [Send(p)] + es, [RequestCancel] + fs);
    AfterSend(k, w, p, es);
    Requested(k, Final(k, w, [Send(p)] + es), fs);
  }

  lemma {:induction false} Requested(k: Jobs, w: World, fs: seq<Event>)
    requires k.Valid() && Inv(k, w) && Legal(k, w, [RequestCancel] + fs) && NoSend(fs) && NoDone(fs)
    requires !w.i.cancelRequested && (w.i.state.OperationPending? || w.i.state.Busy?)
    ensures var calls, jobs := Calls(k, w, [RequestCancel] + fs), Final(k, w, [RequestCancel] + fs).jobs;
      if w.i.state.OperationPending? then calls == if k.done in jobs then [] else [Finished]
      else calls == if k.requestCancel in jobs then [] else [Cancel]
  {
    var next := Step(k, w, RequestCancel).0;
    assert ([RequestCancel] + fs)[1..] == fs;
    StepKeepsInv(k, w, RequestCancel);
    CallsStep(k, w, [RequestCancel] + fs);
    if w.i.state.OperationPending? {
      Finishing(k, next, fs);
    } else {
      Cancelling(k, next, fs);
    }
  }

  /** The provider's Done: the sender is told as soon as the job for it has run, and whatever had not
      been called by then, a cancel request included, is not called any more. */
  lemma {:induction false} DoneAnswered(k: Jobs, w: World, es: seq<Event>, fs: seq<Event>)
    requires k.Valid() && Inv(k, w) && Legal(k, w, es + ([Done] + fs)) && NoSend(fs)
    ensures Calls(k, w, es + ([Done] + fs))
         == Calls(k, w, es) + if k.done in Final(k, w, es + ([Done] + fs)).jobs then [] else [Finished]
  {
    RunConcat(k, w, es, [Done] + fs);
    RunKeepsInv(k, w, es);
    var r := Final(k, w, es);
    assert ([Done] + fs)[1..] == fs;
    StepKeepsInv(k, r, Done);
    Finishing(k, Step(k, r, Done).0, fs);
    CallsStep(k, r, [Done] + fs);
  }

  /** When every job has run, these are all the calls there are: nothing is pending for ever. */
  lemma {:induction false} CancelSettles(k: Jobs, w: World, p: Packet, es: seq<Event>, fs: seq<Event>)
    requires k.Valid() && Inv(k, w) && Legal(k, w, [Send(p)] + es + ([RequestCancel] + fs))
    requires NoSend(es) && NoCancel(es) && NoDone(es) && NoSend(fs) && NoDone(fs)
    requires Final(k, w, [Send(p)] + es + ([RequestCancel] + fs)).jobs == []
    ensures Calls(k, w, [Send(p)] + es + ([RequestCancel] + fs))
         == if Calls(k, w, [Send(p)] + es) == [] then [Finished] else [Operation(p), Cancel]
  {
    CancelAnswered(k, w, p, es, fs);
  }
}
