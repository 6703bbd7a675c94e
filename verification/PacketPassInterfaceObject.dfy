/** flow/PacketPassInterface.h and .c as an object on a job group. */
module PacketPassInterfaceObject {
  import opened Pending
  import opened PacketPassInterface

  class PacketPass {
    const group: BPendingGroup
    const k: Jobs
    var state: State
    var cancelRequested: bool
    /** handler_requestcancel is set */
    var canCancel: bool
    /** job_operation_data and job_operation_len */
    var packet: Packet

    ghost function Abs(): World
      reads this, group
    {
      World(Interface(state, cancelRequested, canCancel, packet), group.jobs)
    }

    ghost predicate Valid()
      reads this, group
    {
      k.Valid() && Inv(k, Abs())
    }

    /** PacketPassInterface_Init, with jobs that are not in the list; cancel_requested is not set. */
    constructor (group: BPendingGroup, k: Jobs, packet: Packet)
      requires group.Valid() && k.Valid() && forall j | k.Has(j) :: j !in group.jobs
      ensures Valid() && Abs() == World(Interface(Idle, false, false, packet), group.jobs)
      ensures this.group == group && this.k == k
    {
      this.group, this.k := group, k;
      state, cancelRequested, canCancel, this.packet := Idle, false, false, packet;
      new;
      assert k.Has(k.operation) && k.Has(k.requestCancel) && k.Has(k.done);
    }

    /** PacketPassInterface_EnableCancel */
    method EnableCancel()
      requires Valid() && !canCancel && state.Idle?
      modifies this`canCancel
      ensures Valid() && canCancel
    {
      canCancel := true;
    }

    /** PacketPassInterface_Sender_Send */
    method SenderSend(packet: Packet)
      requires Valid() && Enabled(k, Abs(), Send(packet))
      modifies this, group
      ensures Valid() && Abs() == Step(k, old(Abs()), Send(packet)).0
    {
      StepKeepsInv(k, Abs(), Send(packet));
      this.packet := packet;
      group.Set(k.operation);
      state := OperationPending;
      cancelRequested := false;
    }

    /** PacketPassInterface_Sender_RequestCancel */
    method SenderRequestCancel()
      requires Valid() && Enabled(k, Abs(), RequestCancel)
      modifies this, group
      ensures Valid() && Abs() == Step(k, old(Abs()), RequestCancel).0
    {
      StepKeepsInv(k, Abs(), RequestCancel);
      if cancelRequested {
        return;
      }
      cancelRequested := true;
      if state.OperationPending? {
        group.Unset(k.operation);
        group.Set(k.done);
        state := DonePending;
      } else if state.Busy? {
        group.Set(k.requestCancel);
      }
    }

    /** PacketPassInterface_Done */
    method ProviderDone()
      requires Valid() && Enabled(k, Abs(), Done)
      modifies this, group
      ensures Valid() && Abs() == Step(k, old(Abs()), Done).0
    {
      StepKeepsInv(k, Abs(), Done);
      group.Unset(k.requestCancel);
      group.Set(k.done);
      state := DonePending;
    }

    /** BPendingGroup_ExecuteJob and the job handlers up to the calls they end with. The handlers'
        ASSERTs hold whenever the event loop runs them. */
    method ExecuteJob() returns (call: Call)
      requires Valid() && Enabled(k, Abs(), Execute)
      modifies this, group
      ensures Valid() && (Abs(), call) == Step(k, old(Abs()), Execute)
    {
      StepKeepsInv(k, Abs(), Execute);
      ghost var before := group.jobs;
      var j := group.ExecuteJob();
      assert before[0] == j && before[1..] == group.jobs;
      if j == k.operation {
        call := JobOperation();
      } else if j == k.requestCancel {
        call := JobRequestCancel();
      } else if j == k.done {
        call := JobDone();
      } else {
        call := Foreign(j);
      }
    }

    /** _PacketPassInterface_job_operation */
    method JobOperation() returns (call: Call)
      requires state.OperationPending?
      modifies `state
      ensures state.Busy? && call == Operation(packet)
    {
      state := Busy;
      call := Operation(packet);
    }

    /** _PacketPassInterface_job_requestcancel */
    method JobRequestCancel() returns (call: Call)
      requires state.Busy? && cancelRequested && canCancel
      ensures call == Cancel
    {
      call := Cancel;
    }

    /** _PacketPassInterface_job_done */
    method JobDone() returns (call: Call)
      requires state.DonePending?
      modifies `state
      ensures state.Idle? && call == Finished
    {
      state := Idle;
      call := Finished;
    }
  }
}
