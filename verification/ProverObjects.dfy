/** The objects of the proving protocol: a prove call with its listeners, the prover that makes
    calls, and the worker's message handler, each proved against the functions of
    ProverProtocol. */
module ProverObjects {
  import opened Results
  import opened ProverProtocol

  /** The worker's end of postMessage: what was put on the channel to it. */
  class WorkerHandle {
    var sent: seq<Message>

    constructor ()
      ensures sent == []
    {
      sent := [];
    }

    method PostMessage(m: Message)
      modifies this
      ensures sent == old(sent) + [m]
    {
      sent := sent + [m];
    }
  }

  /** The promise of one prove call and the closures around it. */
  class ProveCall {
    const id: nat
    const input: string
    const worker: WorkerHandle
    var settled: bool
    var listening: bool
    var outcomes: seq<Outcome>
    var progress: nat

    function View(): Call
      reads this
    {
      Call(input, settled, listening, outcomes, progress)
    }

    constructor (id: nat, input: string, worker: WorkerHandle)
      ensures this.id == id && this.worker == worker && View() == Call(input, false, false, [], 0)
    {
      this.id, this.input, this.worker := id, input, worker;
      settled, listening, outcomes, progress := false, false, [], 0;
    }

    method Cleanup()
      modifies this`listening
      ensures !listening
    {
      listening := false;
    }

    /** Runs only while the message listener is registered. */
    method HandleMessage(msg: Reply)
      requires listening
      modifies this
      ensures View() == OnReply(old(View()), id, msg)
    {
      if msg.id != id { return; }
      if msg.ProgressReply? {
        progress := progress + 1;
        return;
      }
      if settled { return; }
      settled := true;
      if msg.ResultReply? {
        Cleanup();
        outcomes := outcomes + [Resolved(msg.proof)];
      } else {
        Cleanup();
        outcomes := outcomes + [WasmOOM(msg.message)];
      }
    }

    method HandleError(message: string)
      requires listening
      modifies this
      ensures View() == OnError(old(View()), message)
    {
      if settled { return; }
      settled := true;
      Cleanup();
      outcomes := outcomes + [WasmOOM(message)];
    }

    method HandleAbort()
      modifies this, worker
      ensures View() == Settle(old(View()), Cancelled)
      ensures worker.sent == old(worker.sent) + if old(settled) then [] else [CancelMsg(id)]
    {
      if settled { return; }
      settled := true;
      worker.PostMessage(CancelMsg(id));
      Cleanup();
      outcomes := outcomes + [Cancelled];
    }
  }

  /** The counter of the module, which all provers share. */
  class ProveIds {
    var nextProveId: nat

    constructor ()
      ensures nextProveId == 0
    {
      nextProveId := 0;
    }
  }

  class SnarkjsWorkerProver {
    const ids: ProveIds
    const worker: WorkerHandle

    constructor (ids: ProveIds, worker: WorkerHandle)
      ensures this.ids == ids && this.worker == worker
    {
      this.ids, this.worker := ids, worker;
    }

    method Prove(input: string, aborted: bool) returns (call: ProveCall)
      modifies ids, worker
      ensures ids.nextProveId == old(ids.nextProveId) + 1
      ensures fresh(call) && call.id == ids.nextProveId && call.View() == Started(input, aborted)
      ensures worker.sent == old(worker.sent) + [FirstMessage(call.id, input, aborted)]
    {
      ids.nextProveId := ids.nextProveId + 1;
      call := new ProveCall(ids.nextProveId, input, worker);
      if aborted {
        call.HandleAbort();
        return;
      }
      call.listening := true;
      worker.PostMessage(ProveMsg(call.id, input));
    }
  }

  /** The record in the inflight map; the continuation of the proof holds the same object. */
  class InflightProve {
    const input: string
    var cancelled: bool

    constructor (input: string)
      ensures this.input == input && !cancelled
    {
      this.input := input;
      cancelled := false;
    }
  }

  class WorkerScope {
    var inflight: map<nat, InflightProve>
    var posted: seq<Reply>

    /** No two ids share a record. */
    ghost predicate Valid()
      reads this
    {
      forall i, j :: i in inflight && j in inflight && i != j ==> inflight[i] != inflight[j]
    }

    ghost function Slots(): map<nat, Slot>
      reads this, inflight.Values
    {
      map id | id in inflight :: Slot(inflight[id].input, inflight[id].cancelled)
    }

    constructor ()
      ensures Valid() && inflight == map[] && posted == []
    {
      inflight, posted := map[], [];
    }

    /** The worker's message listener. */
    method OnMessage(msg: Message)
      requires Valid()
      modifies this, inflight.Values
      ensures Valid() && Slots() == SlotsAfter(old(Slots()), msg)
      ensures posted == old(posted) + RepliesTo(msg)
      ensures forall slot :: slot in inflight.Values ==> slot in old(inflight.Values) || fresh(slot)
    {
      if msg.CancelMsg? {
        if msg.id in inflight {
          var slot := inflight[msg.id];
          slot.cancelled := true;
        }
        return;
      }
      var slot := new InflightProve(msg.input);
      inflight := inflight[msg.id := slot];
      posted := posted + [ProgressReply(msg.id, 10)];
    }

    /** The continuation of fullProve, which holds the slot it was started with. */
    method OnProofEnded(id: nat, slot: InflightProve, result: Result<Proof, string>)
      requires Valid() && id in inflight && inflight[id] == slot
      modifies this
      ensures Valid() && Slots() == old(Slots()) - {id}
      ensures posted == old(posted) + [Terminal(id, Done(slot.input, old(slot.cancelled), result))]
    {
      if result.Ok? {
        if slot.cancelled {
          inflight := inflight - {id};
          posted := posted + [ErrorReply(id, "cancelled")];
          return;
        }
        inflight := inflight - {id};
        posted := posted + [ResultReply(id, result.value)];
      } else {
        inflight := inflight - {id};
        posted := posted + [ErrorReply(id, result.error)];
      }
    }
  }
}
