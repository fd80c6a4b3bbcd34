/** The proving protocol between the main thread (packages/sdk/src/prover/snarkjsWorker.ts) and
    its worker (packages/sdk/src/prover/snarkjsWorkerEntry.ts), as one state machine over every
    interleaving of calls, aborts, messages, heartbeats, finished proofs and worker crashes. */
module ProverProtocol {
  import opened Results

  datatype Proof = Proof(proof: string, publicSignals: seq<string>)

  datatype Message = ProveMsg(id: nat, input: string) | CancelMsg(id: nat)

  datatype Reply =
    | ProgressReply(id: nat, pct: nat)
    | ResultReply(id: nat, proof: Proof)
    | ErrorReply(id: nat, message: string)

  datatype Outcome = Resolved(proof: Proof) | WasmOOM(message: string) | Cancelled

  // ----- One prove call on the main thread -----

  /** outcomes lists every resolve or reject the promise was given; listening says that the
      message, error and abort listeners are registered. */
  datatype Call = Call(input: string, settled: bool, listening: bool, outcomes: seq<Outcome>, progress: nat)

  function Settle(c: Call, o: Outcome): Call {
    if c.settled then c else c.(settled := true, listening := false, outcomes := c.outcomes + [o])
  }

  function OnReply(c: Call, id: nat, msg: Reply): Call {
    if !c.listening || msg.id != id then c
    else if msg.ProgressReply? then c.(progress := c.progress + 1)
    else Settle(c, if msg.ResultReply? then Resolved(msg.proof) else WasmOOM(msg.message))
  }

  function OnError(c: Call, message: string): Call {
    if !c.listening then c else Settle(c, WasmOOM(message))
  }

  /** A call just made: it settles at once if its signal had been aborted before. */
  function Started(input: string, aborted: bool): Call {
    if aborted then Settle(Call(input, false, false, [], 0), Cancelled)
    else Call(input, false, true, [], 0)
  }

  function FirstMessage(id: nat, input: string, aborted: bool): Message {
    if aborted then CancelMsg(id) else ProveMsg(id, input)
  }

  // ----- The worker -----

  datatype Slot = Slot(input: string, cancelled: bool)

  function SlotsAfter(inflight: map<nat, Slot>, msg: Message): map<nat, Slot> {
    if msg.ProveMsg? then inflight[msg.id := Slot(msg.input, false)]
    else if msg.id in inflight then inflight[msg.id := inflight[msg.id].(cancelled := true)]
    else inflight
  }

  function RepliesTo(msg: Message): seq<Reply> {
    if msg.ProveMsg? then [ProgressReply(msg.id, 10)] else []
  }

  /** How a proof ended, and whether its slot was cancelled by then. */
  datatype Done = Done(input: string, cancelled: bool, result: Result<Proof, string>)

  function Terminal(id: nat, d: Done): Reply {
    if d.result.Err? then ErrorReply(id, d.result.error)
    else if d.cancelled then ErrorReply(id, "cancelled")
    else ResultReply(id, d.result.value)
  }

  // ----- Both sides and the two channels -----

  /** sent and posted hold every message ever put on the two channels, in order; the first
      taken, respectively read, of them have been delivered. done and crashes are history. */
  datatype World = World(
    next: nat,
    calls: map<nat, Call>,
    sent: seq<Message>, taken: nat,
    inflight: map<nat, Slot>, done: map<nat, Done>,
    posted: seq<Reply>, read: nat,
    crashes: seq<string>)

  const INIT := World(0, map[], [], 0, map[], map[], [], 0, [])

  datatype Action =
    | Prove(input: string, aborted: bool)
    | Abort(id: nat)
    | WorkerTakes
    | Heartbeat(id: nat, pct: nat)
    | Finish(id: nat, result: Result<Proof, string>)
    | MainReads
    | Crash(message: string)

  function DoProve(w: World, input: string, aborted: bool): World {
    var id := w.next + 1;
    w.(next := id, calls := w.calls[id := Started(input, aborted)],
       sent := w.sent + [FirstMessage(id, input, aborted)])
  }

  function DoAbort(w: World, id: nat): World {
    if id !in w.calls || !w.calls[id].listening || w.calls[id].settled then w
    else w.(calls := w.calls[id := Settle(w.calls[id], Cancelled)], sent := w.sent + [CancelMsg(id)])
  }

  function DoTake(w: World): World {
    if w.taken >= |w.sent| then w
    else
      var msg := w.sent[w.taken];
      w.(taken := w.taken + 1, inflight := SlotsAfter(w.inflight, msg), posted := w.posted + RepliesTo(msg))
  }

  function DoHeartbeat(w: World, id: nat, pct: nat): World {
    if id !in w.inflight then w else w.(posted := w.posted + [ProgressReply(id, pct)])
  }

  function DoFinish(w: World, id: nat, result: Result<Proof, string>): World {
    if id !in w.inflight then w
    else
      var d := Done(w.inflight[id].input, w.inflight[id].cancelled, result);
      w.(inflight := w.inflight - {id}, done := w.done[id := d], posted := w.posted + [Terminal(id, d)])
  }

  /** Every registered listener sees the reply; each call's listener looks for its own id. */
  function DoRead(w: World): World {
    if w.read >= |w.posted| then w
    else
      var msg := w.posted[w.read];
      w.(read := w.read + 1, calls := map id | id in w.calls :: OnReply(w.calls[id], id, msg))
  }

  function DoCrash(w: World, message: string): World {
    w.(calls := map id | id in w.calls :: OnError(w.calls[id], message), crashes := w.crashes + [message])
  }

  function Step(w: World, a: Action): World {
    match a
    case Prove(input, aborted) => DoProve(w, input, aborted)
    case Abort(id) => DoAbort(w, id)
    case WorkerTakes => DoTake(w)
    case Heartbeat(id, pct) => DoHeartbeat(w, id, pct)
    case Finish(id, result) => DoFinish(w, id, result)
    case MainReads => DoRead(w)
    case Crash(message) => DoCrash(w, message)
  }

  function Run(w: World, actions: seq<Action>): World {
    if actions == [] then w else Step(Run(w, actions[..|actions| - 1]), actions[|actions| - 1])
  }

  lemma RunOneMore(actions: seq<Action>, a: Action)
    ensures Run(INIT, actions + [a]) == Step(Run(INIT, actions), a)
  {
    assert (actions + [a])[..|actions|] == actions;
  }

  // ----- What every run keeps -----

  /** Every outcome has a cause: the reply with the call's own id, a crash, or its own abort. */
  ghost predicate Caused(id: nat, o: Outcome, seen: seq<Reply>, sent: seq<Message>, crashes: seq<string>) {
    match o
    case Resolved(p) => ResultReply(id, p) in seen
    case WasmOOM(m) => ErrorReply(id, m) in seen || m in crashes
    case Cancelled => CancelMsg(id) in sent
  }

  ghost predicate NoTerminal(id: nat, seen: seq<Reply>) {
    forall k :: 0 <= k < |seen| && seen[k].id == id ==> seen[k].ProgressReply?
  }

  /** A call that settled did so once, for a cause, and listens no more; one that has not
      listens, has its prove message under way, and has missed no terminal reply. */
  ghost predicate CallOk(id: nat, c: Call, seen: seq<Reply>, sent: seq<Message>, crashes: seq<string>) {
    if c.settled then
      !c.listening && |c.outcomes| == 1 && Caused(id, c.outcomes[0], seen, sent, crashes)
    else
      c.listening && c.outcomes == [] && ProveMsg(id, c.input) in sent && NoTerminal(id, seen)
  }

  ghost predicate CallsOk(next: nat, calls: map<nat, Call>, seen: seq<Reply>, sent: seq<Message>,
                          crashes: seq<string>) {
    && (forall id: nat :: id in calls <==> 1 <= id <= next)
    && (forall id :: id in calls ==> CallOk(id, calls[id], seen, sent, crashes))
  }

  ghost predicate MessageOk(m: Message, calls: map<nat, Call>) {
    && m.id in calls
    && if m.ProveMsg? then m.input == calls[m.id].input else calls[m.id].outcomes == [Cancelled]
  }

  /** Messages name calls; an id is proved at most once, and cancelled only after that. */
  ghost predicate SentOk(sent: seq<Message>, calls: map<nat, Call>) {
    && (forall i :: 0 <= i < |sent| ==> MessageOk(sent[i], calls))
    && (forall i, j :: 0 <= i < j < |sent| && sent[j].ProveMsg? ==> sent[i].id != sent[j].id)
  }

  ghost predicate TookProve(took: seq<Message>, id: nat) {
    exists i :: 0 <= i < |took| && took[i].ProveMsg? && took[i].id == id
  }

  /** The inflight map holds exactly the ids taken and not finished; a slot is cancelled
      exactly when the worker took a cancel message for it. */
  ghost predicate WorkerOk(took: seq<Message>, inflight: map<nat, Slot>, done: map<nat, Done>) {
    && (forall id: nat :: id in inflight || id in done <==> TookProve(took, id))
    && (forall id :: id in inflight ==> id !in done && ProveMsg(id, inflight[id].input) in took)
    && (forall id :: id in inflight ==> (inflight[id].cancelled <==> CancelMsg(id) in took))
    && (forall id :: id in done ==> ProveMsg(id, done[id].input) in took)
    && (forall id :: id in done && done[id].cancelled ==> CancelMsg(id) in took)
  }

  /** Every finished proof has exactly one terminal reply, an unfinished one has none. */
  ghost predicate PostedOk(posted: seq<Reply>, done: map<nat, Done>) {
    && (forall k :: 0 <= k < |posted| && !posted[k].ProgressReply? ==>
         posted[k].id in done && posted[k] == Terminal(posted[k].id, done[posted[k].id]))
    && (forall id :: id in done ==> Terminal(id, done[id]) in posted)
    && (forall k, l :: 0 <= k < l < |posted| && !posted[k].ProgressReply? && !posted[l].ProgressReply? ==>
         posted[k].id != posted[l].id)
  }

  ghost predicate Inv(w: World) {
    && w.taken <= |w.sent| && w.read <= |w.posted|
    && CallsOk(w.next, w.calls, w.posted[..w.read], w.sent, w.crashes)
    && SentOk(w.sent, w.calls)
    && WorkerOk(w.sent[..w.taken], w.inflight, w.done)
    && PostedOk(w.posted, w.done)
  }

  // ----- One lemma per part and change -----

  lemma AppendSent(sent: seq<Message>, calls: map<nat, Call>, calls': map<nat, Call>, m: Message)
    requires SentOk(sent, calls) && MessageOk(m, calls')
    requires forall i :: 0 <= i < |sent| ==> MessageOk(sent[i], calls')
    requires m.ProveMsg? ==> m.id !in calls
    ensures SentOk(sent + [m], calls')
  {
  }

  lemma AppendProgress(posted: seq<Reply>, done: map<nat, Done>, r: Reply)
    requires PostedOk(posted, done) && r.ProgressReply?
    ensures PostedOk(posted + [r], done)
  {
  }

  lemma AppendTerminal(posted: seq<Reply>, done: map<nat, Done>, id: nat, d: Done)
    requires PostedOk(posted, done) && id !in done
    ensures PostedOk(posted + [Terminal(id, d)], done[id := d])
  {
    var posted', done' := posted + [Terminal(id, d)], done[id := d];
    forall i | i in done' ensures Terminal(i, done'[i]) in posted' {
      if i != id { assert Terminal(i, done[i]) in posted; }
    }
  }

  /** The messages sent later do not matter to what the worker took. */
  lemma SamePrefix<T>(s: seq<T>, x: T, n: nat)
    requires n <= |s|
    ensures (s + [x])[..n] == s[..n]
  {
  }

  lemma ProveKeeps(w: World, input: string, aborted: bool)
    requires Inv(w)
    ensures Inv(DoProve(w, input, aborted))
  {
    var w' := DoProve(w, input, aborted);
    var id := w.next + 1;
    var m := FirstMessage(id, input, aborted);
    AppendSent(w.sent, w.calls, w'.calls, m);
    SamePrefix(w.sent, m, w.taken);
    assert NoTerminal(id, w.posted[..w.read]);
  }

  lemma AbortKeeps(w: World, id: nat)
    requires Inv(w)
    ensures Inv(DoAbort(w, id))
  {
    var w' := DoAbort(w, id);
    if w' != w {
      AppendSent(w.sent, w.calls, w'.calls, CancelMsg(id));
      SamePrefix(w.sent, CancelMsg(id), w.taken);
    }
  }

  lemma TookOneMore(took: seq<Message>, m: Message, id: nat)
    ensures TookProve(took + [m], id) <==> TookProve(took, id) || (m.ProveMsg? && m.id == id)
  {
    var more := took + [m];
    if TookProve(took, id) {
      var i :| 0 <= i < |took| && took[i].ProveMsg? && took[i].id == id;
      assert more[i].ProveMsg? && more[i].id == id;
    } else if m.ProveMsg? && m.id == id {
      assert more[|took|].ProveMsg? && more[|took|].id == id;
    }
  }

  lemma TakeProve(took: seq<Message>, m: Message, inflight: map<nat, Slot>, done: map<nat, Done>)
    requires WorkerOk(took, inflight, done) && m.ProveMsg?
    requires forall i :: 0 <= i < |took| ==> took[i].id != m.id
    ensures WorkerOk(took + [m], SlotsAfter(inflight, m), done)
  {
    forall id: nat ensures TookProve(took + [m], id) <==> TookProve(took, id) || m.id == id {
      TookOneMore(took, m, id);
    }
    assert !TookProve(took, m.id);
  }

  lemma TakeCancel(took: seq<Message>, m: Message, inflight: map<nat, Slot>, done: map<nat, Done>)
    requires WorkerOk(took, inflight, done) && m.CancelMsg?
    ensures WorkerOk(took + [m], SlotsAfter(inflight, m), done)
  {
    forall id: nat ensures TookProve(took + [m], id) <==> TookProve(took, id) { TookOneMore(took, m, id); }
  }

  lemma TakeReplies(posted: seq<Reply>, done: map<nat, Done>, m: Message, n: nat)
    requires PostedOk(posted, done) && n <= |posted|
    ensures PostedOk(posted + RepliesTo(m), done) && (posted + RepliesTo(m))[..n] == posted[..n]
  {
    if m.ProveMsg? {
      AppendProgress(posted, done, ProgressReply(m.id, 10));
    } else {
      assert posted + RepliesTo(m) == posted;
    }
  }

  lemma TakeWorker(sent: seq<Message>, calls: map<nat, Call>, n: nat,
                   inflight: map<nat, Slot>, done: map<nat, Done>)
    requires n < |sent| && SentOk(sent, calls) && WorkerOk(sent[..n], inflight, done)
    ensures WorkerOk(sent[..n + 1], SlotsAfter(inflight, sent[n]), done)
  {
    var m, took := sent[n], sent[..n];
    assert sent[..n + 1] == took + [m];
    if m.ProveMsg? {
      assert forall i :: 0 <= i < |took| ==> took[i] == sent[i];
      TakeProve(took, m, inflight, done);
    } else {
      TakeCancel(took, m, inflight, done);
    }
  }

  lemma TakeKeeps(w: World)
    requires Inv(w)
    ensures Inv(DoTake(w))
  {
    if w.taken < |w.sent| {
      TakeReplies(w.posted, w.done, w.sent[w.taken], w.read);
      TakeWorker(w.sent, w.calls, w.taken, w.inflight, w.done);
      var w' := DoTake(w);
      assert w'.posted[..w'.read] == w.posted[..w.read];
      assert WorkerOk(w'.sent[..w'.taken], w'.inflight, w'.done) && PostedOk(w'.posted, w'.done);
    }
  }

  lemma HeartbeatKeeps(w: World, id: nat, pct: nat)
    requires Inv(w)
    ensures Inv(DoHeartbeat(w, id, pct))
  {
    if id in w.inflight {
      AppendProgress(w.posted, w.done, ProgressReply(id, pct));
      SamePrefix(w.posted, ProgressReply(id, pct), w.read);
    }
  }

  lemma FinishKeeps(w: World, id: nat, result: Result<Proof, string>)
    requires Inv(w)
    ensures Inv(DoFinish(w, id, result))
  {
    if id in w.inflight {
      var d := Done(w.inflight[id].input, w.inflight[id].cancelled, result);
      AppendTerminal(w.posted, w.done, id, d);
      SamePrefix(w.posted, Terminal(id, d), w.read);
    }
  }

  lemma ReadCall(id: nat, c: Call, msg: Reply, seen: seq<Reply>, sent: seq<Message>, crashes: seq<string>)
    requires CallOk(id, c, seen, sent, crashes)
    ensures CallOk(id, OnReply(c, id, msg), seen + [msg], sent, crashes)
  {
    var later := seen + [msg];
    assert msg in later;
    if !c.settled && (msg.id != id || msg.ProgressReply?) {
      assert NoTerminal(id, later);
    }
  }

  lemma ReadKeeps(w: World)
    requires Inv(w)
    ensures Inv(DoRead(w))
  {
    if w.read < |w.posted| {
      var msg, seen := w.posted[w.read], w.posted[..w.read];
      assert w.posted[..w.read + 1] == seen + [msg];
      forall id | id in w.calls
        ensures CallOk(id, OnReply(w.calls[id], id, msg), seen + [msg], w.sent, w.crashes)
      {
        ReadCall(id, w.calls[id], msg, seen, w.sent, w.crashes);
      }
      var calls' := DoRead(w).calls;
      assert forall i :: 0 <= i < |w.sent| ==> MessageOk(w.sent[i], calls');
    }
  }

  lemma CrashKeeps(w: World, message: string)
    requires Inv(w)
    ensures Inv(DoCrash(w, message))
  {
  }

  lemma StepKeeps(w: World, a: Action)
    requires Inv(w)
    ensures Inv(Step(w, a))
  {
    match a
    case Prove(input, aborted) => ProveKeeps(w, input, aborted);
    case Abort(id) => AbortKeeps(w, id);
    case WorkerTakes => TakeKeeps(w);
    case Heartbeat(id, pct) => HeartbeatKeeps(w, id, pct);
    case Finish(id, result) => FinishKeeps(w, id, result);
    case MainReads => ReadKeeps(w);
    case Crash(message) => CrashKeeps(w, message);
  }

  lemma {:induction false} RunKeeps(actions: seq<Action>)
    ensures Inv(Run(INIT, actions))
  {
    if actions != [] {
      RunKeeps(actions[..|actions| - 1]);
      StepKeeps(Run(INIT, actions[..|actions| - 1]), actions[|actions| - 1]);
    }
  }

  // ----- What that means for callers -----

  /** In every run a call settles at most once, keeps no listener once settled, and resolves
      only with the proof the worker found for the call's own input, uncancelled. */
  lemma SettlesOnceWithOwnProof(actions: seq<Action>, id: nat)
    requires id in Run(INIT, actions).calls
    ensures var w := Run(INIT, actions); var c := w.calls[id];
      && |c.outcomes| == (if c.settled then 1 else 0) && c.listening == !c.settled
      && forall p :: c.outcomes == [Resolved(p)] ==> id in w.done && w.done[id] == Done(c.input, false, Ok(p))
  {
    RunKeeps(actions);
    var w := Run(INIT, actions);
    var c := w.calls[id];
    assert CallOk(id, c, w.posted[..w.read], w.sent, w.crashes);
    forall p | c.outcomes == [Resolved(p)] ensures id in w.done && w.done[id] == Done(c.input, false, Ok(p)) {
      assert c.outcomes[0] == Resolved(p) && ResultReply(id, p) in w.posted[..w.read];
      ResultIsDone(w, id, p);
    }
  }

  lemma ResultIsDone(w: World, id: nat, p: Proof)
    requires Inv(w) && id in w.calls && ResultReply(id, p) in w.posted[..w.read]
    ensures id in w.done && w.done[id] == Done(w.calls[id].input, false, Ok(p))
  {
    var k :| 0 <= k < w.read && w.posted[k] == ResultReply(id, p);
    assert Terminal(id, w.done[id]) == ResultReply(id, p);
    var m := ProveMsg(id, w.done[id].input);
    var i :| 0 <= i < w.taken && w.sent[i] == m;
    assert MessageOk(w.sent[i], w.calls);
  }

  lemma StepLeavesSettled(w: World, a: Action, id: nat)
    requires id in w.calls && id <= w.next && w.calls[id].settled && !w.calls[id].listening
    ensures id in Step(w, a).calls && Step(w, a).calls[id] == w.calls[id]
  {
  }

  lemma RunListens(actions: seq<Action>, id: nat)
    requires id in Run(INIT, actions).calls
    ensures var w := Run(INIT, actions); id <= w.next && w.calls[id].listening == !w.calls[id].settled
  {
    RunKeeps(actions);
    var w := Run(INIT, actions);
    assert CallOk(id, w.calls[id], w.posted[..w.read], w.sent, w.crashes);
  }

  /** Once settled, by an abort or otherwise, nothing that happens later touches a call. */
  lemma {:induction false} SettledForGood(actions: seq<Action>, more: seq<Action>, id: nat)
    requires id in Run(INIT, actions).calls && Run(INIT, actions).calls[id].settled
    ensures id in Run(INIT, actions + more).calls
    ensures Run(INIT, actions + more).calls[id] == Run(INIT, actions).calls[id]
  {
    if more == [] {
      assert actions + more == actions;
    } else {
      var n := |more| - 1;
      var before := actions + more[..n];
      SettledForGood(actions, more[..n], id);
      RunListens(before, id);
      StepLeavesSettled(Run(INIT, before), more[n], id);
      RunOneMore(before, more[n]);
      assert actions + more == before + [more[n]];
    }
  }

  function TerminalReplies(posted: seq<Reply>, id: nat): nat {
    if posted == [] then 0
    else
      var n := |posted| - 1;
      TerminalReplies(posted[..n], id) + if posted[n].id == id && !posted[n].ProgressReply? then 1 else 0
  }

  lemma {:induction false} NoneWithout(posted: seq<Reply>, id: nat)
    requires NoTerminal(id, posted)
    ensures TerminalReplies(posted, id) == 0
  {
    if posted != [] { NoneWithout(posted[..|posted| - 1], id); }
  }

  lemma {:induction false} OneWhenUnique(posted: seq<Reply>, id: nat, k: nat)
    requires k < |posted| && posted[k].id == id && !posted[k].ProgressReply?
    requires forall l :: 0 <= l < |posted| && l != k && posted[l].id == id ==> posted[l].ProgressReply?
    ensures TerminalReplies(posted, id) == 1
  {
    var n := |posted| - 1;
    if k == n { NoneWithout(posted[..n], id); } else { OneWhenUnique(posted[..n], id, k); }
  }

  /** In every run the inflight map holds exactly the ids whose prove message was taken and
      whose proof has not finished, and each finished proof has had exactly one terminal reply. */
  lemma OneTerminalReply(actions: seq<Action>, id: nat)
    ensures var w := Run(INIT, actions);
      && w.taken <= |w.sent|
      && (id in w.inflight <==> TookProve(w.sent[..w.taken], id) && id !in w.done)
      && (id in w.done ==> TookProve(w.sent[..w.taken], id))
      && TerminalReplies(w.posted, id) == if id in w.done then 1 else 0
  {
    RunKeeps(actions);
    var w := Run(INIT, actions);
    if id in w.done {
      var k :| 0 <= k < |w.posted| && w.posted[k] == Terminal(id, w.done[id]);
      OneWhenUnique(w.posted, id, k);
    } else {
      NoneWithout(w.posted, id);
    }
  }

  lemma InSuffix<T>(s: seq<T>, n: nat, x: T)
    requires n <= |s| && x in s && x !in s[..n]
    ensures x in s[n..]
  {
    var i :| 0 <= i < |s| && s[i] == x;
    assert forall j :: 0 <= j < n ==> s[..n][j] == s[j];
    assert s[n..][i - n] == x;
  }

  /** The prove message is waiting, or the proof is in flight, or its terminal reply is on the
      way to the main thread. */
  ghost predicate UnderWay(w: World, id: nat, input: string) {
    && w.taken <= |w.sent| && w.read <= |w.posted|
    && (|| ProveMsg(id, input) in w.sent[w.taken..]
        || id in w.inflight
        || (id in w.done && Terminal(id, w.done[id]) in w.posted[w.read..]))
  }

  lemma Accounted(w: World, id: nat, c: Call)
    requires Inv(w) && id in w.calls && w.calls[id] == c && !c.settled
    ensures UnderWay(w, id, c.input)
  {
    var m, took, seen := ProveMsg(id, c.input), w.sent[..w.taken], w.posted[..w.read];
    assert CallOk(id, c, seen, w.sent, w.crashes);
    if m !in took {
      InSuffix(w.sent, w.taken, m);
    } else {
      var i :| 0 <= i < |took| && took[i] == m;
      assert TookProve(took, id);
      if id in w.done { InSuffix(w.posted, w.read, Terminal(id, w.done[id])); }
    }
  }

  /** In every run a call that has not settled is accounted for. */
  lemma NoCallForgotten(actions: seq<Action>, id: nat)
    requires id in Run(INIT, actions).calls && !Run(INIT, actions).calls[id].settled
    ensures UnderWay(Run(INIT, actions), id, Run(INIT, actions).calls[id].input)
  {
    RunKeeps(actions);
    Accounted(Run(INIT, actions), id, Run(INIT, actions).calls[id]);
  }

  lemma CancelledSlotFinishes(w: World, id: nat, result: Result<Proof, string>)
    requires Inv(w) && id in w.inflight && CancelMsg(id) in w.sent[..w.taken]
    ensures DoFinish(w, id, result).posted
      == w.posted + [ErrorReply(id, if result.Err? then result.error else "cancelled")]
  {
  }

  /** A cancel message that reached the worker before the proof finished turns whatever the
      proof comes to into an error reply. */
  lemma CancelReachesReply(actions: seq<Action>, id: nat, result: Result<Proof, string>)
    requires var w := Run(INIT, actions);
      w.taken <= |w.sent| && id in w.inflight && CancelMsg(id) in w.sent[..w.taken]
    ensures Run(INIT, actions + [Finish(id, result)]).posted
      == Run(INIT, actions).posted + [ErrorReply(id, if result.Err? then result.error else "cancelled")]
  {
    RunKeeps(actions);
    RunOneMore(actions, Finish(id, result));
    CancelledSlotFinishes(Run(INIT, actions), id, result);
  }
}
