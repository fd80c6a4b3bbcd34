/** What the actions of ProverProtocol bring about: what one delivery, abort, crash, taken message
    or finished proof does to a call, and that every call can be brought to its own outcome. */
module ProverProgress {
  import opened Results
  import opened ProverProtocol

  // ----- One action -----

  /** The call with its one outcome, and no listener. */
  function SettledWith(c: Call, o: Outcome): Call {
    Call(c.input, true, false, c.outcomes + [o], c.progress)
  }

  lemma NextIsFresh(actions: seq<Action>)
    ensures Run(INIT, actions).next + 1 !in Run(INIT, actions).calls
  {
    RunKeeps(actions);
  }

  /** A call just made has the next id; unless it was aborted it listens, and its input is sent. */
  lemma CallBegins(actions: seq<Action>, input: string, aborted: bool)
    ensures var w, w' := Run(INIT, actions), Run(INIT, actions + [Prove(input, aborted)]);
      var id := w.next + 1;
      && id !in w.calls && w' == w.(next := id, calls := w'.calls, sent := w'.sent)
      && if aborted
         then w'.calls == w.calls[id := Call(input, true, false, [Cancelled], 0)] && w'.sent == w.sent + [CancelMsg(id)]
         else w'.calls == w.calls[id := Call(input, false, true, [], 0)] && w'.sent == w.sent + [ProveMsg(id, input)]
  {
    NextIsFresh(actions);
    RunOneMore(actions, Prove(input, aborted));
    StartedIs(input);
  }

  lemma StartedIs(input: string)
    ensures Started(input, true) == Call(input, true, false, [Cancelled], 0)
    ensures Started(input, false) == Call(input, false, true, [], 0)
  {
  }

  /** An abort cancels a call that has not settled and tells the worker; else it does nothing. */
  lemma AbortCancels(actions: seq<Action>, id: nat)
    requires id in Run(INIT, actions).calls
    ensures var w, w' := Run(INIT, actions), Run(INIT, actions + [Abort(id)]);
      if w.calls[id].settled then w' == w
      else w' == w.(calls := w.calls[id := SettledWith(w.calls[id], Cancelled)], sent := w.sent + [CancelMsg(id)])
  {
    RunListens(actions, id);
    RunOneMore(actions, Abort(id));
  }

  /** A crash of the worker rejects every call that has not settled, with its message. */
  lemma CrashRejectsAll(actions: seq<Action>, message: string)
    ensures var w, w' := Run(INIT, actions), Run(INIT, actions + [Crash(message)]);
      && w'.calls.Keys == w.calls.Keys
      && forall id :: id in w.calls ==>
           w'.calls[id] == if w.calls[id].settled then w.calls[id] else SettledWith(w.calls[id], WasmOOM(message))
  {
    RunOneMore(actions, Crash(message));
    forall id | id in Run(INIT, actions).calls
      ensures Run(INIT, actions).calls[id].listening == !Run(INIT, actions).calls[id].settled
    {
      RunListens(actions, id);
    }
  }

  /** What a terminal reply means for its call. */
  function OutcomeOf(r: Reply): Outcome
    requires !r.ProgressReply?
  {
    if r.ResultReply? then Resolved(r.proof) else WasmOOM(r.message)
  }

  function Delivered(c: Call, id: nat, r: Reply): Call {
    if c.settled || r.id != id then c
    else if r.ProgressReply? then c.(progress := c.progress + 1)
    else SettledWith(c, OutcomeOf(r))
  }

  /** A delivered reply ticks or settles the call with its id, if that has not settled, and no other. */
  lemma ReplyIsDelivered(actions: seq<Action>)
    requires var w := Run(INIT, actions); w.read < |w.posted|
    ensures var w, w' := Run(INIT, actions), Run(INIT, actions + [MainReads]);
      && w' == w.(read := w.read + 1, calls := w'.calls) && w'.calls.Keys == w.calls.Keys
      && forall id :: id in w.calls ==> w'.calls[id] == Delivered(w.calls[id], id, w.posted[w.read])
  {
    RunOneMore(actions, MainReads);
    var w := Run(INIT, actions);
    forall id | id in w.calls ensures w.calls[id].listening == !w.calls[id].settled { RunListens(actions, id); }
  }

  /** The slots after a cancel message: the one with its id, if there is one, is cancelled. */
  ghost predicate MarksCancelled(before: map<nat, Slot>, after: map<nat, Slot>, id: nat) {
    && after.Keys == before.Keys
    && forall i :: i in before ==> after[i] == Slot(before[i].input, before[i].cancelled || i == id)
  }

  /** A taken prove message puts its id in flight, not cancelled, and answers with ten per cent; a
      cancel message marks the id if it is in flight. */
  lemma MessageIsTaken(actions: seq<Action>)
    requires var w := Run(INIT, actions); w.taken < |w.sent|
    ensures var w, w' := Run(INIT, actions), Run(INIT, actions + [WorkerTakes]);
      var m := w.sent[w.taken];
      && w' == w.(taken := w.taken + 1, posted := w'.posted, inflight := w'.inflight)
      && if m.ProveMsg?
         then w'.inflight == w.inflight[m.id := Slot(m.input, false)] && w'.posted == w.posted + [ProgressReply(m.id, 10)]
         else w'.posted == w.posted && MarksCancelled(w.inflight, w'.inflight, m.id)
  {
    RunOneMore(actions, WorkerTakes);
  }

  /** A heartbeat posts a tick for an id in flight, and nothing for any other. */
  lemma HeartbeatPosts(actions: seq<Action>, id: nat, pct: nat)
    ensures var w, w' := Run(INIT, actions), Run(INIT, actions + [Heartbeat(id, pct)]);
      w' == if id in w.inflight then w.(posted := w.posted + [ProgressReply(id, pct)]) else w
  {
    RunOneMore(actions, Heartbeat(id, pct));
  }

  /** The reply that the end of a proof asks for. */
  function EndReply(id: nat, slot: Slot, result: Result<Proof, string>): Reply {
    if result.Err? then ErrorReply(id, result.error)
    else if slot.cancelled then ErrorReply(id, "cancelled")
    else ResultReply(id, result.value)
  }

  /** The end of a proof takes its id out of flight and posts that reply. */
  lemma ProofEndPosts(actions: seq<Action>, id: nat, result: Result<Proof, string>)
    ensures var w, w' := Run(INIT, actions), Run(INIT, actions + [Finish(id, result)]);
      if id !in w.inflight then w' == w
      else
        var slot := w.inflight[id];
        w' == w.(inflight := w.inflight - {id}, done := w.done[id := Done(slot.input, slot.cancelled, result)],
                 posted := w.posted + [EndReply(id, slot, result)])
  {
    RunOneMore(actions, Finish(id, result));
  }

  // ----- Many actions of one kind -----

  function Times(a: Action, n: nat): (actions: seq<Action>)
    ensures |actions| == n
  {
    if n == 0 then [] else [a] + Times(a, n - 1)
  }

  lemma RunFirstOf(actions: seq<Action>, a: Action, n: nat)
    requires n > 0
    ensures actions + Times(a, n) == (actions + [a]) + Times(a, n - 1)
  {
  }

  lemma OneIsTaken(actions: seq<Action>, next: seq<Action>)
    requires next == actions + [WorkerTakes] && Run(INIT, actions).taken < |Run(INIT, actions).sent|
    ensures var w, w' := Run(INIT, actions), Run(INIT, next);
      w'.taken == w.taken + 1 && w'.sent == w.sent && w'.calls == w.calls
  {
    MessageIsTaken(actions);
  }

  /** The worker takes everything that was sent. */
  lemma {:induction false} TakesAll(actions: seq<Action>, n: nat, all: seq<Action>)
    requires Run(INIT, actions).taken + n == |Run(INIT, actions).sent| && all == actions + Times(WorkerTakes, n)
    ensures var w, w' := Run(INIT, actions), Run(INIT, all);
      w'.taken == |w'.sent| && w'.calls == w.calls
    decreases n
  {
    if n == 0 {
      assert all == actions;
    } else {
      var next := actions + [WorkerTakes];
      OneIsTaken(actions, next);
      RunFirstOf(actions, WorkerTakes, n);
      TakesAll(next, n - 1, all);
    }
  }

  /** The terminal reply of id has been posted and not been read. */
  ghost predicate TerminalAhead(w: World, id: nat) {
    id in w.done && w.read <= |w.posted| && Terminal(id, w.done[id]) in w.posted[w.read..]
  }

  /** The first reply ahead is that one, or that one is further ahead. */
  lemma FirstAhead(posted: seq<Reply>, done: map<nat, Done>, read: nat, id: nat)
    requires PostedOk(posted, done) && id in done && read <= |posted| && Terminal(id, done[id]) in posted[read..]
    ensures read < |posted|
    ensures if posted[read].ProgressReply? || posted[read].id != id
            then Terminal(id, done[id]) in posted[read + 1..] else posted[read] == Terminal(id, done[id])
  {
    var r := Terminal(id, done[id]);
    var i :| 0 <= i < |posted| - read && posted[read..][i] == r;
    assert posted[read + i] == r;
    if i > 0 { assert posted[read + 1..][i - 1] == r; }
  }

  lemma NothingYet(actions: seq<Action>, id: nat)
    requires id in Run(INIT, actions).calls && !Run(INIT, actions).calls[id].settled
    ensures Run(INIT, actions).calls[id].outcomes == []
  {
    SettlesOnceWithOwnProof(actions, id);
  }

  lemma AheadInRun(actions: seq<Action>, id: nat)
    requires TerminalAhead(Run(INIT, actions), id)
    ensures var w := Run(INIT, actions); var r := Terminal(id, w.done[id]);
      && w.read < |w.posted|
      && if w.posted[w.read].ProgressReply? || w.posted[w.read].id != id
         then r in w.posted[w.read + 1..] else w.posted[w.read] == r
  {
    RunKeeps(actions);
    var w := Run(INIT, actions);
    FirstAhead(w.posted, w.done, w.read, id);
  }

  /** The next reply is that one, or leaves the call as it was but for its progress. */
  lemma NextReply(actions: seq<Action>, id: nat)
    requires var w := Run(INIT, actions); id in w.calls && !w.calls[id].settled && TerminalAhead(w, id)
    ensures var w, w' := Run(INIT, actions), Run(INIT, actions + [MainReads]);
      && w.read < |w.posted| && id in w'.calls && w'.posted == w.posted && w'.done == w.done && w'.read == w.read + 1
      && if w'.calls[id].settled then w'.calls[id].outcomes == [OutcomeOf(Terminal(id, w.done[id]))]
         else TerminalAhead(w', id)
  {
    AheadInRun(actions, id);
    NothingYet(actions, id);
    ReplyIsDelivered(actions);
  }

  /** Reading on settles the call with that reply. */
  lemma {:induction false} ReadsTerminal(actions: seq<Action>, id: nat, n: nat, all: seq<Action>)
    requires var w := Run(INIT, actions);
      id in w.calls && !w.calls[id].settled && TerminalAhead(w, id) && w.read + n == |w.posted|
    requires all == actions + Times(MainReads, n)
    ensures var w, w' := Run(INIT, actions), Run(INIT, all);
      id in w'.calls && w'.calls[id].outcomes == [OutcomeOf(Terminal(id, w.done[id]))]
    decreases n
  {
    var next := actions + [MainReads];
    NextReply(actions, id);
    RunFirstOf(actions, MainReads, n);
    if Run(INIT, next).calls[id].settled {
      SettledForGood(next, Times(MainReads, n - 1), id);
    } else {
      ReadsTerminal(next, id, n - 1, all);
    }
  }

  // ----- Every call can settle -----

  /** Nobody cancels a call that has not settled. */
  lemma NotCancelled(w: World, id: nat)
    requires Inv(w) && id in w.calls && !w.calls[id].settled
    ensures CancelMsg(id) !in w.sent
    ensures id in w.inflight ==> !w.inflight[id].cancelled
    ensures id in w.done ==> !w.done[id].cancelled
  {
    assert CallOk(id, w.calls[id], w.posted[..w.read], w.sent, w.crashes);
    assert CancelMsg(id) in w.sent[..w.taken] ==> CancelMsg(id) in w.sent;
  }

  /** The reply to a proof that nobody cancelled. */
  function TerminalOf(id: nat, result: Result<Proof, string>): (r: Reply)
    ensures !r.ProgressReply?
  {
    if result.Ok? then ResultReply(id, result.value) else ErrorReply(id, result.error)
  }

  /** Once everything sent has been taken, the proof of a call that has not settled is in flight or
      has ended, and nobody cancelled it. */
  lemma InFlightOrEnded(actions: seq<Action>, id: nat)
    requires var w := Run(INIT, actions); id in w.calls && !w.calls[id].settled && w.taken == |w.sent|
    ensures var w := Run(INIT, actions);
      if id in w.inflight then id !in w.done && !w.inflight[id].cancelled && w.read <= |w.posted|
      else TerminalAhead(w, id) && Terminal(id, w.done[id]) == TerminalOf(id, w.done[id].result)
  {
    RunKeeps(actions);
    var w := Run(INIT, actions);
    Accounted(w, id, w.calls[id]);
    NotCancelled(w, id);
  }

  lemma LastIsAhead<T>(s: seq<T>, x: T, n: nat)
    requires n <= |s|
    ensures x in (s + [x])[n..]
  {
    assert (s + [x])[n..][|s| - n] == x;
  }

  /** Then the end of the proof posts the call's terminal reply, unless it has been posted before. */
  lemma FinishIsAhead(actions: seq<Action>, id: nat, result: Result<Proof, string>)
    requires var w := Run(INIT, actions); id in w.calls && !w.calls[id].settled && w.taken == |w.sent|
    ensures var w, w' := Run(INIT, actions), Run(INIT, actions + [Finish(id, result)]);
      && w'.calls == w.calls && TerminalAhead(w', id)
      && Terminal(id, w'.done[id]) == TerminalOf(id, if id in w.done then w.done[id].result else result)
  {
    var w := Run(INIT, actions);
    InFlightOrEnded(actions, id);
    ProofEndPosts(actions, id, result);
    if id in w.inflight { LastIsAhead(w.posted, TerminalOf(id, result), w.read); }
  }

  /** The run goes on until the worker has taken everything that was sent. */
  function AllTaken(actions: seq<Action>): seq<Action> {
    var w := Run(INIT, actions);
    actions + Times(WorkerTakes, if w.taken <= |w.sent| then |w.sent| - w.taken else 0)
  }

  /** And until every reply has been read. */
  function AllRead(actions: seq<Action>): seq<Action> {
    var w := Run(INIT, actions);
    actions + Times(MainReads, if w.read <= |w.posted| then |w.posted| - w.read else 0)
  }

  /** What the proof of a call came to: what it had come to before, or else result. */
  function CameTo(w: World, id: nat, result: Result<Proof, string>): Result<Proof, string> {
    if id in w.done then w.done[id].result else result
  }

  /** From every point of every run a call that has not settled can be brought to its end: let the
      worker take what was sent, let the proof end, and read the replies. The call is then resolved
      with the proof, or rejected with the error, that its own proof came to. */
  lemma EveryCallCanSettle(actions: seq<Action>, id: nat, result: Result<Proof, string>)
    requires id in Run(INIT, actions).calls && !Run(INIT, actions).calls[id].settled
    ensures var w := Run(INIT, AllRead(AllTaken(actions) + [Finish(id, result)]));
      id in w.calls && w.calls[id].outcomes == [OutcomeOf(TerminalOf(id, CameTo(Run(INIT, AllTaken(actions)), id, result)))]
  {
    RunKeeps(actions);
    var w, took := Run(INIT, actions), AllTaken(actions);
    TakesAll(actions, |w.sent| - w.taken, took);
    var ended := took + [Finish(id, result)];
    FinishIsAhead(took, id, result);
    RunKeeps(ended);
    ReadsTerminal(ended, id, |Run(INIT, ended).posted| - Run(INIT, ended).read, AllRead(ended));
  }
}
