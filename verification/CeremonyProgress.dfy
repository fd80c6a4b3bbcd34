/** What the processes of CeremonyProtocol bring about, in any interleaving with the others: when
    a publication lands, when a verification attests, when an upload is stored, and how a round
    goes through from its upload to the published status. */
module CeremonyProgress {
  import opened Results
  import opened CeremonyStatus
  import opened CeremonyProtocol

  // ----- Waiting processes -----

  predicate ActsForPublisher(a: Action, pid: nat) {
    match a
    case PublishRead(p) => p == pid
    case PublishCompute(p, _, _) => p == pid
    case PublishWrite(p, _) => p == pid
    case _ => false
  }

  predicate ActsForVerifier(a: Action, vid: nat) {
    match a
    case VerifyDownload(v, _) => v == vid
    case VerifyR1cs(v) => v == vid
    case VerifyDownloadPrev(v) => v == vid
    case VerifyAttest(v, _) => v == vid
    case _ => false
  }

  predicate WithoutPublisher(actions: seq<Action>, pid: nat) {
    forall i :: 0 <= i < |actions| ==> !ActsForPublisher(actions[i], pid)
  }

  predicate WithoutVerifier(actions: seq<Action>, vid: nat) {
    forall i :: 0 <= i < |actions| ==> !ActsForVerifier(actions[i], vid)
  }

  function HeldByPublisher(w: World, pid: nat): Option<Publisher> {
    if pid in w.publishers then Some(w.publishers[pid]) else None
  }

  function HeldByVerifier(w: World, vid: nat): Option<Verifier> {
    if vid in w.verifiers then Some(w.verifiers[vid]) else None
  }

  lemma StepLeavesPublisher(sha: Sha, w: World, a: Action, pid: nat)
    requires !ActsForPublisher(a, pid)
    ensures HeldByPublisher(Step(sha, w, a), pid) == HeldByPublisher(w, pid)
  {
  }

  lemma StepLeavesVerifier(sha: Sha, w: World, a: Action, vid: nat)
    requires !ActsForVerifier(a, vid)
    ensures HeldByVerifier(Step(sha, w, a), vid) == HeldByVerifier(w, vid)
  {
  }

  lemma StepGrows(sha: Sha, w: World, a: Action)
    ensures Grows(w.store.rounds, Step(sha, w, a).store.rounds)
  {
  }

  lemma {:induction false} PublisherWaits(sha: Sha, w: World, actions: seq<Action>, pid: nat)
    requires WithoutPublisher(actions, pid)
    ensures HeldByPublisher(Run(sha, w, actions), pid) == HeldByPublisher(w, pid)
    decreases |actions|
  {
    if actions != [] {
      StepLeavesPublisher(sha, w, actions[0], pid);
      PublisherWaits(sha, Step(sha, w, actions[0]), actions[1..], pid);
    }
  }

  lemma {:induction false} VerifierWaits(sha: Sha, w: World, actions: seq<Action>, vid: nat)
    requires WithoutVerifier(actions, vid)
    ensures HeldByVerifier(Run(sha, w, actions), vid) == HeldByVerifier(w, vid)
    decreases |actions|
  {
    if actions != [] {
      StepLeavesVerifier(sha, w, actions[0], vid);
      VerifierWaits(sha, Step(sha, w, actions[0]), actions[1..], vid);
    }
  }

  lemma {:induction false} ObjectsStay(sha: Sha, w: World, actions: seq<Action>)
    ensures Grows(w.store.rounds, Run(sha, w, actions).store.rounds)
    decreases |actions|
  {
    if actions != [] {
      StepGrows(sha, w, actions[0]);
      ObjectsStay(sha, Step(sha, w, actions[0]), actions[1..]);
    }
  }

  /** A process takes its steps in order: a step whose turn it is not does nothing. */
  lemma OutOfTurn(sha: Sha, w: World, id: nat, request: Request, phaseOverride: Option<Phase>, text: string)
    ensures !(id in w.verifiers && w.verifiers[id].Downloaded?) ==> Step(sha, w, VerifyR1cs(id)) == w
    ensures !(id in w.verifiers && w.verifiers[id].R1csPassed?) ==> Step(sha, w, VerifyDownloadPrev(id)) == w
    ensures !(id in w.verifiers && w.verifiers[id].PrevDownloaded?) ==> Step(sha, w, VerifyAttest(id, text)) == w
    ensures !(id in w.publishers && w.publishers[id].HasRead?) ==>
      Step(sha, w, PublishCompute(id, request, phaseOverride)) == w
    ensures !(id in w.publishers && w.publishers[id].HasNext?) ==> Step(sha, w, PublishWrite(id, text)) == w
  {
  }

  // ----- Publishing -----

  function Last(w: World): Version
    requires w.store.log != []
  {
    w.store.log[|w.store.log| - 1]
  }

  /** A round's pending data: the minted name and profile, the attested hash and time. */
  predicate IsPending(w: World, round: int, meta: PendingRound) {
    && round >= 1 && round in w.pendingMeta && round in w.attestations
    && meta.name == w.pendingMeta[round].name && meta.profileUrl == w.pendingMeta[round].profileUrl
    && meta.sha256 == w.attestations[round].sha256 && meta.verifiedAt == w.attestations[round].verifiedAt
  }

  /** The command that a request stands for, with the pending files of w. */
  predicate Means(w: World, request: Request, command: Command) {
    match command
    case Round(round, meta, now) => round >= 0 && request == PublishRound(round, now) && IsPending(w, round, meta)
    case CircuitRound(circuit, round, meta) =>
      round >= 0 && request == PublishCircuitRound(circuit, round) && IsPending(w, round, meta)
    case Beacon(height, hash) => request == PublishBeacon(height, hash)
    case Finalize(sha) => request == PublishFinal(sha)
  }

  lemma MeansIsResolve(w: World, request: Request, command: Command)
    ensures Means(w, request, command) <==> Resolve(w, request) == Some(command)
  {
  }

  /** The request means this command, and body accepts it. */
  predicate Accepts(w: World, request: Request, phaseOverride: Option<Phase>, body: Status, command: Command) {
    Means(w, request, command) && Transform(body, Update(command, phaseOverride)).Ok?
  }

  /** The publisher that has read body, and computed the update of a request, if it could. */
  ghost predicate HasComputed(w: World, request: Request, phaseOverride: Option<Phase>, body: Status, etag: string,
                              p: Publisher) {
    if exists command :: Accepts(w, request, phaseOverride, body, command) then
      p.HasNext? && p.body == body && p.etag == etag && Means(w, request, p.update.command)
      && p.update.phaseOverride == phaseOverride && Transform(body, p.update) == Ok(p.next)
    else p == HasRead(body, etag)
  }

  lemma ComputeLaw(sha: Sha, w: World, pid: nat, request: Request, phaseOverride: Option<Phase>)
    requires pid in w.publishers && w.publishers[pid].HasRead?
    ensures var p, w' := w.publishers[pid], Step(sha, w, PublishCompute(pid, request, phaseOverride));
      pid in w'.publishers && HasComputed(w, request, phaseOverride, p.body, p.etag, w'.publishers[pid])
      && w'.store == w.store
  {
    forall command ensures Means(w, request, command) <==> Resolve(w, request) == Some(command) {
      MeansIsResolve(w, request, command);
    }
    var r := Resolve(w, request);
    if r.Some? { assert Accepts(w, request, phaseOverride, w.publishers[pid].body, r.value)
                   <==> Transform(w.publishers[pid].body, Update(r.value, phaseOverride)).Ok?; }
  }

  /** The conditional write extends the log by the transform of the current body if the tag read
      is still the current one, and does nothing otherwise. */
  lemma WriteLaw(sha: Sha, w: World, pid: nat, etag: string)
    requires Inv(sha, w) && pid in w.publishers && w.store.log != []
    ensures var p, after := w.publishers[pid], Step(sha, w, PublishWrite(pid, etag)).store;
      if p.HasNext? && p.etag == Last(w).etag then
        && Transform(Last(w).body, p.update).Ok? && after.rounds == w.store.rounds
        && after.log == w.store.log + [Version(Transform(Last(w).body, p.update).value, etag, Some(p.update))]
      else after == w.store
    ensures w.publishers[pid].HasNext? ==> Step(sha, w, PublishWrite(pid, etag)).publishers == w.publishers - {pid}
  {
    var p := w.publishers[pid];
    assert PublisherOk(sha, w.store, p);
    if p.etag == Last(w).etag { CurrentIsRead(sha, w.store, p); }
  }

  lemma CurrentIsRead(sha: Sha, store: Store, p: Publisher)
    requires PublisherOk(sha, store, p) && EtagsIdentify(store.log)
    requires store.log != [] && store.log[|store.log| - 1].etag == p.etag
    ensures store.log[|store.log| - 1].body == p.body
    ensures p.HasNext? ==> Transform(store.log[|store.log| - 1].body, p.update) == Ok(p.next)
  {
    var i :| 0 <= i < |store.log| && store.log[i].body == p.body && store.log[i].etag == p.etag;
  }

  /** What one attempt does to the log: it adds the version of this command or nothing. */
  ghost predicate Adds(log: seq<Version>, log': seq<Version>, update: Update, etag: string) {
    && log != [] && Transform(log[|log| - 1].body, update).Ok?
    && log' == log + [Version(Transform(log[|log| - 1].body, update).value, etag, Some(update))]
  }

  /** The store after an attempt: with the tag that was read still current, and a command that the
      request means and the read status accepts, the log gains its version; else nothing. */
  ghost predicate Lands(read: Version, w2: World, request: Request, phaseOverride: Option<Phase>, etag: string,
                        before: Store, after: Store) {
    if before.log == [] || before.log[|before.log| - 1].etag != read.etag then after == before
    else
      && (forall command :: Accepts(w2, request, phaseOverride, read.body, command) ==>
            after.rounds == before.rounds && Adds(before.log, after.log, Update(command, phaseOverride), etag))
      && ((forall command :: !Accepts(w2, request, phaseOverride, read.body, command)) ==> after == before)
  }

  lemma AfterReading(sha: Sha, w0: World, before: seq<Action>, pid: nat, w2: World)
    requires Inv(sha, w0) && w0.store.log != []
    requires var w1 := Step(sha, w0, PublishRead(pid));
      FairRun(sha, w1, before) && WithoutPublisher(before, pid) && w2 == Run(sha, w1, before)
    ensures Inv(sha, w2) && w2.store.log != [] && HeldByPublisher(w2, pid) == Some(HasRead(Last(w0).body, Last(w0).etag))
  {
    var w1 := Step(sha, w0, PublishRead(pid));
    StepKeeps(sha, w0, PublishRead(pid));
    RunKeeps(sha, w1, before);
    PublisherWaits(sha, w1, before, pid);
  }

  lemma AfterComputing(sha: Sha, w2: World, between: seq<Action>, pid: nat, request: Request,
                       phaseOverride: Option<Phase>, read: Version, w4: World) returns (p: Publisher)
    requires Inv(sha, w2) && w2.store.log != [] && HeldByPublisher(w2, pid) == Some(HasRead(read.body, read.etag))
    requires var w3 := Step(sha, w2, PublishCompute(pid, request, phaseOverride));
      FairRun(sha, w3, between) && WithoutPublisher(between, pid) && w4 == Run(sha, w3, between)
    ensures Inv(sha, w4) && w4.store.log != [] && HeldByPublisher(w4, pid) == Some(p)
    ensures HasComputed(w2, request, phaseOverride, read.body, read.etag, p)
  {
    var w3 := Step(sha, w2, PublishCompute(pid, request, phaseOverride));
    ComputeLaw(sha, w2, pid, request, phaseOverride);
    StepKeeps(sha, w2, PublishCompute(pid, request, phaseOverride));
    RunKeeps(sha, w3, between);
    PublisherWaits(sha, w3, between, pid);
    p := w3.publishers[pid];
  }

  lemma OneMeaning(w: World, request: Request, command: Command, command': Command)
    requires Means(w, request, command) && Means(w, request, command')
    ensures command == command'
  {
    MeansIsResolve(w, request, command);
    MeansIsResolve(w, request, command');
  }

  lemma AfterWriting(sha: Sha, w2: World, pid: nat, request: Request, phaseOverride: Option<Phase>, read: Version,
                     etag: string, p: Publisher, w4: World)
    requires Inv(sha, w4) && w4.store.log != [] && HeldByPublisher(w4, pid) == Some(p)
    requires HasComputed(w2, request, phaseOverride, read.body, read.etag, p)
    ensures Lands(read, w2, request, phaseOverride, etag, w4.store, Step(sha, w4, PublishWrite(pid, etag)).store)
  {
    var after := Step(sha, w4, PublishWrite(pid, etag)).store;
    WriteLaw(sha, w4, pid, etag);
    if Last(w4).etag == read.etag {
      forall command | Accepts(w2, request, phaseOverride, read.body, command)
        ensures after.rounds == w4.store.rounds && Adds(w4.store.log, after.log, Update(command, phaseOverride), etag)
      {
        OneMeaning(w2, request, command, p.update.command);
        assert p.update == Update(command, phaseOverride);
      }
    }
  }

  lemma LandsFrom(sha: Sha, w0: World, before: seq<Action>, between: seq<Action>, pid: nat,
                  request: Request, phaseOverride: Option<Phase>, etag: string, w2: World, w4: World)
    requires Inv(sha, w0) && w0.store.log != []
    requires var w1 := Step(sha, w0, PublishRead(pid));
      FairRun(sha, w1, before) && WithoutPublisher(before, pid) && w2 == Run(sha, w1, before)
    requires var w3 := Step(sha, w2, PublishCompute(pid, request, phaseOverride));
      FairRun(sha, w3, between) && WithoutPublisher(between, pid) && w4 == Run(sha, w3, between)
    ensures Lands(Last(w0), w2, request, phaseOverride, etag, w4.store, Step(sha, w4, PublishWrite(pid, etag)).store)
  {
    AfterReading(sha, w0, before, pid, w2);
    var p := AfterComputing(sha, w2, between, pid, request, phaseOverride, Last(w0), w4);
    AfterWriting(sha, w2, pid, request, phaseOverride, Last(w0), etag, p, w4);
  }

  /** A publisher reads, computes and writes, with any actions of the others in between, in any
      fair run: its publication lands exactly when its command is accepted and nobody changed the
      tag. What lands is the transform of the status that is current at the write. */
  lemma PublishLandsIff(sha: Sha, early: seq<Action>, before: seq<Action>, between: seq<Action>, pid: nat,
                        request: Request, phaseOverride: Option<Phase>, etag: string, w0: World, w2: World, w4: World)
    requires FairRun(sha, EMPTY, early) && w0 == Run(sha, EMPTY, early) && w0.store.log != []
    requires var w1 := Step(sha, w0, PublishRead(pid));
      FairRun(sha, w1, before) && WithoutPublisher(before, pid) && w2 == Run(sha, w1, before)
    requires var w3 := Step(sha, w2, PublishCompute(pid, request, phaseOverride));
      FairRun(sha, w3, between) && WithoutPublisher(between, pid) && w4 == Run(sha, w3, between)
    ensures Lands(Last(w0), w2, request, phaseOverride, etag, w4.store, Step(sha, w4, PublishWrite(pid, etag)).store)
  {
    RunKeeps(sha, EMPTY, early);
    LandsFrom(sha, w0, before, between, pid, request, phaseOverride, etag, w2, w4);
  }

  // ----- Uploading and verifying -----

  /** A round above 0 is minted and uploaded exactly when its key is free; otherwise nothing
      changes. Nobody uploads what was not minted. */
  lemma UploadLandsIff(sha: Sha, w: World, round: nat, meta: PendingMeta, zkey: Zkey)
    ensures round == 0 ==> Step(sha, w, Mint(round, meta)) == w
    ensures round !in w.pendingMeta ==> Step(sha, w, Upload(round, zkey)) == w
    ensures var after := Step(sha, Step(sha, w, Mint(round, meta)), Upload(round, zkey));
      && (round in w.store.rounds ==> after == w)
      && (round >= 1 && round !in w.store.rounds ==>
           after == w.(store := w.store.(rounds := w.store.rounds[round := zkey]), pendingMeta := w.pendingMeta[round := meta]))
  {
  }

  /** A verifier downloads, checks, downloads the previous round and attests, with any actions of
      the others in between. It attests the hash of what is stored exactly when that is verified,
      that is, consistent and one entry longer than the previous round. */
  lemma AttestsIff(sha: Sha, w0: World, vid: nat, round: nat, at: string,
                   g1: seq<Action>, g2: seq<Action>, g3: seq<Action>, w4: World, w6: World)
    requires round >= 1 && round in w0.store.rounds
    requires WithoutVerifier(g1, vid) && WithoutVerifier(g2, vid) && WithoutVerifier(g3, vid)
    requires var w2 := Run(sha, Step(sha, w0, VerifyDownload(vid, round)), g1);
      w4 == Run(sha, Step(sha, w2, VerifyR1cs(vid)), g2)
    requires w6 == Run(sha, Step(sha, w4, VerifyDownloadPrev(vid)), g3)
    ensures Step(sha, w6, VerifyAttest(vid, at)) ==
      if Verified(w4.store.rounds, round)
      then w6.(attestations := w6.attestations[round := Attestation(sha(w4.store.rounds[round]), at)]) else w6
  {
    var zkey := w0.store.rounds[round];
    var w1 := Step(sha, w0, VerifyDownload(vid, round));
    var w2 := Run(sha, w1, g1);
    VerifierWaits(sha, w1, g1, vid);
    ObjectsStay(sha, w1, g1);
    var w3 := Step(sha, w2, VerifyR1cs(vid));
    assert HeldByVerifier(w3, vid) == Some(if zkey.r1csConsistent then R1csPassed(round, zkey) else Downloaded(round, zkey));
    VerifierWaits(sha, w3, g2, vid);
    ObjectsStay(sha, w3, g2);
    PrevThenAttest(sha, w4, vid, round, zkey, at, g3);
  }

  lemma PrevThenAttest(sha: Sha, w4: World, vid: nat, round: nat, zkey: Zkey, at: string, g3: seq<Action>)
    requires round >= 1 && round in w4.store.rounds && w4.store.rounds[round] == zkey && WithoutVerifier(g3, vid)
    requires HeldByVerifier(w4, vid) == Some(if zkey.r1csConsistent then R1csPassed(round, zkey) else Downloaded(round, zkey))
    ensures var w6 := Run(sha, Step(sha, w4, VerifyDownloadPrev(vid)), g3);
      Step(sha, w6, VerifyAttest(vid, at)) ==
        if Verified(w4.store.rounds, round)
        then w6.(attestations := w6.attestations[round := Attestation(sha(zkey), at)]) else w6
  {
    var w5 := Step(sha, w4, VerifyDownloadPrev(vid));
    VerifierWaits(sha, w5, g3, vid);
  }

  // ----- From the bootstrap on -----

  /** The seed is stored if there is none; the first status if there is none, the seed is there,
      and at least one round is planned. */
  lemma BootstrapLandsIff(sha: Sha, w: World, zkey: Zkey, totalRounds: int, now: string, etag: string)
    ensures Step(sha, w, SeedRoundZero(zkey)) ==
      w.(store := w.store.(rounds := if 0 in w.store.rounds then w.store.rounds else w.store.rounds[0 := zkey]))
    ensures Step(sha, w, Bootstrap(totalRounds, now, etag)) ==
      if totalRounds >= 1 && 0 in w.store.rounds && w.store.log == []
      then w.(store := w.store.(log := [Version(InitialStatus(totalRounds, now), etag, None)])) else w
  {
  }

  lemma RunOne(sha: Sha, w: World, a: Action, rest: seq<Action>)
    ensures Run(sha, w, [a] + rest) == Run(sha, Step(sha, w, a), rest)
  {
    assert ([a] + rest)[1..] == rest;
  }

  lemma RunTwo(sha: Sha, w: World, a: Action, b: Action)
    ensures Run(sha, w, [a, b]) == Step(sha, Step(sha, w, a), b)
  {
    var w1 := Step(sha, w, a);
    RunOne(sha, w, a, [b]);
    RunOne(sha, w1, b, []);
    assert [a, b] == [a] + [b] && [b] == [b] + [];
  }

  lemma RunThree(sha: Sha, w: World, a: Action, b: Action, c: Action)
    ensures Run(sha, w, [a, b, c]) == Step(sha, Step(sha, Step(sha, w, a), b), c)
  {
    RunOne(sha, w, a, [b, c]);
    RunTwo(sha, Step(sha, w, a), b, c);
    assert [a, b, c] == [a] + [b, c];
  }

  lemma RunFour(sha: Sha, w: World, a: Action, b: Action, c: Action, d: Action)
    ensures Run(sha, w, [a, b, c, d]) == Step(sha, Step(sha, Step(sha, Step(sha, w, a), b), c), d)
  {
    RunOne(sha, w, a, [b, c, d]);
    RunThree(sha, Step(sha, w, a), b, c, d);
    assert [a, b, c, d] == [a] + [b, c, d];
  }

  /** The contribution, its verification, and the publication of a round. */
  function UploadRound(round: nat, meta: PendingMeta, zkey: Zkey): seq<Action> {
    [Mint(round, meta), Upload(round, zkey)]
  }

  function VerifyRound(vid: nat, round: nat, at: string): seq<Action> {
    [VerifyDownload(vid, round), VerifyR1cs(vid), VerifyDownloadPrev(vid), VerifyAttest(vid, at)]
  }

  function PublishRoundBy(pid: nat, round: nat, now: string, etag: string): seq<Action> {
    [PublishRead(pid), PublishCompute(pid, PublishRound(round, now), None), PublishWrite(pid, etag)]
  }

  lemma {:induction false} RunAppend(sha: Sha, w: World, a: seq<Action>, b: seq<Action>)
    ensures Run(sha, w, a + b) == Run(sha, Run(sha, w, a), b)
    decreases |a|
  {
    if a == [] {
      assert a + b == b;
    } else {
      var w1 := Step(sha, w, a[0]);
      RunAppend(sha, w1, a[1..], b);
      RunOne(sha, w, a[0], a[1..]);
      RunOne(sha, w, a[0], a[1..] + b);
      assert a == [a[0]] + a[1..] && a + b == [a[0]] + (a[1..] + b);
    }
  }

  lemma VerifyingLeaves(sha: Sha, w: World, a: Action)
    requires a.VerifyDownload? || a.VerifyR1cs? || a.VerifyDownloadPrev?
    ensures var w' := Step(sha, w, a);
      w'.store == w.store && w'.pendingMeta == w.pendingMeta && w'.attestations == w.attestations
  {
  }

  /** The world after a round was verified. */
  ghost predicate Attested(sha: Sha, w: World, round: nat, at: string, w': World) {
    && w'.store == w.store && w'.pendingMeta == w.pendingMeta
    && if Verified(w.store.rounds, round)
       then w'.attestations == w.attestations[round := Attestation(sha(w.store.rounds[round]), at)]
       else w'.attestations == w.attestations
  }

  lemma VerifiesRound(sha: Sha, w: World, vid: nat, round: nat, at: string)
    requires round >= 1 && round in w.store.rounds
    ensures Attested(sha, w, round, at, Run(sha, w, VerifyRound(vid, round, at)))
  {
    var w1 := Step(sha, w, VerifyDownload(vid, round));
    var w2 := Step(sha, w1, VerifyR1cs(vid));
    var w3 := Step(sha, w2, VerifyDownloadPrev(vid));
    VerifyingLeaves(sha, w, VerifyDownload(vid, round));
    VerifyingLeaves(sha, w1, VerifyR1cs(vid));
    VerifyingLeaves(sha, w2, VerifyDownloadPrev(vid));
    RunFour(sha, w, VerifyDownload(vid, round), VerifyR1cs(vid), VerifyDownloadPrev(vid), VerifyAttest(vid, at));
    AttestsIff(sha, w, vid, round, at, [], [], [], w2, w3);
  }

  lemma PublishesRound(sha: Sha, w: World, pid: nat, round: nat, now: string, etag: string, w1: World, w2: World)
    requires Inv(sha, w) && w.store.log != []
    requires w1 == Step(sha, w, PublishRead(pid)) && w2 == Step(sha, w1, PublishCompute(pid, PublishRound(round, now), None))
    ensures Lands(Last(w), w1, PublishRound(round, now), None, etag, w2.store,
                  Run(sha, w, PublishRoundBy(pid, round, now, etag)).store)
  {
    RunThree(sha, w, PublishRead(pid), PublishCompute(pid, PublishRound(round, now), None), PublishWrite(pid, etag));
    LandsFrom(sha, w, [], [], pid, PublishRound(round, now), None, etag, w1, w2);
  }

  /** The status after round k went through. */
  function WithRound(s: Status, k: nat, meta: PendingMeta, attested: string, at: string, now: string): Status {
    s.(round := k + 1, currentRoundOpenedAt := now,
       contributors := s.contributors + [Contributor(meta.name, k, meta.profileUrl, attested, at)],
       phase := if s.finalZkeySha256.Some? then Live else CeremonyLive)
  }

  /** The next round's key is free, and the round before it is there. */
  ghost predicate IsOpen(w: World, k: nat) {
    w.store.log != [] && k == Last(w).body.round && k >= 1 && k !in w.store.rounds && k - 1 in w.store.rounds
  }

  /** The pending files of round k after its upload and verification. */
  ghost predicate IsReviewed(sha: Sha, w: World, k: nat, meta: PendingMeta, zkey: Zkey, at: string, w': World)
    requires IsOpen(w, k)
  {
    && w'.store.log == w.store.log && k in w'.pendingMeta && w'.pendingMeta[k] == meta
    && if zkey.r1csConsistent && ChainVerified(w.store.rounds[k - 1], zkey)
       then k in w'.attestations && w'.attestations[k] == Attestation(sha(zkey), at) else k !in w'.attestations
  }

  lemma ReviewsRound(sha: Sha, w: World, k: nat, meta: PendingMeta, zkey: Zkey, vid: nat, at: string, w': World)
    requires Inv(sha, w) && IsOpen(w, k)
    requires w' == Run(sha, Run(sha, w, UploadRound(k, meta, zkey)), VerifyRound(vid, k, at))
    ensures IsReviewed(sha, w, k, meta, zkey, at, w')
  {
    var w1 := Run(sha, w, UploadRound(k, meta, zkey));
    RunTwo(sha, w, Mint(k, meta), Upload(k, zkey));
    UploadLandsIff(sha, w, k, meta, zkey);
    VerifiesRound(sha, w1, vid, k, at);
    assert k in w.attestations ==> AttestationOk(sha, w.store.rounds, k, w.attestations[k]);
  }

  lemma {:induction false} FairWithoutWrites(sha: Sha, w: World, actions: seq<Action>)
    requires forall i :: 0 <= i < |actions| ==> !actions[i].PublishWrite?
    ensures FairRun(sha, w, actions)
    decreases |actions|
  {
    if actions != [] { FairWithoutWrites(sha, Step(sha, w, actions[0]), actions[1..]); }
  }

  lemma ReviewKeeps(sha: Sha, w: World, k: nat, meta: PendingMeta, zkey: Zkey, vid: nat, at: string)
    requires Inv(sha, w)
    ensures Inv(sha, Run(sha, Run(sha, w, UploadRound(k, meta, zkey)), VerifyRound(vid, k, at)))
  {
    var w1 := Run(sha, w, UploadRound(k, meta, zkey));
    FairWithoutWrites(sha, w, UploadRound(k, meta, zkey));
    RunKeeps(sha, w, UploadRound(k, meta, zkey));
    FairWithoutWrites(sha, w1, VerifyRound(vid, k, at));
    RunKeeps(sha, w1, VerifyRound(vid, k, at));
  }

  /** The log after a version of round k was added to it. */
  ghost predicate GainsRound(log: seq<Version>, log': seq<Version>, next: Status, etag: string) {
    && |log'| == |log| + 1 && log'[..|log|] == log
    && log'[|log|].body == next && log'[|log|].etag == etag
  }

  lemma AddsRound(s: Status, k: nat, meta: PendingMeta, attested: string, at: string, now: string, etag: string,
                  log: seq<Version>, log': seq<Version>)
    requires Consistent(s) && k == s.round && log != [] && log[|log| - 1].body == s
    requires var pending := PendingRound(meta.name, meta.profileUrl, attested, at);
      Adds(log, log', Update(Round(k, pending, now), None), etag)
    ensures GainsRound(log, log', WithRound(s, k, meta, attested, at, now), etag)
  {
    var pending := PendingRound(meta.name, meta.profileUrl, attested, at);
    RoundAcceptedIffNext(s, k, pending, now);
    PublicationIs(s, Update(Round(k, pending, now), None));
  }

  lemma PublishingLeaves(sha: Sha, w: World, a: Action)
    requires a.PublishRead? || a.PublishCompute?
    ensures var w' := Step(sha, w, a);
      w'.store == w.store && w'.pendingMeta == w.pendingMeta && w'.attestations == w.attestations
  {
  }

  lemma PublishesReviewed(sha: Sha, w: World, w2: World, k: nat, meta: PendingMeta, zkey: Zkey, at: string,
                          pid: nat, now: string, etag: string)
    requires IsOpen(w, k) && Inv(sha, w2) && IsReviewed(sha, w, k, meta, zkey, at, w2)
    ensures var log, log' := w.store.log, Run(sha, w2, PublishRoundBy(pid, k, now, etag)).store.log;
      if zkey.r1csConsistent && ChainVerified(w.store.rounds[k - 1], zkey)
      then GainsRound(log, log', WithRound(Last(w).body, k, meta, sha(zkey), at, now), etag) else log' == log
  {
    var s, request := Last(w).body, PublishRound(k, now);
    var w3 := Step(sha, w2, PublishRead(pid));
    var w4 := Step(sha, w3, PublishCompute(pid, request, None));
    var log' := Run(sha, w2, PublishRoundBy(pid, k, now, etag)).store.log;
    PublishesRound(sha, w2, pid, k, now, etag, w3, w4);
    PublishingLeaves(sha, w2, PublishRead(pid));
    PublishingLeaves(sha, w3, PublishCompute(pid, request, None));
    assert StatusOk(sha, w2.store.rounds, s);
    if zkey.r1csConsistent && ChainVerified(w.store.rounds[k - 1], zkey) {
      var pending := PendingRound(meta.name, meta.profileUrl, sha(zkey), at);
      RoundAcceptedIffNext(s, k, pending, now);
      assert Accepts(w3, request, None, s, Round(k, pending, now));
      AddsRound(s, k, meta, sha(zkey), at, now, etag, w.store.log, log');
    }
  }

  /** In every fair run, if the next round's key is free and somebody mints it, uploads a file,
      verifies and publishes: the published status gains exactly that contributor, with the
      minted name and profile, the hash of the file and the time of its attestation, if and only
      if the file is consistent and extends the previous round; otherwise no status is stored. */
  lemma RoundGoesThroughIff(sha: Sha, early: seq<Action>, meta: PendingMeta, zkey: Zkey, vid: nat, at: string,
                            pid: nat, now: string, etag: string, w: World, k: nat)
    requires FairRun(sha, EMPTY, early) && w == Run(sha, EMPTY, early) && IsOpen(w, k)
    ensures var actions := UploadRound(k, meta, zkey) + VerifyRound(vid, k, at) + PublishRoundBy(pid, k, now, etag);
      var log, log' := w.store.log, Run(sha, w, actions).store.log;
      if zkey.r1csConsistent && ChainVerified(w.store.rounds[k - 1], zkey)
      then GainsRound(log, log', WithRound(Last(w).body, k, meta, sha(zkey), at, now), etag) else log' == log
  {
    RunKeeps(sha, EMPTY, early);
    var upload, verify, publish := UploadRound(k, meta, zkey), VerifyRound(vid, k, at), PublishRoundBy(pid, k, now, etag);
    var w2 := Run(sha, Run(sha, w, upload), verify);
    ReviewsRound(sha, w, k, meta, zkey, vid, at, w2);
    ReviewKeeps(sha, w, k, meta, zkey, vid, at);
    PublishesReviewed(sha, w, w2, k, meta, zkey, at, pid, now, etag);
    RunAppend(sha, w, upload + verify, publish);
    RunAppend(sha, w, upload, verify);
  }
}
