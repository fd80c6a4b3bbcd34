/** The public ceremony status and its updates: scripts/ceremony-coord/src/types.ts and the
    transforms of scripts/ceremony-coord/scripts/publish-status.ts. */
module CeremonyStatus {
  import opened Results

  datatype Phase = Recruiting | CeremonyLive | Live
  datatype Circuit = V53Identity | V54AgeDiiaUa

  datatype Contributor = Contributor(name: string, round: int, profileUrl: Option<string>,
                                     attestation: string, completedAt: string)

  /** finalZkeySha256 is absent, null or a string. */
  datatype CircuitState = CircuitState(round: int, lastContributor: Option<string>, lastContributedAt: Option<string>,
                                       finalZkeySha256: Option<Option<string>>)

  datatype Status = Status(round: int, totalRounds: int, contributors: seq<Contributor>, currentRoundOpenedAt: string,
                           finalZkeySha256: Option<string>, beaconBlockHeight: Option<int>, beaconHash: Option<string>,
                           phase: Phase, circuits: Option<map<Circuit, CircuitState>>)

  datatype UpdateError = AlreadyInChain | UnexpectedRound | RoundBelowOne | ChainIncomplete | BeaconNotApplied

  /** What the pending files say about a verified round. */
  datatype PendingRound = PendingRound(name: string, profileUrl: Option<string>, sha256: string, verifiedAt: string)

  /** One invocation of publish-status, with the pending files read and the clock sampled. */
  datatype Command =
    | Round(round: int, meta: PendingRound, now: string)
    | CircuitRound(circuit: Circuit, circuitRound: int, circuitMeta: PendingRound)
    | Beacon(height: int, hash: string)
    | Finalize(finalSha: string)

  datatype Update = Update(command: Command, phaseOverride: Option<Phase>)

  // ----- Transforms -----

  function InitialStatus(totalRounds: int, now: string): Status {
    Status(1, totalRounds, [], now, None, None, None, Recruiting, None)
  }

  predicate HasRound(contributors: seq<Contributor>, round: int) {
    exists i :: 0 <= i < |contributors| && contributors[i].round == round
  }

  function ApplyRoundUpdate(current: Status, round: int, meta: PendingRound, now: string): Result<Status, UpdateError> {
    var entry := Contributor(meta.name, round, meta.profileUrl, meta.sha256, meta.verifiedAt);
    if HasRound(current.contributors, round) then Err(AlreadyInChain)
    else if round != current.round then Err(UnexpectedRound)
    else Ok(current.(round := round + 1, contributors := current.contributors + [entry], currentRoundOpenedAt := now))
  }

  function CircuitMap(current: Status): map<Circuit, CircuitState> {
    match current.circuits case None => map[] case Some(m) => m
  }

  function ApplyCircuitUpdate(current: Status, circuit: Circuit, round: int, contributor: string, contributedAt: string):
    Result<Status, UpdateError>
  {
    var prevMap := CircuitMap(current);
    var expectedRound := if circuit in prevMap then prevMap[circuit].round + 1 else 1;
    if round < 1 then Err(RoundBelowOne)
    else if round != expectedRound then Err(UnexpectedRound)
    else
      var final := if circuit in prevMap then prevMap[circuit].finalZkeySha256 else None;
      Ok(current.(circuits := Some(prevMap[circuit := CircuitState(round, Some(contributor), Some(contributedAt), final)])))
  }

  function ApplyBeacon(current: Status, height: int, hash: string): Result<Status, UpdateError> {
    if |current.contributors| < current.totalRounds then Err(ChainIncomplete)
    else Ok(current.(beaconBlockHeight := Some(height), beaconHash := Some(hash)))
  }

  function ApplyFinalize(current: Status, finalSha: string): Result<Status, UpdateError> {
    if current.beaconBlockHeight == None then Err(BeaconNotApplied)
    else Ok(current.(finalZkeySha256 := Some(finalSha)))
  }

  function ApplyCommand(current: Status, command: Command): Result<Status, UpdateError> {
    match command
    case Round(round, meta, now) => ApplyRoundUpdate(current, round, meta, now)
    case CircuitRound(circuit, round, meta) => ApplyCircuitUpdate(current, circuit, round, meta.name, meta.verifiedAt)
    case Beacon(height, hash) => ApplyBeacon(current, height, hash)
    case Finalize(sha) => ApplyFinalize(current, sha)
  }

  function DerivePhase(s: Status): Phase {
    if s.finalZkeySha256 != None then Live
    else if s.round >= 1 then CeremonyLive
    else Recruiting
  }

  datatype CeremonyState = Planned | InProgress | Complete

  function DeriveCeremonyState(s: Status): CeremonyState {
    if s.finalZkeySha256 != None then Complete
    else if s.round >= 1 && |s.contributors| > 0 then InProgress
    else Planned
  }

  /** The read-transform part of publish-status: the command, then the phase. */
  function Transform(current: Status, update: Update): Result<Status, UpdateError> {
    match ApplyCommand(current, update.command)
    case Err(e) => Err(e)
    case Ok(next) =>
      Ok(next.(phase := match update.phaseOverride case Some(p) => p case None => DerivePhase(next)))
  }

  // ----- What every reachable status keeps -----

  ghost predicate RoundsInOrder(contributors: seq<Contributor>) {
    forall i :: 0 <= i < |contributors| ==> contributors[i].round == i + 1
  }

  ghost predicate Consistent(s: Status) {
    && s.round == |s.contributors| + 1
    && RoundsInOrder(s.contributors)
    && (s.beaconBlockHeight == None <==> s.beaconHash == None)
    && (s.beaconBlockHeight != None ==> |s.contributors| >= s.totalRounds)
    && (s.finalZkeySha256 != None ==> s.beaconBlockHeight != None)
    && (forall c :: c in CircuitMap(s) ==> CircuitMap(s)[c].round >= 1)
  }

  /** The bootstrap status is consistent, and nothing has happened in it. */
  lemma InitialConsistent(totalRounds: int, now: string)
    ensures var s := InitialStatus(totalRounds, now);
      && Consistent(s) && s.contributors == [] && s.totalRounds == totalRounds && s.currentRoundOpenedAt == now
      && s.beaconHash == None && s.finalZkeySha256 == None && CircuitMap(s) == map[]
      && s.phase == Recruiting && DeriveCeremonyState(s) == Planned
  {
  }

  /** One update keeps the status consistent, never shortens or rewrites the contributor list,
      and never takes back the beacon or the final hash. */
  lemma TransformKeeps(s: Status, update: Update)
    requires Consistent(s) && Transform(s, update).Ok?
    ensures var t := Transform(s, update).value;
      && Consistent(t) && t.totalRounds == s.totalRounds
      && s.contributors <= t.contributors
      && (s.beaconBlockHeight != None ==> t.beaconBlockHeight != None)
      && (s.finalZkeySha256 != None ==> t.finalZkeySha256 != None)
  {
    var t := Transform(s, update).value;
    forall c | c in CircuitMap(t) ensures CircuitMap(t)[c].round >= 1 {
      assert c in CircuitMap(s) ==> CircuitMap(s)[c].round >= 1;
    }
  }

  /** The status after an update; a refused one leaves it alone. */
  function After(s: Status, update: Update): Status {
    match Transform(s, update) case Err(_) => s case Ok(t) => t
  }

  /** Updates one after the other. */
  function Replay(s: Status, updates: seq<Update>): Status {
    if updates == [] then s else After(Replay(s, updates[..|updates| - 1]), updates[|updates| - 1])
  }

  lemma {:induction false} ReachableConsistent(totalRounds: int, now: string, updates: seq<Update>)
    ensures Consistent(Replay(InitialStatus(totalRounds, now), updates))
  {
    if updates != [] {
      ReachableConsistent(totalRounds, now, updates[..|updates| - 1]);
      var before := Replay(InitialStatus(totalRounds, now), updates[..|updates| - 1]);
      var last := updates[|updates| - 1];
      if Transform(before, last).Ok? { TransformKeeps(before, last); }
    }
  }

  // ----- When a command is accepted, and what it changes -----

  /** A round can be published exactly when it is the next one, and only once. */
  lemma RoundAcceptedIffNext(s: Status, round: int, meta: PendingRound, now: string)
    requires Consistent(s)
    ensures ApplyCommand(s, Round(round, meta, now)).Ok? <==> round == |s.contributors| + 1
    ensures 1 <= round <= |s.contributors| ==> ApplyCommand(s, Round(round, meta, now)) == Err(AlreadyInChain)
    ensures round < 1 || round > |s.contributors| + 1 ==> ApplyCommand(s, Round(round, meta, now)) == Err(UnexpectedRound)
    ensures round == |s.contributors| + 1 ==>
      var t := ApplyCommand(s, Round(round, meta, now)).value;
      && t == s.(round := round + 1, contributors := t.contributors, currentRoundOpenedAt := now)
      && |t.contributors| == round && t.contributors[..round - 1] == s.contributors
      && t.contributors[round - 1] == Contributor(meta.name, round, meta.profileUrl, meta.sha256, meta.verifiedAt)
  {
    if 1 <= round <= |s.contributors| {
      assert s.contributors[round - 1].round == round;
    }
  }

  /** The round up to which a circuit has come. */
  function CircuitRoundOf(s: Status, circuit: Circuit): int {
    if circuit in CircuitMap(s) then CircuitMap(s)[circuit].round else 0
  }

  /** A circuit's round can be published exactly when it is that circuit's next one. */
  lemma CircuitAcceptedIffNext(s: Status, circuit: Circuit, round: int, meta: PendingRound)
    requires Consistent(s)
    ensures ApplyCommand(s, CircuitRound(circuit, round, meta)).Ok? <==> round == CircuitRoundOf(s, circuit) + 1
    ensures round < 1 ==> ApplyCommand(s, CircuitRound(circuit, round, meta)) == Err(RoundBelowOne)
    ensures round >= 1 && round != CircuitRoundOf(s, circuit) + 1 ==>
      ApplyCommand(s, CircuitRound(circuit, round, meta)) == Err(UnexpectedRound)
  {
    if circuit in CircuitMap(s) { assert CircuitMap(s)[circuit].round >= 1; }
  }

  /** The beacon is accepted exactly on a complete chain, and sets its height and hash. */
  lemma BeaconAcceptedIffComplete(s: Status, height: int, hash: string)
    ensures ApplyCommand(s, Beacon(height, hash)).Ok? <==> |s.contributors| >= s.totalRounds
    ensures |s.contributors| < s.totalRounds ==> ApplyCommand(s, Beacon(height, hash)) == Err(ChainIncomplete)
    ensures |s.contributors| >= s.totalRounds ==>
      var t := ApplyCommand(s, Beacon(height, hash)).value;
      && t.beaconBlockHeight == Some(height) && t.beaconHash == Some(hash)
      && t.(beaconBlockHeight := s.beaconBlockHeight, beaconHash := s.beaconHash) == s
  {
  }

  /** The final hash is accepted exactly after the beacon, and is all that changes. */
  lemma FinalizeAcceptedIffBeacon(s: Status, sha: string)
    requires Consistent(s)
    ensures ApplyCommand(s, Finalize(sha)).Ok? <==> s.beaconHash != None
    ensures s.beaconHash == None ==> ApplyCommand(s, Finalize(sha)) == Err(BeaconNotApplied)
    ensures s.beaconHash != None ==>
      var t := ApplyCommand(s, Finalize(sha)).value;
      t.finalZkeySha256 == Some(sha) && t.(finalZkeySha256 := s.finalZkeySha256) == s
  {
  }

  /** A publication is the command, and then the phase: the override, or else live exactly with
      a final hash. */
  lemma PublicationIs(s: Status, update: Update)
    requires Consistent(s)
    ensures Transform(s, update).Ok? <==> ApplyCommand(s, update.command).Ok?
    ensures Transform(s, update).Err? ==> Transform(s, update) == ApplyCommand(s, update.command)
    ensures Transform(s, update).Ok? ==>
      var t, u := Transform(s, update).value, ApplyCommand(s, update.command).value;
      && t.(phase := u.phase) == u
      && t.phase == if update.phaseOverride.Some? then update.phaseOverride.value
                    else if t.finalZkeySha256.Some? then Live else CeremonyLive
  {
    if Transform(s, update).Ok? { TransformKeeps(s, update); }
  }

  // ----- Where published values come from -----

  /** The last of the updates that is a beacon is this one. */
  ghost predicate LastBeacon(updates: seq<Update>, height: int, hash: string) {
    exists i :: 0 <= i < |updates| && updates[i].command == Beacon(height, hash)
      && forall j :: i < j < |updates| ==> !updates[j].command.Beacon?
  }

  ghost predicate LastFinalize(updates: seq<Update>, sha: string) {
    exists i :: 0 <= i < |updates| && updates[i].command == Finalize(sha)
      && forall j :: i < j < |updates| ==> !updates[j].command.Finalize?
  }

  /** Contributor k was published by one of the updates as round k, with that round's data. */
  ghost predicate FromRound(updates: seq<Update>, c: Contributor, k: int) {
    exists i :: 0 <= i < |updates| && updates[i].command.Round? && updates[i].command.round == k
      && var meta := updates[i].command.meta;
         c == Contributor(meta.name, k, meta.profileUrl, meta.sha256, meta.verifiedAt)
  }

  ghost predicate FromUpdates(s: Status, updates: seq<Update>) {
    && (s.beaconHash.Some? ==> s.beaconBlockHeight.Some? && LastBeacon(updates, s.beaconBlockHeight.value, s.beaconHash.value))
    && (s.finalZkeySha256.Some? ==> LastFinalize(updates, s.finalZkeySha256.value))
    && forall k :: 0 <= k < |s.contributors| ==> FromRound(updates, s.contributors[k], k + 1)
  }

  /** Of every run from the bootstrap, whatever was refused in it: the beacon is that of the last
      beacon update, the final hash that of the last finalizing one, and each contributor that
      of a round update with its number. */
  lemma {:induction false} PublishedFromUpdates(totalRounds: int, now: string, updates: seq<Update>)
    ensures FromUpdates(Replay(InitialStatus(totalRounds, now), updates), updates)
  {
    if updates != [] {
      var front, last := updates[..|updates| - 1], updates[|updates| - 1];
      PublishedFromUpdates(totalRounds, now, front);
      ReachableConsistent(totalRounds, now, front);
      var before := Replay(InitialStatus(totalRounds, now), front);
      assert updates == front + [last];
      BeaconFrom(before, front, last);
      FinalFrom(before, front, last);
      RoundsFrom(before, front, last);
    }
  }

  lemma BeaconFrom(s: Status, front: seq<Update>, last: Update)
    requires Consistent(s) && FromUpdates(s, front)
    ensures var t := After(s, last);
      t.beaconHash.Some? ==>
        t.beaconBlockHeight.Some? && LastBeacon(front + [last], t.beaconBlockHeight.value, t.beaconHash.value)
  {
    var all := front + [last];
    if last.command.Beacon? {
      BeaconAcceptedIffComplete(s, last.command.height, last.command.hash);
      assert all[|front|].command == last.command;
    } else if s.beaconHash.Some? {
      var i :| 0 <= i < |front| && front[i].command == Beacon(s.beaconBlockHeight.value, s.beaconHash.value)
        && forall j :: i < j < |front| ==> !front[j].command.Beacon?;
      assert all[i] == front[i];
    }
  }

  lemma FinalFrom(s: Status, front: seq<Update>, last: Update)
    requires Consistent(s) && FromUpdates(s, front)
    ensures var t := After(s, last);
      t.finalZkeySha256.Some? ==> LastFinalize(front + [last], t.finalZkeySha256.value)
  {
    var all := front + [last];
    if last.command.Finalize? {
      FinalizeAcceptedIffBeacon(s, last.command.finalSha);
      assert all[|front|].command == last.command;
    } else if s.finalZkeySha256.Some? {
      var i :| 0 <= i < |front| && front[i].command == Finalize(s.finalZkeySha256.value)
        && forall j :: i < j < |front| ==> !front[j].command.Finalize?;
      assert all[i] == front[i];
    }
  }

  lemma RoundsFrom(s: Status, front: seq<Update>, last: Update)
    requires Consistent(s) && FromUpdates(s, front)
    ensures var t := After(s, last);
      forall k :: 0 <= k < |t.contributors| ==> FromRound(front + [last], t.contributors[k], k + 1)
  {
    var all, t := front + [last], After(s, last);
    forall k | 0 <= k < |t.contributors| ensures FromRound(all, t.contributors[k], k + 1) {
      if k < |s.contributors| {
        assert t.contributors[k] == s.contributors[k] && FromRound(front, s.contributors[k], k + 1);
        FromEarlier(front, last, s.contributors[k], k + 1);
      } else {
        assert all[|front|].command == last.command;
      }
    }
  }

  lemma FromEarlier(front: seq<Update>, last: Update, c: Contributor, k: int)
    requires FromRound(front, c, k)
    ensures FromRound(front + [last], c, k)
  {
    var all := front + [last];
    var i :| 0 <= i < |front| && front[i].command.Round? && front[i].command.round == k
      && var meta := front[i].command.meta;
         c == Contributor(meta.name, k, meta.profileUrl, meta.sha256, meta.verifiedAt);
    assert all[i] == front[i];
  }

  // ----- Phase -----

  function Rank(p: Phase): nat {
    match p case Recruiting => 0 case CeremonyLive => 1 case Live => 2
  }

  /** The phase moves backwards exactly when an override asks for a lower one, or when there is
      no override, the phase is live without a final hash, and the update does not finalize. */
  lemma PhaseBackwardsIff(s: Status, update: Update)
    requires Consistent(s) && Transform(s, update).Ok?
    ensures Rank(Transform(s, update).value.phase) < Rank(s.phase)
            <==> if update.phaseOverride.Some? then Rank(update.phaseOverride.value) < Rank(s.phase)
                 else s.phase == Live && s.finalZkeySha256 == None && !update.command.Finalize?
  {
  }

  /** Both happen on reachable statuses: round 1 put to live by an override falls back with a
      plain round 2, and a plain round 1 falls back to recruiting with an override. */
  lemma PhaseFallsBack(totalRounds: int, now: string, first: PendingRound, second: PendingRound)
    ensures var init := InitialStatus(totalRounds, now);
      var early, plain := Update(Round(1, first, now), Some(Live)), Update(Round(2, second, now), None);
      Replay(init, [early]).phase == Live && Replay(init, [early, plain]).phase == CeremonyLive
    ensures var init := InitialStatus(totalRounds, now);
      var plain, back := Update(Round(1, first, now), None), Update(Round(2, second, now), Some(Recruiting));
      Replay(init, [plain]).phase == CeremonyLive && Replay(init, [plain, back]).phase == Recruiting
  {
    var init := InitialStatus(totalRounds, now);
    ReplayTwo(init, Update(Round(1, first, now), Some(Live)), Update(Round(2, second, now), None));
    ReplayTwo(init, Update(Round(1, first, now), None), Update(Round(2, second, now), Some(Recruiting)));
  }

  lemma ReplayTwo(s: Status, u: Update, v: Update)
    ensures Replay(s, [u]) == After(s, u) && Replay(s, [u, v]) == After(After(s, u), v)
  {
    assert [u][..0] == [] && [u, v][..1] == [u];
  }

  ghost predicate NoOverrides(updates: seq<Update>) {
    forall i :: 0 <= i < |updates| ==> updates[i].phaseOverride == None
  }

  lemma {:induction false} LiveMeansFinal(totalRounds: int, now: string, updates: seq<Update>)
    requires NoOverrides(updates)
    ensures var s := Replay(InitialStatus(totalRounds, now), updates);
      (s.phase == Live <==> s.finalZkeySha256 != None) && (s.phase == Recruiting ==> s.contributors == [])
  {
    if updates != [] {
      var front, last := updates[..|updates| - 1], updates[|updates| - 1];
      LiveMeansFinal(totalRounds, now, front);
      ReachableConsistent(totalRounds, now, front);
      var before := Replay(InitialStatus(totalRounds, now), front);
      assert last.phaseOverride == None;
      if Transform(before, last).Ok? { TransformKeeps(before, last); }
    }
  }

  /** What is derived from any status, consistent or not, and what that comes to in a consistent
      one: complete with a final hash, in progress with contributors and without it. */
  lemma DerivedIs(s: Status)
    ensures DerivePhase(s) == Live <==> s.finalZkeySha256.Some?
    ensures DerivePhase(s) == Recruiting <==> s.finalZkeySha256.None? && s.round < 1
    ensures DeriveCeremonyState(s) == Complete <==> s.finalZkeySha256.Some?
    ensures DeriveCeremonyState(s) == InProgress <==> s.finalZkeySha256.None? && s.round >= 1 && s.contributors != []
    ensures Consistent(s) ==> DerivePhase(s) != Recruiting
    ensures Consistent(s) ==> (DeriveCeremonyState(s) == Planned <==> s.finalZkeySha256.None? && s.contributors == [])
  {
  }

  /** Without overrides the derived ceremony state agrees with the stored phase: complete is
      live, in progress is never recruiting or live, and recruiting is planned. */
  lemma StateAgreesWithPhase(totalRounds: int, now: string, updates: seq<Update>)
    requires NoOverrides(updates)
    ensures var s := Replay(InitialStatus(totalRounds, now), updates);
      var state := DeriveCeremonyState(s);
      && (state == Complete <==> s.phase == Live)
      && (state == InProgress ==> s.phase == CeremonyLive)
      && (s.phase == Recruiting ==> state == Planned)
  {
    LiveMeansFinal(totalRounds, now, updates);
    ReachableConsistent(totalRounds, now, updates);
  }

  /** In a run without overrides the phase never moves backwards. */
  lemma {:induction false} PhaseMonotone(totalRounds: int, now: string, updates: seq<Update>, n: nat)
    requires NoOverrides(updates) && n <= |updates|
    ensures Rank(Replay(InitialStatus(totalRounds, now), updates[..n]).phase)
            <= Rank(Replay(InitialStatus(totalRounds, now), updates).phase)
    decreases |updates| - n
  {
    if n == |updates| {
      assert updates[..n] == updates;
    } else {
      var init := InitialStatus(totalRounds, now);
      var front, next := updates[..n], updates[..n + 1];
      assert next[..|next| - 1] == front && next[|next| - 1] == updates[n];
      LiveMeansFinal(totalRounds, now, front);
      ReachableConsistent(totalRounds, now, front);
      PhaseStep(Replay(init, front), updates[n]);
      PhaseMonotone(totalRounds, now, updates, n + 1);
    }
  }

  lemma PhaseStep(s: Status, update: Update)
    requires Consistent(s) && update.phaseOverride == None && (s.phase == Live ==> s.finalZkeySha256 != None)
    ensures var r := Transform(s, update);
      r.Ok? ==> Rank(s.phase) <= Rank(r.value.phase)
  {
    if Transform(s, update).Ok? { PhaseBackwardsIff(s, update); }
  }

  // ----- Circuits -----

  function Then(r: Result<Status, UpdateError>, command: Command): Result<Status, UpdateError> {
    match r case Err(e) => Err(e) case Ok(s) => ApplyCommand(s, command)
  }

  predicate SameOutcome(a: Result<Status, UpdateError>, b: Result<Status, UpdateError>) {
    (a.Ok? <==> b.Ok?) && (a.Ok? ==> a.value == b.value)
  }

  /** Updates to different circuits commute. */
  lemma CircuitsCommute(s: Status, a: Command, b: Command)
    requires a.CircuitRound? && b.CircuitRound? && a.circuit != b.circuit
    ensures SameOutcome(Then(ApplyCommand(s, a), b), Then(ApplyCommand(s, b), a))
  {
    var m := CircuitMap(s);
    var ra, rb := ApplyCommand(s, a), ApplyCommand(s, b);
    if ra.Ok? && rb.Ok? {
      var x, y := CircuitMap(ra.value)[a.circuit], CircuitMap(rb.value)[b.circuit];
      assert m[a.circuit := x][b.circuit := y] == m[b.circuit := y][a.circuit := x];
    }
  }

  /** A circuit update and an update of the top-level fields commute. */
  lemma CircuitAndGlobalCommute(s: Status, a: Command, b: Command)
    requires a.CircuitRound? && !b.CircuitRound?
    ensures SameOutcome(Then(ApplyCommand(s, a), b), Then(ApplyCommand(s, b), a))
  {
  }

  function ThenTransform(r: Result<Status, UpdateError>, update: Update): Result<Status, UpdateError> {
    match r case Err(e) => Err(e) case Ok(s) => Transform(s, update)
  }

  predicate OnDifferentParts(a: Command, b: Command) {
    a.CircuitRound? && (!b.CircuitRound? || a.circuit != b.circuit)
  }

  /** Whole publications commute too, the phase included, if both give the same override or none. */
  lemma PublicationsCommute(s: Status, u: Update, v: Update)
    requires OnDifferentParts(u.command, v.command) && u.phaseOverride == v.phaseOverride
    ensures SameOutcome(ThenTransform(Transform(s, u), v), ThenTransform(Transform(s, v), u))
  {
    var a, b := u.command, v.command;
    if b.CircuitRound? { CircuitsCommute(s, a, b); } else { CircuitAndGlobalCommute(s, a, b); }
    PhaseLast(s, u, v);
    PhaseLast(s, v, u);
  }

  /** The commands do not read the phase, so the last update alone decides it. */
  lemma PhaseLast(s: Status, u: Update, v: Update)
    ensures ThenTransform(Transform(s, u), v)
      == WithPhase(Then(ApplyCommand(s, u.command), v.command), v.phaseOverride)
  {
    var r := ApplyCommand(s, u.command);
    if r.Ok? {
      var t := Transform(s, u).value;
      assert t == r.value.(phase := t.phase);
      IgnoresPhase(r.value, t.phase, v.command);
    }
  }

  function WithPhase(r: Result<Status, UpdateError>, phaseOverride: Option<Phase>): Result<Status, UpdateError> {
    match r
    case Err(e) => Err(e)
    case Ok(s) => Ok(s.(phase := if phaseOverride.Some? then phaseOverride.value else DerivePhase(s)))
  }

  lemma IgnoresPhase(s: Status, p: Phase, command: Command)
    ensures var r, r' := ApplyCommand(s, command), ApplyCommand(s.(phase := p), command);
      if r.Ok? then r'.Ok? && r'.value == r.value.(phase := p) else r' == r
  {
  }

  /** A circuit update advances its own counter by one and touches nothing else. */
  lemma CircuitIsolated(s: Status, command: Command)
    requires command.CircuitRound? && ApplyCommand(s, command).Ok?
    ensures var t := ApplyCommand(s, command).value;
      && t.(circuits := s.circuits) == s
      && CircuitMap(t).Keys == CircuitMap(s).Keys + {command.circuit}
      && (forall c :: c in CircuitMap(s) && c != command.circuit ==> CircuitMap(t)[c] == CircuitMap(s)[c])
      && CircuitMap(t)[command.circuit].lastContributor == Some(command.circuitMeta.name)
      && CircuitMap(t)[command.circuit].lastContributedAt == Some(command.circuitMeta.verifiedAt)
      && CircuitMap(t)[command.circuit].round ==
         (if command.circuit in CircuitMap(s) then CircuitMap(s)[command.circuit].round else 0) + 1
      && (command.circuit in CircuitMap(s) ==>
            CircuitMap(t)[command.circuit].finalZkeySha256 == CircuitMap(s)[command.circuit].finalZkeySha256)
  {
  }
}
