/** The ceremony coordinator as a transition system: a shared object store with write-once
    round objects and a compare-and-swap status (scripts/ceremony-coord/src/r2.ts), the
    bootstrap (round-zero.ts), contributors who upload what they like, verifiers
    (verify-contribution.ts) and publishers (publish-status.ts), in any interleaving. */
module CeremonyProtocol {
  import opened Results
  import opened CeremonyStatus

  /** contributions is the exported history, one canonical JSON text per entry; content stands
      for the bytes of the file. */
  datatype Zkey = Zkey(content: int, contributions: seq<string>, r1csConsistent: bool)

  type Sha = Zkey -> string

  // ----- Store -----

  /** A stored status, its ETag, and the update that led to it. */
  datatype Version = Version(body: Status, etag: string, cause: Option<Update>)

  /** log lists every status version ever stored, the current one last. */
  datatype Store = Store(rounds: map<nat, Zkey>, log: seq<Version>)

  /** PUT with If-None-Match: * on a round key. */
  function PutRound(store: Store, round: nat, zkey: Zkey): Store {
    if round in store.rounds then store else store.(rounds := store.rounds[round := zkey])
  }

  /** PUT with If-None-Match: * on the status key. */
  function PutInitialStatus(store: Store, body: Status, etag: string): Store {
    if store.log != [] then store else store.(log := [Version(body, etag, None)])
  }

  /** PUT with If-Match: the write lands only on the version that was read. */
  function PutStatusIfMatch(store: Store, body: Status, cause: Update, ifMatch: string, etag: string): Store {
    if store.log == [] || store.log[|store.log| - 1].etag != ifMatch then store
    else store.(log := store.log + [Version(body, etag, Some(cause))])
  }

  /** An ETag identifies a representation: versions that share one have the same body. */
  ghost predicate EtagFits(log: seq<Version>, body: Status, etag: string) {
    forall i :: 0 <= i < |log| && log[i].etag == etag ==> log[i].body == body
  }

  // ----- Processes -----

  datatype PendingMeta = PendingMeta(name: string, profileUrl: Option<string>)
  datatype Attestation = Attestation(sha256: string, verifiedAt: string)

  datatype Verifier =
    | Downloaded(round: nat, zkey: Zkey)
    | R1csPassed(round: nat, zkey: Zkey)
    | PrevDownloaded(round: nat, zkey: Zkey, prev: Zkey)

  datatype Publisher =
    | HasRead(body: Status, etag: string)
    | HasNext(body: Status, etag: string, update: Update, next: Status)

  datatype World = World(
    store: Store,
    pendingMeta: map<nat, PendingMeta>,      // pending/round-N.json
    attestations: map<nat, Attestation>,     // pending/round-N.attestation
    verifiers: map<nat, Verifier>,
    publishers: map<nat, Publisher>)

  datatype Request =
    | PublishRound(round: nat, now: string)
    | PublishCircuitRound(circuit: Circuit, circuitRound: nat)
    | PublishBeacon(height: int, hash: string)
    | PublishFinal(finalSha: string)

  datatype Action =
    | SeedRoundZero(zkey: Zkey)
    | Bootstrap(totalRounds: int, now: string, etag: string)
    | Mint(round: nat, meta: PendingMeta)
    | Upload(round: nat, zkey: Zkey)
    | VerifyDownload(vid: nat, round: nat)
    | VerifyR1cs(vid: nat)
    | VerifyDownloadPrev(vid: nat)
    | VerifyAttest(vid: nat, at: string)
    | PublishRead(pid: nat)
    | PublishCompute(pid: nat, request: Request, phaseOverride: Option<Phase>)
    | PublishWrite(pid: nat, newEtag: string)

  /** snarkjsChainVerify: the new history is the previous one and exactly one more entry. */
  predicate ChainVerified(prev: Zkey, next: Zkey) {
    && |next.contributions| == |prev.contributions| + 1
    && forall i :: 0 <= i < |prev.contributions| ==> prev.contributions[i] == next.contributions[i]
  }

  /** readPendingRound: both files must be there. */
  function ReadPendingRound(w: World, round: nat): Option<PendingRound> {
    if round in w.pendingMeta && round in w.attestations then
      var meta, att := w.pendingMeta[round], w.attestations[round];
      Some(PendingRound(meta.name, meta.profileUrl, att.sha256, att.verifiedAt))
    else None
  }

  /** The command line with its pending files; rounds below 1 are refused by the parser. */
  function Resolve(w: World, request: Request): Option<Command> {
    match request
    case PublishRound(round, now) =>
      (match ReadPendingRound(w, round)
       case None => None
       case Some(meta) => if round >= 1 then Some(Round(round, meta, now)) else None)
    case PublishCircuitRound(circuit, round) =>
      (match ReadPendingRound(w, round)
       case None => None
       case Some(meta) => if round >= 1 then Some(CircuitRound(circuit, round, meta)) else None)
    case PublishBeacon(height, hash) => Some(Beacon(height, hash))
    case PublishFinal(sha) => Some(Finalize(sha))
  }

  /** One step of any process. A step that its program would not take leaves the world alone. */
  function Step(sha: Sha, w: World, a: Action): World {
    match a
    case SeedRoundZero(zkey) => w.(store := PutRound(w.store, 0, zkey))
    case Bootstrap(totalRounds, now, etag) =>
      if totalRounds >= 1 && 0 in w.store.rounds
      then w.(store := PutInitialStatus(w.store, InitialStatus(totalRounds, now), etag)) else w
    case Mint(round, meta) =>
      if round >= 1 && round !in w.store.rounds then w.(pendingMeta := w.pendingMeta[round := meta]) else w
    case Upload(round, zkey) =>
      if round in w.pendingMeta then w.(store := PutRound(w.store, round, zkey)) else w
    case VerifyDownload(vid, round) =>
      if round >= 1 && round in w.store.rounds
      then w.(verifiers := w.verifiers[vid := Downloaded(round, w.store.rounds[round])]) else w
    case VerifyR1cs(vid) =>
      if vid in w.verifiers && w.verifiers[vid].Downloaded? && w.verifiers[vid].zkey.r1csConsistent
      then w.(verifiers := w.verifiers[vid := R1csPassed(w.verifiers[vid].round, w.verifiers[vid].zkey)]) else w
    case VerifyDownloadPrev(vid) =>
      if vid in w.verifiers && w.verifiers[vid].R1csPassed? && w.verifiers[vid].round >= 1
         && w.verifiers[vid].round - 1 in w.store.rounds
      then
        var v := w.verifiers[vid];
        w.(verifiers := w.verifiers[vid := PrevDownloaded(v.round, v.zkey, w.store.rounds[v.round - 1])])
      else w
    case VerifyAttest(vid, at) =>
      if vid in w.verifiers && w.verifiers[vid].PrevDownloaded? && ChainVerified(w.verifiers[vid].prev, w.verifiers[vid].zkey)
      then
        var v := w.verifiers[vid];
        w.(attestations := w.attestations[v.round := Attestation(sha(v.zkey), at)])
      else w
    case PublishRead(pid) =>
      if w.store.log == [] then w
      else
        var last := w.store.log[|w.store.log| - 1];
        w.(publishers := w.publishers[pid := HasRead(last.body, last.etag)])
    case PublishCompute(pid, request, phaseOverride) =>
      if pid in w.publishers && w.publishers[pid].HasRead? then
        match Resolve(w, request)
        case None => w
        case Some(command) =>
          var p, update := w.publishers[pid], Update(command, phaseOverride);
          match Transform(p.body, update)
          case Err(_) => w
          case Ok(next) => w.(publishers := w.publishers[pid := HasNext(p.body, p.etag, update, next)])
      else w
    case PublishWrite(pid, newEtag) =>
      if pid in w.publishers && w.publishers[pid].HasNext?
      then
        var p := w.publishers[pid];
        w.(store := PutStatusIfMatch(w.store, p.next, p.update, p.etag, newEtag), publishers := w.publishers - {pid})
      else w
  }

  const EMPTY: World := World(Store(map[], []), map[], map[], map[], map[])

  function Run(sha: Sha, w: World, actions: seq<Action>): World
    decreases |actions|
  {
    if actions == [] then w else Run(sha, Step(sha, w, actions[0]), actions[1..])
  }

  /** The store hands out ETags that identify bodies. */
  ghost predicate FairEtag(w: World, a: Action) {
    match a
    case PublishWrite(pid, newEtag) =>
      pid in w.publishers && w.publishers[pid].HasNext? ==> EtagFits(w.store.log, w.publishers[pid].next, newEtag)
    case _ => true
  }

  ghost predicate FairRun(sha: Sha, w: World, actions: seq<Action>)
    decreases |actions|
  {
    actions == [] || (FairEtag(w, actions[0]) && FairRun(sha, Step(sha, w, actions[0]), actions[1..]))
  }

  // ----- Invariant -----

  /** The round object is there, passed the R1CS check and extends the round before it. */
  ghost predicate Verified(rounds: map<nat, Zkey>, k: nat) {
    k >= 1 && k in rounds && k - 1 in rounds && rounds[k].r1csConsistent && ChainVerified(rounds[k - 1], rounds[k])
  }

  ghost predicate VerifierOk(rounds: map<nat, Zkey>, v: Verifier) {
    && v.round >= 1 && v.round in rounds && v.zkey == rounds[v.round]
    && (!v.Downloaded? ==> v.zkey.r1csConsistent)
    && (v.PrevDownloaded? ==> v.round - 1 in rounds && v.prev == rounds[v.round - 1])
  }

  ghost predicate AttestationOk(sha: Sha, rounds: map<nat, Zkey>, k: nat, att: Attestation) {
    Verified(rounds, k) && att.sha256 == sha(rounds[k])
  }

  ghost predicate EntryOk(sha: Sha, rounds: map<nat, Zkey>, c: Contributor) {
    c.round >= 1 && Verified(rounds, c.round) && c.attestation == sha(rounds[c.round])
  }

  ghost predicate StatusOk(sha: Sha, rounds: map<nat, Zkey>, s: Status) {
    Consistent(s) && forall i :: 0 <= i < |s.contributors| ==> EntryOk(sha, rounds, s.contributors[i])
  }

  /** Every version but the first is one transform of its direct predecessor. */
  ghost predicate LogSerial(log: seq<Version>) {
    forall i :: 0 < i < |log| ==> log[i].cause != None && Transform(log[i - 1].body, log[i].cause.value) == Ok(log[i].body)
  }

  ghost predicate EtagsIdentify(log: seq<Version>) {
    forall i, j :: 0 <= i < |log| && 0 <= j < |log| && log[i].etag == log[j].etag ==> log[i].body == log[j].body
  }

  ghost predicate PublisherOk(sha: Sha, store: Store, p: Publisher) {
    && (exists i :: 0 <= i < |store.log| && store.log[i].body == p.body && store.log[i].etag == p.etag)
    && (p.HasNext? ==> Transform(p.body, p.update) == Ok(p.next) && StatusOk(sha, store.rounds, p.next))
  }

  /** What verifiers hold and attest is in the store. */
  ghost predicate VerifyingOk(sha: Sha, rounds: map<nat, Zkey>, verifiers: map<nat, Verifier>,
                              attestations: map<nat, Attestation>) {
    && (forall vid :: vid in verifiers ==> VerifierOk(rounds, verifiers[vid]))
    && (forall k :: k in attestations ==> AttestationOk(sha, rounds, k, attestations[k]))
  }

  ghost predicate LogOk(sha: Sha, store: Store) {
    && (forall i :: 0 <= i < |store.log| ==> StatusOk(sha, store.rounds, store.log[i].body))
    && LogSerial(store.log)
    && EtagsIdentify(store.log)
  }

  ghost predicate PublishersOk(sha: Sha, store: Store, publishers: map<nat, Publisher>) {
    forall pid :: pid in publishers ==> PublisherOk(sha, store, publishers[pid])
  }

  ghost predicate Inv(sha: Sha, w: World) {
    && VerifyingOk(sha, w.store.rounds, w.verifiers, w.attestations)
    && LogOk(sha, w.store)
    && PublishersOk(sha, w.store, w.publishers)
  }

  /** Objects are only added. */
  ghost predicate Grows(before: map<nat, Zkey>, after: map<nat, Zkey>) {
    forall k :: k in before ==> k in after && after[k] == before[k]
  }

  lemma StatusOkGrows(sha: Sha, before: map<nat, Zkey>, after: map<nat, Zkey>, s: Status)
    requires Grows(before, after) && StatusOk(sha, before, s)
    ensures StatusOk(sha, after, s)
  {
    forall i | 0 <= i < |s.contributors| ensures EntryOk(sha, after, s.contributors[i]) {
      assert EntryOk(sha, before, s.contributors[i]);
    }
  }

  lemma PutRoundKeeps(sha: Sha, w: World, round: nat, zkey: Zkey)
    requires Inv(sha, w)
    ensures Inv(sha, w.(store := PutRound(w.store, round, zkey)))
    ensures Grows(w.store.rounds, PutRound(w.store, round, zkey).rounds)
  {
    var after := PutRound(w.store, round, zkey);
    forall i | 0 <= i < |w.store.log| ensures StatusOk(sha, after.rounds, after.log[i].body) {
      StatusOkGrows(sha, w.store.rounds, after.rounds, w.store.log[i].body);
    }
    forall pid | pid in w.publishers ensures PublisherOk(sha, after, w.publishers[pid]) {
      var p := w.publishers[pid];
      assert PublisherOk(sha, w.store, p);
      if p.HasNext? { StatusOkGrows(sha, w.store.rounds, after.rounds, p.next); }
    }
    forall vid | vid in w.verifiers ensures VerifierOk(after.rounds, w.verifiers[vid]) {
      assert VerifierOk(w.store.rounds, w.verifiers[vid]);
    }
    forall k | k in w.attestations ensures AttestationOk(sha, after.rounds, k, w.attestations[k]) {
      assert AttestationOk(sha, w.store.rounds, k, w.attestations[k]);
    }
  }

  lemma VerifierKeeps(sha: Sha, w: World, vid: nat, v: Verifier)
    requires Inv(sha, w) && VerifierOk(w.store.rounds, v)
    ensures Inv(sha, w.(verifiers := w.verifiers[vid := v]))
  {
  }

  lemma BootstrapKeeps(sha: Sha, w: World, totalRounds: int, now: string, etag: string)
    requires Inv(sha, w) && totalRounds >= 1
    ensures Inv(sha, w.(store := PutInitialStatus(w.store, InitialStatus(totalRounds, now), etag)))
  {
    forall pid | pid in w.publishers ensures w.store.log != [] {
      PublisherHasRead(sha, w.store, w.publishers[pid]);
    }
  }

  lemma PublisherHasRead(sha: Sha, store: Store, p: Publisher)
    requires PublisherOk(sha, store, p)
    ensures store.log != []
  {
  }

  /** What publish-status computes from a status and a verified round is fit to be stored. */
  lemma NextIsOk(sha: Sha, w: World, body: Status, request: Request, update: Update)
    requires Inv(sha, w) && StatusOk(sha, w.store.rounds, body)
    requires Resolve(w, request) == Some(update.command) && Transform(body, update).Ok?
    ensures StatusOk(sha, w.store.rounds, Transform(body, update).value)
  {
    TransformKeeps(body, update);
    var next := Transform(body, update).value;
    forall i | 0 <= i < |next.contributors| ensures EntryOk(sha, w.store.rounds, next.contributors[i]) {
      if i < |body.contributors| {
        assert EntryOk(sha, w.store.rounds, body.contributors[i]);
      } else {
        assert AttestationOk(sha, w.store.rounds, request.round, w.attestations[request.round]);
      }
    }
  }

  lemma ComputeKeeps(sha: Sha, w: World, pid: nat, request: Request, update: Update)
    requires Inv(sha, w) && pid in w.publishers && w.publishers[pid].HasRead?
    requires Resolve(w, request) == Some(update.command) && Transform(w.publishers[pid].body, update).Ok?
    ensures var p := w.publishers[pid];
      Inv(sha, w.(publishers := w.publishers[pid := HasNext(p.body, p.etag, update, Transform(p.body, update).value)]))
  {
    var p := w.publishers[pid];
    assert PublisherOk(sha, w.store, p);
    NextIsOk(sha, w, p.body, request, update);
    var p' := HasNext(p.body, p.etag, update, Transform(p.body, update).value);
    assert PublisherOk(sha, w.store, p');
  }

  /** A conditional write that lands extends the version that was read, so it is a transform
      of the current body. */
  lemma WriteKeeps(sha: Sha, w: World, pid: nat, newEtag: string)
    requires Inv(sha, w) && pid in w.publishers && w.publishers[pid].HasNext?
    requires EtagFits(w.store.log, w.publishers[pid].next, newEtag)
    ensures var p := w.publishers[pid];
      Inv(sha, w.(store := PutStatusIfMatch(w.store, p.next, p.update, p.etag, newEtag), publishers := w.publishers - {pid}))
  {
    var p := w.publishers[pid];
    var store := PutStatusIfMatch(w.store, p.next, p.update, p.etag, newEtag);
    assert PublisherOk(sha, w.store, p);
    WriteKeepsLog(sha, w.store, p, newEtag);
    PublishersStay(sha, w.store, store, w.publishers, pid);
  }

  lemma WriteKeepsLog(sha: Sha, store: Store, p: Publisher, newEtag: string)
    requires LogOk(sha, store) && p.HasNext? && PublisherOk(sha, store, p) && EtagFits(store.log, p.next, newEtag)
    ensures var after := PutStatusIfMatch(store, p.next, p.update, p.etag, newEtag);
      LogOk(sha, after) && after.rounds == store.rounds && store.log <= after.log
  {
    if store.log != [] && store.log[|store.log| - 1].etag == p.etag {
      CommitKeeps(sha, store, p, newEtag);
    }
  }

  lemma PublishersStay(sha: Sha, before: Store, after: Store, publishers: map<nat, Publisher>, done: nat)
    requires PublishersOk(sha, before, publishers) && before.log <= after.log && after.rounds == before.rounds
    ensures PublishersOk(sha, after, publishers - {done})
  {
    forall q | q in publishers ensures PublisherOk(sha, after, publishers[q]) {
      StillRead(sha, before, after, publishers[q]);
    }
  }

  lemma CommitKeeps(sha: Sha, store: Store, p: Publisher, newEtag: string)
    requires p.HasNext? && PublisherOk(sha, store, p) && store.log != [] && store.log[|store.log| - 1].etag == p.etag
    requires LogSerial(store.log) && EtagsIdentify(store.log) && EtagFits(store.log, p.next, newEtag)
    ensures var log := store.log + [Version(p.next, newEtag, Some(p.update))];
      LogSerial(log) && EtagsIdentify(log)
  {
    var last := store.log[|store.log| - 1];
    var i :| 0 <= i < |store.log| && store.log[i].body == p.body && store.log[i].etag == p.etag;
    assert last.body == p.body;
    AppendSerial(store.log, Version(p.next, newEtag, Some(p.update)));
    AppendEtag(store.log, Version(p.next, newEtag, Some(p.update)));
  }

  lemma AppendSerial(log: seq<Version>, v: Version)
    requires LogSerial(log) && log != [] && v.cause != None
    requires Transform(log[|log| - 1].body, v.cause.value) == Ok(v.body)
    ensures LogSerial(log + [v])
  {
  }

  lemma AppendEtag(log: seq<Version>, v: Version)
    requires EtagsIdentify(log) && EtagFits(log, v.body, v.etag)
    ensures EtagsIdentify(log + [v])
  {
  }

  lemma StillRead(sha: Sha, before: Store, after: Store, p: Publisher)
    requires PublisherOk(sha, before, p) && before.log <= after.log && after.rounds == before.rounds
    ensures PublisherOk(sha, after, p)
  {
    var i :| 0 <= i < |before.log| && before.log[i].body == p.body && before.log[i].etag == p.etag;
    assert after.log[i] == before.log[i];
  }

  /** What one step may do: the invariant holds again, and objects and versions are only added. */
  ghost predicate Keeps(sha: Sha, before: World, after: World) {
    && Inv(sha, after)
    && Grows(before.store.rounds, after.store.rounds)
    && before.store.log <= after.store.log
  }

  lemma StoreStepKeeps(sha: Sha, w: World, a: Action)
    requires Inv(sha, w) && (a.SeedRoundZero? || a.Bootstrap? || a.Mint? || a.Upload?)
    ensures Keeps(sha, w, Step(sha, w, a))
  {
    match a {
      case SeedRoundZero(zkey) => PutRoundKeeps(sha, w, 0, zkey);
      case Bootstrap(totalRounds, now, etag) =>
        if totalRounds >= 1 { BootstrapKeeps(sha, w, totalRounds, now, etag); }
      case Mint(round, meta) =>
      case Upload(round, zkey) => PutRoundKeeps(sha, w, round, zkey);
    }
  }

  lemma VerifyStepKeeps(sha: Sha, w: World, a: Action)
    requires Inv(sha, w) && (a.VerifyDownload? || a.VerifyR1cs? || a.VerifyDownloadPrev? || a.VerifyAttest?)
    ensures Keeps(sha, w, Step(sha, w, a)) && Step(sha, w, a).store == w.store
  {
    if a.VerifyDownload? {
      if a.round >= 1 && a.round in w.store.rounds {
        VerifierKeeps(sha, w, a.vid, Downloaded(a.round, w.store.rounds[a.round]));
      }
    } else if a.vid in w.verifiers {
      assert VerifierOk(w.store.rounds, w.verifiers[a.vid]);
    }
  }

  lemma ReadKeeps(sha: Sha, w: World, pid: nat)
    requires Inv(sha, w)
    ensures Keeps(sha, w, Step(sha, w, PublishRead(pid)))
  {
    if w.store.log != [] {
      var n := |w.store.log| - 1;
      var p := HasRead(w.store.log[n].body, w.store.log[n].etag);
      assert PublisherOk(sha, w.store, p);
    }
  }

  lemma ComputeStepKeeps(sha: Sha, w: World, pid: nat, request: Request, phaseOverride: Option<Phase>)
    requires Inv(sha, w)
    ensures Keeps(sha, w, Step(sha, w, PublishCompute(pid, request, phaseOverride)))
  {
    var command := Resolve(w, request);
    if pid in w.publishers && w.publishers[pid].HasRead? && command.Some? {
      var update := Update(command.value, phaseOverride);
      if Transform(w.publishers[pid].body, update).Ok? { ComputeKeeps(sha, w, pid, request, update); }
    }
  }

  lemma StepKeeps(sha: Sha, w: World, a: Action)
    requires Inv(sha, w) && FairEtag(w, a)
    ensures Keeps(sha, w, Step(sha, w, a))
  {
    match a {
      case PublishRead(pid) => ReadKeeps(sha, w, pid);
      case PublishCompute(pid, request, phaseOverride) => ComputeStepKeeps(sha, w, pid, request, phaseOverride);
      case PublishWrite(pid, newEtag) =>
        if pid in w.publishers && w.publishers[pid].HasNext? { WriteKeeps(sha, w, pid, newEtag); }
      case SeedRoundZero(_) => StoreStepKeeps(sha, w, a);
      case Bootstrap(_, _, _) => StoreStepKeeps(sha, w, a);
      case Mint(_, _) => StoreStepKeeps(sha, w, a);
      case Upload(_, _) => StoreStepKeeps(sha, w, a);
      case _ => VerifyStepKeeps(sha, w, a);
    }
  }

  // ----- Whole runs -----

  lemma {:induction false} RunKeeps(sha: Sha, w: World, actions: seq<Action>)
    requires Inv(sha, w) && FairRun(sha, w, actions)
    ensures Inv(sha, Run(sha, w, actions))
    ensures Grows(w.store.rounds, Run(sha, w, actions).store.rounds)
    ensures w.store.log <= Run(sha, w, actions).store.log
    decreases |actions|
  {
    if actions != [] {
      StepKeeps(sha, w, actions[0]);
      RunKeeps(sha, Step(sha, w, actions[0]), actions[1..]);
    }
  }

  /** In every run from the empty store, an uploaded object never changes afterwards and no
      stored status is ever taken back. */
  lemma NothingIsLost(sha: Sha, early: seq<Action>, late: seq<Action>)
    requires FairRun(sha, EMPTY, early) && FairRun(sha, Run(sha, EMPTY, early), late)
    ensures var w := Run(sha, EMPTY, early);
      var w' := Run(sha, w, late);
      Grows(w.store.rounds, w'.store.rounds) && w.store.log <= w'.store.log
  {
    RunKeeps(sha, EMPTY, early);
    RunKeeps(sha, Run(sha, EMPTY, early), late);
  }

  /** Published round k: attested by the hash of its object, verified, in place k, and its
      history has exactly k entries more than round 0's and extends every earlier round's. */
  lemma PublishedRoundsChain(sha: Sha, actions: seq<Action>, i: nat, k: nat)
    requires FairRun(sha, EMPTY, actions)
    requires var log := Run(sha, EMPTY, actions).store.log;
      i < |log| && 1 <= k <= |log[i].body.contributors|
    ensures var store := Run(sha, EMPTY, actions).store;
      var rounds, c := store.rounds, store.log[i].body.contributors[k - 1];
      && c.round == k && Verified(rounds, k) && c.attestation == sha(rounds[k])
      && 0 in rounds && |rounds[k].contributions| == |rounds[0].contributions| + k
      && forall j: nat :: j <= k ==> j in rounds && rounds[j].contributions <= rounds[k].contributions
  {
    RunKeeps(sha, EMPTY, actions);
    var store := Run(sha, EMPTY, actions).store;
    var s := store.log[i].body;
    assert StatusOk(sha, store.rounds, s);
    ChainUpTo(sha, store.rounds, s, k);
    assert EntryOk(sha, store.rounds, s.contributors[k - 1]);
  }

  lemma {:induction false} ChainUpTo(sha: Sha, rounds: map<nat, Zkey>, s: Status, k: nat)
    requires StatusOk(sha, rounds, s) && 1 <= k <= |s.contributors|
    ensures 0 in rounds && k in rounds && |rounds[k].contributions| == |rounds[0].contributions| + k
    ensures forall j: nat :: j <= k ==> j in rounds && rounds[j].contributions <= rounds[k].contributions
  {
    assert EntryOk(sha, rounds, s.contributors[k - 1]) && s.contributors[k - 1].round == k;
    assert rounds[k - 1].contributions <= rounds[k].contributions;
    if k > 1 { ChainUpTo(sha, rounds, s, k - 1); }
    forall j: nat | j <= k ensures j in rounds && rounds[j].contributions <= rounds[k].contributions {
      if j < k - 1 {
        PrefixTransitive(rounds[j].contributions, rounds[k - 1].contributions, rounds[k].contributions);
      }
    }
  }

  lemma PrefixTransitive<T>(a: seq<T>, b: seq<T>, c: seq<T>)
    requires a <= b <= c
    ensures a <= c
  {
  }

  // ----- Serializability -----

  /** The updates that led to the versions of the log, in order. */
  function UpdatesOf(log: seq<Version>): seq<Update> {
    if |log| <= 1 then []
    else UpdatesOf(log[..|log| - 1]) + match log[|log| - 1].cause { case Some(u) => [u] case None => [] }
  }

  lemma {:induction false} SerialReplay(log: seq<Version>)
    requires log != [] && LogSerial(log)
    ensures Replay(log[0].body, UpdatesOf(log)) == log[|log| - 1].body
    ensures |UpdatesOf(log)| == |log| - 1
  {
    if |log| > 1 {
      var n := |log| - 1;
      SerialReplay(log[..n]);
      var us := UpdatesOf(log[..n]);
      assert (us + [log[n].cause.value])[..|us|] == us;
      assert Transform(log[n - 1].body, log[n].cause.value) == Ok(log[n].body);
    }
  }

  /** Any interleaving of publishers is equivalent to a serial run: replaying the committed
      updates one after the other from the first status gives the current one, and none of
      them fails. */
  lemma RunsAreSerial(sha: Sha, actions: seq<Action>)
    requires FairRun(sha, EMPTY, actions) && Run(sha, EMPTY, actions).store.log != []
    ensures var log := Run(sha, EMPTY, actions).store.log;
      && LogSerial(log)
      && Replay(log[0].body, UpdatesOf(log)) == log[|log| - 1].body && |UpdatesOf(log)| == |log| - 1
  {
    RunKeeps(sha, EMPTY, actions);
    SerialReplay(Run(sha, EMPTY, actions).store.log);
  }

  /** An earlier contributors list is always a prefix of a later one. */
  lemma NoUpdateLost(sha: Sha, actions: seq<Action>, i: nat, j: nat)
    requires FairRun(sha, EMPTY, actions) && i <= j < |Run(sha, EMPTY, actions).store.log|
    ensures var log := Run(sha, EMPTY, actions).store.log;
      log[i].body.contributors <= log[j].body.contributors
  {
    RunKeeps(sha, EMPTY, actions);
    ContributorsGrow(sha, Run(sha, EMPTY, actions).store, i, j);
  }

  lemma {:induction false} ContributorsGrow(sha: Sha, store: Store, i: nat, j: nat)
    requires i <= j < |store.log| && LogSerial(store.log)
    requires forall k :: 0 <= k < |store.log| ==> StatusOk(sha, store.rounds, store.log[k].body)
    ensures store.log[i].body.contributors <= store.log[j].body.contributors
  {
    if i < j {
      ContributorsGrow(sha, store, i, j - 1);
      assert StatusOk(sha, store.rounds, store.log[j - 1].body);
      TransformKeeps(store.log[j - 1].body, store.log[j].cause.value);
      PrefixTransitive(store.log[i].body.contributors, store.log[j - 1].body.contributors, store.log[j].body.contributors);
    }
  }
}
