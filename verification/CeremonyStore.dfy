/** The programs over the bucket: the conditional writes of scripts/ceremony-coord/src/r2.ts as
    an object that they update, the bootstrap of round-zero.ts, one unhindered run of
    publish-status.ts, and the comparison loop of verify-contribution.ts. Each operation is a
    transition of CeremonyProtocol. */
module CeremonyStore {
  import opened CeremonyProtocol
  import opened CeremonyStatus
  import opened Results

  datatype StoreError = PreconditionFailed | StatusMissing | Rejected(update: UpdateError)

  class R2Bucket {
    var rounds: map<nat, Zkey>
    var current: Option<Version>
    ghost var log: seq<Version>

    ghost predicate Valid()
      reads this
    {
      current == if log == [] then None else Some(log[|log| - 1])
    }

    ghost function Contents(): Store
      reads this
    {
      Store(rounds, log)
    }

    constructor ()
      ensures Valid() && Contents() == EMPTY.store
    {
      rounds, current, log := map[], None, [];
    }

    /** PUT with If-None-Match: * on a round key. */
    method PutRoundIfAbsent(round: nat, zkey: Zkey) returns (created: bool)
      requires Valid()
      modifies this
      ensures Valid() && Contents() == PutRound(old(Contents()), round, zkey)
      ensures created <==> round !in old(rounds)
    {
      created := round !in rounds;
      if created { rounds := rounds[round := zkey]; }
    }

    /** PUT with If-None-Match: * on the status key. */
    method PutStatusIfAbsent(body: Status, etag: string) returns (created: bool)
      requires Valid()
      modifies this
      ensures Valid() && Contents() == PutInitialStatus(old(Contents()), body, etag)
      ensures created <==> old(log) == []
    {
      created := current.None?;
      if created {
        current := Some(Version(body, etag, None));
        log := [current.value];
      }
    }

    method ReadStatusWithEtag() returns (r: Result<(Status, string), StoreError>)
      requires Valid()
      ensures r == if log == [] then Err(StatusMissing) else Ok((log[|log| - 1].body, log[|log| - 1].etag))
    {
      if current.None? { return Err(StatusMissing); }
      return Ok((current.value.body, current.value.etag));
    }

    method WriteStatusConditional(body: Status, update: Update, ifMatch: string, newEtag: string) returns (written: bool)
      requires Valid()
      modifies this
      ensures Valid() && Contents() == PutStatusIfMatch(old(Contents()), body, update, ifMatch, newEtag)
      ensures written <==> old(log) != [] && old(log)[|old(log)| - 1].etag == ifMatch
    {
      written := current.Some? && current.value.etag == ifMatch;
      if written {
        current := Some(Version(body, newEtag, Some(update)));
        log := log + [current.value];
      }
    }

    /** round-zero --commit: the seed object first, then the status, each write-once. */
    method RoundZero(zkey: Zkey, totalRounds: int, now: string, etag: string) returns (r: Result<(), StoreError>)
      requires Valid() && totalRounds >= 1
      modifies this
      ensures Valid()
      ensures r.Ok? <==> 0 !in old(rounds) && old(log) == []
      ensures r.Ok? ==> Contents() == Store(old(rounds)[0 := zkey], [Version(InitialStatus(totalRounds, now), etag, None)])
      ensures 0 in old(rounds) ==> Contents() == old(Contents())
      ensures 0 !in old(rounds) && old(log) != [] ==> Contents() == Store(old(rounds)[0 := zkey], old(log))
    {
      var created := PutRoundIfAbsent(0, zkey);
      if !created { return Err(PreconditionFailed); }
      created := PutStatusIfAbsent(InitialStatus(totalRounds, now), etag);
      if !created { return Err(PreconditionFailed); }
      return Ok(());
    }

    /** publish-status --commit when nobody else writes in between: the write lands, and the
        new current status is the transform of the old one. */
    method PublishStatus(update: Update, newEtag: string) returns (r: Result<(), StoreError>)
      requires Valid()
      modifies this
      ensures Valid() && rounds == old(rounds)
      ensures old(log) == [] ==> r == Err(StatusMissing)
      ensures r.Err? ==> log == old(log)
      ensures old(log) != [] ==>
        var t := Transform(old(log)[|old(log)| - 1].body, update);
        if t.Err? then r == Err(Rejected(t.error))
        else r == Ok(()) && log == old(log) + [Version(t.value, newEtag, Some(update))]
    {
      var read := ReadStatusWithEtag();
      if read.Err? { return Err(read.error); }
      var next := Transform(read.value.0, update);
      if next.Err? { return Err(Rejected(next.error)); }
      var written := WriteStatusConditional(next.value, update, read.value.1, newEtag);
      return Ok(());
    }
  }

  /** snarkjsChainVerify: lengths first, then entry by entry. */
  method SnarkjsChainVerify(prev: Zkey, next: Zkey) returns (ok: bool)
    ensures ok <==> ChainVerified(prev, next)
    ensures ok <==> |next.contributions| == |prev.contributions| + 1 && prev.contributions <= next.contributions
  {
    if |next.contributions| != |prev.contributions| + 1 { return false; }
    for i := 0 to |prev.contributions|
      invariant forall k :: 0 <= k < i ==> prev.contributions[k] == next.contributions[k]
    {
      if prev.contributions[i] != next.contributions[i] { return false; }
    }
    return true;
  }
}
