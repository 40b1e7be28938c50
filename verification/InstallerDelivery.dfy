/**
 What one job delivers and leaves on the agent, in terms of its inputs, the replies and the cache alone
 (`packer-installer.ts`).
 */
module InstallerDelivery {
  import opened JsText
  import opened ReleaseSource
  import opened ReleaseDelivery
  import opened Installer

  // ── What decides ─────────────────────────────────────────────────────────────

  /** The job works on this version: the pinned one, or the one its endpoint names. */
  predicate Resolves(lib: Library, job: Job, version: string) {
    && (job.source.Registry? ==> job.net.registryUrlAccepted && job.net.mirrorNameAccepted)
    && if Lower(job.inputVersion) == "latest"
       then (job.source.Registry? ==> job.net.metadataEgress) && job.net.latest.Some? && lib.clean(job.net.latest.value) == Some(version)
       else lib.clean(job.inputVersion) == Some(version)
  }

  /** The job is not killed while it records a digest. */
  predicate Survives(fault: Fault) { !fault.CrashInWrite? && !fault.CrashBeforeRename? }

  /** The sidecar can be read and is a well-formed digest, white space around it aside. */
  predicate HasRecord(job: Job, e: Entry) { e.sidecar.Some? && job.sidecarReadable && IsDigest(Trim(e.sidecar.value)) }

  /** The archive unpacks and holds this executable. */
  predicate Holds(lib: Library, zip: Bytes, binary: Bytes) { lib.unzip(zip).Folder? && lib.unzip(zip).binary == Some(binary) }

  /** The source delivers an archive, unpacked to a binary with the digest of the cached one. */
  ghost predicate MatchesOnline(lib: Library, job: Job, version: string, binary: Bytes) {
    exists zip, other :: DeliversVerified(lib.sha, job.source, job.toggles, job.net, version, zip) && Holds(lib, zip, other)
                         && Lower(lib.sha(other)) == Lower(lib.sha(binary))
  }

  /** A cached binary passes the online check, or need not: nothing is required of it, or the source is out of reach. */
  ghost predicate PassesOnline(lib: Library, job: Job, version: string, binary: Bytes) {
    || !job.toggles.requireChecksum
    || (MatchesOnline(lib, job, version, binary) && Survives(job.fault))
    || (Outage(job.source, job.net) && !job.toggles.requireOnline)
  }

  /** A record that is there must match, and settles the matter unless the online check is forced. */
  ghost predicate PassesCached(lib: Library, job: Job, e: Entry, version: string, binary: Bytes) {
    && (HasRecord(job, e) ==> Lower(lib.sha(binary)) == Lower(Trim(e.sidecar.value)))
    && ((HasRecord(job, e) && !job.toggles.forceOnline) || PassesOnline(lib, job, version, binary))
  }

  /** A fresh install delivers the executable of the archive it got. */
  ghost predicate Installs(lib: Library, job: Job, version: string, zip: Bytes, binary: Bytes) {
    && Holds(lib, zip, binary)
    && ((DeliversVerified(lib.sha, job.source, job.toggles, job.net, version, zip) && Survives(job.fault))
        || DeliversUnverified(job.source, job.toggles, job.net, version, zip))
  }

  ghost predicate Delivers(lib: Library, s: State, job: Job, version: string, binary: Bytes) {
    && Resolves(lib, job, version)
    && if version in s.cache
       then s.cache[version].binary == Some(binary) && PassesCached(lib, job, s.cache[version], version, binary)
       else exists zip :: Installs(lib, job, version, zip, binary)
  }

  // ── The steps ────────────────────────────────────────────────────────────────

  lemma VersionIsExact(lib: Library, job: Job, version: string)
    ensures VersionOf(lib, job) == Ok(version) <==> Resolves(lib, job, version)
  {
    hide Lower;
  }

  lemma ReverifyIsExact(lib: Library, job: Job, version: string, binary: Bytes)
    ensures var r := ReverifySpec(lib, job, version, binary);
      && (r.Skipped? <==> !job.toggles.requireChecksum)
      && (r.Matched? <==> job.toggles.requireChecksum && MatchesOnline(lib, job, version, binary))
      && (r.Degraded? <==> job.toggles.requireChecksum && Outage(job.source, job.net) && !job.toggles.requireOnline)
  {
    hide FetchSpec, DeliversVerified, DeliversUnverified, Outage, Lower;
    var f := FetchSpec(lib.sha, job.source, job.toggles, job.net, version);
    forall zip ensures f.result == Ok(DownloadedZip(zip, true)) <==> DeliversVerified(lib.sha, job.source, job.toggles, job.net, version, zip) {
      StrategyIsExact(lib.sha, job.source, job.toggles, job.net, version, zip);
    }
    StrategyIsExact(lib.sha, job.source, job.toggles, job.net, version, []);
    if f.result.Ok? {
      var zip := f.result.value.zip;
      StrategyIsExact(lib.sha, job.source, job.toggles, job.net, version, zip);
      if job.toggles.requireChecksum { UnverifiedNeedsNone(job, version, zip); }
    }
  }

  lemma UnverifiedNeedsNone(job: Job, version: string, zip: Bytes)
    requires job.toggles.requireChecksum
    ensures !DeliversUnverified(job.source, job.toggles, job.net, version, zip)
  {
  }

  lemma RecordIsExact(lib: Library, e: Entry, binary: Bytes, fault: Fault)
    ensures var (after, temps, alive) := RecordSpec(lib, e, binary, fault);
      && (alive <==> Survives(fault)) && (alive ==> temps == [])
      && after == if fault.NoFault? then e.(sidecar := Some(lib.sha(binary))) else e
  {
  }

  lemma CachedIsExact(lib: Library, job: Job, e: Entry, binary: Bytes)
    ensures var r := VerifyCachedSpec(lib, e, binary, job.sidecarReadable);
      && (r == Ok(false) <==> !HasRecord(job, e))
      && (r == Ok(true) <==> HasRecord(job, e) && Lower(lib.sha(binary)) == Lower(Trim(e.sidecar.value)))
      && (r.Err? ==> r.error == VerificationFailure(ChecksumMismatch))
  {
    hide Lower, Trim, IsDigest;
  }

  // ── The job ──────────────────────────────────────────────────────────────────

  /** A job delivers a binary exactly when the inputs, the replies and the cache say so. */
  lemma JobDeliversExactly(lib: Library, s: State, job: Job, binary: Bytes)
    ensures JobSpec(lib, s, job).1 == Delivered(binary) <==> exists version :: Delivers(lib, s, job, version, binary)
  {
    hide VersionOf, Resolves, HitSpec, MissSpec, Installs, PassesCached;
    forall version ensures VersionOf(lib, job) == Ok(version) <==> Resolves(lib, job, version) { VersionIsExact(lib, job, version); }
    if VersionOf(lib, job).Ok? {
      var version := VersionOf(lib, job).value;
      if version in s.cache { HitIsExact(lib, s, job, version, binary); } else { MissIsExact(lib, s, job, version, binary); }
      assert JobSpec(lib, s, job).1 == Delivered(binary) <==> Delivers(lib, s, job, version, binary);
      forall other | Delivers(lib, s, job, other, binary) ensures other == version { assert VersionOf(lib, job) == Ok(other); }
    }
  }

  lemma HitIsExact(lib: Library, s: State, job: Job, version: string, binary: Bytes)
    requires version in s.cache
    ensures HitSpec(lib, s, job, version).1 == Delivered(binary)
            <==> s.cache[version].binary == Some(binary) && PassesCached(lib, job, s.cache[version], version, binary)
  {
    hide VerifyCachedSpec, ReverifySpec, RecordSpec, MatchesOnline, HasRecord, Lower, Trim, Outage, Survives;
    var e := s.cache[version];
    if e.binary.Some? {
      CachedIsExact(lib, job, e, e.binary.value);
      ReverifyIsExact(lib, job, version, e.binary.value);
      RecordIsExact(lib, e, e.binary.value, job.fault);
    }
  }

  lemma MissIsExact(lib: Library, s: State, job: Job, version: string, binary: Bytes)
    ensures MissSpec(lib, s, job, version).1 == Delivered(binary) <==> exists zip :: Installs(lib, job, version, zip, binary)
  {
    hide FetchSpec, RecordSpec, DeliversVerified, DeliversUnverified, Survives;
    var f := FetchSpec(lib.sha, job.source, job.toggles, job.net, version);
    forall zip
      ensures f.result == Ok(DownloadedZip(zip, true)) <==> DeliversVerified(lib.sha, job.source, job.toggles, job.net, version, zip)
      ensures f.result == Ok(DownloadedZip(zip, false)) <==> DeliversUnverified(job.source, job.toggles, job.net, version, zip)
    {
      StrategyIsExact(lib.sha, job.source, job.toggles, job.net, version, zip);
    }
    if f.result.Ok? && lib.unzip(f.result.value.zip).Folder? && lib.unzip(f.result.value.zip).binary.Some? {
      var folder := lib.unzip(f.result.value.zip);
      RecordIsExact(lib, Entry(folder.binary, folder.sidecar), folder.binary.value, job.fault);
      assert Installs(lib, job, version, f.result.value.zip, folder.binary.value) <==> f.result.value.verified ==> Survives(job.fault);
    }
  }

  /**
   What a delivering job leaves: where the binary is, where it came from, and its record, which is its own digest
   exactly when this job has checked it and recording worked, and otherwise what was there or what was unpacked.
   */
  lemma DeliveryIsRecorded(lib: Library, s: State, job: Job, version: string, binary: Bytes)
    requires Delivers(lib, s, job, version, binary)
    ensures var s' := JobSpec(lib, s, job).0;
      && s'.packerLocation == Some(version) && version in s'.cache && s'.cache[version].binary == Some(binary)
      && (forall v :: v != version ==> (v in s'.cache <==> v in s.cache) && (v in s.cache ==> s'.cache[v] == s.cache[v]))
      && s'.downloadedFrom == Some(if version in s.cache then FromCache else FromSource(job.source))
      && s'.temps == s.temps
      && s'.cache[version].sidecar ==
         if ChecksNow(lib, s, job, version, binary) && job.fault.NoFault? then Some(lib.sha(binary))
         else if version in s.cache then s.cache[version].sidecar
         else lib.unzip(job.net.download.zip).sidecar
  {
    hide Resolves, HitSpec, MissSpec, Installs, PassesCached, ChecksNow;
    VersionIsExact(lib, job, version);
    if version in s.cache { HitRecords(lib, s, job, version, binary); } else { MissRecords(lib, s, job, version, binary); }
  }

  /** This job has compared the binary with what its source publishes. */
  ghost predicate ChecksNow(lib: Library, s: State, job: Job, version: string, binary: Bytes) {
    if version in s.cache
    then job.toggles.requireChecksum && (!HasRecord(job, s.cache[version]) || job.toggles.forceOnline) && MatchesOnline(lib, job, version, binary)
    else job.net.download.Downloaded? && DeliversVerified(lib.sha, job.source, job.toggles, job.net, version, job.net.download.zip)
  }

  lemma HitRecords(lib: Library, s: State, job: Job, version: string, binary: Bytes)
    requires version in s.cache && s.cache[version].binary == Some(binary) && PassesCached(lib, job, s.cache[version], version, binary)
    ensures var s' := HitSpec(lib, s, job, version).0;
      && s'.packerLocation == Some(version) && s'.downloadedFrom == Some(FromCache) && s'.temps == s.temps
      && s'.cache == s.cache[version := Entry(Some(binary),
           if ChecksNow(lib, s, job, version, binary) && job.fault.NoFault? then Some(lib.sha(binary)) else s.cache[version].sidecar)]
  {
    hide VerifyCachedSpec, ReverifySpec, RecordSpec, MatchesOnline, HasRecord, Lower, Trim, Outage, Survives;
    var e := s.cache[version];
    CachedIsExact(lib, job, e, binary);
    ReverifyIsExact(lib, job, version, binary);
    RecordIsExact(lib, e, binary, job.fault);
    assert s.temps + [] == s.temps && s.cache[version := e] == s.cache && e == Entry(Some(binary), e.sidecar);
  }

  lemma MissRecords(lib: Library, s: State, job: Job, version: string, binary: Bytes)
    requires version !in s.cache && exists zip :: Installs(lib, job, version, zip, binary)
    ensures job.net.download.Downloaded?
    ensures var s', zip := MissSpec(lib, s, job, version).0, job.net.download.zip;
      && s'.packerLocation == Some(version) && s'.downloadedFrom == Some(FromSource(job.source)) && s'.temps == s.temps
      && s'.cache == s.cache[version := Entry(Some(binary),
           if ChecksNow(lib, s, job, version, binary) && job.fault.NoFault? then Some(lib.sha(binary)) else lib.unzip(zip).sidecar)]
  {
    var zip :| Installs(lib, job, version, zip, binary);
    InstalledArrives(lib, job, version, zip, binary);
    hide FetchSpec, MissSpec, DeliversVerified, DeliversUnverified, Survives;
    StrategyIsExact(lib.sha, job.source, job.toggles, job.net, version, zip);
    InstalledFrom(lib, s, job, version, zip, FetchSpec(lib.sha, job.source, job.toggles, job.net, version).result.value.verified, binary);
  }

  lemma InstalledFrom(lib: Library, s: State, job: Job, version: string, zip: Bytes, verified: bool, binary: Bytes)
    requires FetchSpec(lib.sha, job.source, job.toggles, job.net, version).result == Ok(DownloadedZip(zip, verified))
    requires Holds(lib, zip, binary) && (verified ==> Survives(job.fault))
    ensures var s' := MissSpec(lib, s, job, version).0;
      && s'.packerLocation == Some(version) && s'.downloadedFrom == Some(FromSource(job.source)) && s'.temps == s.temps
      && s'.cache == s.cache[version := Entry(Some(binary), if verified && job.fault.NoFault? then Some(lib.sha(binary)) else lib.unzip(zip).sidecar)]
  {
    hide FetchSpec, RecordSpec, Survives;
    RecordIsExact(lib, Entry(Some(binary), lib.unzip(zip).sidecar), binary, job.fault);
    assert s.temps + [] == s.temps;
  }

  lemma InstalledArrives(lib: Library, job: Job, version: string, zip: Bytes, binary: Bytes)
    requires Installs(lib, job, version, zip, binary)
    ensures job.net.download == Downloaded(zip)
  {
    hide Matches, HasNone, Answers;
  }

  /** A job that does not deliver points nowhere new, and touches no other version. */
  lemma FailureDeliversNothing(lib: Library, s: State, job: Job)
    requires !JobSpec(lib, s, job).1.Delivered?
    ensures var s' := JobSpec(lib, s, job).0;
      && s'.packerLocation == s.packerLocation
      && forall v :: v in s.cache && !Resolves(lib, job, v) ==> v in s'.cache && s'.cache[v] == s.cache[v]
  {
    hide FetchSpec, RecordSpec, VerifyCachedSpec, ReverifySpec, Resolves;
    forall version ensures VersionOf(lib, job) == Ok(version) <==> Resolves(lib, job, version) { VersionIsExact(lib, job, version); }
    hide VersionOf;
  }

  // ── What a job says and leaves besides ───────────────────────────────────────

  /** The job asks its source for the archive: a fresh install does, and so does a check that the record does not settle. */
  ghost predicate Consults(lib: Library, s: State, job: Job, version: string) {
    version in s.cache ==>
      && s.cache[version].binary.Some? && job.toggles.requireChecksum
      && (!HasRecord(job, s.cache[version])
          || (job.toggles.forceOnline && Lower(lib.sha(s.cache[version].binary.value)) == Lower(Trim(s.cache[version].sidecar.value))))
  }

  /** A check that is given up because the source is out of reach. */
  predicate Degrades(s: State, job: Job, version: string) {
    version in s.cache && Outage(job.source, job.net) && !job.toggles.requireOnline
  }

  /** A job adds its source's warnings and archives if it asks the source, and its own warning if it gives up; otherwise none. */
  lemma JobAccounts(lib: Library, s: State, job: Job, version: string)
    requires Resolves(lib, job, version)
    ensures var s', f := JobSpec(lib, s, job).0, FetchSpec(lib.sha, job.source, job.toggles, job.net, version);
      if Consults(lib, s, job, version)
      then && s'.archives == s.archives + f.left
           && s'.warnings == s.warnings + f.warnings + (if Degrades(s, job, version) then [CacheReverificationUnavailable] else [])
      else s'.archives == s.archives && s'.warnings == s.warnings
  {
    hide FetchSpec, VerifyCachedSpec, RecordSpec, Outage, Lower, Trim, Resolves, HasRecord, VersionOf;
    VersionIsExact(lib, job, version);
    if version in s.cache && s.cache[version].binary.Some? {
      var binary := s.cache[version].binary.value;
      CachedIsExact(lib, job, s.cache[version], binary);
      ReverifyIsExact(lib, job, version, binary);
    }
    var w := s.warnings + FetchSpec(lib.sha, job.source, job.toggles, job.net, version).warnings;
    assert w + [] == w;
  }

  /** A job that resolves no version changes nothing. */
  lemma UnresolvedChangesNothing(lib: Library, s: State, job: Job)
    requires forall version :: !Resolves(lib, job, version)
    ensures JobSpec(lib, s, job) == (s, Threw(PlainError))
  {
    hide Resolves;
    if VersionOf(lib, job).Ok? { VersionIsExact(lib, job, VersionOf(lib, job).value); }
    UnresolvedIsPlain(lib, job);
  }

  lemma UnresolvedIsPlain(lib: Library, job: Job)
    ensures VersionOf(lib, job).Err? ==> VersionOf(lib, job).error == PlainError
  {
    hide Lower;
  }

  /**
   The release that is as it should be: a pinned version, signed checksums that list the archive first with its own
   digest, everything required. A fresh agent ends with the unpacked binary and its digest beside it.
   */
  lemma GoodReleaseIsInstalled(lib: Library, s: State, job: Job, version: string, zip: Bytes, binary: Bytes)
    requires Lower(job.inputVersion) != "latest" && lib.clean(job.inputVersion) == Some(version) && version !in s.cache
    requires !job.source.Registry? && Arrives(job.source, job.net, zip) && job.net.sums.Text? && job.net.signature == Signature(true)
    requires FirstLists(Split(job.net.sums.content, '\n'), FileName(job.net, version), Lower(lib.sha(zip)))
    requires Holds(lib, zip, binary) && job.fault.NoFault?
    ensures var (s', out) := JobSpec(lib, s, job);
      && out == Delivered(binary) && s'.packerLocation == Some(version) && version in s'.cache
      && s'.cache[version] == Entry(Some(binary), Some(lib.sha(binary)))
  {
    hide Lower, Split, FirstLists, JobSpec;
    assert DeliversVerified(lib.sha, job.source, job.toggles, job.net, version, zip);
    assert Installs(lib, job, version, zip, binary);
    assert Delivers(lib, s, job, version, binary);
    JobDeliversExactly(lib, s, job, binary);
    DeliveryIsRecorded(lib, s, job, version, binary);
  }
}
