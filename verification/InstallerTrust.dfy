/**
 What the installer guarantees over every run on one agent: jobs with any inputs and replies, crashes
 while recording, cached binaries changed and records deleted between jobs.
 */
module InstallerTrust {
  import opened JsText
  import opened ReleaseSource
  import opened Installer

  // ── Runs ─────────────────────────────────────────────────────────────────────

  datatype Event =
    | RunJob(job: Job)
    | ChangeBinary(version: string, binary: Option<Bytes>)
    | DeleteRecord(version: string)

  /** The agent, with every binary so far unpacked from an archive that passed its SHA-256 check. */
  datatype World = World(state: State, verified: set<Bytes>)

  const FRESH := World(State(map[], [], [], [], None, None), {})

  /** The archive that the job's strategy delivered as verified, if the job consulted its source. */
  function VerifiedArchive(lib: Library, s: State, job: Job): Option<Bytes> {
    match VersionOf(lib, job)
    case Err(_) => None
    case Ok(version) =>
      var f := FetchSpec(lib.sha, job.source, job.toggles, job.net, version);
      if Consults(lib, s, job, version) && f.result.Ok? && f.result.value.verified then Some(f.result.value.zip) else None
  }

  /** Whether the job downloads: a fresh install, or a cache hit that goes on to the online check. */
  predicate Consults(lib: Library, s: State, job: Job, version: string) {
    version in s.cache ==>
      var e := s.cache[version];
      && e.binary.Some? && job.toggles.requireChecksum
      && var record := VerifyCachedSpec(lib, e, e.binary.value, job.sidecarReadable);
         record.Ok? && (!record.value || job.toggles.forceOnline)
  }

  function VerifiedBinary(lib: Library, s: State, job: Job): set<Bytes> {
    match VerifiedArchive(lib, s, job)
    case None => {}
    case Some(zip) =>
      var folder := lib.unzip(zip);
      if folder.Folder? && folder.binary.Some? then {folder.binary.value} else {}
  }

  function Happen(lib: Library, w: World, e: Event): World {
    match e
    case RunJob(job) => World(JobSpec(lib, w.state, job).0, w.verified + VerifiedBinary(lib, w.state, job))
    case ChangeBinary(version, binary) =>
      if version !in w.state.cache then w
      else w.(state := w.state.(cache := w.state.cache[version := w.state.cache[version].(binary := binary)]))
    case DeleteRecord(version) =>
      if version !in w.state.cache then w
      else w.(state := w.state.(cache := w.state.cache[version := w.state.cache[version].(sidecar := None)]))
  }

  function Run(lib: Library, w: World, events: seq<Event>): World
    decreases |events|
  {
    if events == [] then w else Run(lib, Happen(lib, w, events[0]), events[1..])
  }

  // ── The invariant ────────────────────────────────────────────────────────────

  /** The sidecar text is a well-formed digest. */
  predicate WellFormed(sidecar: Option<string>) { sidecar.Some? && IsDigest(Trim(sidecar.value)) }

  /** Which sidecars are taken for records: all that are `WellFormed`, or only the `Matching` ones. */
  type Claim = claim: Option<string> -> bool | !claim(None) ghost witness (sidecar: Option<string>) => false

  /** A digest of some binary: one exists that passes the offline check against it. */
  ghost function Matching(lib: Library): Claim {
    (sidecar: Option<string>) => WellFormed(sidecar) && exists b :: lib.sha(b) == Lower(Trim(sidecar.value))
  }

  ghost predicate Vouched(lib: Library, text: string, verified: set<Bytes>) {
    exists b :: b in verified && Lower(Trim(text)) == lib.sha(b)
  }

  ghost predicate TrustedEntry(lib: Library, claim: Claim, e: Entry, verified: set<Bytes>) {
    claim(e.sidecar) ==> e.sidecar.Some? && Vouched(lib, e.sidecar.value, verified)
  }

  /** Every such sidecar is the digest of a binary from an archive that passed its check. */
  ghost predicate Trusted(lib: Library, claim: Claim, w: World) {
    forall v :: v in w.state.cache ==> TrustedEntry(lib, claim, w.state.cache[v], w.verified)
  }

  /** The archive unpacks to no such file beside the executable. */
  predicate ShipsNone(lib: Library, claim: Claim, zip: Bytes) {
    lib.unzip(zip).Folder? ==> !claim(lib.unzip(zip).sidecar)
  }

  ghost predicate FromArchives(archives: set<Bytes>, e: Event) {
    e.RunJob? && e.job.net.download.Downloaded? ==> e.job.net.download.zip in archives
  }

  lemma DigestText(lib: Library, b: Bytes)
    requires IsHash(lib.sha)
    ensures Trim(lib.sha(b)) == lib.sha(b) && Lower(lib.sha(b)) == lib.sha(b)
  {
    hide IsSpace, Trim;
    var d := lib.sha(b);
    LowerDigest(lib.sha, b);
    assert IsLowerHex(d[0]) && IsLowerHex(d[63]);
    WordIsNotSpace(d[0]);
    WordIsNotSpace(d[63]);
    assert "" + d + "" == d;
    TrimPadded("", d, "");
  }

  lemma VouchedGrows(lib: Library, claim: Claim, e: Entry, small: set<Bytes>, large: set<Bytes>)
    requires TrustedEntry(lib, claim, e, small) && small <= large
    ensures TrustedEntry(lib, claim, e, large)
  {
    hide Trim, IsDigest, Lower;
    if claim(e.sidecar) {
      var b :| b in small && Lower(Trim(e.sidecar.value)) == lib.sha(b);
      assert b in large;
    }
  }

  /** Recording a binary that is digest-equal to a verified one leaves a vouched entry, whatever happens. */
  lemma RecordKeepsTrust(lib: Library, claim: Claim, e: Entry, binary: Bytes, fault: Fault, verified: set<Bytes>, b: Bytes)
    requires IsHash(lib.sha) && TrustedEntry(lib, claim, e, verified)
    requires b in verified && lib.sha(b) == lib.sha(binary)
    ensures TrustedEntry(lib, claim, RecordSpec(lib, e, binary, fault).0, verified)
  {
    hide Trim, IsDigest, Lower;
    DigestText(lib, binary);
    var after := RecordSpec(lib, e, binary, fault).0;
    if after != e { assert Lower(Trim(after.sidecar.value)) == lib.sha(b); }
  }

  /** A record is written whole or not at all: no fault and no crash leaves a fragment in its place. */
  lemma RecordIsAtomic(lib: Library, e: Entry, binary: Bytes, fault: Fault)
    ensures var (after, temps, alive) := RecordSpec(lib, e, binary, fault);
      && (after == e || after == e.(sidecar := Some(lib.sha(binary))))
      && (after != e ==> fault.NoFault?) && (!alive ==> after == e && |temps| == 1)
      && (forall t :: t in temps ==> t <= lib.sha(binary))
  {
  }

  // ── One job keeps the invariant ──────────────────────────────────────────────

  lemma JobKeepsTrust(lib: Library, claim: Claim, w: World, job: Job)
    requires IsHash(lib.sha) && Trusted(lib, claim, w)
    requires job.net.download.Downloaded? ==> ShipsNone(lib, claim, job.net.download.zip)
    ensures Trusted(lib, claim, Happen(lib, w, RunJob(job)))
  {
    hide FetchSpec, TrustedEntry, VerifyCachedSpec, ReverifySpec, RecordSpec, ShipsNone, ResolveSpec;
    var w' := Happen(lib, w, RunJob(job));
    forall v | v in w.state.cache ensures TrustedEntry(lib, claim, w.state.cache[v], w'.verified) {
      VouchedGrows(lib, claim, w.state.cache[v], w.verified, w'.verified);
    }
    var version := VersionOf(lib, job);
    if version.Ok? {
      if version.value in w.state.cache {
        HitKeepsTrust(lib, claim, w, job, version.value);
      } else {
        MissKeepsTrust(lib, claim, w, job, version.value);
      }
    }
  }

  lemma HitKeepsTrust(lib: Library, claim: Claim, w: World, job: Job, version: string)
    requires IsHash(lib.sha) && Trusted(lib, claim, w)
    requires VersionOf(lib, job) == Ok(version) && version in w.state.cache
    ensures var cache := JobSpec(lib, w.state, job).0.cache;
      && cache.Keys == w.state.cache.Keys
      && (forall v :: v in cache && v != version ==> cache[v] == w.state.cache[v])
      && TrustedEntry(lib, claim, cache[version], w.verified + VerifiedBinary(lib, w.state, job))
  {
    hide VersionOf, FetchSpec, TrustedEntry, VerifyCachedSpec, RecordSpec, Lower;
    var e := w.state.cache[version];
    var verified := w.verified + VerifiedBinary(lib, w.state, job);
    VouchedGrows(lib, claim, e, w.verified, verified);
    if e.binary.Some? {
      var binary := e.binary.value;
      if ReverifySpec(lib, job, version, binary).Matched? && Consults(lib, w.state, job, version) {
        var b := MatchedIsVerified(lib, w.state, job, version, binary);
        RecordKeepsTrust(lib, claim, e, binary, job.fault, verified, b);
      }
    }
  }

  /** A match consults the source, and the archive it fetched holds a verified binary with that digest. */
  lemma MatchedIsVerified(lib: Library, s: State, job: Job, version: string, binary: Bytes) returns (b: Bytes)
    requires IsHash(lib.sha) && VersionOf(lib, job) == Ok(version) && version in s.cache
    requires ReverifySpec(lib, job, version, binary).Matched? && Consults(lib, s, job, version)
    ensures b in VerifiedBinary(lib, s, job) && lib.sha(b) == lib.sha(binary)
  {
    hide VersionOf, FetchSpec, Consults, Lower;
    var f := FetchSpec(lib.sha, job.source, job.toggles, job.net, version);
    TogglesEnforce(lib.sha, job.source, job.toggles, job.net, version);
    b := lib.unzip(f.result.value.zip).binary.value;
    DigestText(lib, b);
    DigestText(lib, binary);
  }

  lemma MissKeepsTrust(lib: Library, claim: Claim, w: World, job: Job, version: string)
    requires IsHash(lib.sha)
    requires VersionOf(lib, job) == Ok(version) && version !in w.state.cache
    requires job.net.download.Downloaded? ==> ShipsNone(lib, claim, job.net.download.zip)
    ensures var cache := JobSpec(lib, w.state, job).0.cache;
      && (forall v :: v in cache && v != version ==> v in w.state.cache && cache[v] == w.state.cache[v])
      && (version in cache ==> TrustedEntry(lib, claim, cache[version], w.verified + VerifiedBinary(lib, w.state, job)))
  {
    hide VersionOf, FetchSpec, RecordSpec, Lower, Trim, IsDigest;
    var f := FetchSpec(lib.sha, job.source, job.toggles, job.net, version);
    TogglesEnforce(lib.sha, job.source, job.toggles, job.net, version);
    if f.result.Ok? {
      var folder := lib.unzip(f.result.value.zip);
      if folder.Folder? && folder.binary.Some? && f.result.value.verified {
        var b := folder.binary.value;
        var verified := w.verified + VerifiedBinary(lib, w.state, job);
        RecordKeepsTrust(lib, claim, Entry(folder.binary, folder.sidecar), b, job.fault, verified, b);
      }
    }
  }

  lemma EventKeepsTrust(lib: Library, claim: Claim, w: World, e: Event)
    requires IsHash(lib.sha) && Trusted(lib, claim, w)
    requires e.RunJob? && e.job.net.download.Downloaded? ==> ShipsNone(lib, claim, e.job.net.download.zip)
    ensures Trusted(lib, claim, Happen(lib, w, e))
  {
    hide JobSpec, VerifiedBinary, Vouched, ShipsNone;
    if e.RunJob? { JobKeepsTrust(lib, claim, w, e.job); }
  }

  // ── Every run ────────────────────────────────────────────────────────────────

  ghost predicate AllFrom(archives: set<Bytes>, events: seq<Event>) {
    forall k :: 0 <= k < |events| ==> FromArchives(archives, events[k])
  }

  lemma {:induction false} RunKeepsTrust(lib: Library, claim: Claim, archives: set<Bytes>, w: World, events: seq<Event>)
    requires IsHash(lib.sha) && Trusted(lib, claim, w)
    requires forall zip :: zip in archives ==> ShipsNone(lib, claim, zip)
    requires AllFrom(archives, events)
    ensures Trusted(lib, claim, Run(lib, w, events))
    decreases |events|
  {
    hide Trusted, Happen, ShipsNone;
    if events != [] {
      assert FromArchives(archives, events[0]);
      EventKeepsTrust(lib, claim, w, events[0]);
      RunKeepsTrust(lib, claim, archives, Happen(lib, w, events[0]), events[1..]);
    }
  }

  /** Over every run whose downloads are among `archives`, every such sidecar is vouched for. */
  ghost predicate AlwaysTrusted(lib: Library, claim: Claim, archives: set<Bytes>) {
    forall events :: AllFrom(archives, events) ==> Trusted(lib, claim, Run(lib, FRESH, events))
  }

  /** An unverified install of an archive, with nothing required of it. */
  function UncheckedInstall(zip: Bytes, version: string): Job {
    Job(Mirror, Toggles(false, false, false, false), version,
        Network(Some("linux_amd64"), None, true, true, true, true, true, true,
                InfoError, Downloaded(zip), TextNotFound, SignatureNotFound),
        true, NoFault)
  }

  /** It caches the archive as it unpacks, sidecar and all, and verifies nothing. */
  lemma UncheckedInstallCaches(lib: Library, zip: Bytes, version: string)
    requires lib.clean(version).Some? && Lower(version) != "latest" && lib.unzip(zip).Folder?
    ensures var w := Happen(lib, FRESH, RunJob(UncheckedInstall(zip, version)));
      && w.verified == {} && lib.clean(version).value in w.state.cache
      && w.state.cache[lib.clean(version).value] == Entry(lib.unzip(zip).binary, lib.unzip(zip).sidecar)
  {
    hide Trim, IsDigest, Lower;
    var job := UncheckedInstall(zip, version);
    var key := lib.clean(version).value;
    assert ResolveSpec(job) == Ok(version);
    assert VersionOf(lib, job) == Ok(key);
    assert MirrorSpec(lib.sha, job.toggles, job.net, key).result == Ok(DownloadedZip(zip, false));
    assert FetchSpec(lib.sha, job.source, job.toggles, job.net, key).result == Ok(DownloadedZip(zip, false));
  }

  lemma ShippedRecordBreaksTrust(lib: Library, claim: Claim, zip: Bytes, version: string)
    requires lib.clean(version).Some? && Lower(version) != "latest"
    requires !ShipsNone(lib, claim, zip)
    ensures !Trusted(lib, claim, Happen(lib, FRESH, RunJob(UncheckedInstall(zip, version))))
  {
    UncheckedInstallCaches(lib, zip, version);
    hide Happen, Lower, Trim;
    var w := Happen(lib, FRESH, RunJob(UncheckedInstall(zip, version)));
    assert !TrustedEntry(lib, claim, w.state.cache[lib.clean(version).value], w.verified);
  }

  /**
   Starting without sidecars, the invariant holds over every run, crashes and changes included, if
   and only if no archive ships such a digest file of its own beside the executable.
   */
  lemma TrustedIffArchivesShipNoRecord(lib: Library, claim: Claim, archives: set<Bytes>, version: string)
    requires IsHash(lib.sha) && lib.clean(version).Some? && Lower(version) != "latest"
    ensures AlwaysTrusted(lib, claim, archives) <==> forall zip :: zip in archives ==> ShipsNone(lib, claim, zip)
  {
    hide Happen, ShipsNone, Run, IsHash;
    forall events | AllFrom(archives, events) && forall zip :: zip in archives ==> ShipsNone(lib, claim, zip)
      ensures Trusted(lib, claim, Run(lib, FRESH, events))
    {
      RunKeepsTrust(lib, claim, archives, FRESH, events);
    }
    forall zip | zip in archives && !ShipsNone(lib, claim, zip) ensures !AlwaysTrusted(lib, claim, archives) {
      var e := RunJob(UncheckedInstall(zip, version));
      ShippedRecordBreaksTrust(lib, claim, zip, version);
      RunOneEvent(lib, FRESH, e);
      assert AllFrom(archives, [e]);
    }
  }

  lemma RunOneEvent(lib: Library, w: World, e: Event)
    ensures Run(lib, w, [e]) == Happen(lib, w, e)
  {
    hide Happen;
    assert Run(lib, Happen(lib, w, e), [e][1..]) == Happen(lib, w, e);
  }

  // ── What a job that requires checksums delivers ──────────────────────────────

  ghost predicate DigestEqual(lib: Library, binary: Bytes, verified: set<Bytes>) {
    exists b :: b in verified && lib.sha(b) == lib.sha(binary)
  }

  /** The documented degradation: an unrecorded cache hit whose source could not be reached. */
  predicate UnreachableDegradation(lib: Library, s: State, s': State, job: Job, version: string) {
    && version in s.cache
    && UsableRecord(s.cache[version], job.sidecarReadable).None?
    && !job.toggles.requireOnline
    && var f := FetchSpec(lib.sha, job.source, job.toggles, job.net, version);
       f.result == Err(PlainError) && s'.warnings == s.warnings + (f.warnings + [CacheReverificationUnavailable])
  }

  /** A delivered binary is digest-equal to a verified one, or the job degraded as documented, with a warning. */
  ghost predicate DeliversVerified(lib: Library, w: World, job: Job) {
    var (s', out) := JobSpec(lib, w.state, job);
    out.Delivered? ==>
      || DigestEqual(lib, out.binary, Happen(lib, w, RunJob(job)).verified)
      || UnreachableDegradation(lib, w.state, s', job, VersionOf(lib, job).value)
  }

  /**
   Whatever became of the cached binaries in the meantime, a job that requires checksums delivers what is
   verified: never silently anything else, and never after the source answered with failing material. It
   is enough that the records some binary matches are vouched for.
   */
  lemma DeliveredIsVerified(lib: Library, w: World, job: Job)
    requires IsHash(lib.sha) && Trusted(lib, Matching(lib), w) && job.toggles.requireChecksum
    ensures DeliversVerified(lib, w, job)
  {
    hide FetchSpec, RecordSpec, ResolveSpec, Trim, IsDigest, Lower, Consults, VerifyCachedSpec, Trusted;
    var version := VersionOf(lib, job);
    if version.Ok? && JobSpec(lib, w.state, job).1.Delivered? {
      if version.value in w.state.cache {
        HitDelivers(lib, w, job, version.value);
      } else {
        MissDelivers(lib, w, job, version.value);
      }
    }
  }

  lemma MissDelivers(lib: Library, w: World, job: Job, version: string)
    requires job.toggles.requireChecksum && VersionOf(lib, job) == Ok(version) && version !in w.state.cache
    requires JobSpec(lib, w.state, job).1.Delivered?
    ensures DigestEqual(lib, JobSpec(lib, w.state, job).1.binary, VerifiedBinary(lib, w.state, job))
  {
    hide VersionOf, FetchSpec, RecordSpec;
    TogglesEnforce(lib.sha, job.source, job.toggles, job.net, version);
    assert JobSpec(lib, w.state, job).1.binary in VerifiedBinary(lib, w.state, job);
  }

  lemma HitDelivers(lib: Library, w: World, job: Job, version: string)
    requires IsHash(lib.sha) && Trusted(lib, Matching(lib), w)
    requires job.toggles.requireChecksum && VersionOf(lib, job) == Ok(version) && version in w.state.cache
    requires JobSpec(lib, w.state, job).1.Delivered?
    ensures var (s', out) := JobSpec(lib, w.state, job);
      || DigestEqual(lib, out.binary, w.verified + VerifiedBinary(lib, w.state, job))
      || UnreachableDegradation(lib, w.state, s', job, version)
  {
    hide VersionOf, FetchSpec, RecordSpec, Trim, IsDigest, Lower;
    var e := w.state.cache[version];
    var binary := e.binary.value;
    assert JobSpec(lib, w.state, job).1.binary == binary;
    DigestText(lib, binary);
    if UsableRecord(e, job.sidecarReadable).Some? {
      assert lib.sha(binary) == Lower(Trim(e.sidecar.value));
      assert Matching(lib)(e.sidecar) && TrustedEntry(lib, Matching(lib), e, w.verified);
      var b :| b in w.verified && Lower(Trim(e.sidecar.value)) == lib.sha(b);
      assert DigestEqual(lib, binary, w.verified + VerifiedBinary(lib, w.state, job));
    } else if ReverifySpec(lib, job, version, binary).Matched? {
      var f := FetchSpec(lib.sha, job.source, job.toggles, job.net, version);
      TogglesEnforce(lib.sha, job.source, job.toggles, job.net, version);
      var b := lib.unzip(f.result.value.zip).binary.value;
      DigestText(lib, b);
      assert b in VerifiedBinary(lib, w.state, job);
      assert DigestEqual(lib, binary, w.verified + VerifiedBinary(lib, w.state, job));
    }
  }

  /** Over every run whose downloads are among `archives`, for every job that then requires checksums. */
  ghost predicate AlwaysDeliversVerified(lib: Library, archives: set<Bytes>) {
    forall events, job: Job :: AllFrom(archives, events) && job.toggles.requireChecksum ==> DeliversVerified(lib, Run(lib, FRESH, events), job)
  }

  /** A job with every requirement on but the forced re-verification, whose source cannot be reached. */
  function StrictJob(version: string): Job {
    Job(Mirror, Toggles(true, true, false, true), version,
        Network(Some("linux_amd64"), None, true, true, true, true, true, true,
                InfoError, DownloadError, TextError, SignatureError),
        true, NoFault)
  }

  /** It delivers a cached binary that passes the offline check, and verifies nothing itself. */
  lemma StrictJobTrustsTheRecord(lib: Library, w: World, version: string, b: Bytes)
    requires IsHash(lib.sha) && lib.clean(version).Some? && Lower(version) != "latest" && lib.clean(version).value in w.state.cache
    requires var e := w.state.cache[lib.clean(version).value];
      e.binary == Some(b) && WellFormed(e.sidecar) && Lower(Trim(e.sidecar.value)) == lib.sha(b)
    ensures JobSpec(lib, w.state, StrictJob(version)).1 == Delivered(b)
    ensures Happen(lib, w, RunJob(StrictJob(version))).verified == w.verified
    ensures w.verified == {} ==> !DeliversVerified(lib, w, StrictJob(version))
  {
    hide Trim, IsDigest, Lower, FetchSpec;
    var job, key := StrictJob(version), lib.clean(version).value;
    DigestText(lib, b);
    assert ResolveSpec(job) == Ok(version) && VersionOf(lib, job) == Ok(key);
    assert VerifyCachedSpec(lib, w.state.cache[key], b, true) == Ok(true);
  }

  /**
   The failing job: an archive that ships the digest of its own binary is installed unchecked, and the next
   job, with every requirement on and no source in reach, delivers a binary that nothing ever verified.
   */
  lemma ShippedRecordIsDelivered(lib: Library, zip: Bytes, version: string, binary: Bytes)
    requires IsHash(lib.sha) && lib.clean(version).Some? && Lower(version) != "latest"
    requires lib.unzip(zip) == Folder(Some(binary), Some(lib.sha(binary)))
    ensures var w := Run(lib, FRESH, [RunJob(UncheckedInstall(zip, version))]);
      && JobSpec(lib, w.state, StrictJob(version)).1 == Delivered(binary)
      && Happen(lib, w, RunJob(StrictJob(version))).verified == {}
      && !DeliversVerified(lib, w, StrictJob(version))
  {
    RunOneEvent(lib, FRESH, RunJob(UncheckedInstall(zip, version)));
    UncheckedInstallCaches(lib, zip, version);
    DigestText(lib, binary);
    LowerDigest(lib.sha, binary);
    hide Run, Happen, JobSpec, DeliversVerified, Lower, Trim, IsDigest;
    StrictJobTrustsTheRecord(lib, Run(lib, FRESH, [RunJob(UncheckedInstall(zip, version))]), version, binary);
  }

  /** The same for any archive that ships the digest of some binary, once that binary is in its place. */
  lemma MatchingRecordIsDelivered(lib: Library, zip: Bytes, version: string) returns (events: seq<Event>)
    requires IsHash(lib.sha) && lib.clean(version).Some? && Lower(version) != "latest"
    requires !ShipsNone(lib, Matching(lib), zip)
    ensures AllFrom({zip}, events) && !DeliversVerified(lib, Run(lib, FRESH, events), StrictJob(version))
  {
    hide Lower, Trim, IsDigest;
    var sidecar := lib.unzip(zip).sidecar;
    var b :| lib.sha(b) == Lower(Trim(sidecar.value));
    var install, change := RunJob(UncheckedInstall(zip, version)), ChangeBinary(lib.clean(version).value, Some(b));
    events := [install, change];
    UncheckedInstallCaches(lib, zip, version);
    var w := Happen(lib, FRESH, install);
    RunOneEvent(lib, w, change);
    assert events[1..] == [change] && Run(lib, FRESH, events) == Happen(lib, w, change);
    hide JobSpec, DeliversVerified, Run;
    StrictJobTrustsTheRecord(lib, Happen(lib, w, change), version, b);
  }

  /**
   Over every run from a fresh agent, every job that requires checksums delivers what is verified, or degrades
   as documented, if and only if no archive ships the digest of some binary beside its executable.
   */
  lemma EveryRunDeliversVerified(lib: Library, archives: set<Bytes>, version: string)
    requires IsHash(lib.sha) && lib.clean(version).Some? && Lower(version) != "latest"
    ensures AlwaysDeliversVerified(lib, archives) <==> forall zip :: zip in archives ==> ShipsNone(lib, Matching(lib), zip)
  {
    hide Happen, ShipsNone, Run, IsHash, DeliversVerified, Matching, Trusted;
    forall events, job: Job | AllFrom(archives, events) && job.toggles.requireChecksum && forall zip :: zip in archives ==> ShipsNone(lib, Matching(lib), zip)
      ensures DeliversVerified(lib, Run(lib, FRESH, events), job)
    {
      FreshIsTrusted(lib, Matching(lib));
      RunKeepsTrust(lib, Matching(lib), archives, FRESH, events);
      DeliveredIsVerified(lib, Run(lib, FRESH, events), job);
    }
    forall zip | zip in archives && !ShipsNone(lib, Matching(lib), zip) ensures !AlwaysDeliversVerified(lib, archives) {
      var events := MatchingRecordIsDelivered(lib, zip, version);
      assert AllFrom(archives, events) by {
        forall k | 0 <= k < |events| ensures FromArchives(archives, events[k]) { assert FromArchives({zip}, events[k]); }
      }
      assert StrictJob(version).toggles.requireChecksum;
    }
  }

  lemma FreshIsTrusted(lib: Library, claim: Claim)
    ensures Trusted(lib, claim, FRESH)
  {
  }

  // ── Two runs: requirements only ever refuse ──────────────────────────────────

  /**
   For the same cache, inputs and replies: a job that delivers under some requirements delivers the
   same binary when any of them are turned off.
   */
  lemma JobIsMonotone(lib: Library, s: State, job: Job, lax: Toggles)
    requires Weaker(lax, job.toggles)
    ensures JobSpec(lib, s, job).1.Delivered? ==>
            JobSpec(lib, s, job.(toggles := lax)).1 == JobSpec(lib, s, job).1
  {
    hide FetchSpec, RecordSpec, VerifyCachedSpec, Lower;
    var version := VersionOf(lib, job);
    assert VersionOf(lib, job.(toggles := lax)) == version;
    if version.Ok? {
      FetchIsMonotone(lib.sha, job.source, job.toggles, lax, job.net, version.value);
      if version.value in s.cache && s.cache[version.value].binary.Some? {
        ReverifyIsMonotone(lib, job, lax, version.value, s.cache[version.value].binary.value);
      }
      RecordSurvives(lib, job.fault);
    }
  }

  /** Whether a job survives recording depends on the fault alone. */
  lemma RecordSurvives(lib: Library, fault: Fault)
    ensures forall e, b, e', b' :: RecordSpec(lib, e, b, fault).2 == RecordSpec(lib, e', b', fault).2
  {
  }

  lemma ReverifyIsMonotone(lib: Library, job: Job, lax: Toggles, version: string, binary: Bytes)
    requires Weaker(lax, job.toggles)
    ensures var strict, relaxed := ReverifySpec(lib, job, version, binary),
                                   ReverifySpec(lib, job.(toggles := lax), version, binary);
      && (!strict.Refused? ==> !relaxed.Refused?)
      && (!strict.Refused? && relaxed.Matched? ==> strict.Matched?)
  {
    hide FetchSpec, Lower;
    FetchIsMonotone(lib.sha, job.source, job.toggles, lax, job.net, version);
  }

  // ── Which version is installed ───────────────────────────────────────────────

  /** A pinned version never depends on the version endpoint: the whole job is the same whatever it answers. */
  lemma PinnedNeverAsks(lib: Library, s: State, job: Job, reply: Option<string>)
    requires Lower(job.inputVersion) != "latest"
    ensures JobSpec(lib, s, job.(net := job.net.(latest := reply))) == JobSpec(lib, s, job)
  {
    hide Lower, HitSpec, MissSpec;
    var other, version := job.(net := job.net.(latest := reply)), VersionOf(lib, job);
    assert VersionOf(lib, other) == version;
    if version.Ok? {
      SameFetch(lib, job, reply, version.value);
      if version.value in s.cache {
        SameHit(lib, s, job, other, version.value);
      } else {
        SameMiss(lib, s, job, other, version.value);
      }
    }
  }

  /** Two jobs that fetch the same and differ in the endpoint's answer alone go the same way from there. */
  lemma SameHit(lib: Library, s: State, job: Job, other: Job, version: string)
    requires version in s.cache && other == job.(net := other.net)
    requires FetchSpec(lib.sha, other.source, other.toggles, other.net, version) == FetchSpec(lib.sha, job.source, job.toggles, job.net, version)
    ensures HitSpec(lib, s, other, version) == HitSpec(lib, s, job, version)
  {
    hide FetchSpec, VerifyCachedSpec, RecordSpec, Lower;
    if s.cache[version].binary.Some? {
      assert ReverifySpec(lib, other, version, s.cache[version].binary.value) == ReverifySpec(lib, job, version, s.cache[version].binary.value);
      hide ReverifySpec;
    }
  }

  lemma SameMiss(lib: Library, s: State, job: Job, other: Job, version: string)
    requires other == job.(net := other.net)
    requires FetchSpec(lib.sha, other.source, other.toggles, other.net, version) == FetchSpec(lib.sha, job.source, job.toggles, job.net, version)
    ensures MissSpec(lib, s, other, version) == MissSpec(lib, s, job, version)
  {
    hide FetchSpec, RecordSpec;
  }

  lemma SameFetch(lib: Library, job: Job, reply: Option<string>, version: string)
    ensures FetchSpec(lib.sha, job.source, job.toggles, job.net.(latest := reply), version)
            == FetchSpec(lib.sha, job.source, job.toggles, job.net, version)
  {
    hide ParseSha256Spec, VerifySha256;
  }

  /**
   `latest` fails closed: without an answer of the endpoint the job throws and leaves the agent as it was, and
   a version that is delivered is the one the endpoint named.
   */
  lemma LatestFailsClosed(lib: Library, s: State, job: Job)
    requires Lower(job.inputVersion) == "latest"
    ensures var (s', out) := JobSpec(lib, s, job);
      && (job.net.latest.None? ==> s' == s && out == Threw(PlainError))
      && (out.Delivered? ==>
            && job.net.latest.Some? && s'.packerLocation.Some?
            && lib.clean(job.net.latest.value) == s'.packerLocation)
  {
    hide Lower, FetchSpec, RecordSpec, VerifyCachedSpec, ReverifySpec;
  }
}
