/**
 The installer on a persistent agent (`packer-installer.ts`): the tool cache with its sidecar
 records, the fresh install, the cache hit and its two layers of re-verification, and the atomic
 recording of a digest, with a crash possible at any point of it.
 */
module Installer {
  import opened JsText
  import opened ReleaseSource

  // ── The agent's persistent state ─────────────────────────────────────────────

  /** A cached version: its executable, if the archive held one, and the text beside it. */
  datatype Entry = Entry(binary: Option<Bytes>, sidecar: Option<string>)

  /** What unpacking an archive yields. */
  datatype Folder = Corrupt | Folder(binary: Option<Bytes>, sidecar: Option<string>)

  datatype Origin = FromCache | FromSource(source: Source)

  datatype State = State(
    cache: map<string, Entry>,
    archives: seq<Bytes>,          // downloaded archives left in the temp directory
    temps: seq<string>,            // sidecar temp files left by a crash
    warnings: seq<Warning>,
    downloadedFrom: Option<Origin>,
    packerLocation: Option<string>)

  /** The library functions the installer calls: SHA-256, unzip, semantic-version cleaning. */
  datatype Library = Library(
    sha: Bytes -> string,
    unzip: Bytes -> Folder,
    clean: string -> Option<string>)

  /** What the file system does while a digest is recorded. */
  datatype Fault = NoFault | ReadFails | WriteFails | RenameFails | CrashInWrite(written: nat) | CrashBeforeRename

  datatype Job = Job(source: Source, toggles: Toggles, inputVersion: string, net: Network,
                     sidecarReadable: bool, fault: Fault)

  /** How a job ends; a delivered binary is the one at `packerLocation`. */
  datatype Outcome = Delivered(binary: Bytes) | Threw(error: Error) | Crashed

  // ── Recording a digest: temp file, then rename ───────────────────────────────

  /** The entry, the temp files and whether the job survives, after recording `binary`'s digest. */
  function RecordSpec(lib: Library, e: Entry, binary: Bytes, fault: Fault): (Entry, seq<string>, bool) {
    var digest := lib.sha(binary);
    match fault
    case NoFault => (e.(sidecar := Some(digest)), [], true)
    case ReadFails => (e, [], true)
    case WriteFails => (e, [], true)
    case RenameFails => (e, [], true)
    case CrashInWrite(n) => (e, [if n <= |digest| then digest[..n] else digest], false)
    case CrashBeforeRename => (e, [digest], false)
  }

  // ── The offline check of a cache hit ─────────────────────────────────────────

  /** The digest recorded for an entry, if its sidecar exists, can be read and is well formed. */
  function UsableRecord(e: Entry, readable: bool): Option<string> {
    if e.sidecar.Some? && readable && IsDigest(Trim(e.sidecar.value)) then Some(Trim(e.sidecar.value)) else None
  }

  function VerifyCachedSpec(lib: Library, e: Entry, binary: Bytes, readable: bool): Result<bool> {
    match UsableRecord(e, readable)
    case None => Ok(false)
    case Some(recorded) =>
      var check := VerifySha256(lib.sha, binary, recorded);
      if check.Err? then Err(check.error) else Ok(true)
  }

  // ── The online check ─────────────────────────────────────────────────────────

  /** What the re-verification of a cached binary decides before anything is recorded. */
  datatype Reverify = Skipped | Degraded(warnings: seq<Warning>, left: seq<Bytes>)
    | Refused(error: Error, warnings: seq<Warning>, left: seq<Bytes>)
    | Matched(warnings: seq<Warning>, left: seq<Bytes>)

  function ReverifySpec(lib: Library, job: Job, version: string, binary: Bytes): Reverify {
    if !job.toggles.requireChecksum then Skipped
    else
      var f := FetchSpec(lib.sha, job.source, job.toggles, job.net, version);
      match f.result
      case Err(e) =>
        if e.VerificationFailure? then Refused(e, f.warnings, f.left)
        else if job.toggles.requireOnline then Refused(PlainError, f.warnings, f.left)
        else Degraded(f.warnings + [CacheReverificationUnavailable], f.left)
      case Ok(z) =>
        var folder := lib.unzip(z.zip);
        if folder.Corrupt? || folder.binary.None? then Refused(PlainError, f.warnings, f.left)
        else if Lower(lib.sha(folder.binary.value)) != Lower(lib.sha(binary)) then Refused(PlainError, f.warnings, f.left)
        else Matched(f.warnings, f.left)
  }

  // ── One job ──────────────────────────────────────────────────────────────────

  function ResolveSpec(job: Job): Result<string> {
    if job.source.Registry? && (!job.net.registryUrlAccepted || !job.net.mirrorNameAccepted) then Err(PlainError)
    else if Lower(job.inputVersion) != "latest" then Ok(job.inputVersion)
    else if job.source.Registry? && !job.net.metadataEgress then Err(PlainError)
    else if job.net.latest.None? then Err(PlainError)
    else Ok(job.net.latest.value)
  }

  function RecordIn(lib: Library, s: State, version: string, binary: Bytes, fault: Fault): (State, bool)
    requires version in s.cache
  {
    var (e, temps, alive) := RecordSpec(lib, s.cache[version], binary, fault);
    (s.(cache := s.cache[version := e], temps := s.temps + temps), alive)
  }

  function Deliver(s: State, version: string, binary: Bytes, alive: bool): (State, Outcome) {
    if alive then (s.(packerLocation := Some(version)), Delivered(binary)) else (s, Crashed)
  }

  /** The state, the error thrown if any, and whether the job survives, after a re-verification. */
  function AfterReverify(lib: Library, s: State, job: Job, version: string, binary: Bytes): (State, Option<Error>, bool)
    requires version in s.cache
  {
    var reverify := ReverifySpec(lib, job, version, binary);
    if reverify.Skipped? then (s, None, true)
    else
      var said := s.(warnings := s.warnings + reverify.warnings, archives := s.archives + reverify.left,
                     downloadedFrom := Some(FromCache));
      match reverify
      case Degraded(_, _) => (said, None, true)
      case Refused(error, _, _) => (said, Some(error), true)
      case Matched(_, _) =>
        var (recorded, alive) := RecordIn(lib, said, version, binary, job.fault);
        (recorded, None, alive)
  }

  function HitSpec(lib: Library, s0: State, job: Job, version: string): (State, Outcome)
    requires version in s0.cache
  {
    var s := s0.(downloadedFrom := Some(FromCache));
    var e := s.cache[version];
    if e.binary.None? then (s, Threw(PlainError))
    else
      var binary := e.binary.value;
      var record := VerifyCachedSpec(lib, e, binary, job.sidecarReadable);
      if record.Err? then (s, Threw(record.error))
      else if record.value && !job.toggles.forceOnline then Deliver(s, version, binary, true)
      else
        var (s1, failure, alive) := AfterReverify(lib, s, job, version, binary);
        if failure.Some? then (s1, Threw(failure.value)) else Deliver(s1, version, binary, alive)
  }

  function MissSpec(lib: Library, s0: State, job: Job, version: string): (State, Outcome) {
    var f := FetchSpec(lib.sha, job.source, job.toggles, job.net, version);
    var s := s0.(warnings := s0.warnings + f.warnings, archives := s0.archives + f.left);
    match f.result
    case Err(error) => (s, Threw(error))
    case Ok(z) =>
      var folder := lib.unzip(z.zip);
      var s1 := s.(downloadedFrom := Some(FromSource(job.source)));
      if folder.Corrupt? then (s1, Threw(PlainError))
      else
        var s2 := s1.(cache := s1.cache[version := Entry(folder.binary, folder.sidecar)]);
        if folder.binary.None? then (s2, Threw(PlainError))
        else if !z.verified then Deliver(s2, version, folder.binary.value, true)
        else
          var (s3, alive) := RecordIn(lib, s2, version, folder.binary.value, job.fault);
          Deliver(s3, version, folder.binary.value, alive)
  }

  /** The cache key a job works on, if its version resolves. */
  function VersionOf(lib: Library, job: Job): Result<string> {
    var resolved := ResolveSpec(job);
    if resolved.Err? then Err(resolved.error)
    else
      match lib.clean(resolved.value)
      case None => Err(PlainError)
      case Some(version) => Ok(version)
  }

  function JobSpec(lib: Library, s: State, job: Job): (State, Outcome) {
    match VersionOf(lib, job)
    case Err(error) => (s, Threw(error))
    case Ok(version) => if version in s.cache then HitSpec(lib, s, job, version) else MissSpec(lib, s, job, version)
  }

  // ── The code ─────────────────────────────────────────────────────────────────

  class Agent {
    const lib: Library
    var cache: map<string, Entry>
    var archives: seq<Bytes>
    var temps: seq<string>
    var warnings: seq<Warning>
    var downloadedFrom: Option<Origin>
    var packerLocation: Option<string>

    ghost function Now(): State
      reads this
    {
      State(cache, archives, temps, warnings, downloadedFrom, packerLocation)
    }

    constructor (lib: Library)
      ensures this.lib == lib && Now() == State(map[], [], [], [], None, None)
    {
      this.lib := lib;
      cache, archives, temps, warnings := map[], [], [], [];
      downloadedFrom, packerLocation := None, None;
    }

    /** `discardArtifactOnFailure`: the archive downloaded last is removed. */
    method Discard()
      requires archives != []
      modifies this`archives
      ensures archives == old(archives)[..|old(archives)| - 1]
    {
      archives := archives[..|archives| - 1];
    }

    method Warn(w: seq<Warning>)
      modifies this`warnings
      ensures warnings == old(warnings) + w
    {
      warnings := warnings + w;
    }

    method DownloadZipFromHashiCorp(t: Toggles, net: Network, version: string) returns (r: Result<DownloadedZip>)
      modifies this`archives, this`warnings
      ensures var f := HashiCorpSpec(lib.sha, t, net, version);
        r == f.result && archives == old(archives) + f.left && warnings == old(warnings) + f.warnings
    {
      hide ParseSha256Spec, VerifySha256, ZipName;
      if net.platform.None? || !net.downloadEgress { return Err(PlainError); }
      if net.download.DownloadError? { return Err(PlainError); }
      var zip := net.download.zip;
      archives := archives + [zip];
      if !net.sums.Text? { return Err(PlainError); }
      var gpg := VerifyGpgSignature(net.signature, t.requireGpg);
      if gpg.Err? {
        Discard();
        return Err(gpg.error);
      }
      Warn(GpgWarning(net.signature));
      var expected := ParseSha256(net.sums.content, ZipName(version, net.platform.value));
      if expected.Err? {
        Discard();
        return Err(expected.error);
      }
      var check := VerifySha256(lib.sha, zip, expected.value);
      if check.Err? {
        Discard();
        return Err(check.error);
      }
      if !gpg.value { Warn([GpgSkippedChecksumOnly]); }
      r := Ok(DownloadedZip(zip, true));
    }

    method DownloadZipFromRegistry(t: Toggles, net: Network) returns (r: Result<DownloadedZip>)
      modifies this`archives, this`warnings
      ensures var f := RegistrySpec(lib.sha, t, net);
        r == f.result && archives == old(archives) + f.left && warnings == old(warnings) + f.warnings
    {
      hide VerifySha256, IsDigest;
      if net.platform.None? || !net.metadataEgress || !net.info.Info? { return Err(PlainError); }
      if !StartsWith(net.info.downloadUrl, "https://") { return Err(PlainError); }
      if net.info.sha256 != "" && !IsDigest(net.info.sha256) { return Err(PlainError); }
      if !net.downloadEgress || net.download.DownloadError? { return Err(PlainError); }
      var zip := net.download.zip;
      archives := archives + [zip];
      if net.info.sha256 != "" {
        var check := VerifySha256(lib.sha, zip, net.info.sha256);
        if check.Err? {
          Discard();
          return Err(check.error);
        }
        Warn([RegistryChecksumOnly]);
        return Ok(DownloadedZip(zip, true));
      }
      if t.requireChecksum { return Err(VerificationFailure(PolicyFailure)); }
      Warn([RegistryUnverified]);
      r := Ok(DownloadedZip(zip, false));
    }

    method DownloadZipFromMirror(t: Toggles, net: Network, version: string) returns (r: Result<DownloadedZip>)
      modifies this`archives, this`warnings
      ensures var f := MirrorSpec(lib.sha, t, net, version);
        r == f.result && archives == old(archives) + f.left && warnings == old(warnings) + f.warnings
    {
      hide ParseSha256Spec, VerifySha256, ZipName;
      if !net.mirrorUrlIsHttps || net.platform.None? || !net.downloadEgress { return Err(PlainError); }
      if net.download.DownloadError? { return Err(PlainError); }
      var zip := net.download.zip;
      archives := archives + [zip];
      if net.sums.TextError? { return Err(PlainError); }
      if net.sums.TextNotFound? {
        if t.requireChecksum { return Err(VerificationFailure(PolicyFailure)); }
        if t.requireGpg { return Err(VerificationFailure(PolicyFailure)); }
        Warn([MirrorPublishesNoSums]);
        return Ok(DownloadedZip(zip, false));
      }
      var gpg := VerifyGpgSignature(net.signature, t.requireGpg);
      if gpg.Err? {
        Discard();
        return Err(gpg.error);
      }
      Warn(GpgWarning(net.signature));
      if !gpg.value { Warn([GpgSkippedChecksumOnly]); }
      var expected := ParseSha256(net.sums.content, ZipName(version, net.platform.value));
      ParseFailsAsUnavailable(net.sums.content, ZipName(version, net.platform.value));
      if expected.Err? {
        if t.requireChecksum { return Err(VerificationFailure(PolicyFailure)); }
        if t.requireGpg { return Err(VerificationFailure(PolicyFailure)); }
        Warn([MirrorDoesNotList]);
        return Ok(DownloadedZip(zip, false));
      }
      var check := VerifySha256(lib.sha, zip, expected.value);
      if check.Err? {
        Discard();
        return Err(check.error);
      }
      r := Ok(DownloadedZip(zip, true));
    }

    /** Dispatch on the source, with the validation of its inputs. */
    method Download(job: Job, version: string) returns (r: Result<DownloadedZip>)
      modifies this`archives, this`warnings
      ensures var f := FetchSpec(lib.sha, job.source, job.toggles, job.net, version);
        r == f.result && archives == old(archives) + f.left && warnings == old(warnings) + f.warnings
    {
      hide HashiCorpSpec, RegistrySpec, MirrorSpec;
      match job.source {
        case Registry =>
          if !job.net.registryUrlAccepted || !job.net.mirrorNameAccepted { return Err(PlainError); }
          r := DownloadZipFromRegistry(job.toggles, job.net);
        case Mirror =>
          if !job.net.mirrorUrlAccepted { return Err(PlainError); }
          r := DownloadZipFromMirror(job.toggles, job.net, version);
        case HashiCorp =>
          r := DownloadZipFromHashiCorp(job.toggles, job.net, version);
      }
    }

    /** `alive` is false when the job is killed while it records. */
    method RecordCachedBinaryHash(version: string, binary: Bytes, fault: Fault) returns (alive: bool)
      requires version in cache
      modifies this`cache, this`temps
      ensures (Now(), alive) == RecordIn(lib, old(Now()), version, binary, fault)
    {
      assert temps + [] == temps && cache[version := cache[version]] == cache;
      if fault.ReadFails? { return true; }
      var digest := lib.sha(binary);
      if fault.CrashInWrite? {
        temps := temps + [if fault.written <= |digest| then digest[..fault.written] else digest];
        return false;
      }
      if fault.WriteFails? { return true; } // the temp file, if any, is unlinked
      temps := temps + [digest];
      if fault.CrashBeforeRename? { return false; }
      temps := temps[..|temps| - 1]; // renamed into place, or unlinked
      assert temps == old(temps);
      if fault.RenameFails? { return true; }
      cache := cache[version := cache[version].(sidecar := Some(digest))];
      alive := true;
    }

    method VerifyCachedBinaryHash(version: string, binary: Bytes, readable: bool) returns (r: Result<bool>)
      requires version in cache
      ensures r == VerifyCachedSpec(lib, cache[version], binary, readable)
    {
      hide Trim, IsDigest;
      var sidecar := cache[version].sidecar;
      if sidecar.None? || !readable { return Ok(false); }
      var recordedHash := Trim(sidecar.value);
      if !IsDigest(recordedHash) { return Ok(false); }
      var check := VerifySha256(lib.sha, binary, recordedHash);
      if check.Err? { return Err(check.error); }
      r := Ok(true);
    }

    /** `failure` is the error thrown, if any; `alive` is false when the job is killed while recording. */
    method ReverifyUnmarkedCacheEntry(job: Job, version: string, binary: Bytes)
      returns (failure: Option<Error>, alive: bool)
      requires version in cache
      modifies this
      ensures (Now(), failure, alive) == AfterReverify(lib, old(Now()), job, version, binary)
    {
      hide FetchSpec, RecordSpec;
      failure, alive := None, true;
      if !job.toggles.requireChecksum { return; }
      var fetched := Download(job, version);
      downloadedFrom := Some(FromCache);
      if fetched.Err? {
        if fetched.error.VerificationFailure? { return Some(fetched.error), true; }
        if job.toggles.requireOnline { return Some(PlainError), true; }
        Warn([CacheReverificationUnavailable]);
        ghost var said := FetchSpec(lib.sha, job.source, job.toggles, job.net, version).warnings;
        assert warnings == old(warnings) + (said + [CacheReverificationUnavailable]);
        return;
      }
      var folder := lib.unzip(fetched.value.zip);
      if folder.Corrupt? || folder.binary.None? { return Some(PlainError), true; }
      if Lower(lib.sha(folder.binary.value)) != Lower(lib.sha(binary)) { return Some(PlainError), true; }
      alive := RecordCachedBinaryHash(version, binary, job.fault);
    }

    method ResolveVersion(job: Job) returns (r: Result<string>)
      ensures r == ResolveSpec(job)
    {
      if job.source.Registry? && (!job.net.registryUrlAccepted || !job.net.mirrorNameAccepted) { return Err(PlainError); }
      if Lower(job.inputVersion) != "latest" { return Ok(job.inputVersion); }
      if job.source.Registry? && !job.net.metadataEgress { return Err(PlainError); }
      if job.net.latest.None? { return Err(PlainError); }
      r := Ok(job.net.latest.value);
    }

    method DownloadPacker(job: Job) returns (r: Outcome)
      modifies this
      ensures (Now(), r) == JobSpec(lib, old(Now()), job)
    {
      hide FetchSpec, RecordSpec, ReverifySpec, VerifyCachedSpec, ResolveSpec;
      var resolved := ResolveVersion(job);
      if resolved.Err? { return Threw(resolved.error); }
      var cleaned := lib.clean(resolved.value);
      if cleaned.None? { return Threw(PlainError); }
      var version := cleaned.value;
      var wasCached := version in cache;
      var verified := false;
      if !wasCached {
        var fetched := Download(job, version);
        if fetched.Err? { return Threw(fetched.error); }
        verified := fetched.value.verified;
        downloadedFrom := Some(FromSource(job.source));
        var folder := lib.unzip(fetched.value.zip);
        if folder.Corrupt? { return Threw(PlainError); }
        cache := cache[version := Entry(folder.binary, folder.sidecar)];
      } else {
        downloadedFrom := Some(FromCache);
      }
      if cache[version].binary.None? { return Threw(PlainError); }
      var binary := cache[version].binary.value;
      if wasCached {
        var recordVerified := VerifyCachedBinaryHash(version, binary, job.sidecarReadable);
        if recordVerified.Err? { return Threw(recordVerified.error); }
        if !recordVerified.value || job.toggles.forceOnline {
          var failure, alive := ReverifyUnmarkedCacheEntry(job, version, binary);
          if failure.Some? { return Threw(failure.value); }
          if !alive { return Crashed; }
        }
      } else if verified {
        var alive := RecordCachedBinaryHash(version, binary, job.fault);
        if !alive { return Crashed; }
      }
      packerLocation := Some(version);
      r := Delivered(binary);
    }
  }

  /** Parsing a checksum file has one way to fail. */
  lemma ParseFailsAsUnavailable(content: string, fileName: string)
    ensures var r := ParseSha256Spec(content, fileName);
      r.Err? ==> r.error == VerificationFailure(ChecksumUnavailable)
  {
  }
}
