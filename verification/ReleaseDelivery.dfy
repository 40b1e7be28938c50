/**
 When each download strategy delivers, refuses or fails, in terms of the replies and the requirements alone
 (`packer-installer.ts`, `gpg-verifier.ts`).
 */
module ReleaseDelivery {
  import opened JsText
  import opened ReleaseSource

  // ── The replies ──────────────────────────────────────────────────────────────

  /** The source's inputs are valid and its metadata, where it has any, can be used. */
  predicate Answers(source: Source, net: Network) {
    match source
    case HashiCorp => true
    case Mirror => net.mirrorUrlAccepted && net.mirrorUrlIsHttps
    case Registry =>
      && net.registryUrlAccepted && net.mirrorNameAccepted && net.metadataEgress && net.info.Info?
      && "https://" <= net.info.downloadUrl && (net.info.sha256 == "" || IsDigest(net.info.sha256))
  }

  /** The archive reaches the agent. */
  predicate Arrives(source: Source, net: Network, zip: Bytes) {
    Answers(source, net) && net.platform.Some? && net.downloadEgress && net.download == Downloaded(zip)
  }

  /** The checksums are signed, or are not and need not be. */
  predicate SignatureSuffices(t: Toggles, net: Network) {
    net.signature == Signature(true) || (net.signature == SignatureNotFound && !t.requireGpg)
  }

  /** The file the checksums are looked up for. */
  function FileName(net: Network, version: string): string
    requires net.platform.Some?
  {
    "packer_" + version + "_" + net.platform.value + ".zip"
  }

  /** Some line lists the file with this digest, and no line before it lists the file at all. */
  ghost predicate FirstLists(lines: seq<string>, fileName: string, digest: string) {
    exists k :: 0 <= k < |lines| && Lists(lines[k], fileName, digest)
                && forall j, other :: 0 <= j < k ==> !Lists(lines[j], fileName, other)
  }

  ghost predicate NothingLists(lines: seq<string>, fileName: string) {
    forall k, digest :: 0 <= k < |lines| ==> !Lists(lines[k], fileName, digest)
  }

  /** The source's checksum of the archive is the archive's own. */
  ghost predicate Matches(sha: Bytes -> string, source: Source, net: Network, version: string, zip: Bytes) {
    if source.Registry? then net.info.Info? && net.info.sha256 != "" && Lower(net.info.sha256) == Lower(sha(zip))
    else net.sums.Text? && net.platform.Some? && FirstLists(Split(net.sums.content, '\n'), FileName(net, version), Lower(sha(zip)))
  }

  /** The source has no checksum of the archive. */
  ghost predicate HasNone(source: Source, net: Network, version: string) {
    if source.Registry? then net.info.Info? && net.info.sha256 == ""
    else
      || net.sums == TextNotFound
      || (net.sums.Text? && net.platform.Some? && NothingLists(Split(net.sums.content, '\n'), FileName(net, version)))
  }

  // ── Which line counts ────────────────────────────────────────────────────────

  /** A line lists a file with one digest only. */
  lemma ListsOneDigest(line: string, fileName: string, a: string, b: string)
    requires Lists(line, fileName, a) && Lists(line, fileName, b)
    ensures a == b
  {
    hide Trim, Lower, IsDigest, AllSpace;
    var e, space :| SumsSplit(line, e, space) && Trim(e.name) == fileName && Lower(e.hash) == a;
    var e', space' :| SumsSplit(line, e', space') && Trim(e'.name) == fileName && Lower(e'.hash) == b;
    HashIsHead(line, e, space);
    HashIsHead(line, e', space');
  }

  lemma HashIsHead(line: string, e: SumsEntry, space: string)
    requires SumsSplit(line, e, space)
    ensures |line| >= 64 && e.hash == line[..64]
  {
  }

  /** The search finds the first line that lists the file, and nothing else. */
  lemma {:induction false} FirstListedIsFound(lines: seq<string>, fileName: string, digest: string)
    requires fileName != ""
    ensures FirstLists(lines, fileName, digest) <==> FindChecksum(lines, fileName).Some? && Lower(FindChecksum(lines, fileName).value) == digest
    ensures NothingLists(lines, fileName) <==> FindChecksum(lines, fileName).None?
  {
    hide MatchSumsLine, Trim, Lower, Lists;
    FoundIffListed(lines, fileName);
    if lines != [] {
      FirstListedIsFound(lines[1..], fileName, digest);
      FirstListsStep(lines, fileName, digest);
      HeadIsListed(lines[0], fileName);
      var m := MatchSumsLine(lines[0]);
      if m.Some? && Trim(m.value.name) == fileName { assert Lists(lines[0], fileName, Lower(m.value.hash)); }
    } else {
      assert FindChecksum(lines, fileName).None?;
    }
  }

  /** What the expression makes of one line, by its definition. */
  lemma HeadIsListed(line: string, fileName: string)
    requires fileName != ""
    ensures var m := MatchSumsLine(line);
      forall digest :: Lists(line, fileName, digest) <==> m.Some? && Trim(m.value.name) == fileName && Lower(m.value.hash) == digest
  {
    hide MatchSumsLine, Trim, Lower, SumsSplit;
    var m := MatchSumsLine(line);
    if m.Some? { MatchIsSplit(line); }
    forall digest | Lists(line, fileName, digest) ensures m.Some? && Trim(m.value.name) == fileName && Lower(m.value.hash) == digest {
      var e, space :| SumsSplit(line, e, space) && Trim(e.name) == fileName && Lower(e.hash) == digest;
      SplitIsMatch(line, e, space);
    }
  }

  lemma FirstListsStep(lines: seq<string>, fileName: string, digest: string)
    requires lines != []
    ensures FirstLists(lines, fileName, digest)
            <==> Lists(lines[0], fileName, digest)
                 || ((forall other :: !Lists(lines[0], fileName, other)) && FirstLists(lines[1..], fileName, digest))
  {
    hide Lists;
    if FirstLists(lines, fileName, digest) && !Lists(lines[0], fileName, digest) {
      var k :| 0 <= k < |lines| && Lists(lines[k], fileName, digest) && forall j, other :: 0 <= j < k ==> !Lists(lines[j], fileName, other);
      assert lines[1..][k - 1] == lines[k];
      assert forall j :: 0 <= j < k - 1 ==> lines[1..][j] == lines[j + 1];
    }
    if (forall other :: !Lists(lines[0], fileName, other)) && FirstLists(lines[1..], fileName, digest) {
      var rest := lines[1..];
      var k :| 0 <= k < |rest| && Lists(rest[k], fileName, digest) && forall j, other :: 0 <= j < k ==> !Lists(rest[j], fileName, other);
      assert lines[k + 1] == rest[k];
      assert forall j :: 0 < j < k + 1 ==> lines[j] == rest[j - 1];
    }
  }

  /** What the checksum file says of the archive, as the strategies read it. */
  lemma SumsSay(sha: Bytes -> string, net: Network, version: string, zip: Bytes)
    requires net.sums.Text? && net.platform.Some?
    ensures var lines, name := Split(net.sums.content, '\n'), FileName(net, version);
      var r := ParseSha256Spec(net.sums.content, ZipName(version, net.platform.value));
      && (NothingLists(lines, name) <==> r.Err?) && (r.Err? ==> r.error == VerificationFailure(ChecksumUnavailable))
      && (r.Ok? ==> (FirstLists(lines, name, Lower(sha(zip))) <==> VerifySha256(sha, zip, r.value).Ok?))
      && (r.Ok? && VerifySha256(sha, zip, r.value).Err? ==> VerifySha256(sha, zip, r.value).error == VerificationFailure(ChecksumMismatch))
      && !(NothingLists(lines, name) && FirstLists(lines, name, Lower(sha(zip))))
  {
    hide FindChecksum, Split, Lower, Lists;
    FirstListedIsFound(Split(net.sums.content, '\n'), FileName(net, version), Lower(sha(zip)));
  }

  // ── Delivered, and how ───────────────────────────────────────────────────────

  /** Delivered and verified: the archive arrives, its checksum matches, and the checksums' signature suffices. */
  ghost predicate DeliversVerified(sha: Bytes -> string, source: Source, t: Toggles, net: Network, version: string, zip: Bytes) {
    && Arrives(source, net, zip) && Matches(sha, source, net, version, zip)
    && (source.Registry? || SignatureSuffices(t, net))
  }

  /** Delivered all the same: there is no checksum, and nothing that would need one is required. HashiCorp never does. */
  ghost predicate DeliversUnverified(source: Source, t: Toggles, net: Network, version: string, zip: Bytes) {
    && Arrives(source, net, zip) && HasNone(source, net, version) && !t.requireChecksum
    && match source
       case HashiCorp => false
       case Registry => true
       case Mirror => !t.requireGpg && (net.sums.Text? ==> SignatureSuffices(t, net))
  }

  /** Something could not be had, whatever it would have said. */
  predicate Outage(source: Source, net: Network) {
    || net.download.DownloadError? || !Arrives(source, net, net.download.zip)
    || (!source.Registry? && net.sums == TextError)
    || (source.HashiCorp? && net.sums == TextNotFound)
    || (!source.Registry? && net.sums.Text? && net.signature == SignatureError)
  }

  /**
   Each strategy delivers a verified archive, delivers an unverified one, or fails without a verdict exactly in
   these cases; in all others it refuses with a verification failure.
   */
  lemma StrategyIsExact(sha: Bytes -> string, source: Source, t: Toggles, net: Network, version: string, zip: Bytes)
    ensures var r := FetchSpec(sha, source, t, net, version).result;
      && (r == Ok(DownloadedZip(zip, true)) <==> DeliversVerified(sha, source, t, net, version, zip))
      && (r == Ok(DownloadedZip(zip, false)) <==> DeliversUnverified(source, t, net, version, zip))
      && (r == Err(PlainError) <==> Outage(source, net))
  {
    hide FetchSpec, DeliversVerified, DeliversUnverified, Outage;
    match source
    case HashiCorp => HashiCorpIsExact(sha, t, net, version, zip);
    case Mirror => MirrorIsExact(sha, t, net, version, zip);
    case Registry => RegistryIsExact(sha, t, net, version, zip);
  }

  lemma RegistryIsExact(sha: Bytes -> string, t: Toggles, net: Network, version: string, zip: Bytes)
    ensures var r := FetchSpec(sha, Registry, t, net, version).result;
      && (r == Ok(DownloadedZip(zip, true)) <==> DeliversVerified(sha, Registry, t, net, version, zip))
      && (r == Ok(DownloadedZip(zip, false)) <==> DeliversUnverified(Registry, t, net, version, zip))
      && (r == Err(PlainError) <==> Outage(Registry, net))
  {
    hide IsDigest, Lower;
  }

  lemma HashiCorpIsExact(sha: Bytes -> string, t: Toggles, net: Network, version: string, zip: Bytes)
    ensures var r := FetchSpec(sha, HashiCorp, t, net, version).result;
      && (r == Ok(DownloadedZip(zip, true)) <==> DeliversVerified(sha, HashiCorp, t, net, version, zip))
      && (r == Ok(DownloadedZip(zip, false)) <==> DeliversUnverified(HashiCorp, t, net, version, zip))
      && (r == Err(PlainError) <==> Outage(HashiCorp, net))
  {
    hide ParseSha256Spec, VerifySha256, ZipName, IsDigest, Split, Lower, FirstLists, NothingLists, FileName;
    if net.sums.Text? && net.platform.Some? {
      SumsSay(sha, net, version, zip);
      if net.download.Downloaded? { SumsSay(sha, net, version, net.download.zip); }
    }
  }

  lemma MirrorIsExact(sha: Bytes -> string, t: Toggles, net: Network, version: string, zip: Bytes)
    ensures var r := FetchSpec(sha, Mirror, t, net, version).result;
      && (r == Ok(DownloadedZip(zip, true)) <==> DeliversVerified(sha, Mirror, t, net, version, zip))
      && (r == Ok(DownloadedZip(zip, false)) <==> DeliversUnverified(Mirror, t, net, version, zip))
      && (r == Err(PlainError) <==> Outage(Mirror, net))
  {
    hide ParseSha256Spec, VerifySha256, ZipName, IsDigest, Split, Lower, FirstLists, NothingLists, FileName;
    if net.sums.Text? && net.platform.Some? {
      SumsSay(sha, net, version, zip);
      if net.download.Downloaded? { SumsSay(sha, net, version, net.download.zip); }
    }
  }

  // ── Refused, and what is left behind and said ────────────────────────────────

  /** The source's checksum is there and is another one. */
  ghost predicate Contradicts(sha: Bytes -> string, source: Source, net: Network, version: string, zip: Bytes) {
    && !Matches(sha, source, net, version, zip) && !HasNone(source, net, version)
    && (source.Registry? || (net.sums.Text? && net.platform.Some?))
  }

  /**
   Which refusal it is: a checksum that differs, one that HashiCorp does not list, or else a requirement. And the archive
   is removed from the agent exactly when it differs, is not covered by a signature that must or should cover it, or is not listed by HashiCorp.
   */
  lemma RefusalIsExact(sha: Bytes -> string, source: Source, t: Toggles, net: Network, version: string, zip: Bytes)
    requires Arrives(source, net, zip)
    ensures var f, read := FetchSpec(sha, source, t, net, version), source.Registry? || (net.sums.Text? && SignatureSuffices(t, net));
      && (f.result == Err(VerificationFailure(ChecksumMismatch)) <==> read && Contradicts(sha, source, net, version, zip))
      && (f.result == Err(VerificationFailure(ChecksumUnavailable)) <==> read && source.HashiCorp? && HasNone(source, net, version))
      && (f.left == [] || f.left == [zip])
      && (f.left == [] <==>
            || (read && Contradicts(sha, source, net, version, zip)) || (read && source.HashiCorp? && HasNone(source, net, version))
            || (!source.Registry? && net.sums.Text? && !SignatureSuffices(t, net)))
  {
    hide ParseSha256Spec, VerifySha256, ZipName, IsDigest, Split, Lower, FirstLists, NothingLists, FileName;
    if net.sums.Text? { SumsSay(sha, net, version, zip); }
    if source.Registry? { RegistryCompares(sha, net, zip); }
  }

  lemma RegistryCompares(sha: Bytes -> string, net: Network, zip: Bytes)
    requires net.info.Info?
    ensures var r := VerifySha256(sha, zip, net.info.sha256);
      && (r.Ok? <==> Lower(net.info.sha256) == Lower(sha(zip))) && (r.Err? ==> r.error == VerificationFailure(ChecksumMismatch))
  {
    hide Lower;
  }

  /** Nothing is left of an archive that did not arrive. */
  lemma NothingArrivedNothingLeft(sha: Bytes -> string, source: Source, t: Toggles, net: Network, version: string)
    requires net.download.Downloaded? ==> !Arrives(source, net, net.download.zip)
    ensures FetchSpec(sha, source, t, net, version) == Fetch(Err(PlainError), [], [])
  {
    hide IsDigest;
  }

  /** A delivery is silent exactly when signed checksums cover the archive; otherwise each weakness is named. */
  lemma WeaknessesAreDisclosed(sha: Bytes -> string, source: Source, t: Toggles, net: Network, version: string)
    requires FetchSpec(sha, source, t, net, version).result.Ok?
    ensures var f := FetchSpec(sha, source, t, net, version);
      var verified, unsigned := f.result.value.verified, !source.Registry? && net.sums.Text? && net.signature == SignatureNotFound;
      && (f.warnings == [] <==> !source.Registry? && verified && net.signature == Signature(true))
      && (GpgSkippedChecksumOnly in f.warnings <==> unsigned) && (SignatureUnavailable in f.warnings <==> unsigned)
      && (RegistryChecksumOnly in f.warnings <==> source.Registry? && verified)
      && (RegistryUnverified in f.warnings <==> source.Registry? && !verified)
      && (MirrorPublishesNoSums in f.warnings <==> source.Mirror? && net.sums == TextNotFound)
      && (MirrorDoesNotList in f.warnings <==> source.Mirror? && net.sums.Text? && !verified)
      && CacheReverificationUnavailable !in f.warnings
  {
    hide ParseSha256Spec, VerifySha256, ZipName, IsDigest;
  }
}
