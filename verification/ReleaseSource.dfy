/**
 The installer's download strategies (`packer-installer.ts`, `gpg-verifier.ts`): how an archive from
 HashiCorp, a mirror or a private registry is fetched and checked, with the error types as thrown.
 Network replies are an oracle; SHA-256 is any function from bytes to 64 lower-case hex digits.
 */
module ReleaseSource {
  import opened JsText

  type Bytes = seq<bv8>

  // ── Errors: only their class decides what a caller does with them ────────────

  datatype FailureKind = ChecksumMismatch | ChecksumUnavailable | PolicyFailure

  /** `isVerificationFailure(error)` is `error.VerificationFailure?`. */
  datatype Error = VerificationFailure(kind: FailureKind) | PlainError

  datatype Result<+T> = Ok(value: T) | Err(error: Error)

  datatype Warning =
    | SignatureUnavailable
    | GpgSkippedChecksumOnly
    | RegistryChecksumOnly
    | RegistryUnverified
    | MirrorPublishesNoSums
    | MirrorDoesNotList
    | CacheReverificationUnavailable

  // ── Inputs and replies ───────────────────────────────────────────────────────

  datatype Source = HashiCorp | Mirror | Registry

  datatype Toggles = Toggles(requireChecksum: bool, requireGpg: bool, forceOnline: bool, requireOnline: bool)

  datatype TextReply = Text(content: string) | TextNotFound | TextError

  /** A signature file that is there either verifies against the pinned key or does not. */
  datatype SignatureReply = Signature(verifies: bool) | SignatureNotFound | SignatureError

  datatype DownloadReply = Downloaded(zip: Bytes) | DownloadError

  datatype InfoReply = Info(downloadUrl: string, sha256: string) | InfoInvalid | InfoError

  /** What validation of the inputs and the network answer during one job. */
  datatype Network = Network(
    platform: Option<string>,      // "<os>_<arch>", or none when the agent is not supported
    latest: Option<string>,        // the version endpoint's answer, none when it fails or is malformed
    registryUrlAccepted: bool,
    mirrorNameAccepted: bool,
    mirrorUrlAccepted: bool,
    mirrorUrlIsHttps: bool,
    metadataEgress: bool,
    downloadEgress: bool,
    info: InfoReply,
    download: DownloadReply,
    sums: TextReply,
    signature: SignatureReply)

  // ── SHA-256 and the checksum file ────────────────────────────────────────────

  /** `SHA256_HEX_PATTERN` */
  predicate IsDigest(s: string) { |s| == 64 && forall k :: 0 <= k < |s| ==> IsHex(s[k]) }

  predicate IsLowerHex(c: char) { IsDigit(c) || 'a' <= c <= 'f' }

  /** What is assumed of SHA-256: its hex digest is 64 lower-case digits. */
  ghost predicate IsHash(sha: Bytes -> string) {
    forall b :: |sha(b)| == 64 && forall k :: 0 <= k < 64 ==> IsLowerHex(sha(b)[k])
  }

  lemma LowerDigest(sha: Bytes -> string, b: Bytes)
    requires IsHash(sha)
    ensures Lower(sha(b)) == sha(b) && IsDigest(sha(b))
  {
  }

  datatype SumsEntry = SumsEntry(hash: string, name: string)

  /** `/^([a-fA-F0-9]{64})\s+(.+)$/` as a relation: some split of the line matches. */
  predicate SumsSplit(line: string, e: SumsEntry, space: string) {
    && line == e.hash + space + e.name
    && IsDigest(e.hash)
    && space != "" && AllSpace(space)
    && e.name != "" && forall k :: 0 <= k < |e.name| ==> !IsLineTerminator(e.name[k])
  }

  predicate OneLiner(s: string) { forall k :: 0 <= k < |s| ==> !IsLineTerminator(s[k]) }

  /** The match the expression engine returns: white space is taken greedily and given back last. */
  function MatchSumsLine(line: string): Option<SumsEntry> {
    if |line| <= 64 || !IsDigest(line[..64]) then None
    else
      var tail := line[64..];
      var n := LeadingSpaces(tail);
      if n == 0 then None
      else if n < |tail| then
        if OneLiner(tail[n..]) then Some(SumsEntry(line[..64], tail[n..])) else None
      else if n >= 2 && OneLiner(tail[n - 1..]) then Some(SumsEntry(line[..64], tail[n - 1..]))
      else None
  }

  function FindChecksum(lines: seq<string>, fileName: string): Option<string> {
    if lines == [] then None
    else
      var m := MatchSumsLine(lines[0]);
      if m.Some? && Trim(m.value.name) == fileName then Some(m.value.hash)
      else FindChecksum(lines[1..], fileName)
  }

  function ParseSha256Spec(content: string, fileName: string): Result<string> {
    match FindChecksum(Split(content, '\n'), fileName)
    case Some(hash) => Ok(hash)
    case None => Err(VerificationFailure(ChecksumUnavailable))
  }

  method ParseSha256(content: string, fileName: string) returns (r: Result<string>)
    ensures r == ParseSha256Spec(content, fileName)
  {
    hide MatchSumsLine, Trim, Split;
    var lines := Split(content, '\n');
    for i := 0 to |lines|
      invariant FindChecksum(lines, fileName) == FindChecksum(lines[i..], fileName)
    {
      assert lines[i..][1..] == lines[i + 1..];
      var m := MatchSumsLine(lines[i]);
      if m.Some? && Trim(m.value.name) == fileName { return Ok(m.value.hash); }
    }
    r := Err(VerificationFailure(ChecksumUnavailable));
  }

  function VerifySha256(sha: Bytes -> string, file: Bytes, expected: string): Result<()> {
    if Lower(sha(file)) != Lower(expected) then Err(VerificationFailure(ChecksumMismatch)) else Ok(())
  }

  // ── The GPG decision ─────────────────────────────────────────────────────────

  function VerifyGpgSignature(reply: SignatureReply, required: bool): Result<bool> {
    match reply
    case SignatureError => Err(PlainError)
    case SignatureNotFound => if required then Err(VerificationFailure(PolicyFailure)) else Ok(false)
    case Signature(verifies) => if verifies then Ok(true) else Err(VerificationFailure(PolicyFailure))
  }

  /** The warning given where an absent signature is tolerated. */
  function GpgWarning(reply: SignatureReply): seq<Warning> {
    if reply.SignatureNotFound? then [SignatureUnavailable] else []
  }

  /** The caller's disclosure that the checksums were not authenticated. */
  function GpgDisclosure(reply: SignatureReply): seq<Warning> {
    if reply.SignatureNotFound? then [GpgSkippedChecksumOnly] else []
  }

  // ── The strategies ───────────────────────────────────────────────────────────

  datatype DownloadedZip = DownloadedZip(zip: Bytes, verified: bool)

  /** A strategy's result, the warnings it gave, and the archives it left in the temp directory. */
  datatype Fetch = Fetch(result: Result<DownloadedZip>, warnings: seq<Warning>, left: seq<Bytes>)

  function Fail(e: Error, left: seq<Bytes>): Fetch { Fetch(Err(e), [], left) }

  function Refuse(left: seq<Bytes>): Fetch { Fail(VerificationFailure(PolicyFailure), left) }

  function ZipName(version: string, platform: string): string {
    "packer_" + version + "_" + platform + ".zip"
  }

  function HashiCorpSpec(sha: Bytes -> string, t: Toggles, net: Network, version: string): Fetch {
    if net.platform.None? || !net.downloadEgress || net.download.DownloadError? then Fail(PlainError, [])
    else
      var zip := net.download.zip;
      if !net.sums.Text? then Fail(PlainError, [zip])
      else
        var gpg := VerifyGpgSignature(net.signature, t.requireGpg);
        if gpg.Err? then Fail(gpg.error, [])
        else
          var expected := ParseSha256Spec(net.sums.content, ZipName(version, net.platform.value));
          if expected.Err? then Fetch(Err(expected.error), GpgWarning(net.signature), [])
          else
            var check := VerifySha256(sha, zip, expected.value);
            if check.Err? then Fetch(Err(check.error), GpgWarning(net.signature), [])
            else Fetch(Ok(DownloadedZip(zip, true)), GpgWarning(net.signature) + GpgDisclosure(net.signature), [zip])
  }

  function RegistrySpec(sha: Bytes -> string, t: Toggles, net: Network): Fetch {
    if net.platform.None? || !net.metadataEgress || !net.info.Info? then Fail(PlainError, [])
    else if !("https://" <= net.info.downloadUrl) then Fail(PlainError, [])
    else if net.info.sha256 != "" && !IsDigest(net.info.sha256) then Fail(PlainError, [])
    else if !net.downloadEgress || net.download.DownloadError? then Fail(PlainError, [])
    else
      var zip := net.download.zip;
      if net.info.sha256 != "" then
        var check := VerifySha256(sha, zip, net.info.sha256);
        if check.Err? then Fail(check.error, [])
        else Fetch(Ok(DownloadedZip(zip, true)), [RegistryChecksumOnly], [zip])
      else if t.requireChecksum then Refuse([zip])
      else Fetch(Ok(DownloadedZip(zip, false)), [RegistryUnverified], [zip])
  }

  function MirrorSpec(sha: Bytes -> string, t: Toggles, net: Network, version: string): Fetch {
    if !net.mirrorUrlIsHttps || net.platform.None? || !net.downloadEgress || net.download.DownloadError?
    then Fail(PlainError, [])
    else
      var zip := net.download.zip;
      match net.sums
      case TextError => Fail(PlainError, [zip])
      case TextNotFound =>
        if t.requireChecksum || t.requireGpg then Refuse([zip])
        else Fetch(Ok(DownloadedZip(zip, false)), [MirrorPublishesNoSums], [zip])
      case Text(content) =>
        var gpg := VerifyGpgSignature(net.signature, t.requireGpg);
        if gpg.Err? then Fail(gpg.error, [])
        else
          var said := GpgWarning(net.signature) + GpgDisclosure(net.signature);
          var expected := ParseSha256Spec(content, ZipName(version, net.platform.value));
          if expected.Err? then
            if t.requireChecksum || t.requireGpg
            then Fetch(Err(VerificationFailure(PolicyFailure)), said, [zip])
            else Fetch(Ok(DownloadedZip(zip, false)), said + [MirrorDoesNotList], [zip])
          else
            var check := VerifySha256(sha, zip, expected.value);
            if check.Err? then Fetch(Err(check.error), said, [])
            else Fetch(Ok(DownloadedZip(zip, true)), said, [zip])
  }

  /** The strategy the source selects, with the validation of its inputs that precedes it. */
  function FetchSpec(sha: Bytes -> string, source: Source, t: Toggles, net: Network, version: string): Fetch {
    match source
    case Registry =>
      if !net.registryUrlAccepted || !net.mirrorNameAccepted then Fail(PlainError, []) else RegistrySpec(sha, t, net)
    case Mirror => if !net.mirrorUrlAccepted then Fail(PlainError, []) else MirrorSpec(sha, t, net, version)
    case HashiCorp => HashiCorpSpec(sha, t, net, version)
  }

  // ── What the strategies guarantee ────────────────────────────────────────────

  /** The archive's digest is one that the source published for it, whatever the case of its letters. */
  ghost predicate PublishedFor(sha: Bytes -> string, source: Source, net: Network, version: string, zip: Bytes) {
    if source.Registry? then net.info.Info? && IsDigest(net.info.sha256) && Lower(net.info.sha256) == Lower(sha(zip))
    else
      && net.sums.Text? && net.platform.Some?
      && exists k :: 0 <= k < |Split(net.sums.content, '\n')|
                     && Lists(Split(net.sums.content, '\n')[k], ZipName(version, net.platform.value), Lower(sha(zip)))
  }

  /** The line names the file with this digest, by the expression's own definition. */
  ghost predicate Lists(line: string, fileName: string, digest: string) {
    exists e, space :: SumsSplit(line, e, space) && Trim(e.name) == fileName && Lower(e.hash) == digest
  }

  /** `verified` is never a mere flag: the archive's own digest was published, and was compared. */
  lemma VerifiedMeansPublished(sha: Bytes -> string, source: Source, t: Toggles, net: Network, version: string)
    ensures var f := FetchSpec(sha, source, t, net, version);
      f.result.Ok? && f.result.value.verified ==> PublishedFor(sha, source, net, version, f.result.value.zip)
  {
    hide MatchSumsLine, Trim, Split, IsDigest, ZipName;
    var f := FetchSpec(sha, source, t, net, version);
    if f.result.Ok? && f.result.value.verified && !source.Registry? {
      var name := ZipName(version, net.platform.value);
      FoundIsListed(Split(net.sums.content, '\n'), name);
    }
  }

  lemma {:induction false} FoundIsListed(lines: seq<string>, fileName: string)
    ensures var found := FindChecksum(lines, fileName);
      found.Some? ==> exists k :: 0 <= k < |lines| && Lists(lines[k], fileName, Lower(found.value))
  {
    hide MatchSumsLine, Trim, Lower;
    if lines != [] {
      var m := MatchSumsLine(lines[0]);
      if m.Some? && Trim(m.value.name) == fileName {
        MatchIsSplit(lines[0]);
        assert Lists(lines[0], fileName, Lower(m.value.hash));
      } else {
        FoundIsListed(lines[1..], fileName);
        assert forall k :: 0 <= k < |lines[1..]| ==> lines[1..][k] == lines[k + 1];
      }
    }
  }

  /** What the engine returns is a split of the line. */
  lemma MatchIsSplit(line: string)
    ensures var m := MatchSumsLine(line);
      m.Some? ==> exists space :: SumsSplit(line, m.value, space)
  {
    hide IsSpace, LeadingSpaces, IsDigest;
    var m := MatchSumsLine(line);
    if m.Some? {
      var tail := line[64..];
      var n := LeadingSpaces(tail);
      var cut := if n < |tail| then n else n - 1;
      assert forall k :: 0 <= k < cut ==> tail[..cut][k] == tail[..n][k];
      assert line == line[..64] + tail[..cut] + tail[cut..];
      assert SumsSplit(line, m.value, tail[..cut]);
    }
  }

  /** Every split of the line has the digest the engine returns, and names the same file. */
  lemma SplitIsMatch(line: string, e: SumsEntry, space: string)
    requires SumsSplit(line, e, space) && Trim(e.name) != ""
    ensures var m := MatchSumsLine(line);
      m.Some? && m.value.hash == e.hash && Trim(m.value.name) == Trim(e.name)
  {
    hide IsSpace, IsLineTerminator, IsDigest, LeadingSpaces, MatchSumsLine, Trim;
    var tail := space + e.name;
    assert line == e.hash + tail;
    SpacesOf(space, e.name);
    NameWithoutSpaces(e.name);
    var inner := LeadingSpaces(e.name);
    assert tail[|space| + inner..] == e.name[inner..];
    MatchTail(e.hash, tail, |space| + inner);
  }

  lemma AlreadyTrimmed(s: string)
    requires s != "" && !IsSpace(s[0])
    ensures Trim(s) == TrimEnd(s)
  {
    hide IsSpace, TrimEnd;
    assert LeadingSpaces(s) == 0;
    assert s[0..] == s;
  }

  lemma NameWithoutSpaces(name: string)
    requires Trim(name) != "" && OneLiner(name)
    ensures var inner := LeadingSpaces(name);
      inner < |name| && Trim(name[inner..]) == Trim(name) && OneLiner(name[inner..])
  {
    hide IsSpace, TrimEnd, IsLineTerminator, LeadingSpaces;
    var inner := LeadingSpaces(name);
    var rest := name[inner..];
    assert Trim(name) == TrimEnd(rest);
    assert |TrimEnd(rest)| <= |rest|;
    assert rest[0] == name[inner];
    assert forall k :: 0 <= k < |rest| ==> rest[k] == name[inner + k];
    AlreadyTrimmed(rest);
  }

  lemma MatchTail(hash: string, tail: string, n: nat)
    requires IsDigest(hash) && n == LeadingSpaces(tail) && 0 < n < |tail| && OneLiner(tail[n..])
    ensures MatchSumsLine(hash + tail) == Some(SumsEntry(hash, tail[n..]))
  {
    hide IsSpace, LeadingSpaces, OneLiner, IsHex;
    var line := hash + tail;
    assert |hash| == 64;
    assert line[..64] == hash && line[64..] == tail;
  }

  lemma {:induction false} SpacesOf(space: string, rest: string)
    requires AllSpace(space)
    ensures LeadingSpaces(space + rest) == |space| + LeadingSpaces(rest)
  {
    hide IsSpace;
    if space == "" {
      assert space + rest == rest;
    } else {
      assert (space + rest)[1..] == space[1..] + rest;
      SpacesOf(space[1..], rest);
    }
  }

  /** A digest is found exactly when some line lists the file, by the expression's own definition. */
  lemma {:induction false} FoundIffListed(lines: seq<string>, fileName: string)
    requires fileName != ""
    ensures FindChecksum(lines, fileName).Some? <==>
            exists k, digest :: 0 <= k < |lines| && Lists(lines[k], fileName, digest)
  {
    hide MatchSumsLine, Trim, Lists;
    FoundIsListed(lines, fileName);
    if lines != [] {
      FoundIffListed(lines[1..], fileName);
      forall digest | Lists(lines[0], fileName, digest) ensures FindChecksum(lines, fileName).Some? {
        ListedLineMatches(lines[0], fileName, digest);
      }
      assert forall k :: 0 < k < |lines| ==> lines[k] == lines[1..][k - 1];
    }
  }

  lemma ListedLineMatches(line: string, fileName: string, digest: string)
    requires fileName != "" && Lists(line, fileName, digest)
    ensures var m := MatchSumsLine(line); m.Some? && Trim(m.value.name) == fileName
  {
    hide MatchSumsLine, Trim, SumsSplit;
    var e, space :| SumsSplit(line, e, space) && Trim(e.name) == fileName && Lower(e.hash) == digest;
    SplitIsMatch(line, e, space);
  }

  /** `.` does not match a carriage return: a checksum file with CRLF endings lists nothing. */
  lemma CrlfSumsListNothing(content: string, fileName: string)
    requires fileName != ""
    requires forall k :: 0 <= k < |Split(content, '\n')| ==>
      var line := Split(content, '\n')[k]; line == "" || line[|line| - 1] == '\r'
    ensures ParseSha256Spec(content, fileName) == Err(VerificationFailure(ChecksumUnavailable))
  {
    NothingListed(Split(content, '\n'), fileName);
  }

  lemma {:induction false} NothingListed(lines: seq<string>, fileName: string)
    requires forall k :: 0 <= k < |lines| ==> lines[k] == "" || lines[k][|lines[k]| - 1] == '\r'
    ensures FindChecksum(lines, fileName).None?
  {
    hide MatchSumsLine, Trim;
    if lines != [] {
      CarriageReturnNeverMatches(lines[0]);
      NothingListed(lines[1..], fileName);
    }
  }

  lemma CarriageReturnNeverMatches(line: string)
    requires line == "" || line[|line| - 1] == '\r'
    ensures MatchSumsLine(line).None?
  {
    hide IsSpace, IsDigest, LeadingSpaces;
    if |line| > 64 {
      var tail := line[64..];
      forall i | 0 <= i < |tail| ensures !OneLiner(tail[i..]) {
        assert tail[i..][|tail| - i - 1] == '\r';
      }
    }
  }

  /**
   What each toggle buys, on every source: with `requireChecksum` a strategy verifies or throws; with
   `requireGpgSignature` HashiCorp and mirrors deliver only what authenticated checksums cover; a
   mirror archive goes unverified only when both toggles are off; HashiCorp always verifies.
   */
  lemma TogglesEnforce(sha: Bytes -> string, source: Source, t: Toggles, net: Network, version: string)
    ensures var f := FetchSpec(sha, source, t, net, version);
      f.result.Ok? ==>
        && (t.requireChecksum ==> f.result.value.verified)
        && (source.HashiCorp? ==> f.result.value.verified)
        && (t.requireGpg && !source.Registry? ==> f.result.value.verified && net.signature == Signature(true))
        && (source.Mirror? && !f.result.value.verified ==> !t.requireChecksum && !t.requireGpg)
        && net.download == Downloaded(f.result.value.zip) && f.left == [f.result.value.zip]
  {
    hide ParseSha256Spec, VerifySha256, ZipName, IsDigest;
  }

  /** An archive that failed a comparison or its signature is not left on the agent's disk. */
  lemma RejectedArchiveIsDiscarded(sha: Bytes -> string, source: Source, t: Toggles, net: Network, version: string)
    ensures var f := FetchSpec(sha, source, t, net, version);
      && (f.result == Err(VerificationFailure(ChecksumMismatch)) ==> f.left == [])
      && (net.signature == Signature(false) && !source.Registry? && f.result.Err? ==>
            f.left == [] || net.sums == TextError || net.sums == TextNotFound)
  {
    hide FindChecksum, ZipName, Lower, IsDigest;
  }

  /** Every requirement of `a` is one of `b`. */
  predicate Weaker(a: Toggles, b: Toggles) {
    && (a.requireChecksum ==> b.requireChecksum) && (a.requireGpg ==> b.requireGpg)
    && (a.forceOnline ==> b.forceOnline) && (a.requireOnline ==> b.requireOnline)
  }

  /**
   Turning requirements off changes neither a delivered archive nor an outage: only refusals, which
   are verification failures, can become deliveries.
   */
  lemma FetchIsMonotone(sha: Bytes -> string, source: Source, strict: Toggles, lax: Toggles, net: Network, version: string)
    requires Weaker(lax, strict)
    ensures var f := FetchSpec(sha, source, strict, net, version);
      f.result.Ok? || f.result == Err(PlainError) ==> FetchSpec(sha, source, lax, net, version).result == f.result
  {
    hide ParseSha256Spec, VerifySha256, ZipName, IsDigest;
  }
}
