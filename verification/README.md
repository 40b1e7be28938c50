# A verified model of the Packer extension's hard parts

This project models seven parts of the Azure DevOps extension for Packer and proves what they keep,
over every input, every reply and every run: the installer's trust in cached binaries, the secret
var-file extractor, symlink-aware path containment, the agreement of the package composition gate with
the packager, the credential environment of the provider handlers, the life of secret files with the
command line they feed, and the release scripts.

The code's form is kept. What the code computes with expressions is a function; what it does step by
step is a method with its loop, over a class that holds the fields the code updates, and each method's
contract equates the outcome with a function about which the theorems are proved. Beside the theorems about
whole runs, each such function has a law that says what it computes in other terms: in the replies, in the
text, in the tree, in the cleanup that follows.

| part | modules |
|---|---|
| strings as JavaScript has them | `JsText` |
| secure var files | `VarFileScanner`, `VarFileExtraction`, `VarFileRoundTrip`, `VarFileMasking`, `VarFileJson` |
| path containment | `PathContainment` |
| installer | `ReleaseSource`, `ReleaseDelivery`, `Installer`, `InstallerDelivery`, `InstallerTrust` |
| package composition | `PackageTree`, `PackageContents`, `PackagePatterns`, `PackageManifest`, `PackageComposition`, `CompositionGate`, `CompositionRefusals`, `ManifestGate`, `ManifestFaults`, `BareRepositories` |
| credentials | `RoleSessionName`, `ProviderEnvironment`, `ProviderCredentials`, `CredentialGuards`, `CredentialIdentity`, `PassthroughPolicy`, `PassthroughText` |
| secret files and command line | `SecretFiles`, `SecretFileFates`, `SecureVarFile`, `FlagParsing`, `CommandLine`, `CommandInputs`, `ContainedFiles` |
| release scripts | `MinorBumps`, `SharedModules` |

`dafny verify dfyconfig.toml` checks the whole project.

## Where the code and its own words differ

The model follows the code. For each difference a lemma gives a concrete input, and the exact condition
under which the promise holds is proved beside it.

| promise | an input that breaks it | when it holds |
|---|---|---|
| Registration of var-file secrets is best effort (`secure-var-file-masking.ts:184-186`) | A lone carriage return inside a long line makes the masker throw, and nothing after it is registered: `LoneCarriageReturnStops` | `MaskingCompletes` |
| The unescaper undoes HCL's escapes (`secure-var-file-masking.ts:166-174`) | A backslash before n, r or t is misread: `BackslashNIsMisread` | `UnescapeInvertsEscape`, for whole files `RoundTripExact` |
| A stray quote costs its own line only (`secure-var-file-masking.ts:156-163`) | The line `x = "<<E` opens a heredoc although its quote is open, and the secret of the next line is lost: `StrayQuoteSwallowsALine` | `StrayQuoteStaysOnItsLine` |
| The tail that does not exist yet "cannot itself be a symlink" (`path-containment.ts:34-36`) | A dangling link that leads outside is accepted: `DanglingLinkLandsElsewhere` | The path: `RealpathIsLandingIff`; the answer: `AnswerIsRightExactly` |
| A digest is recorded "only for an artifact this run actually verified" (`packer-installer.ts:284`) | An archive ships its own binary's digest beside the executable; a strict job then delivers that binary unverified: `ShippedRecordIsDelivered` | The records: `TrustedIffArchivesShipNoRecord`; the deliveries: `EveryRunDeliversVerified` |
| Nothing beneath a dropped directory composes (`package-contents.js:194`) | A directory called `shim.ts` hides a file that ships: `EndAnchoredPruningLoses` | `PruningIsHarmlessIff`, `PruningLosesOnlyDropped` |
| What the gate passes the packager composes (`check-package-composition.js`, `copy-build.js`) | A link below a pruned task directory: `GateAndPackagerDiffer`. An icon that is an empty directory: `EmptyDirectoryDangles`. A manifest that is `null`: `NullManifestThrows`. A file whose real path is out of the repository: `AwayFileIsRefused` | The copy phase: `PassedGateComposesExactly`; gate and packager as a whole: `PassedGateDeliversExactly` |
| A refused composition leaves no ./build (`copy-build.js:201-203`) | A directory called LICENSE ends the script with an exception before the removal: `DirectoryAssetLeavesBuild` | `Packager.Compose`: ./build is left exactly when nothing is refused or an exception came first; when one comes: `ThrowsExactly` |
| The downloaded secure var file is recorded "so cleanup can delete it too" (`temp-secret-file-manager.ts:57`) | Its values are registered with the masker first, and a lone carriage return in one makes that throw: the file is left on disk and no warning names it: `UnmaskableFileIsLeft` | `SecureFileIsLeftExactly`, in terms of the values `MasksExactly` |
| The passthrough policy refuses what selects an identity (`environment-variable-policy.ts:69-85`) | The interactive Azure login, which the Azure handler clears for that reason, is only warned about: `PolicyCoversTheHandlers` | `PolicyCoversTheHandlers` lists exactly the names that are refused |
| A second bump run "makes no further change" (`bump-minor-versions.js:17-18`) | Previous Minor 5, current Minor 3: `SecondRunBumpsAgain`; a previous Minor that is no number: `NeverSettles` | `SecondRunIsIdleExactly` |

The AWS SDK's order is the one the handler's comment gives (`aws-packer-command-handler.ts:15-22`): any of the
five static variables, the session token among them, outranks the federated role.

## Model

| member | source | states |
|---|---|---|
| `VarFileScanner.ScanHclLine` | Tasks/PackerTask/PackerTaskV1/src/secure-var-file-masking.ts:126-164 | The indexed scan of a line, with its skip of escaped characters, refines the one-character automaton: same values, same heredoc |
| `VarFileScanner.HeredocOpenIsTheRegexMatch` | Tasks/PackerTask/PackerTaskV1/src/secure-var-file-masking.ts:41 | What is captured at the end of a line is exactly what some match of the heredoc expression captures, in both directions |
| `VarFileScanner.HeredocOpensWhereTheScanEnds` | Tasks/PackerTask/PackerTaskV1/src/secure-var-file-masking.ts:130-162 | An opener lies outside every literal of its line exactly when the whole scan ends outside one |
| `VarFileExtraction.CollectJsonStrings` | Tasks/PackerTask/PackerTaskV1/src/secure-var-file-masking.ts:43-57 | The recursion with an out array collects every string value of a document in order, and no member name |
| `VarFileExtraction.ExtractHcl` | Tasks/PackerTask/PackerTaskV1/src/secure-var-file-masking.ts:89-116 | The two nested loops that share one line index consume every line exactly once: they equal a one-pass automaton over the lines |
| `VarFileExtraction.ExtractVarFileScalarStrings` | Tasks/PackerTask/PackerTaskV1/src/secure-var-file-masking.ts:77-117 | JSON when it starts like JSON and parses, else the HCL extraction of the lines |
| `VarFileExtraction.ExtractIsAHomomorphism` | Tasks/PackerTask/PackerTaskV1/src/secure-var-file-masking.ts:90-116 | Extraction of two files in a row is the two extractions in a row when the first leaves no heredoc open |
| `VarFileExtraction.StrayQuoteStaysOnItsLine` | Tasks/PackerTask/PackerTaskV1/src/secure-var-file-masking.ts:156-163 | A line contributes its own literals, whatever its quotes, and changes nothing before or after it, if and only if it opens no heredoc |
| `VarFileExtraction.OpenerSwallows` | Tasks/PackerTask/PackerTaskV1/src/secure-var-file-masking.ts:94-114 | Every line that opens a heredoc takes what follows for its body, whether or not the opener was meant |
| `VarFileExtraction.HeredocBlock` | Tasks/PackerTask/PackerTaskV1/src/secure-var-file-masking.ts:94-114 | A heredoc consumes its opener, its body and its terminator, and yields the body's lines joined as one value, or nothing if it has none |
| `VarFileExtraction.Masker.RegisterLines` | Tasks/PackerTask/PackerTaskV1/src/secure-var-file-masking.ts:207-213 | The lines of one value are registered up to the first the masker refuses |
| `VarFileExtraction.Masker.MaskSecureVarFileValues` | Tasks/PackerTask/PackerTaskV1/src/secure-var-file-masking.ts:188-215 | What is registered, whether an error escapes, and the warnings, for every file and for one that cannot be read |
| `VarFileRoundTrip.UnescapeOfEscape` | Tasks/PackerTask/PackerTaskV1/src/secure-var-file-masking.ts:166-174 | What the five replaces in a row make of the escaped text of any value, in closed form |
| `VarFileRoundTrip.UnescapeInvertsEscape` | Tasks/PackerTask/PackerTaskV1/src/secure-var-file-masking.ts:166-174 | They invert the escaper on a value if and only if no backslash in it stands directly before n, r or t |
| `VarFileRoundTrip.ScanEscaped` | Tasks/PackerTask/PackerTaskV1/src/secure-var-file-masking.ts:130-146 | Escaped text never closes its literal early, whatever follows |
| `VarFileRoundTrip.ScanQuoted` | Tasks/PackerTask/PackerTaskV1/src/secure-var-file-masking.ts:130-152 | A quoted literal is scanned to its own closing quote, comment signs inside it included |
| `VarFileRoundTrip.ItemRoundTrip` | Tasks/PackerTask/PackerTaskV1/src/secure-var-file-masking.ts:89-116 | Each printed assignment, list, heredoc or comment is extracted on its own, with either line ending |
| `VarFileRoundTrip.PrintedIsNotJson` | Tasks/PackerTask/PackerTaskV1/src/secure-var-file-masking.ts:79-81 | A printed file is never taken for JSON |
| `VarFileRoundTrip.PrintExtract` | Tasks/PackerTask/PackerTaskV1/src/secure-var-file-masking.ts:77-117 | Print then extract returns the values of the whole file in order, literals as the unescaper reads them, heredoc bodies exactly |
| `VarFileRoundTrip.RoundTripExact` | Tasks/PackerTask/PackerTaskV1/src/secure-var-file-masking.ts:77-174 | It returns exactly the printed values if and only if no printed literal holds a backslash before n, r or t |
| `VarFileRoundTrip.UnclosedLiteralOpens` | Tasks/PackerTask/PackerTaskV1/src/secure-var-file-masking.ts:130-162 | Any literal left unclosed that ends like an opener opens a heredoc: the anchored match does not see the quote |
| `VarFileRoundTrip.StrayQuoteSwallowsALine` | Tasks/PackerTask/PackerTaskV1/src/secure-var-file-masking.ts:156-163 | Such a line, and the secret on the next line that is then no longer extracted |
| `VarFileRoundTrip.BackslashNIsMisread` | Tasks/PackerTask/PackerTaskV1/src/secure-var-file-masking.ts:166-174 | The value of a backslash and an n, escaped, comes back as a backslash and a line feed |
| `VarFileMasking.SecretsExact` | Tasks/PackerTask/PackerTaskV1/src/secure-var-file-masking.ts:206-213 | Exactly the trimmed lines of at least four characters of the extracted values are submitted to the masker |
| `VarFileMasking.SecretsInOrder` | Tasks/PackerTask/PackerTaskV1/src/secure-var-file-masking.ts:206-213 | They are submitted value by value, in the order of the values |
| `VarFileMasking.LinesAreFeedFree` | Tasks/PackerTask/PackerTaskV1/src/secure-var-file-masking.ts:207-211 | No submitted secret holds a line feed |
| `VarFileMasking.MaskingCompletes` | Tasks/PackerTask/PackerTaskV1/src/secure-var-file-masking.ts:179-215 | Registration runs to its end if and only if no long line keeps a carriage return inside; the promised best effort fails otherwise |
| `VarFileMasking.LoneCarriageReturnStops` | Tasks/PackerTask/PackerTaskV1/src/secure-var-file-masking.ts:207-211 | A file that declares such a value, and the registration it stops |
| `VarFileMasking.PrintedValuesAreSubmitted` | Tasks/PackerTask/PackerTaskV1/src/secure-var-file-masking.ts:77-215 | End to end: the long lines of the values of a printed file are what is submitted |
| `VarFileJson.JsonIsExtractedExactly` | Tasks/PackerTask/PackerTaskV1/src/secure-var-file-masking.ts:77-90 | A file that starts like JSON and parses yields exactly the strings that stand at a place of the document, each once and in the order of the places; any other file is read by lines |
| `VarFileJson.EnumerationIsUnique` | Tasks/PackerTask/PackerTaskV1/src/secure-var-file-masking.ts:43-57 | There is only one such list for a document |
| `VarFileJson.JsonStringsAreSubmitted` | Tasks/PackerTask/PackerTaskV1/src/secure-var-file-masking.ts:77-213 | End to end: the long trimmed lines of those strings are what is submitted to the masker |
| `JsText.LinesEndAtFeeds` | Tasks/PackerTask/PackerTaskV1/src/secure-var-file-masking.ts:207 | The lines of a value: a line feed ends one, with the carriage return before it, and nothing else does |
| `PathContainment.RealpathOfExistingPrefix` | Tasks/PackerTask/PackerTaskV1/src/path-containment.ts:17-27 | The upward loop terminates with the real path of the deepest existing prefix and the rest re-appended, or the path itself |
| `PathContainment.IsWithinWorkingDirectory` | Tasks/PackerTask/PackerTaskV1/src/path-containment.ts:38-45 | The string comparison of the two results |
| `PathContainment.PrefixTestIsPathPrefix` | Tasks/PackerTask/PackerTaskV1/src/path-containment.ts:40-44 | The string test is component-list prefix, for a base that is a root and for siblings sharing a name prefix |
| `PathContainment.ResolveAppend` | Tasks/PackerTask/PackerTaskV1/src/path-containment.ts:17-27 | Resolution through links proceeds component by component, whatever the links do |
| `PathContainment.LinkLeadsToItsTarget` | Tasks/PackerTask/PackerTaskV1/src/path-containment.ts:17-27 | A relative link leads to its target from the directory that holds it, an absolute one from the root |
| `PathContainment.LinksLead` | Tasks/PackerTask/PackerTaskV1/src/path-containment.ts:26-27 | Three links in a directory, and the three places they lead to |
| `PathContainment.ResolveIsPhysical` | Tasks/PackerTask/PackerTaskV1/src/path-containment.ts:26-27 | What resolution returns is a place of the tree with no link on the way |
| `PathContainment.ExistsIsPrefixClosed` | Tasks/PackerTask/PackerTaskV1/src/path-containment.ts:20-25 | An existing path has existing prefixes |
| `PathContainment.ExistingPrefixMaximal` | Tasks/PackerTask/PackerTaskV1/src/path-containment.ts:20-25 | The loop stops at the deepest existing prefix |
| `PathContainment.RealpathIsLanding` | Tasks/PackerTask/PackerTaskV1/src/path-containment.ts:17-37 | Where no link is the first missing component, the loop computes where opening or creating the path physically lands |
| `PathContainment.RealpathIsLandingIff` | Tasks/PackerTask/PackerTaskV1/src/path-containment.ts:29-37 | Exactly there: it computes the landing place if and only if the first missing component is not itself a link |
| `PathContainment.WithinIffLandsWithin` | Tasks/PackerTask/PackerTaskV1/src/path-containment.ts:29-45 | Where no link is the first missing component, a path is accepted exactly when it lands at or below the real working directory |
| `PathContainment.LinkAnswerIsItsDirectory` | Tasks/PackerTask/PackerTaskV1/src/path-containment.ts:17-45 | Where a link is the first missing component, a path is accepted exactly when the directory that holds the link is within, wherever it leads |
| `PathContainment.AnswerIsRightExactly` | Tasks/PackerTask/PackerTaskV1/src/path-containment.ts:29-45 | For every existing working directory, the answer is right if and only if no link is the first missing component, or the directory that holds the link is within exactly when the landing place is |
| `PathContainment.MissingLinkIsJudgedByItsOwnPlace` | Tasks/PackerTask/PackerTaskV1/src/path-containment.ts:17-27 | Otherwise the place of the link is judged, not the place it leads to |
| `PathContainment.DanglingLinkLandsElsewhere` | Tasks/PackerTask/PackerTaskV1/src/path-containment.ts:34-36 | A dangling link in the directory: accepted, and landing outside |
| `ReleaseSource.ParseSha256` | Tasks/PackerInstaller/PackerInstallerV1/src/packer-installer.ts:624-635 | The search through the lines of a checksum file and its one way to fail |
| `ReleaseSource.MatchIsSplit` | Tasks/PackerInstaller/PackerInstallerV1/src/packer-installer.ts:628 | What the line match captures is a match of the expression |
| `ReleaseSource.SplitIsMatch` | Tasks/PackerInstaller/PackerInstallerV1/src/packer-installer.ts:628-629 | Every match of the expression on a line has the captured digest and names the same file |
| `ReleaseSource.FoundIffListed` | Tasks/PackerInstaller/PackerInstallerV1/src/packer-installer.ts:624-634 | A digest is found exactly when some line lists the file by the expression's own definition |
| `ReleaseSource.CrlfSumsListNothing` | Tasks/PackerInstaller/PackerInstallerV1/src/packer-installer.ts:625-634 | A checksum file with CRLF line endings lists nothing |
| `ReleaseSource.VerifiedMeansPublished` | Tasks/PackerInstaller/PackerInstallerV1/src/packer-installer.ts:352-644 | A strategy that says verified has compared the archive's digest with one the source published for it |
| `ReleaseSource.TogglesEnforce` | Tasks/PackerInstaller/PackerInstallerV1/src/packer-installer.ts:352-620 | Required checksums make every strategy verify or throw; a mirror archive goes unverified only with both toggles off; required signatures cover what is delivered |
| `ReleaseSource.RejectedArchiveIsDiscarded` | Tasks/PackerInstaller/PackerInstallerV1/src/packer-installer.ts:386-392 | An archive that failed a comparison or its signature is not left on disk |
| `ReleaseSource.FetchIsMonotone` | Tasks/PackerInstaller/PackerInstallerV1/src/packer-installer.ts:484-619 | Turning a requirement off changes neither a delivered archive nor an outage |
| `ReleaseDelivery.FirstListedIsFound` | Tasks/PackerInstaller/PackerInstallerV1/src/packer-installer.ts:624-635 | The digest found is that of the first line that lists the file, by the expression's own definition |
| `ReleaseDelivery.StrategyIsExact` | Tasks/PackerInstaller/PackerInstallerV1/src/packer-installer.ts:352-620 | For each source, on the replies and the requirements alone: when a verified archive is delivered, when an unverified one, and when it fails without a verdict; all else is a refusal |
| `ReleaseDelivery.RefusalIsExact` | Tasks/PackerInstaller/PackerInstallerV1/src/packer-installer.ts:352-644 | Which refusal it is, and exactly when the archive is removed from the agent |
| `ReleaseDelivery.NothingArrivedNothingLeft` | Tasks/PackerInstaller/PackerInstallerV1/src/packer-installer.ts:352-620 | Where the archive does not arrive the strategy fails without a verdict and leaves nothing |
| `ReleaseDelivery.WeaknessesAreDisclosed` | Tasks/PackerInstaller/PackerInstallerV1/src/packer-installer.ts:391-602 | A delivery is silent exactly when signed checksums cover the archive, and each weakness has its warning |
| `Installer.Agent.DownloadZipFromHashiCorp` | Tasks/PackerInstaller/PackerInstallerV1/src/packer-installer.ts:352-402 | The strategy's result, archives left and warnings, error types as thrown |
| `Installer.Agent.DownloadZipFromRegistry` | Tasks/PackerInstaller/PackerInstallerV1/src/packer-installer.ts:404-505 | The strategy's result, archives left and warnings, error types as thrown |
| `Installer.Agent.DownloadZipFromMirror` | Tasks/PackerInstaller/PackerInstallerV1/src/packer-installer.ts:507-620 | The strategy's result, archives left and warnings, error types as thrown |
| `Installer.Agent.RecordCachedBinaryHash` | Tasks/PackerInstaller/PackerInstallerV1/src/packer-installer.ts:672-683 | The sidecar and the temp file under every fault and a crash at any point |
| `Installer.Agent.VerifyCachedBinaryHash` | Tasks/PackerInstaller/PackerInstallerV1/src/packer-installer.ts:713-741 | True only for a matching well-formed record, an error only for a mismatch with one, else false |
| `Installer.Agent.ReverifyUnmarkedCacheEntry` | Tasks/PackerInstaller/PackerInstallerV1/src/packer-installer.ts:762-810 | Refuse, degrade with a warning, or match and record, with the variables it sets |
| `Installer.Agent.DownloadPacker` | Tasks/PackerInstaller/PackerInstallerV1/src/packer-installer.ts:192-302 | A whole job on a persistent agent: cache, records, archives, warnings and variables afterwards |
| `InstallerTrust.PinnedNeverAsks` | Tasks/PackerInstaller/PackerInstallerV1/src/packer-installer.ts:306-309 | Two runs: a job with a pinned version is the same whatever the version endpoint answers, or if it is down |
| `InstallerTrust.LatestFailsClosed` | Tasks/PackerInstaller/PackerInstallerV1/src/packer-installer.ts:310-323 | For latest the job throws and leaves the agent as it was unless the endpoint answered, and delivers no other version than the answer |
| `InstallerDelivery.JobDeliversExactly` | Tasks/PackerInstaller/PackerInstallerV1/src/packer-installer.ts:192-302 | When a job delivers a binary, on its inputs, the replies, the cache and the faults alone: for fresh installs and cache hits, both layers of the check, and every requirement |
| `InstallerDelivery.DeliveryIsRecorded` | Tasks/PackerInstaller/PackerInstallerV1/src/packer-installer.ts:251-301 | What it leaves: the location, the origin, and a record that is the binary's own digest exactly when this job has checked it and recording worked |
| `InstallerDelivery.FailureDeliversNothing` | Tasks/PackerInstaller/PackerInstallerV1/src/packer-installer.ts:192-302 | A job that does not deliver points nowhere new and touches no other version |
| `InstallerDelivery.GoodReleaseIsInstalled` | Tasks/PackerInstaller/PackerInstallerV1/src/packer-installer.ts:192-302 | A pinned version, signed checksums that list the archive with its own digest, no fault: the unpacked binary is delivered with its digest beside it, whatever is required |
| `InstallerDelivery.JobAccounts` | Tasks/PackerInstaller/PackerInstallerV1/src/packer-installer.ts:233-302 | The warnings and the archives a job adds are its source's exactly when it asks the source, and one more warning exactly when a check is given up |
| `InstallerDelivery.UnresolvedChangesNothing` | Tasks/PackerInstaller/PackerInstallerV1/src/packer-installer.ts:192-232 | A job that resolves no version throws and changes nothing |
| `InstallerTrust.RecordIsAtomic` | Tasks/PackerInstaller/PackerInstallerV1/src/packer-installer.ts:664-683 | A record is written whole or not at all; a crash leaves only a temp file holding a prefix of the digest |
| `InstallerTrust.RecordKeepsTrust` | Tasks/PackerInstaller/PackerInstallerV1/src/packer-installer.ts:672-683 | Recording a binary digest-equal to a verified one keeps the record vouched for, whatever happens |
| `InstallerTrust.JobKeepsTrust` | Tasks/PackerInstaller/PackerInstallerV1/src/packer-installer.ts:192-302 | Every job keeps each record of which a claim holds the digest of a binary from an archive that passed its check; the claim is to be 64-hex, or to be the digest of some binary |
| `InstallerTrust.EventKeepsTrust` | Tasks/PackerInstaller/PackerInstallerV1/src/packer-installer.ts:672-810 | So do crashes, changes of cached binaries and deletions of records |
| `InstallerTrust.RunKeepsTrust` | Tasks/PackerInstaller/PackerInstallerV1/src/packer-installer.ts:192-302 | So does every run of any length whose archives ship no file of which the claim holds |
| `InstallerTrust.ShippedRecordBreaksTrust` | Tasks/PackerInstaller/PackerInstallerV1/src/packer-installer.ts:251-298 | For either claim, an archive that ships such a file beside the executable breaks it in one unchecked install |
| `InstallerTrust.TrustedIffArchivesShipNoRecord` | Tasks/PackerInstaller/PackerInstallerV1/src/packer-installer.ts:284-298 | For either claim, from a fresh agent the invariant holds over every run if and only if no archive ships such a file |
| `InstallerTrust.DeliveredIsVerified` | Tasks/PackerInstaller/PackerInstallerV1/src/packer-installer.ts:743-810 | A job requiring checksums delivers a binary digest-equal to a verified one, or degraded with a warning on an unrecorded hit whose source was unreachable |
| `InstallerTrust.ShippedRecordIsDelivered` | Tasks/PackerInstaller/PackerInstallerV1/src/packer-installer.ts:284-298 | The failing job: after one unchecked install of an archive that ships its own binary's digest, a job with all three requirements on delivers that binary, though nothing was ever verified |
| `InstallerTrust.MatchingRecordIsDelivered` | Tasks/PackerInstaller/PackerInstallerV1/src/packer-installer.ts:251-298 | For every archive that ships the digest of any binary there is a run after which such a job delivers something unverified |
| `InstallerTrust.EveryRunDeliversVerified` | Tasks/PackerInstaller/PackerInstallerV1/src/packer-installer.ts:192-302 | Over all runs from a fresh agent and all jobs requiring checksums this holds if and only if no archive ships a well-formed digest file that is the digest of some binary |
| `InstallerTrust.ReverifyIsMonotone` | Tasks/PackerInstaller/PackerInstallerV1/src/packer-installer.ts:762-810 | Fewer requirements never turn a passed re-verification into a refusal |
| `InstallerTrust.JobIsMonotone` | Tasks/PackerInstaller/PackerInstallerV1/src/packer-installer.ts:285-298 | Two runs: a job that delivers under some requirements delivers the same binary with any of them off |
| `PackageTree.WalkTree` | scripts/lib/task-dirs.js:70-93 | The explicit-stack walk terminates and returns the recursive walk's entries, sorted; nothing where the start does not exist or is a dangling link, and an exception exactly where it is something else than a directory |
| `PackageTree.ReadDirectory` | scripts/lib/task-dirs.js:77-90 | One turn of the loop keeps what is reported and pending together the same |
| `PackageTree.ReportIsExact` | scripts/lib/task-dirs.js:56-93 | Every entry reachable through descended real directories, exactly once, in strictly increasing order, and nothing else; no link is passed through |
| `PackageTree.WalkIsReported` | scripts/lib/task-dirs.js:75-91 | Membership in the walk, in terms of the tree itself |
| `PackageTree.WalkNoRepeat` | scripts/lib/task-dirs.js:75-91 | No path is reported twice |
| `PackageTree.IncreasingIsUnique` | scripts/lib/task-dirs.js:92 | The sorted arrangement is unique, so the stack's order does not matter |
| `PackageTree.LessIsExact` | scripts/lib/task-dirs.js:92 | The order of the report: a text precedes another when it begins it, or has the smaller character where they first differ |
| `PackagePatterns.SomewhereIsAtAPiece` | scripts/lib/package-contents.js:103-152 | A pattern that may match after any slash matches a joined path exactly when it matches at one of the components |
| `PackagePatterns.SuffixLooksAtLast` | scripts/lib/package-contents.js:113-115 | An end-anchored pattern looks at the last component only |
| `PackagePatterns.ClassifyIsByPatterns` | scripts/lib/package-contents.js:103-192 | Running the four pattern tables over the text of a path gives the verdict the model computes on its components, for every path |
| `PackagePatterns.DirectoryDroppedIsByPatterns` | scripts/lib/package-contents.js:194-197 | So does the test of a directory, with and without its trailing slash |
| `PackageContents.VerdictIsExact` | scripts/lib/package-contents.js:103-192 | The whole classifier, name by name: exactly what is left out, what is a secret, what ships and what is unknown |
| `PackageContents.PruningIsHarmlessIff` | scripts/lib/package-contents.js:177-197 | Pruning a dropped directory hides only files classified as dropped if and only if a pattern that matches anywhere drops it |
| `PackageContents.EndAnchoredPruningLoses` | scripts/lib/package-contents.js:113-115 | A directory called shim.ts is pruned although a file in it would ship |
| `PackageComposition.DiscoverTaskDirs` | scripts/lib/task-dirs.js:38-54 | The enumeration of task directories, sorted; it throws exactly when Tasks exists and is no directory |
| `PackageComposition.SortPathsIsSorted` | scripts/lib/task-dirs.js:53 | The result is sorted by text and has the same directories |
| `PackageComposition.TaskDirsExact` | scripts/lib/task-dirs.js:32-54 | Exactly the real directories two levels below Tasks that contain a task.json |
| `PackageComposition.PruningLosesOnlyDropped` | scripts/lib/package-contents.js:177-197 | Over the walk: an entry the whole walk reports and the pruned one does not is one the classifier drops, when no directory on the way has an end-anchored name |
| `PackageComposition.Packager.CopyFile` | scripts/copy-build.js:59-70 | A regular file is copied if it really is in the repository and refused if not, anything else throws |
| `PackageComposition.Packager.CopyTree` | scripts/copy-build.js:76-102 | What a subtree adds to the refusals, to ./build and to the bundling flag; it throws exactly at a start that is no directory |
| `PackageComposition.Packager.RefuseStrays` | scripts/copy-build.js:115-125 | Each shippable file or link under Tasks outside every task directory is refused |
| `PackageComposition.Packager.CopyAssets` | scripts/copy-build.js:129-144 | What the root assets add, up to the first whose copy throws |
| `PackageComposition.Packager.AssertOutput` | scripts/copy-build.js:151-197 | The second look refuses an unreadable manifest and each promise that leaves the package or dangles, and throws exactly at a null manifest or a files value that is no list |
| `PackageComposition.OutputIsAllowed` | scripts/copy-build.js:183-196 | Whatever ./build holds is a root asset or a path the classifier ships, so its walk refuses nothing |
| `PackageComposition.Packager.Compose` | scripts/copy-build.js:106-207 | The refusals of the whole run, whether it throws, and ./build: kept when all is well or when an exception came first, else removed |
| `CompositionGate.Gate.CheckTasks` | scripts/check-package-composition.js:61-129 | The refusals and the bundling flag of the Tasks tree |
| `CompositionGate.Gate.CheckRootDirs` | scripts/check-package-composition.js:133-147 | The refusals of the root directories; it throws exactly at one that is no directory |
| `CompositionGate.Gate.CheckAssets` | scripts/check-package-composition.js:149-164 | The refusals of the root assets |
| `CompositionGate.Gate.Check` | scripts/check-package-composition.js:61-164 | All the gate refuses about the tree, and that it throws exactly when Tasks or images is no directory |
| `CompositionGate.TaskEntryIsGateEntry` | scripts/check-package-composition.js:63-73 | What the packager meets in a task directory the gate has met under Tasks |
| `CompositionGate.NoStrays` | scripts/copy-build.js:115-125 | A passed gate leaves the packager no stray to refuse |
| `CompositionGate.ThrowsExactly` | scripts/copy-build.js:106-144 | The copy phase throws exactly when Tasks or images is no directory or a root asset is neither file nor link |
| `CompositionGate.TasksComposeExactly` | scripts/check-package-composition.js:61-129 | The task directories of a passed gate are refused exactly when one that the gate pruned holds something to refuse, or a file that ships is really out of the repository |
| `CompositionGate.RootDirsComposeExactly` | scripts/check-package-composition.js:133-147 | The root directories of a passed gate are refused exactly when they hold a special file, or a file that ships is really out of the repository |
| `CompositionGate.AssetsComposeExactly` | scripts/check-package-composition.js:149-164 | The root assets of a passed gate are refused exactly when the packager bundles dependencies and the notices are missing, or one is really out of the repository |
| `CompositionGate.PassedGateComposesExactly` | scripts/check-package-composition.js:61-164 | For every tree the gate passes: the copy phase refuses nothing and ends if and only if what lies in a pruned task directory is not refused, images holds no special file, the root assets are files, nothing that ships is really out of the repository, and the notices are there when dependencies are bundled |
| `CompositionGate.PassedGateComposes` | scripts/check-package-composition.js:61-164 | So it does in the usual layout, in which no task directory is pruned, images bundles nothing, and all is in the repository |
| `PackageComposition.CopiesAreThePackage` | scripts/copy-build.js:106-144 | ./build never holds anything but the root assets present and the reachable files that ship, and holds all of them when the copy phase ends |
| `CompositionRefusals.PackagerRefusesExactly` | scripts/copy-build.js:59-144 | For every tree on which the copy phase ends: a path is refused for a reason exactly when a walk meets it and the reason is there, it strays under Tasks, or it is a root asset to blame |
| `CompositionRefusals.SecretIsNeverPackaged` | scripts/copy-build.js:93-96 | A reachable secret-shaped file is refused whatever the gate says, so ./build does not stay |
| `CompositionRefusals.AssetsAreRequiredExactly` | scripts/copy-build.js:129-144 | Which four names must be there, the notices exactly when dependencies are bundled |
| `CompositionRefusals.KeysAreSecretsAndUnlistedIsUnknown` | scripts/lib/package-contents.js:133-152 | A signing key beside a task is a secret, a file of an unlisted type is unknown |
| `CompositionRefusals.GateRefusesExactly` | scripts/check-package-composition.js:61-164 | The same for the gate: every refusal it makes under Tasks, under images and of a root asset, with its reason, and no other |
| `CompositionGate.GateAndPackagerDiffer` | scripts/check-package-composition.js:64-73 | A tree the gate passes and the packager refuses: a link below a pruned task directory |
| `CompositionGate.DirectoryAssetLeavesBuild` | scripts/copy-build.js:135-138 | A directory in the place of a root asset: the copy throws although there are refusals, so the removal of ./build is not reached |
| `ManifestGate.ManifestCheck.CheckManifestPath` | scripts/check-package-composition.js:192-226 | A path of content or of an icon and the one complaint it earns |
| `ManifestGate.ManifestCheck.CheckFiles` | scripts/check-package-composition.js:242-270 | The complaints about files, and the paths it names |
| `ManifestGate.ManifestCheck.CheckContributions` | scripts/check-package-composition.js:271-296 | The complaints about contributions, and the task directories named |
| `ManifestGate.ManifestCheck.Check` | scripts/check-package-composition.js:166-330 | All the gate has to say of a manifest, in order, and nothing of one that is null |
| `ManifestGate.PassesExactly` | scripts/check-package-composition.js:228-330 | It says nothing if and only if every path is accepted, every task directory is contributed and covered, and every root asset named |
| `ManifestFaults.PathFaultIsExact` | scripts/check-package-composition.js:181-226 | The complaint about a path of content or of an icon is the first of five conditions it fails, stated on the tree |
| `ManifestFaults.FileFaultIsExact` | scripts/check-package-composition.js:242-269 | The complaint about an entry of files; one below Tasks must hold a task directory |
| `ManifestFaults.ContributionFaultIsExact` | scripts/check-package-composition.js:280-296 | The complaint about a contribution; a task must name a task directory |
| `ManifestFaults.ManifestPassesExactly` | scripts/check-package-composition.js:228-330 | A manifest passes exactly when every value is accepted, every task directory is contributed and filed, the default icon is there and every root asset that exists is named |
| `ManifestFaults.PackagedIsComposed` | scripts/check-package-composition.js:177-190 | Whatever ends in ./build at or below a path, the gate knows that the packager looks there |
| `ManifestFaults.PromisedIsExact` | scripts/copy-build.js:159-169 | What the packaged manifest promises |
| `ManifestFaults.OutputRefusesExactly` | scripts/copy-build.js:151-181 | The second look refuses exactly a manifest that is no JSON, a promise out of the package, and a promise that nothing in ./build keeps |
| `ManifestFaults.ComposeIsExact` | scripts/copy-build.js:106-207 | How the whole packager ends: when with an exception, and with which refusals |
| `ManifestGate.ComposedIsPackaged` | scripts/check-package-composition.js:298-329 | With a passed manifest everything in ./build is the manifest, or named or covered by it, or under images: no task file is composed and left out of the package |
| `ManifestGate.FileReferenceReaches` | scripts/check-package-composition.js:177-226 | A file the gate accepts for content or an icon is composed if and only if no directory on the way to it is pruned |
| `ManifestGate.ReachesExactly` | scripts/copy-build.js:76-102 | Something that ships lies at or below a path, of a file or a directory, if and only if it is a root asset, or a walk that starts at or below it copies something, or it is below a start, nothing on the way is pruned and it ships or a walk of it copies something |
| `ManifestGate.KeepsPromisesExactly` | scripts/copy-build.js:159-181 | So each promise of an accepted manifest, of content, icons and files alike, is kept exactly then |
| `ManifestGate.PassedGateDeliversExactly` | scripts/copy-build.js:106-207 | End to end: what the whole gate passes, the whole packager composes without refusal or exception if and only if those five conditions hold, the manifest is not null, and something that ships lies at or below each path it promises |
| `BareRepositories.EmptyDirectoryDangles` | scripts/check-package-composition.js:202-224 | A repository the whole gate passes whose icon is an empty directory: the packager refuses its own output |
| `BareRepositories.NullManifestThrows` | scripts/check-package-composition.js:228 | A repository the whole gate passes whose manifest is null: the packager throws |
| `BareRepositories.AwayFileIsRefused` | scripts/copy-build.js:59-66 | A repository the gate passes with a file in images whose real path is elsewhere: the packager refuses it |
| `SecretFiles.TempSecretFileManager.WriteTracked` | Tasks/PackerTask/PackerTaskV1/src/temp-secret-file-manager.ts:43-55 | A secret file is written and tracked |
| `SecretFiles.TempSecretFileManager.SetSecureFileId` | Tasks/PackerTask/PackerTaskV1/src/temp-secret-file-manager.ts:57-60 | The secure file that was downloaded before is remembered |
| `SecretFiles.TempSecretFileManager.CleanOne` | Tasks/PackerTask/PackerTaskV1/src/temp-secret-file-manager.ts:64-85 | Scrub, then unlink, each failure named in a warning |
| `SecretFiles.TempSecretFileManager.Cleanup` | Tasks/PackerTask/PackerTaskV1/src/temp-secret-file-manager.ts:62-100 | The whole cleanup under any faults, and what the manager forgets |
| `SecretFiles.ParentCommandHandler.EmergencyCleanup` | Tasks/PackerTask/PackerTaskV1/src/parent-handler.ts:25-33 | Cleans up the active handler, if any |
| `SecretFiles.ParentCommandHandler.Execute` | Tasks/PackerTask/PackerTaskV1/src/parent-handler.ts:13-23 | The steps of the command with emergency cleanups in between, then the finally |
| `SecretFiles.StepsKeepAccount` | Tasks/PackerTask/PackerTaskV1/src/temp-secret-file-manager.ts:43-100 | In every interleaving each file written and still on disk is tracked or named in a warning |
| `SecretFiles.StepsLeaveOthers` | Tasks/PackerTask/PackerTaskV1/src/temp-secret-file-manager.ts:62-100 | Files no step wrote are never touched |
| `SecretFiles.ExecuteLeavesOnlyWarned` | Tasks/PackerTask/PackerTaskV1/src/parent-handler.ts:13-23 | After execute only files named in a warning remain, and all others are as they were |
| `SecretFileFates.WrittenFileIsExact` | Tasks/PackerTask/PackerTaskV1/src/temp-secret-file-manager.ts:62-85 | In every interleaving: a written file is still on disk exactly when the one cleanup that followed could not unlink it, and is then zeroed unless that cleanup could not scrub it either |
| `SecretFileFates.WarningsAreExact` | Tasks/PackerTask/PackerTaskV1/src/temp-secret-file-manager.ts:64-85 | A temp file is named in a warning exactly when a cleanup failed to scrub or to unlink it |
| `SecretFileFates.NoFaultLeavesNothing` | Tasks/PackerTask/PackerTaskV1/src/parent-handler.ts:13-23 | With no fault nothing written remains and nobody is warned of it |
| `SecretFileFates.RememberedFileIsExact` | Tasks/PackerTask/PackerTaskV1/src/temp-secret-file-manager.ts:86-99 | A remembered secure file is on disk exactly when the next cleanup could not delete it, or another was remembered before |
| `SecretFileFates.SecureWarningsAreExact` | Tasks/PackerTask/PackerTaskV1/src/secure-file-loader.ts:42-51 | It is named in a warning exactly when a cleanup that had it remembered could not delete it |
| `SecretFileFates.UnknownProviderDoesNothing` | Tasks/PackerTask/PackerTaskV1/src/parent-handler.ts:13-46 | For a provider that is not known nothing is run and nothing is cleaned up |
| `SecretFiles.SecureFilesAreDeletedExactly` | Tasks/PackerTask/PackerTaskV1/src/temp-secret-file-manager.ts:57-99 | In every interleaving: after execute a downloaded secure file is gone, named in a warning, or was not remembered when the last cleanup came; and those that were not are still there |
| `SecureVarFile.LoadSecureFile` | Tasks/PackerTask/PackerTaskV1/src/secure-file-loader.ts:58-73 | Download, registration of the values, and only then the remembering, which an error of the registration prevents |
| `SecureVarFile.SecureFileIsLeftExactly` | Tasks/PackerTask/PackerTaskV1/src/base-packer-command-handler.ts:199-204 | End to end: when a command that loads a secure file is over, the file is on disk with no warning that names it if and only if the registration of its values threw |
| `SecureVarFile.MasksExactly` | Tasks/PackerTask/PackerTaskV1/src/secure-var-file-masking.ts:188-215 | It throws if and only if the file is readable and a long line of some value keeps a carriage return inside |
| `SecureVarFile.UnmaskableFileIsLeft` | Tasks/PackerTask/PackerTaskV1/src/secure-file-loader.ts:58-73 | Such a file, left behind whatever the cleanup does |
| `SecretFiles.SecondCleanupIsIdle` | Tasks/PackerTask/PackerTaskV1/src/temp-secret-file-manager.ts:86-99 | A second cleanup changes nothing |
| `SecretFiles.ExecuteScrubsFirst` | Tasks/PackerTask/PackerTaskV1/src/temp-secret-file-manager.ts:64-78 | No file is unlinked without a scrub attempt right before it |
| `RoleSessionName.DerivedNameIsValid` | Tasks/PackerTask/PackerTaskV1/src/credential-guards.ts:251-258 | For a proper prefix the name is the sanitized text, never the fallback: 2 to 64 allowed characters, no leading, trailing or double hyphen |
| `RoleSessionName.BuildIdSurvives` | Tasks/PackerTask/PackerTaskV1/src/credential-guards.ts:254-257 | An alphanumeric build id is the text after the last hyphen if and only if it has at most 64 characters |
| `RoleSessionName.DistinctBuildsDistinctNames` | Tasks/PackerTask/PackerTaskV1/src/credential-guards.ts:231-241 | Distinct build ids of one project give distinct session names |
| `RoleSessionName.HyphensSeparateWords` | Tasks/PackerTask/PackerTaskV1/src/credential-guards.ts:254 | The replaces of hyphens leave the words of a text, in order, with one hyphen between them |
| `RoleSessionName.NameIsItsWords` | Tasks/PackerTask/PackerTaskV1/src/credential-guards.ts:252-258 | The name in closed form: the words of prefix, project and build id, the last 64 characters when there are more |
| `RoleSessionName.SecondCharacter` | Tasks/PackerTask/PackerTaskV1/src/credential-guards.ts:253 | A prefix keeps two characters through the three replaces |
| `RoleSessionName.CollapseAppend` | Tasks/PackerTask/PackerTaskV1/src/credential-guards.ts:253 | Collapsing runs of hyphens up to another character leaves the rest to itself |
| `ProviderEnvironment.ProviderHandler.NeutralizeEnvironmentVariables` | Tasks/PackerTask/PackerTaskV1/src/credential-guards.ts:219-225 | Exactly the named variables are gone, and those that were there are warned of |
| `ProviderEnvironment.ProviderHandler.SetEnvironmentVariable` | Tasks/PackerTask/PackerTaskV1/src/credential-guards.ts:16-22 | The external helper as the guards describe it: an empty value is skipped, or refused when required |
| `ProviderEnvironment.HistoryIndependentExactly` | Tasks/PackerTask/PackerTaskV1/src/credential-guards.ts:204-218 | A variable ends the same from every inherited environment exactly when the branch clears or writes it; all others keep their value |
| `ProviderCredentials.HandleAws` | Tasks/PackerTask/PackerTaskV1/src/aws-packer-command-handler.ts:51-92 | The static branch amounts to one clear-then-write plan made from the connection alone, on failure too |
| `ProviderCredentials.HandleAwsFederated` | Tasks/PackerTask/PackerTaskV1/src/aws-packer-command-handler.ts:94-109 | The federated branch amounts to one plan, at each point where it can fail |
| `ProviderCredentials.HandleAzure` | Tasks/PackerTask/PackerTaskV1/src/azure-packer-command-handler.ts:87-114 | The shared clearing and the subscription, then the branch, amount to one plan |
| `ProviderCredentials.HandleAzureScheme` | Tasks/PackerTask/PackerTaskV1/src/azure-packer-command-handler.ts:116-198 | The three scheme branches, after the shared clearing |
| `ProviderCredentials.HandleOciStatic` | Tasks/PackerTask/PackerTaskV1/src/oci-packer-command-handler.ts:255-305 | The API-key branch: plan, key file, and the lines of the key given to the masker, which stops the branch at one it throws on |
| `ProviderCredentials.KeyLineIsRegistered` | Tasks/PackerTask/PackerTaskV1/src/oci-packer-command-handler.ts:148-158 | Every line of the written key file, but for blanks and boundaries, is registered |
| `ProviderCredentials.HandleOciFederated` | Tasks/PackerTask/PackerTaskV1/src/oci-packer-command-handler.ts:186-253 | The federated branch: plan, the three secret files, the command-line variable |
| `ProviderCredentials.HandleOci` | Tasks/PackerTask/PackerTaskV1/src/oci-packer-command-handler.ts:255-262 | The scheme decides the branch, and an unknown one touches nothing |
| `ProviderCredentials.SessionNameIsSet` | Tasks/PackerTask/PackerTaskV1/src/aws-packer-command-handler.ts:109 | The session name written is never empty, so the helper never skips it |
| `CredentialGuards.AwsCompletesExactly` | Tasks/PackerTask/PackerTaskV1/src/aws-packer-command-handler.ts:51-110 | When an AWS run completes, field by field, on both branches |
| `JsText.LowerForgetsCase` | Tasks/PackerTask/PackerTaskV1/src/azure-packer-command-handler.ts:211-220 | Two ASCII texts agree in lower case exactly when they differ in the case of letters alone, so a scheme is known however it is spelled |
| `CredentialGuards.AzureCompletesExactly` | Tasks/PackerTask/PackerTaskV1/src/azure-packer-command-handler.ts:87-198 | When an Azure run completes, under each of the three schemes |
| `CredentialGuards.OciCompletesExactly` | Tasks/PackerTask/PackerTaskV1/src/oci-packer-command-handler.ts:186-305 | When an OCI run completes, on both branches |
| `CredentialGuards.AwsStaticGetsExactlySoFar` | Tasks/PackerTask/PackerTaskV1/src/aws-packer-command-handler.ts:51-94 | What a static run has cleared and written when it ends, completed or not, value by value |
| `CredentialGuards.AwsFederatedGetsExactlySoFar` | Tasks/PackerTask/PackerTaskV1/src/aws-packer-command-handler.ts:51-110 | The same on the federated branch: each variable exactly when all before it were written and its own value is accepted |
| `CredentialGuards.AzureGetsExactlySoFar` | Tasks/PackerTask/PackerTaskV1/src/azure-packer-command-handler.ts:87-198 | The same for Azure, under each of the three schemes |
| `CredentialGuards.OciFailsCleanly` | Tasks/PackerTask/PackerTaskV1/src/oci-packer-command-handler.ts:186-305 | A run that fails has left the environment alone and given packer nothing |
| `CredentialGuards.OcidIsExact` | Tasks/PackerTask/PackerTaskV1/src/credential-guards.ts:47 | The recursive reading of an OCID accepts exactly the matches of its pattern |
| `CredentialGuards.TenancyOcidIsExact` | Tasks/PackerTask/PackerTaskV1/src/credential-guards.ts:59 | The same for a tenancy OCID |
| `CredentialGuards.FingerprintIsExact` | Tasks/PackerTask/PackerTaskV1/src/credential-guards.ts:60 | A fingerprint is sixteen pairs of hexadecimal digits joined by colons |
| `CredentialGuards.KeyIsMaskableExactly` | Tasks/PackerTask/PackerTaskV1/src/oci-packer-command-handler.ts:148-158 | The masker takes the key exactly when no line of it but a boundary keeps a carriage return inside |
| `CredentialGuards.ExplicitNameWins` | Tasks/PackerTask/PackerTaskV1/src/credential-guards.ts:243-251 | An explicit session name is taken trimmed or refused, and none is derived then |
| `CredentialGuards.AwsSessionNamesTheBuild` | Tasks/PackerTask/PackerTaskV1/src/credential-guards.ts:252-258 | Without one the AWS session is named after the build |
| `CredentialGuards.AzureSubscriptionIsTheInputs` | Tasks/PackerTask/PackerTaskV1/src/azure-packer-command-handler.ts:95-114 | The subscription left is the input's, else the connection's, else none, from any environment |
| `CredentialGuards.AwsRegionIsTheInputs` | Tasks/PackerTask/PackerTaskV1/src/aws-packer-command-handler.ts:84-91 | The region left is the input's, else the connection's, else what was there |
| `CredentialIdentity.AwsIdentityIsTheConnections` | Tasks/PackerTask/PackerTaskV1/src/aws-packer-command-handler.ts:15-40 | From any inherited environment the SDK's order selects the connection's keys, or the federated role |
| `CredentialIdentity.AwsFederatedClearIsNeeded` | Tasks/PackerTask/PackerTaskV1/src/aws-packer-command-handler.ts:23-29 | Each of the five cleared variables is needed: forget it, and from some environment the SDK does not select the federated role |
| `CredentialIdentity.AwsDecides` | Tasks/PackerTask/PackerTaskV1/src/aws-packer-command-handler.ts:54-109 | Which variables a completed run decides; the region is left to history exactly when none is named |
| `CredentialIdentity.AzureIdentityIsTheConnections` | Tasks/PackerTask/PackerTaskV1/src/azure-packer-command-handler.ts:13-34 | The plugin selects the connection's identity; managed identity exactly on that branch; metadata URL unset; subscription the connection's |
| `CredentialIdentity.AzureMsiClearIsNeeded` | Tasks/PackerTask/PackerTaskV1/src/azure-packer-command-handler.ts:118-136 | Each variable the managed identity check reads must be cleared |
| `CredentialIdentity.AzureDecides` | Tasks/PackerTask/PackerTaskV1/src/azure-packer-command-handler.ts:87-198 | A completed run decides all eleven variables, under every scheme |
| `CredentialIdentity.OciKeyIdentityIsTheConnections` | Tasks/PackerTask/PackerTaskV1/src/oci-packer-command-handler.ts:95-121 | Every field is the connection's whatever configuration the agent has; the passphrase is kept |
| `CredentialIdentity.OciFederatedIdentityIsTheConnections` | Tasks/PackerTask/PackerTaskV1/src/oci-packer-command-handler.ts:154-253 | Every field is read from the synthetic file, which the command line names, and no passphrase is left |
| `CredentialIdentity.OciDecides` | Tasks/PackerTask/PackerTaskV1/src/oci-packer-command-handler.ts:82-121 | Which variables a completed run decides: all but the passphrase, or all but the unread token file |
| `CredentialIdentity.ConfigReadsBack` | Tasks/PackerTask/PackerTaskV1/src/oci-packer-command-handler.ts:231-238 | The synthetic file is six lines, each read back under its own key |
| `CredentialIdentity.IdentityHasNoBreak` | Tasks/PackerTask/PackerTaskV1/src/credential-guards.ts:33-44 | A validated value holds no line break, so it can start no line of its own |
| `PassthroughPolicy.PassthroughApplier.ApplyPassthroughEnvironmentVariables` | Tasks/PackerTask/PackerTaskV1/src/environment-variable-policy.ts:88-118 | The loop over the lines, stopping where one throws |
| `PassthroughPolicy.PassthroughIsExact` | Tasks/PackerTask/PackerTaskV1/src/environment-variable-policy.ts:88-118 | It completes exactly when no line throws, and then a variable has the last value the text gives it, else its own |
| `PassthroughPolicy.PassthroughKeepsIdentity` | Tasks/PackerTask/PackerTaskV1/src/environment-variable-policy.ts:53-85 | A variable that selects an identity keeps its value whatever the text, even when the run fails |
| `PassthroughPolicy.PassthroughMasks` | Tasks/PackerTask/PackerTaskV1/src/environment-variable-policy.ts:113-115 | Every value of a secret-shaped name is with the masker when the run completes |
| `PassthroughText.LineIsReadExactly` | Tasks/PackerTask/PackerTaskV1/src/environment-variable-policy.ts:91-100 | On the text: a line is read as an assignment exactly when it is one, with white space anywhere around its parts, and as a comment exactly when it is blank or starts with # |
| `PassthroughText.WithoutNameIsNoAssignment` | Tasks/PackerTask/PackerTaskV1/src/environment-variable-policy.ts:92-98 | A line without an equals sign, or that begins with one after white space, assigns nothing |
| `PassthroughText.LineIsExact` | Tasks/PackerTask/PackerTaskV1/src/environment-variable-policy.ts:91-116 | What one line does: a comment nothing, an assignment its variable, its masking and its warnings, any other line a warning |
| `PassthroughText.TextIsExact` | Tasks/PackerTask/PackerTaskV1/src/environment-variable-policy.ts:88-118 | The whole text ends exactly when no line stops it, and each variable has the last value a line assigns to it |
| `PassthroughText.PrintedAssignmentsAreSet` | Tasks/PackerTask/PackerTaskV1/src/environment-variable-policy.ts:88-118 | Round trip: assignments printed one to a line, with any padding, are set as written |
| `PassthroughText.IdentityNamesAreExact` | Tasks/PackerTask/PackerTaskV1/src/environment-variable-policy.ts:69-85 | The names that select an identity, word by word |
| `PassthroughText.ManagedNamesAreExact` | Tasks/PackerTask/PackerTaskV1/src/environment-variable-policy.ts:35-37 | The names the task also manages |
| `PassthroughText.SecretShapeIsExact` | Tasks/PackerTask/PackerTaskV1/src/environment-variable-policy.ts:51 | A name is secret-shaped exactly when it contains one of four words in any case |
| `PassthroughPolicy.PolicyCoversTheHandlers` | Tasks/PackerTask/PackerTaskV1/src/environment-variable-policy.ts:69-85 | Of the variables the handlers name, the policy refuses all but the AWS region and the interactive Azure login, which it warns about |
| `FlagParsing.CompleteAppend` | Tasks/PackerTask/PackerTaskV1/src/base-packer-command-handler.ts:185-190 | After complete flags parsing goes on as if they were not there |
| `FlagParsing.VarArgsParse` | Tasks/PackerTask/PackerTaskV1/src/base-packer-command-handler.ts:218-228 | Each -var entry is taken whole, whatever it looks like |
| `FlagParsing.TailIsReadAsMeant` | Tasks/PackerTask/PackerTaskV1/src/base-packer-command-handler.ts:185-197 | The entries and the template are read as meant if and only if the options before them are complete flags, or end the flags with no entry to follow |
| `CommandLine.ApplyProviderVarArgs` | Tasks/PackerTask/PackerTaskV1/src/base-packer-command-handler.ts:191-196 | A -var before each provider entry |
| `CommandLine.ApplyVarArgs` | Tasks/PackerTask/PackerTaskV1/src/base-packer-command-handler.ts:199-229 | Files first, then the kept variable lines; a file outside the working directory stops the run |
| `CommandLine.ApplyVariableFiles` | Tasks/PackerTask/PackerTaskV1/src/base-packer-command-handler.ts:206-216 | The loop over the variable files |
| `CommandLine.ApplyPackerVariables` | Tasks/PackerTask/PackerTaskV1/src/base-packer-command-handler.ts:218-228 | The loop over the variable lines |
| `CommandLine.Validate` | Tasks/PackerTask/PackerTaskV1/src/base-packer-command-handler.ts:475-493 | The argument list, or none when a file is refused or the provider fails |
| `CommandLine.Build` | Tasks/PackerTask/PackerTaskV1/src/base-packer-command-handler.ts:495-535 | The argument list, or none when an input is invalid, a file is refused or the provider fails |
| `CommandLine.Console` | Tasks/PackerTask/PackerTaskV1/src/base-packer-command-handler.ts:583-593 | The argument list, or none when the provider fails |
| `CommandLine.ValidateIsReadAsMeant` | Tasks/PackerTask/PackerTaskV1/src/base-packer-command-handler.ts:475-493 | Packer reads the kept lines in order, then the options' variables, then the provider's; the template is the one positional argument exactly when the options fit |
| `CommandLine.BuildIsReadAsMeant` | Tasks/PackerTask/PackerTaskV1/src/base-packer-command-handler.ts:495-535 | The same for build, after its own flags |
| `CommandLine.ConsoleIsReadAsMeant` | Tasks/PackerTask/PackerTaskV1/src/base-packer-command-handler.ts:583-593 | The same for console, which has no variable inputs |
| `CommandInputs.LineIsKept` | Tasks/PackerTask/PackerTaskV1/src/base-packer-command-handler.ts:206-228 | Each line of an input is kept or left out on its own, trimmed |
| `CommandInputs.EntriesAreRead` | Tasks/PackerTask/PackerTaskV1/src/base-packer-command-handler.ts:206-228 | Round trip: entries written one to a line are the files and the variables, the secure file first |
| `CommandInputs.LastArgumentIsTheTemplate` | Tasks/PackerTask/PackerTaskV1/src/base-packer-command-handler.ts:475-493 | The last argument is the template path, or the working directory when none is given |
| `CommandInputs.FilesAreReadInOrder` | Tasks/PackerTask/PackerTaskV1/src/base-packer-command-handler.ts:199-216 | Packer reads the secure file, then the listed files, then those of the options |
| `CommandInputs.BuildRunsExactly` | Tasks/PackerTask/PackerTaskV1/src/base-packer-command-handler.ts:495-535 | A build is run exactly when its numbers and words are valid, its files contained and its provider ready |
| `CommandInputs.BuildSettingsAreExact` | Tasks/PackerTask/PackerTaskV1/src/base-packer-command-handler.ts:499-527 | Each setting of build's own stands for one input, and no other is made |
| `CommandInputs.DecimalReadsBack` | Tasks/PackerTask/PackerTaskV1/src/base-packer-command-handler.ts:505-511 | The number of parallel builds reads back from its digits |
| `ContainedFiles.OutsideFileStopsTheRun` | Tasks/PackerTask/PackerTaskV1/src/base-packer-command-handler.ts:206-216 | End to end with the file system: a command runs only if each listed file that can be opened or created lands in the working directory, a link with a missing target being judged by its own directory; and if all can be, the files let it run exactly then |
| `MinorBumps.ProductionDependenciesChanged` | scripts/check-minor-bumps.js:66-90 | The loop over the lockfile keys answers whether the shipped packages or the dependencies differ, and nothing else |
| `MinorBumps.ProductionIsExact` | scripts/check-minor-bumps.js:66-90 | What ships changed exactly when the dependencies did, or some package ships with a version at one reference only |
| `MinorBumps.DevEntriesDoNotCount` | scripts/check-minor-bumps.js:58-65 | Entries that only devDependencies reach, and the root project's own, make no difference |
| `MinorBumps.VerdictIsExact` | scripts/check-minor-bumps.js:124-168 | Each verdict by what is read: a bump is needed exactly for a change whose Minor, if both are numbers, has not grown |
| `MinorBumps.Repository.AnalyzeTask` | scripts/check-minor-bumps.js:124-168 | The verdict on one task from its diff, its two manifests and its two Minors, errors of the diff and of a Minor included |
| `MinorBumps.Repository.AnalyzeAll` | scripts/check-minor-bumps.js:124-168 | One verdict per task, the dependency decision made from the two manifests |
| `MinorBumps.Repository.BumpMinorVersions` | scripts/bump-minor-versions.js:46-89 | One run, and whether it passes, fails after an error of some task, or throws |
| `MinorBumps.RunIsExact` | scripts/bump-minor-versions.js:46-89 | The tasks before the first that cannot be rewritten take one step and all others stay; a run throws exactly when there is such a task, and else passes exactly when no verdict is an error |
| `MinorBumps.ExitIsExact` | scripts/bump-minor-versions.js:46-101 | A run throws exactly for a bump that cannot be written, and else ends with code 1 exactly for a task whose change cannot be told or whose version cannot be read |
| `MinorBumps.TaskConverges` | scripts/bump-minor-versions.js:46-61 | A task moves by one each run up to one past its previous Minor, and never further |
| `MinorBumps.RepeatedRunsConverge` | scripts/bump-minor-versions.js:76-89 | After some runs no bump is missing exactly when no task needed more; others are never touched, and more runs change nothing |
| `MinorBumps.SecondRunIsIdleExactly` | scripts/bump-minor-versions.js:12-18 | For every task list: the documented idle second run holds if and only if each task the first run bumped had a current Minor no lower than its previous one |
| `MinorBumps.SecondRunBumpsAgain` | scripts/bump-minor-versions.js:12-18 | Previous Minor 5, current Minor 3: the first three runs each change something |
| `MinorBumps.NeverSettles` | scripts/check-minor-bumps.js:160-164 | Against a previous Minor that is no number, every run bumps again |
| `SharedModules.ParityCheck.CompareModule` | scripts/check-shared-modules.js:157-185 | One canonical file and its copies: a missing one, a missing copy, a rewrite or a failure |
| `SharedModules.ParityCheck.CompareFamilies` | scripts/check-shared-modules.js:155-187 | The nested loops visit every canonical file and copy in order |
| `SharedModules.ParityCheck.CheckEntry` | scripts/check-shared-modules.js:189-214 | A copy from another repository passes exactly when it is there and declares each mark in its first 40 lines and at most once in all |
| `SharedModules.ParityCheck.Check` | scripts/check-shared-modules.js:124-187 | A whole run, its files and whether it passes; lists that compare nothing fail before any file is read, and headers are judged as rewritten |
| `SharedModules.SameLinesExactly` | scripts/check-shared-modules.js:29-37 | Two texts are the same to the check exactly when they have the same lines, with either line ending |
| `SharedModules.HeaderIsExact` | scripts/check-shared-modules.js:57-63 | A header is carried exactly when each of the three marks is in the head, and in the file once |
| `SharedModules.HeadIsTheFirstLines` | scripts/check-shared-modules.js:202 | The head is the first 40 lines |
| `SharedModules.EveryFamilyIsCompared` | scripts/check-shared-modules.js:155-187 | Every copy of every module of a family is compared with its canonical file |
| `SharedModules.PassedRunCompares` | scripts/check-shared-modules.js:66-122 | A run that passes has compared something in every family and read every entry |
| `SharedModules.FixIsExact` | scripts/check-shared-modules.js:174-182 | With clear roles a drifted copy ends with its canonical file's bytes and every other file is as it was |
| `SharedModules.VerifyIsExact` | scripts/check-shared-modules.js:176-182 | A verify run fails exactly at a pair that does not agree, and changes nothing |
| `SharedModules.FixFollowsOrigins` | scripts/check-shared-modules.js:157-185 | Each file of a fix run ends, up to line endings, with what was at the place the list alone determines |
| `SharedModules.SettlesExactly` | scripts/check-shared-modules.js:124-187 | A list is settled by one fix run whatever its files hold if and only if the two files of each pair have the same origin |
| `SharedModules.ClearRolesAgree` | scripts/check-shared-modules.js:124-187 | Lists in which no file is both canonical and a copy, nor a copy of two, meet that condition |
| `SharedModules.OneFixSettles` | scripts/check-shared-modules.js:124-187 | Then the next verify fails only for missing files and a second fix rewrites nothing; with clear roles canonical files are untouched |
| `SharedModules.FixRunHasTheLastWord` | scripts/check-shared-modules.js:115-221 | Over whole runs: what a fix run answers every later run answers, fix or verify, and none changes a file again |
| `SharedModules.CopyOfTwoNeverSettles` | scripts/check-shared-modules.js:40-51 | A copy of two canonical files: the fix passes and the next verify fails, again and again |

## Assumptions of the theorems

- `PassedGateComposes` is a corollary for the usual layout; `PassedGateComposesExactly`, from which it
  follows, has no condition but that the gate passes.
- `RunKeepsTrust` is stated for runs whose archives ship no file of which the claim holds;
  `TrustedIffArchivesShipNoRecord` shows that this is exactly what it needs, and `EveryRunDeliversVerified`
  that the deliveries need exactly the weaker claim, that no shipped record is the digest of some binary.
- `FixIsExact` is stated for lists in which no file is both a canonical one and a copy, nor a copy of two.
  `SettlesExactly` has no such condition.
- The `IsReadAsMeant` lemmas are stated for a template and provider entries that do not look like flags,
  for any flags packer knows besides the ones the handler writes, and for any operator options.
- `SecureFileIsLeftExactly` is stated for a command that loads one secure file, as the handler does, under an
  id that is no temp file's name; `SecureFilesAreDeletedExactly` is stated for any steps.
- `OutsideFileStopsTheRun` takes the working directory to exist and `path.resolve` to leave normal paths.
- `OciFederatedIdentityIsTheConnections` takes the three temp file names to be distinct and free of line
  feeds.

## Left out

- HTTP, DNS, egress authorization, proxies and the OpenPGP check: replies are inputs, with the outcomes the callers distinguish.
- SHA-256, `JSON.parse`, unzip, semantic-version cleaning, PEM normalization, key generation and MD5: functions or values given to the model; nothing is assumed of SHA-256 but the shape of its digest.
- Log text, localized messages, URL redaction and masking of URL parts; warnings are kept where a theorem speaks of them.
- Strings are sequences of Unicode characters, not of UTF-16 code units; a character outside the basic plane counts once.
- The GCP and vSphere handlers, the output variables, and the commands init, fmt, inspect, fix, hcl2_upgrade, plugins, version and custom: the same shapes again with fewer branches.
- The splitting of the operator's options into arguments, in the task library: the options are given as arguments.
- What a flag's own parser does with its value, such as refusing a number: `FlagParsing` follows only which argument is whose.
- Upper and lower case of variable names on Windows: names are compared exactly.
- Lower case beyond ASCII: only the Kelvin sign is lowered, the one other character whose lower case is a letter that is looked for.
- Removal of the tracked variables at the end of a command, which the external helper does.
- Process signals and exit codes: an emergency cleanup may run between any two steps.
- File permissions, the uniqueness of generated names (a fresh name is required of the file system) and a write of a secret file that fails half way.
- The notes the gate prints; the wording and the count of what it reports beside the faults.
- The three expressions that mark a provenance header: how often each matches a text is a function given to `SharedModules.ParityCheck.Check`.
- VarFileExtraction.CollectJsonStrings: object members are taken in the order they are given, not in the order JavaScript enumerates integer-like names.
- PathContainment.IsWithinWorkingDirectory: takes the two paths as `path.resolve` leaves them, as components below one root, so two drives are not compared.
- PackageTree.WalkTree: Tasks and images are read without asking whether they are links, so a link there to a directory stands in the tree as that directory, with its files away if it leads out of the repository.
- ManifestGate.ManifestCheck.CheckManifestPath: takes a value as the components `path.normalize` leaves, without a trailing slash; what lies at a path that passes through a link is a function given to the check.
- ManifestGate.ManifestCheck.CheckFiles: a path out of the root counts as composed nowhere, whether or not it exists; it is refused either way.
- ProviderCredentials.MaskKeyLines: masks the key as written; the helper that masks the key as read is external.
- SecretFiles.TempSecretFileManager.SetSecureFileId: one secure file is remembered, as in the code; a second one replaces it.
- SecureVarFile.LoadSecureFile: the tightening of the file's permissions, between download and registration, is external and does not fail here.
- ProviderEnvironment.ProviderHandler.SetEnvironmentVariable: the helper is external, and is modelled from what the guards say of it.
- MinorBumps.Repository.BumpMinorVersions: the rewrite of task.json is modelled on the Minor's value and on whether the pattern finds it, not on the text around it.
- CommandLine.Build: the number of parallel builds is what `parseInt` returned, written in decimal; the notation of numbers above 21 digits is not modelled.
