/**
 The life of credential temp files (`temp-secret-file-manager.ts`, `parent-handler.ts`): written and
 tracked, scrubbed and unlinked in a `finally`, with an emergency cleanup possible between any two
 synchronous steps of a command.
 */
module SecretFiles {
  import opened JsText

  datatype Content = Secret(text: string) | Zeroed

  /** What was done to a file, in order. */
  datatype Action = Scrub(path: string) | Unlink(path: string)

  /** The machine: files on disk, what warnings named, files and secure files apart, and the actions of every cleanup so far. */
  datatype Machine = Machine(
    files: map<string, Content>,
    secureFiles: set<string>,      // downloaded secure files, by id
    warned: set<string>,
    warnedIds: set<string>,
    log: seq<Action>)

  /** Whether zero-overwriting and unlinking a file fail. */
  datatype Fault = Fault(scrubFails: bool, unlinkFails: bool)

  /** How the file system behaves during one cleanup. */
  datatype Faults = Faults(of: string -> Fault, secureDeleteFails: bool)

  // ── One cleanup ──────────────────────────────────────────────────────────────

  function CleanFile(m: Machine, path: string, fault: Fault): Machine {
    if path !in m.files then m
    else
      var scrubbed :=
        if fault.scrubFails then m.(warned := m.warned + {path}, log := m.log + [Scrub(path)])
        else m.(files := m.files[path := Zeroed], log := m.log + [Scrub(path)]);
      if fault.unlinkFails then scrubbed.(warned := scrubbed.warned + {path}, log := scrubbed.log + [Unlink(path)])
      else scrubbed.(files := scrubbed.files - {path}, log := scrubbed.log + [Unlink(path)])
  }

  function CleanFiles(m: Machine, paths: seq<string>, faults: Faults): Machine
    decreases |paths|
  {
    if paths == [] then m else CleanFiles(CleanFile(m, paths[0], faults.of(paths[0])), paths[1..], faults)
  }

  /** `deleteSecureFile`, which swallows its own failure with a warning. */
  function DeleteSecure(m: Machine, id: Option<string>, fails: bool): Machine {
    if id.None? || id.value == "" then m
    else if fails then m.(warnedIds := m.warnedIds + {id.value})
    else m.(secureFiles := m.secureFiles - {id.value})
  }

  function CleanupSpec(m: Machine, tracked: seq<string>, id: Option<string>, faults: Faults): Machine {
    DeleteSecure(CleanFiles(m, tracked, faults), id, faults.secureDeleteFails)
  }

  // ── A handler's run, step by step ────────────────────────────────────────────

  /** A synchronous step of a command, or a signal handler running between two of them. */
  datatype Step =
    | Write(path: string, content: string)
    | Download(id: string)
    | Remember(id: string)
    | Emergency(faults: Faults)

  /** The handler's tracked files and secure file. */
  datatype Tracked = Tracked(files: seq<string>, secureFileId: Option<string>)

  const NOTHING := Tracked([], None)

  /** A new temp file name is unique: it names no file and no tracked path. */
  predicate FreshName(m: Machine, t: Tracked, path: string) { path !in m.files && path !in t.files }

  /** The secure file named by an input that is not empty is remembered when it has been downloaded. */
  predicate Enabled(m: Machine, t: Tracked, s: Step) {
    match s
    case Write(path, _) => FreshName(m, t, path)
    case Download(id) => id != ""
    case Remember(id) => id != "" && id in m.secureFiles
    case Emergency(_) => true
  }

  function StepSpec(m: Machine, t: Tracked, s: Step): (Machine, Tracked) {
    match s
    case Write(path, content) => (m.(files := m.files[path := Secret(content)]), t.(files := t.files + [path]))
    case Download(id) => (m.(secureFiles := m.secureFiles + {id}), t)
    case Remember(id) => (m, t.(secureFileId := Some(id)))
    case Emergency(faults) => (CleanupSpec(m, t.files, t.secureFileId, faults), AfterCleanup(t))
  }

  /** Cleanup forgets the tracked files, and the secure file when there was one. */
  function AfterCleanup(t: Tracked): Tracked {
    Tracked([], if t.secureFileId.Some? && t.secureFileId.value != "" then None else t.secureFileId)
  }

  predicate AllEnabled(m: Machine, t: Tracked, steps: seq<Step>)
    decreases |steps|
  {
    steps == [] || (Enabled(m, t, steps[0]) && var (m', t') := StepSpec(m, t, steps[0]); AllEnabled(m', t', steps[1..]))
  }

  function StepsSpec(m: Machine, t: Tracked, steps: seq<Step>): (Machine, Tracked)
    decreases |steps|
  {
    if steps == [] then (m, t)
    else
      var (m', t') := StepSpec(m, t, steps[0]);
      StepsSpec(m', t', steps[1..])
  }

  predicate KnownProvider(name: string) { name in ["azurerm", "aws", "gcp", "oci", "vsphere", "none", ""] }

  /** The machine after `execute`: an unknown provider throws first, otherwise the steps and the `finally`. */
  function ExecuteSpec(m: Machine, provider: string, steps: seq<Step>, faults: Faults): Machine {
    if !KnownProvider(provider) then m
    else
      var (m', t') := StepsSpec(m, NOTHING, steps);
      CleanupSpec(m', t'.files, t'.secureFileId, faults)
  }

  // ── The classes ──────────────────────────────────────────────────────────────

  class Disk {
    var files: map<string, Content>
    var secureFiles: set<string>
    var warned: set<string>
    var warnedIds: set<string>
    var log: seq<Action>

    ghost function Now(): Machine
      reads this
    {
      Machine(files, secureFiles, warned, warnedIds, log)
    }

    constructor ()
      ensures Now() == Machine(map[], {}, {}, {}, [])
    {
      files, secureFiles, warned, warnedIds, log := map[], {}, {}, {}, [];
    }

    method DownloadSecureFile(id: string)
      modifies this`secureFiles
      ensures forall t :: (Now(), t) == StepSpec(old(Now()), t, Download(id))
    {
      secureFiles := secureFiles + {id};
    }
  }

  class TempSecretFileManager {
    const disk: Disk
    var files: seq<string>
    var secureFileId: Option<string>

    ghost function Holds(): Tracked
      reads this
    {
      Tracked(files, secureFileId)
    }

    constructor (disk: Disk)
      ensures this.disk == disk && Holds() == NOTHING
    {
      this.disk := disk;
      files, secureFileId := [], None;
    }

    method WriteTracked(path: string, content: string) returns (written: string)
      requires FreshName(disk.Now(), Holds(), path)
      modifies this`files, disk`files
      ensures written == path
      ensures (disk.Now(), Holds()) == StepSpec(old(disk.Now()), old(Holds()), Write(path, content))
    {
      disk.files := disk.files[path := Secret(content)];
      files := files + [path];
      written := path;
    }

    method SetSecureFileId(id: string)
      modifies this`secureFileId
      ensures (disk.Now(), Holds()) == StepSpec(old(disk.Now()), old(Holds()), Remember(id))
    {
      secureFileId := Some(id);
    }

    method Cleanup(faults: Faults)
      modifies this, disk
      ensures disk.Now() == CleanupSpec(old(disk.Now()), old(files), old(secureFileId), faults)
      ensures Holds() == AfterCleanup(old(Holds()))
    {
      ghost var m0 := disk.Now();
      assert files[0..] == files;
      for k := 0 to |files|
        invariant files == old(files) && secureFileId == old(secureFileId)
        invariant CleanFiles(disk.Now(), files[k..], faults) == CleanFiles(m0, files, faults)
      {
        assert files[k..][1..] == files[k + 1..];
        CleanOne(files[k], faults.of(files[k]));
      }
      assert files[|files|..] == [];
      files := [];
      if secureFileId.Some? && secureFileId.value != "" {
        if faults.secureDeleteFails {
          disk.warnedIds := disk.warnedIds + {secureFileId.value};
        } else {
          disk.secureFiles := disk.secureFiles - {secureFileId.value};
        }
        secureFileId := None;
      }
    }

    /** The body of the loop: scrub, then unlink, warning about what fails. */
    method CleanOne(path: string, fault: Fault)
      modifies disk
      ensures disk.Now() == CleanFile(old(disk.Now()), path, fault)
    {
      if path in disk.files {
        disk.log := disk.log + [Scrub(path)];
        if fault.scrubFails {
          disk.warned := disk.warned + {path};
        } else {
          disk.files := disk.files[path := Zeroed];
        }
        disk.log := disk.log + [Unlink(path)];
        if fault.unlinkFails {
          disk.warned := disk.warned + {path};
        } else {
          disk.files := disk.files - {path};
        }
      }
    }
  }

  class ParentCommandHandler {
    const disk: Disk
    var activeHandler: TempSecretFileManager?

    constructor (disk: Disk)
      ensures this.disk == disk && activeHandler == null
    {
      this.disk := disk;
      activeHandler := null;
    }

    /** Between two steps: cleans up whatever handler is active, if any. */
    method EmergencyCleanup(faults: Faults)
      requires activeHandler != null ==> activeHandler.disk == disk
      modifies disk, activeHandler
      ensures activeHandler == null ==> disk.Now() == old(disk.Now())
      ensures activeHandler != null ==>
        && disk.Now() == CleanupSpec(old(disk.Now()), old(activeHandler.files), old(activeHandler.secureFileId), faults)
        && activeHandler.Holds() == AfterCleanup(old(activeHandler.Holds()))
    {
      if activeHandler != null { activeHandler.Cleanup(faults); }
    }

    /** `steps` are those of the command, which then returns or throws; the `finally` runs either way. */
    method Execute(provider: string, steps: seq<Step>, faults: Faults) returns (ok: bool)
      requires activeHandler == null
      requires AllEnabled(disk.Now(), NOTHING, steps)
      modifies this, disk
      ensures ok == KnownProvider(provider)
      ensures disk.Now() == ExecuteSpec(old(disk.Now()), provider, steps, faults)
      ensures activeHandler == null
    {
      if !KnownProvider(provider) { return false; }
      var handler := new TempSecretFileManager(disk);
      activeHandler := handler;
      assert steps[0..] == steps;
      for k := 0 to |steps|
        invariant activeHandler == handler && handler.disk == disk && fresh(handler)
        invariant AllEnabled(disk.Now(), handler.Holds(), steps[k..])
        invariant StepsSpec(disk.Now(), handler.Holds(), steps[k..]) == StepsSpec(old(disk.Now()), NOTHING, steps)
      {
        assert steps[k..][1..] == steps[k + 1..];
        match steps[k] {
          case Write(path, content) =>
            var written := handler.WriteTracked(path, content);
          case Download(id) =>
            disk.DownloadSecureFile(id);
          case Remember(id) =>
            handler.SetSecureFileId(id);
          case Emergency(during) =>
            EmergencyCleanup(during);
        }
      }
      assert steps[|steps|..] == [];
      handler.Cleanup(faults);
      activeHandler := null;
      ok := true;
    }
  }

  // ── What every interleaving keeps ────────────────────────────────────────────

  /** The paths written through `writeTracked` by some steps. */
  function Written(steps: seq<Step>): set<string> {
    if steps == [] then {} else (if steps[0].Write? then {steps[0].path} else {}) + Written(steps[1..])
  }

  /** Every file of `w` that is still on disk is tracked, or a warning has named it. */
  predicate Accounted(m: Machine, t: Tracked, w: set<string>) {
    forall p :: p in w && p in m.files ==> p in t.files || p in m.warned
  }

  lemma CleanFileEffect(m: Machine, path: string, fault: Fault)
    ensures var m' := CleanFile(m, path, fault);
      && m'.files.Keys <= m.files.Keys && m.files.Keys <= m'.files.Keys + {path}
      && m.warned <= m'.warned && (path in m'.files ==> path in m'.warned)
      && (forall p :: p in m'.files && p != path ==> m'.files[p] == m.files[p])
      && m'.secureFiles == m.secureFiles && m'.warnedIds == m.warnedIds
  {
  }

  /** After a cleanup, a tracked file is gone or named in a warning; the others are untouched. */
  lemma {:induction false} CleanFilesEffect(m: Machine, paths: seq<string>, faults: Faults)
    ensures var m' := CleanFiles(m, paths, faults);
      && m'.files.Keys <= m.files.Keys && m.warned <= m'.warned
      && (forall p :: p in paths && p in m'.files ==> p in m'.warned)
      && (forall p :: p in m.files && p !in paths ==> p in m'.files && m'.files[p] == m.files[p])
      && m'.secureFiles == m.secureFiles && m'.warnedIds == m.warnedIds
    decreases |paths|
  {
    hide CleanFile;
    if paths != [] {
      var m1 := CleanFile(m, paths[0], faults.of(paths[0]));
      CleanFileEffect(m, paths[0], faults.of(paths[0]));
      CleanFilesEffect(m1, paths[1..], faults);
      assert paths == [paths[0]] + paths[1..];
    }
  }

  lemma CleanupEffect(m: Machine, t: Tracked, faults: Faults)
    ensures var m' := CleanupSpec(m, t.files, t.secureFileId, faults);
      && m'.files.Keys <= m.files.Keys && m.warned <= m'.warned
      && (forall p :: p in t.files && p in m'.files ==> p in m'.warned)
      && (forall p :: p in m.files && p !in t.files ==> p in m'.files && m'.files[p] == m.files[p])
      && (t.secureFileId.Some? && t.secureFileId.value != "" && t.secureFileId.value in m'.secureFiles ==>
            t.secureFileId.value in m'.warnedIds)
  {
    hide CleanFiles;
    CleanFilesEffect(m, t.files, faults);
  }

  lemma StepKeepsAccount(m: Machine, t: Tracked, s: Step, w: set<string>)
    requires Accounted(m, t, w)
    ensures var (m', t') := StepSpec(m, t, s); Accounted(m', t', w + if s.Write? then {s.path} else {})
  {
    hide CleanupSpec;
    if s.Emergency? { CleanupEffect(m, t, s.faults); }
  }

  /** In every interleaving of writes, downloads and emergency cleanups. */
  lemma {:induction false} StepsKeepAccount(m: Machine, t: Tracked, steps: seq<Step>, w: set<string>)
    requires Accounted(m, t, w)
    ensures var (m', t') := StepsSpec(m, t, steps); Accounted(m', t', w + Written(steps))
    decreases |steps|
  {
    hide StepSpec;
    if steps == [] {
      assert w + {} == w;
    } else {
      var (m', t') := StepSpec(m, t, steps[0]);
      var first := if steps[0].Write? then {steps[0].path} else {};
      StepKeepsAccount(m, t, steps[0], w);
      StepsKeepAccount(m', t', steps[1..], w + first);
      assert w + first + Written(steps[1..]) == w + Written(steps);
    }
  }

  /** Files that no step wrote are never touched. */
  lemma {:induction false} StepsLeaveOthers(m: Machine, t: Tracked, steps: seq<Step>, p: string)
    requires p in m.files && p !in t.files && AllEnabled(m, t, steps)
    ensures var (m', t') := StepsSpec(m, t, steps); p in m'.files && m'.files[p] == m.files[p] && p !in t'.files
    decreases |steps|
  {
    hide CleanupSpec;
    if steps != [] {
      var (m', t') := StepSpec(m, t, steps[0]);
      if steps[0].Emergency? { CleanupEffect(m, t, steps[0].faults); }
      StepsLeaveOthers(m', t', steps[1..], p);
    }
  }

  /**
   After `execute` returns or throws, whatever was interleaved: of the secret files it wrote only
   those named in a warning are still on disk, and every other file is as it was.
   */
  lemma ExecuteLeavesOnlyWarned(m: Machine, provider: string, steps: seq<Step>, faults: Faults)
    requires KnownProvider(provider) && AllEnabled(m, NOTHING, steps)
    ensures var m' := ExecuteSpec(m, provider, steps, faults);
      && (forall p :: p in Written(steps) && p in m'.files ==> p in m'.warned)
      && (forall p :: p in m.files ==> p in m'.files && m'.files[p] == m.files[p])
  {
    hide CleanupSpec, StepsSpec, AllEnabled, Written, KnownProvider;
    var (m1, t1) := StepsSpec(m, NOTHING, steps);
    StepsKeepAccount(m, NOTHING, steps, {});
    assert {} + Written(steps) == Written(steps);
    CleanupEffect(m1, t1, faults);
    forall p | p in m.files ensures p in m1.files && m1.files[p] == m.files[p] && p !in t1.files {
      StepsLeaveOthers(m, NOTHING, steps, p);
    }
  }

  // ── The downloaded secure file ───────────────────────────────────────────────

  function Downloaded(steps: seq<Step>): set<string> {
    if steps == [] then {} else (if steps[0].Download? then {steps[0].id} else {}) + Downloaded(steps[1..])
  }

  /**
   The downloaded files that no cleanup will look for: not yet remembered, forgotten for another one, or
   downloaded again after they were. `held` is the file remembered.
   */
  function Loose(steps: seq<Step>, held: Option<string>, loose: set<string>): set<string>
    decreases |steps|
  {
    if steps == [] then loose
    else
      match steps[0]
      case Write(_, _) => Loose(steps[1..], held, loose)
      case Download(id) => Loose(steps[1..], held, if held == Some(id) then loose else loose + {id})
      case Remember(id) => Loose(steps[1..], Some(id), loose + Forgotten(held, id) - {id})
      case Emergency(_) => Loose(steps[1..], if Present(held) then None else held, loose)
  }

  function Forgotten(held: Option<string>, id: string): set<string> { if held.Some? && held.value != id then {held.value} else {} }

  /** Every downloaded file on disk is remembered, loose, or named in a warning; the loose ones are on disk. */
  predicate SecureAccount(m: Machine, t: Tracked, downloaded: set<string>, loose: set<string>) {
    && (forall id :: id in downloaded && id in m.secureFiles ==> t.secureFileId == Some(id) || id in loose || id in m.warnedIds)
    && loose <= m.secureFiles
    && (t.secureFileId.Some? ==> t.secureFileId.value != "" && t.secureFileId.value !in loose && t.secureFileId.value in m.secureFiles)
  }

  lemma CleanupSecure(m: Machine, t: Tracked, faults: Faults)
    ensures var m' := CleanupSpec(m, t.files, t.secureFileId, faults);
      && m'.secureFiles <= m.secureFiles && m.warnedIds <= m'.warnedIds
      && (forall id :: id in m.secureFiles && id !in m'.secureFiles ==> t.secureFileId == Some(id))
      && (Present(t.secureFileId) && t.secureFileId.value in m'.secureFiles ==> t.secureFileId.value in m'.warnedIds)
  {
    hide CleanFiles;
    CleanFilesEffect(m, t.files, faults);
  }

  lemma {:induction false} StepsKeepSecureAccount(m: Machine, t: Tracked, steps: seq<Step>, downloaded: set<string>, loose: set<string>)
    requires SecureAccount(m, t, downloaded, loose) && AllEnabled(m, t, steps)
    ensures var (m', t') := StepsSpec(m, t, steps);
      SecureAccount(m', t', downloaded + Downloaded(steps), Loose(steps, t.secureFileId, loose))
    decreases |steps|
  {
    if steps == [] {
      assert downloaded + {} == downloaded;
    } else {
      var s := steps[0];
      var (m', t') := StepSpec(m, t, s);
      var more := downloaded + if s.Download? then {s.id} else {};
      var left := match s
        case Write(_, _) => loose
        case Download(id) => if t.secureFileId == Some(id) then loose else loose + {id}
        case Remember(id) => loose + Forgotten(t.secureFileId, id) - {id}
        case Emergency(_) => loose;
      hide CleanupSpec;
      if s.Emergency? { CleanupSecure(m, t, s.faults); }
      assert SecureAccount(m', t', more, left);
      hide SecureAccount, StepSpec, Enabled;
      StepsKeepSecureAccount(m', t', steps[1..], more, left);
      assert more + Downloaded(steps[1..]) == downloaded + Downloaded(steps);
    }
  }

  /**
   After `execute`, whatever was interleaved: a downloaded secure file is gone, named in a warning, or loose; and
   the loose ones are still there.
   */
  lemma SecureFilesAreDeletedExactly(m: Machine, provider: string, steps: seq<Step>, faults: Faults)
    requires KnownProvider(provider) && AllEnabled(m, NOTHING, steps)
    ensures var m', loose := ExecuteSpec(m, provider, steps, faults), Loose(steps, None, {});
      && (forall id :: id in Downloaded(steps) && id in m'.secureFiles ==> id in loose || id in m'.warnedIds)
      && loose <= m'.secureFiles
  {
    hide CleanupSpec, StepsSpec, AllEnabled, KnownProvider, Loose;
    var (m1, t1) := StepsSpec(m, NOTHING, steps);
    StepsKeepSecureAccount(m, NOTHING, steps, {}, {});
    assert {} + Downloaded(steps) == Downloaded(steps);
    CleanupSecure(m1, t1, faults);
  }

  /** A cleanup warns of no secure file but the one remembered: one that never is is never warned of. */
  lemma {:induction false} StepsNeverName(m: Machine, t: Tracked, steps: seq<Step>, id: string)
    requires id !in m.warnedIds && t.secureFileId != Some(id) && Remember(id) !in steps
    ensures var (m', t') := StepsSpec(m, t, steps); id !in m'.warnedIds && t'.secureFileId != Some(id)
    decreases |steps|
  {
    hide CleanFiles;
    if steps != [] {
      var (m', t') := StepSpec(m, t, steps[0]);
      if steps[0].Emergency? { CleanFilesEffect(m, t.files, steps[0].faults); }
      assert steps == [steps[0]] + steps[1..];
      StepsNeverName(m', t', steps[1..], id);
    }
  }

  lemma ExecuteNeverNames(m: Machine, provider: string, steps: seq<Step>, faults: Faults, id: string)
    requires id !in m.warnedIds && Remember(id) !in steps
    ensures id !in ExecuteSpec(m, provider, steps, faults).warnedIds
  {
    hide CleanFiles, StepsSpec, KnownProvider;
    StepsNeverName(m, NOTHING, steps, id);
    var (m1, t1) := StepsSpec(m, NOTHING, steps);
    CleanFilesEffect(m1, t1.files, faults);
  }

  /** A second cleanup of the same handler changes nothing. */
  lemma SecondCleanupIsIdle(m: Machine, t: Tracked, first: Faults, second: Faults)
    ensures var m1 := CleanupSpec(m, t.files, t.secureFileId, first);
      var t1 := AfterCleanup(t);
      CleanupSpec(m1, t1.files, t1.secureFileId, second) == m1 && AfterCleanup(t1) == t1
  {
  }

  // ── Scrub before unlink ──────────────────────────────────────────────────────

  /** Every unlink in the log directly follows an attempt to scrub the same file. */
  predicate ScrubbedFirst(log: seq<Action>) {
    forall k :: 0 <= k < |log| && log[k].Unlink? ==> k > 0 && log[k - 1] == Scrub(log[k].path)
  }

  lemma CleanFileScrubs(m: Machine, path: string, fault: Fault)
    requires ScrubbedFirst(m.log)
    ensures ScrubbedFirst(CleanFile(m, path, fault).log)
  {
    if path in m.files {
      assert CleanFile(m, path, fault).log == m.log + [Scrub(path), Unlink(path)];
    }
  }

  lemma {:induction false} CleanFilesScrub(m: Machine, paths: seq<string>, faults: Faults)
    requires ScrubbedFirst(m.log)
    ensures ScrubbedFirst(CleanFiles(m, paths, faults).log)
    decreases |paths|
  {
    hide CleanFile, ScrubbedFirst;
    if paths != [] {
      CleanFileScrubs(m, paths[0], faults.of(paths[0]));
      CleanFilesScrub(CleanFile(m, paths[0], faults.of(paths[0])), paths[1..], faults);
    }
  }

  lemma {:induction false} StepsScrub(m: Machine, t: Tracked, steps: seq<Step>)
    requires ScrubbedFirst(m.log)
    ensures ScrubbedFirst(StepsSpec(m, t, steps).0.log)
    decreases |steps|
  {
    hide CleanFiles, ScrubbedFirst;
    if steps != [] {
      var (m', t') := StepSpec(m, t, steps[0]);
      if steps[0].Emergency? { CleanFilesScrub(m, t.files, steps[0].faults); }
      StepsScrub(m', t', steps[1..]);
    }
  }

  /** Over every run: no file is unlinked without a scrub attempt right before it. */
  lemma ExecuteScrubsFirst(m: Machine, provider: string, steps: seq<Step>, faults: Faults)
    requires ScrubbedFirst(m.log)
    ensures ScrubbedFirst(ExecuteSpec(m, provider, steps, faults).log)
  {
    hide CleanFiles, ScrubbedFirst, StepsSpec, KnownProvider;
    var (m1, t1) := StepsSpec(m, NOTHING, steps);
    StepsScrub(m, NOTHING, steps);
    CleanFilesScrub(m1, t1.files, faults);
  }
}
