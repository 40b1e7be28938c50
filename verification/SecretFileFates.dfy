/**
 What becomes of each secret file, by the one cleanup that follows its writing (`temp-secret-file-manager.ts`,
 `parent-handler.ts`).
 */
module SecretFileFates {
  import opened JsText
  import opened SecretFiles

  // ── The cleanup that follows ─────────────────────────────────────────────────

  /** How the file system treats the file in the next cleanup: the first emergency of the steps, or the last cleanup. */
  function NextFault(steps: seq<Step>, last: Faults, path: string): Fault {
    if steps == [] then last.of(path)
    else if steps[0].Emergency? then steps[0].faults.of(path)
    else NextFault(steps[1..], last, path)
  }

  /** Whether deleting the remembered secure file fails in the next cleanup; none when another is remembered first. */
  function NextDeletion(steps: seq<Step>, last: Faults): Option<bool> {
    if steps == [] then Some(last.secureDeleteFails)
    else
      match steps[0]
      case Emergency(faults) => Some(faults.secureDeleteFails)
      case Remember(_) => None
      case _ => NextDeletion(steps[1..], last)
  }

  predicate Writes(s: Step, path: string) { s.Write? && s.path == path }

  /** Some writing of the path was followed by a cleanup in which something failed. */
  predicate FailsOnce(steps: seq<Step>, last: Faults, path: string) {
    exists i :: 0 <= i < |steps| && Writes(steps[i], path) && AnyFault(NextFault(steps[i + 1..], last, path))
  }

  predicate AnyFault(fault: Fault) { fault.scrubFails || fault.unlinkFails }

  /** A secure file is remembered when a cleanup comes that cannot delete it. */
  predicate DeletionFailsOnce(steps: seq<Step>, last: Faults, id: string) {
    exists i :: 0 <= i < |steps| && steps[i] == Remember(id) && NextDeletion(steps[i + 1..], last) == Some(true)
  }

  /** The machine after the steps and the last cleanup. */
  function Ending(m: Machine, t: Tracked, steps: seq<Step>, last: Faults): Machine {
    var (m', t') := StepsSpec(m, t, steps);
    CleanupSpec(m', t'.files, t'.secureFileId, last)
  }

  lemma EndingStep(m: Machine, t: Tracked, steps: seq<Step>, last: Faults)
    requires steps != []
    ensures var (m', t') := StepSpec(m, t, steps[0]); Ending(m, t, steps, last) == Ending(m', t', steps[1..], last)
  {
    hide StepSpec, CleanupSpec;
  }

  lemma ExecuteEnds(m: Machine, provider: string, steps: seq<Step>, last: Faults)
    requires KnownProvider(provider)
    ensures ExecuteSpec(m, provider, steps, last) == Ending(m, NOTHING, steps, last)
  {
    hide StepsSpec, CleanupSpec, KnownProvider;
  }

  // ── One cleanup ──────────────────────────────────────────────────────────────

  /** Every path is tracked once, and what is tracked is on disk. */
  predicate Orderly(m: Machine, t: Tracked) {
    && (forall i, j :: 0 <= i < j < |t.files| ==> t.files[i] != t.files[j])
    && forall i :: 0 <= i < |t.files| ==> t.files[i] in m.files
  }

  /** What a cleanup makes of a tracked file: gone unless it cannot be unlinked, zeroed unless it cannot be scrubbed. */
  predicate Cleaned(m: Machine, m': Machine, path: string, fault: Fault)
    requires path in m.files
  {
    && (path in m'.files <==> fault.unlinkFails)
    && (path in m'.files ==> m'.files[path] == if fault.scrubFails then m.files[path] else Zeroed)
    && (path in m'.warned <==> path in m.warned || AnyFault(fault))
  }

  lemma CleanFileIsExact(m: Machine, path: string, fault: Fault)
    requires path in m.files
    ensures var m' := CleanFile(m, path, fault);
      && Cleaned(m, m', path, fault)
      && forall p :: p != path ==> (p in m'.files <==> p in m.files) && (p in m.files ==> m'.files[p] == m.files[p]) && (p in m'.warned <==> p in m.warned)
  {
  }

  lemma {:induction false} CleanFilesAreExact(m: Machine, paths: seq<string>, faults: Faults, path: string)
    requires (forall i, j :: 0 <= i < j < |paths| ==> paths[i] != paths[j]) && forall i :: 0 <= i < |paths| ==> paths[i] in m.files
    ensures var m' := CleanFiles(m, paths, faults);
      if path in paths then path in m.files && Cleaned(m, m', path, faults.of(path))
      else (path in m'.files <==> path in m.files) && (path in m.files ==> m'.files[path] == m.files[path]) && (path in m'.warned <==> path in m.warned)
    decreases |paths|
  {
    hide CleanFile;
    if paths != [] {
      var m1, fault := CleanFile(m, paths[0], faults.of(paths[0])), faults.of(paths[0]);
      CleanFileIsExact(m, paths[0], fault);
      assert forall i :: 0 <= i < |paths[1..]| ==> paths[1..][i] == paths[i + 1];
      CleanFilesAreExact(m1, paths[1..], faults, path);
      assert paths == [paths[0]] + paths[1..];
    }
  }

  lemma CleanupIsExact(m: Machine, t: Tracked, faults: Faults, path: string)
    requires Orderly(m, t)
    ensures var m' := CleanupSpec(m, t.files, t.secureFileId, faults);
      if path in t.files then path in m.files && Cleaned(m, m', path, faults.of(path))
      else (path in m'.files <==> path in m.files) && (path in m.files ==> m'.files[path] == m.files[path]) && (path in m'.warned <==> path in m.warned)
  {
    hide CleanFiles;
    CleanFilesAreExact(m, t.files, faults, path);
  }

  lemma StepKeepsOrder(m: Machine, t: Tracked, s: Step)
    requires Orderly(m, t) && Enabled(m, t, s)
    ensures var (m', t') := StepSpec(m, t, s); Orderly(m', t')
  {
    hide CleanupSpec;
  }

  // ── Written files ────────────────────────────────────────────────────────────

  /** An untracked file that is not written again keeps its fate. */
  lemma {:induction false} UntrackedStays(m: Machine, t: Tracked, steps: seq<Step>, last: Faults, path: string)
    requires Orderly(m, t) && AllEnabled(m, t, steps) && path !in t.files
    requires forall i :: 0 <= i < |steps| ==> !Writes(steps[i], path)
    ensures var m' := Ending(m, t, steps, last);
      (path in m'.files <==> path in m.files) && (path in m.files ==> m'.files[path] == m.files[path]) && (path in m'.warned <==> path in m.warned)
    decreases |steps|
  {
    hide CleanupSpec, Orderly, Enabled;
    if steps == [] {
      CleanupIsExact(m, t, last, path);
    } else {
      var (m', t') := StepSpec(m, t, steps[0]);
      StepKeepsOrder(m, t, steps[0]);
      EndingStep(m, t, steps, last);
      assert !Writes(steps[0], path);
      if steps[0].Emergency? { CleanupIsExact(m, t, steps[0].faults, path); }
      assert forall i :: 0 <= i < |steps[1..]| ==> steps[1..][i] == steps[i + 1];
      hide Ending, StepSpec;
      UntrackedStays(m', t', steps[1..], last, path);
    }
  }

  /** A tracked file that is not written again has the fate the next cleanup gives it. */
  lemma {:induction false} TrackedIsCleaned(m: Machine, t: Tracked, steps: seq<Step>, last: Faults, path: string)
    requires Orderly(m, t) && AllEnabled(m, t, steps) && path in t.files && path in m.files
    requires forall i :: 0 <= i < |steps| ==> !Writes(steps[i], path)
    ensures Cleaned(m, Ending(m, t, steps, last), path, NextFault(steps, last, path))
    decreases |steps|
  {
    hide CleanupSpec, Orderly, Enabled, AnyFault;
    if steps == [] {
      CleanupIsExact(m, t, last, path);
    } else {
      var (m', t') := StepSpec(m, t, steps[0]);
      StepKeepsOrder(m, t, steps[0]);
      EndingStep(m, t, steps, last);
      assert !Writes(steps[0], path);
      assert forall i :: 0 <= i < |steps[1..]| ==> steps[1..][i] == steps[i + 1];
      if steps[0].Emergency? {
        CleanupIsExact(m, t, steps[0].faults, path);
        hide Ending;
        UntrackedStays(m', t', steps[1..], last, path);
      } else {
        hide Ending;
        TrackedIsCleaned(m', t', steps[1..], last, path);
      }
    }
  }

  /** The run from the step after the i-th on. */
  lemma {:induction false} RunTo(m: Machine, t: Tracked, steps: seq<Step>, last: Faults, i: nat)
    returns (m': Machine, t': Tracked)
    requires i < |steps| && Orderly(m, t) && AllEnabled(m, t, steps)
    ensures Orderly(m', t') && Enabled(m', t', steps[i]) && AllEnabled(m', t', steps[i..]) && Ending(m, t, steps, last) == Ending(m', t', steps[i..], last)
    decreases i
  {
    hide Orderly, Enabled, Ending, StepSpec;
    if i == 0 {
      m', t' := m, t;
      assert steps[0..] == steps;
    } else {
      StepKeepsOrder(m, t, steps[0]);
      EndingStep(m, t, steps, last);
      var (m1, t1) := StepSpec(m, t, steps[0]);
      m', t' := RunTo(m1, t1, steps[1..], last, i - 1);
      assert steps[1..][i - 1..] == steps[i..];
    }
  }

  /**
   After `execute`, in every interleaving: a written file is still on disk exactly when the one cleanup that followed its
   writing could not unlink it, and is then zeroed unless that cleanup could not scrub it either.
   */
  lemma WrittenFileIsExact(m: Machine, provider: string, steps: seq<Step>, last: Faults, i: nat)
    requires KnownProvider(provider) && AllEnabled(m, NOTHING, steps) && i < |steps| && steps[i].Write?
    requires forall j :: i < j < |steps| ==> !Writes(steps[j], steps[i].path)
    ensures var m', path := ExecuteSpec(m, provider, steps, last), steps[i].path;
      var fault := NextFault(steps[i + 1..], last, path);
      && (path in m'.files <==> fault.unlinkFails)
      && (path in m'.files ==> m'.files[path] == if fault.scrubFails then Secret(steps[i].content) else Zeroed)
  {
    hide KnownProvider, Orderly, Ending, AnyFault;
    ExecuteEnds(m, provider, steps, last);
    NothingIsOrderly(m);
    var m1, t1 := RunTo(m, NOTHING, steps, last, i);
    assert steps[i..][0] == steps[i] && steps[i..][1..] == steps[i + 1..];
    EndingStep(m1, t1, steps[i..], last);
    StepKeepsOrder(m1, t1, steps[i]);
    var (m2, t2) := StepSpec(m1, t1, steps[i]);
    var rest := steps[i + 1..];
    assert forall j :: 0 <= j < |rest| ==> rest[j] == steps[i + 1 + j];
    TrackedIsCleaned(m2, t2, rest, last, steps[i].path);
  }

  lemma NothingIsOrderly(m: Machine)
    ensures Orderly(m, NOTHING)
  {
  }

  /** Who is warned of: exactly the files for which something failed in the cleanup that followed a writing of them. */
  lemma {:induction false} WarningsFrom(m: Machine, t: Tracked, steps: seq<Step>, last: Faults, path: string)
    requires Orderly(m, t) && AllEnabled(m, t, steps)
    ensures path in Ending(m, t, steps, last).warned <==>
      path in m.warned || (path in t.files && AnyFault(NextFault(steps, last, path))) || FailsOnce(steps, last, path)
    decreases |steps|
  {
    hide CleanupSpec, Orderly, Enabled, AnyFault;
    if steps == [] {
      CleanupIsExact(m, t, last, path);
    } else {
      var (m', t') := StepSpec(m, t, steps[0]);
      StepKeepsOrder(m, t, steps[0]);
      EndingStep(m, t, steps, last);
      if steps[0].Emergency? { CleanupIsExact(m, t, steps[0].faults, path); }
      FailsOnceStep(steps, last, path);
      hide Ending, FailsOnce;
      WarningsFrom(m', t', steps[1..], last, path);
    }
  }

  lemma FailsOnceStep(steps: seq<Step>, last: Faults, path: string)
    requires steps != []
    ensures FailsOnce(steps, last, path) <==>
      (Writes(steps[0], path) && AnyFault(NextFault(steps[1..], last, path))) || FailsOnce(steps[1..], last, path)
  {
    hide AnyFault, NextFault, Writes;
    forall i | 0 < i < |steps| ensures steps[1..][i - 1] == steps[i] && steps[1..][i - 1 + 1..] == steps[i + 1..] {}
    if FailsOnce(steps, last, path) {
      var i :| 0 <= i < |steps| && Writes(steps[i], path) && AnyFault(NextFault(steps[i + 1..], last, path));
      if i > 0 { assert Writes(steps[1..][i - 1], path); }
    }
    if FailsOnce(steps[1..], last, path) {
      var i :| 0 <= i < |steps[1..]| && Writes(steps[1..][i], path) && AnyFault(NextFault(steps[1..][i + 1..], last, path));
      assert steps[i + 1] == steps[1..][i] && steps[i + 1 + 1..] == steps[1..][i + 1..];
    }
  }

  /** After `execute` a temp file is named in a warning exactly when it was before, or a cleanup failed to scrub or to unlink it. */
  lemma WarningsAreExact(m: Machine, provider: string, steps: seq<Step>, last: Faults, path: string)
    requires KnownProvider(provider) && AllEnabled(m, NOTHING, steps)
    ensures path in ExecuteSpec(m, provider, steps, last).warned <==> path in m.warned || FailsOnce(steps, last, path)
  {
    hide KnownProvider, Orderly, Ending, FailsOnce;
    ExecuteEnds(m, provider, steps, last);
    NothingIsOrderly(m);
    WarningsFrom(m, NOTHING, steps, last, path);
  }

  predicate Faultless(faults: Faults, path: string) { !AnyFault(faults.of(path)) }

  lemma {:induction false} NextIsFaultless(steps: seq<Step>, last: Faults, path: string)
    requires Faultless(last, path) && forall i :: 0 <= i < |steps| && steps[i].Emergency? ==> Faultless(steps[i].faults, path)
    ensures !AnyFault(NextFault(steps, last, path))
  {
    if steps != [] { NextIsFaultless(steps[1..], last, path); }
  }

  /** So when no cleanup fails on it, a written file does not outlive the command, and nobody is warned of it. */
  lemma NoFaultLeavesNothing(m: Machine, provider: string, steps: seq<Step>, last: Faults, path: string)
    requires KnownProvider(provider) && AllEnabled(m, NOTHING, steps) && path in Written(steps) && path !in m.warned
    requires Faultless(last, path) && forall i :: 0 <= i < |steps| && steps[i].Emergency? ==> Faultless(steps[i].faults, path)
    ensures var m' := ExecuteSpec(m, provider, steps, last); path !in m'.files && path !in m'.warned
  {
    hide KnownProvider, ExecuteSpec, AllEnabled, Faultless, NextFault;
    WarningsAreExact(m, provider, steps, last, path);
    forall i | 0 <= i < |steps| && Writes(steps[i], path) ensures !AnyFault(NextFault(steps[i + 1..], last, path)) {
      var rest := steps[i + 1..];
      assert forall j :: 0 <= j < |rest| ==> rest[j] == steps[i + 1 + j];
      NextIsFaultless(rest, last, path);
    }
    var i := LastWrite(steps, path);
    WrittenFileIsExact(m, provider, steps, last, i);
  }

  lemma {:induction false} LastWrite(steps: seq<Step>, path: string) returns (i: nat)
    requires path in Written(steps)
    ensures i < |steps| && Writes(steps[i], path) && forall j :: i < j < |steps| ==> !Writes(steps[j], path)
  {
    assert forall j :: 0 < j < |steps| ==> steps[j] == steps[1..][j - 1];
    if path in Written(steps[1..]) {
      var k := LastWrite(steps[1..], path);
      i := k + 1;
    } else {
      i := 0;
      NotWritten(steps[1..], path);
    }
  }

  lemma {:induction false} NotWritten(steps: seq<Step>, path: string)
    requires path !in Written(steps)
    ensures forall j :: 0 <= j < |steps| ==> !Writes(steps[j], path)
  {
    if steps != [] {
      NotWritten(steps[1..], path);
      assert forall j :: 0 < j < |steps| ==> steps[j] == steps[1..][j - 1];
    }
  }

  // ── The remembered secure file ───────────────────────────────────────────────

  lemma CleanupOfSecure(m: Machine, t: Tracked, faults: Faults, id: string)
    requires id != ""
    ensures var m' := CleanupSpec(m, t.files, t.secureFileId, faults);
      && (id in m'.secureFiles <==> id in m.secureFiles && !(t.secureFileId == Some(id) && !faults.secureDeleteFails))
      && (id in m'.warnedIds <==> id in m.warnedIds || (t.secureFileId == Some(id) && faults.secureDeleteFails))
  {
    hide CleanFiles;
    CleanFilesEffect(m, t.files, faults);
  }

  /** A secure file that is on disk and neither remembered nor downloaded any more stays. */
  lemma {:induction false} ForgottenStays(m: Machine, t: Tracked, steps: seq<Step>, last: Faults, id: string)
    requires id != "" && t.secureFileId != Some(id) && Download(id) !in steps && Remember(id) !in steps
    ensures id in Ending(m, t, steps, last).secureFiles <==> id in m.secureFiles
    decreases |steps|
  {
    hide CleanupSpec;
    if steps == [] {
      CleanupOfSecure(m, t, last, id);
    } else {
      var (m', t') := StepSpec(m, t, steps[0]);
      EndingStep(m, t, steps, last);
      if steps[0].Emergency? { CleanupOfSecure(m, t, steps[0].faults, id); }
      assert steps == [steps[0]] + steps[1..];
      hide Ending;
      ForgottenStays(m', t', steps[1..], last, id);
    }
  }

  lemma {:induction false} RememberedIsDeleted(m: Machine, t: Tracked, steps: seq<Step>, last: Faults, id: string)
    requires id != "" && t.secureFileId == Some(id) && id in m.secureFiles && Download(id) !in steps && Remember(id) !in steps
    ensures id in Ending(m, t, steps, last).secureFiles <==> NextDeletion(steps, last) != Some(false)
    decreases |steps|
  {
    hide CleanupSpec;
    if steps == [] {
      CleanupOfSecure(m, t, last, id);
    } else {
      var (m', t') := StepSpec(m, t, steps[0]);
      EndingStep(m, t, steps, last);
      assert steps == [steps[0]] + steps[1..];
      if steps[0].Emergency? { CleanupOfSecure(m, t, steps[0].faults, id); }
      hide Ending;
      if steps[0].Emergency? || steps[0].Remember? {
        ForgottenStays(m', t', steps[1..], last, id);
      } else {
        RememberedIsDeleted(m', t', steps[1..], last, id);
      }
    }
  }

  /** After `execute` a remembered secure file is on disk exactly when the next cleanup could not delete it, or another was remembered before. */
  lemma RememberedFileIsExact(m: Machine, provider: string, steps: seq<Step>, last: Faults, i: nat, id: string)
    requires KnownProvider(provider) && AllEnabled(m, NOTHING, steps) && i < |steps| && steps[i] == Remember(id)
    requires Download(id) !in steps[i + 1..] && Remember(id) !in steps[i + 1..]
    ensures id in ExecuteSpec(m, provider, steps, last).secureFiles <==> NextDeletion(steps[i + 1..], last) != Some(false)
  {
    hide KnownProvider, Orderly, Ending;
    ExecuteEnds(m, provider, steps, last);
    NothingIsOrderly(m);
    var m1, t1 := RunTo(m, NOTHING, steps, last, i);
    assert steps[i..][0] == steps[i] && steps[i..][1..] == steps[i + 1..];
    EndingStep(m1, t1, steps[i..], last);
    var (m2, t2) := StepSpec(m1, t1, steps[i]);
    RememberedIsDeleted(m2, t2, steps[i + 1..], last, id);
  }

  lemma {:induction false} SecureWarningsFrom(m: Machine, t: Tracked, steps: seq<Step>, last: Faults, id: string)
    requires id != ""
    ensures id in Ending(m, t, steps, last).warnedIds <==>
      id in m.warnedIds || (t.secureFileId == Some(id) && NextDeletion(steps, last) == Some(true)) || DeletionFailsOnce(steps, last, id)
    decreases |steps|
  {
    hide CleanupSpec;
    if steps == [] {
      CleanupOfSecure(m, t, last, id);
    } else {
      var (m', t') := StepSpec(m, t, steps[0]);
      EndingStep(m, t, steps, last);
      if steps[0].Emergency? { CleanupOfSecure(m, t, steps[0].faults, id); }
      DeletionFailsStep(steps, last, id);
      hide Ending, DeletionFailsOnce;
      SecureWarningsFrom(m', t', steps[1..], last, id);
    }
  }

  lemma DeletionFailsStep(steps: seq<Step>, last: Faults, id: string)
    requires steps != []
    ensures DeletionFailsOnce(steps, last, id) <==>
      (steps[0] == Remember(id) && NextDeletion(steps[1..], last) == Some(true)) || DeletionFailsOnce(steps[1..], last, id)
  {
    hide NextDeletion;
    if DeletionFailsOnce(steps, last, id) {
      var i :| 0 <= i < |steps| && steps[i] == Remember(id) && NextDeletion(steps[i + 1..], last) == Some(true);
      if i > 0 { assert steps[1..][i - 1] == steps[i] && steps[1..][i - 1 + 1..] == steps[i + 1..]; }
    }
    if DeletionFailsOnce(steps[1..], last, id) {
      var i :| 0 <= i < |steps[1..]| && steps[1..][i] == Remember(id) && NextDeletion(steps[1..][i + 1..], last) == Some(true);
      assert steps[i + 1] == steps[1..][i] && steps[i + 1 + 1..] == steps[1..][i + 1..];
    }
  }

  /** And is named in a warning exactly when it was before, or a cleanup that had it remembered could not delete it. */
  lemma SecureWarningsAreExact(m: Machine, provider: string, steps: seq<Step>, last: Faults, id: string)
    requires KnownProvider(provider) && id != ""
    ensures id in ExecuteSpec(m, provider, steps, last).warnedIds <==> id in m.warnedIds || DeletionFailsOnce(steps, last, id)
  {
    hide KnownProvider, Ending, DeletionFailsOnce;
    ExecuteEnds(m, provider, steps, last);
    SecureWarningsFrom(m, NOTHING, steps, last, id);
  }

  lemma ProvidersAreExact(name: string)
    ensures KnownProvider(name) <==>
      name == "azurerm" || name == "aws" || name == "gcp" || name == "oci" || name == "vsphere" || name == "none" || name == ""
  {
    var names := ["azurerm", "aws", "gcp", "oci", "vsphere", "none", ""];
    assert names[0] in names && names[1] in names && names[2] in names && names[3] in names && names[4] in names && names[5] in names && names[6] in names;
  }

  /** For a provider that is not known nothing is done at all. */
  lemma UnknownProviderDoesNothing(m: Machine, provider: string, steps: seq<Step>, last: Faults)
    requires !KnownProvider(provider)
    ensures ExecuteSpec(m, provider, steps, last) == m
  {
  }
}
