/**
 The secure var file from its download to its deletion (`secure-file-loader.ts`,
 `base-packer-command-handler.ts`): it is masked before the handler remembers it.
 */
module SecureVarFile {
  import opened JsText
  import opened VarFileExtraction
  import opened VarFileRoundTrip
  import opened VarFileMasking
  import opened SecretFiles

  type Parser = string -> Option<Json>

  /** The registration of the file's values runs to its end; `content` is `None` when the file cannot be read. */
  predicate Masks(parse: Parser, content: Option<string>) {
    content.None? || (var secrets := Secrets(ExtractSpec(parse, content.value)); Accepted(secrets) == secrets)
  }

  /** What loading the file named by the input does to the machine and the handler. */
  function LoadSteps(parse: Parser, input: Option<string>, content: Option<string>): seq<Step> {
    if !Present(input) then []
    else [Download(input.value)] + if Masks(parse, content) then [Remember(input.value)] else []
  }

  /** `getSecureVarFileArgs` and the remembering that follows it; false where an error ends the command. */
  method LoadSecureFile(manager: TempSecretFileManager, masker: Masker, parse: Parser, input: Option<string>, content: Option<string>)
    returns (ok: bool)
    modifies manager`secureFileId, manager.disk`secureFiles, masker
    ensures (manager.disk.Now(), manager.Holds()) ==
            StepsSpec(old(manager.disk.Now()), old(manager.Holds()), LoadSteps(parse, input, content))
    ensures ok <==> !Present(input) || Masks(parse, content)
  {
    hide ExtractSpec, Secrets, Accepted;
    var disk := manager.disk;
    ghost var m, t := disk.Now(), manager.Holds();
    if !Present(input) { return true; }
    disk.DownloadSecureFile(input.value);
    TwoSteps(m, t, Download(input.value), Remember(input.value));
    ok := masker.MaskSecureVarFileValues(parse, content);
    if !ok { return; }
    manager.SetSecureFileId(input.value);
  }

  lemma TwoSteps(m: Machine, t: Tracked, first: Step, second: Step)
    ensures var (m1, t1) := StepSpec(m, t, first);
      && StepsSpec(m, t, [first]) == (m1, t1)
      && StepsSpec(m, t, [first] + [second]) == StepSpec(m1, t1, second)
  {
    hide StepSpec;
    var (m1, t1) := StepSpec(m, t, first);
    assert [first][1..] == [] && ([first] + [second])[1..] == [second] && [second][1..] == [];
    assert StepsSpec(m1, t1, []) == (m1, t1);
    var (m2, t2) := StepSpec(m1, t1, second);
    assert StepsSpec(m1, t1, [second]) == StepsSpec(m2, t2, []);
  }

  // ── Whether the file is left behind ──────────────────────────────────────────

  /** Temp files and emergency cleanups, and nothing about secure files. */
  predicate Quiet(steps: seq<Step>) { forall k :: 0 <= k < |steps| ==> steps[k].Write? || steps[k].Emergency? }

  /**
   A command that loads the file among other steps. What follows the load is not reached when the registration
   throws; an emergency cleanup may come between any two steps.
   */
  function Command(parse: Parser, id: string, content: Option<string>, before: seq<Step>, between: seq<Step>, rest: seq<Step>): seq<Step> {
    before + ([Download(id)] + (between + if Masks(parse, content) then [Remember(id)] + rest else []))
  }

  lemma {:induction false} QuietIsNotLoose(steps: seq<Step>, more: seq<Step>, held: Option<string>, loose: set<string>)
    requires Quiet(steps)
    ensures Loose(steps, held, loose) == loose
    ensures held.None? ==> Loose(steps + more, None, loose) == Loose(more, None, loose)
    decreases |steps|
  {
    if steps == [] {
      assert steps + more == more;
    } else {
      assert (steps + more)[0] == steps[0] && (steps + more)[1..] == steps[1..] + more;
      QuietIsNotLoose(steps[1..], more, if steps[0].Emergency? && Present(held) then None else held, loose);
    }
  }

  /** The file is loose at the end exactly when its registration throws. */
  lemma CommandIsLoose(parse: Parser, id: string, content: Option<string>, before: seq<Step>, between: seq<Step>, rest: seq<Step>)
    requires id != "" && Quiet(before) && Quiet(between) && Quiet(rest)
    ensures Loose(Command(parse, id, content, before, between, rest), None, {}) == if Masks(parse, content) then {} else {id}
  {
    hide Masks, Loose;
    var none: set<string> := {};
    assert none + {id} == {id} && {id} - {id} == none;
    var last := if Masks(parse, content) then [Remember(id)] + rest else [];
    QuietIsNotLoose(before, [Download(id)] + (between + last), None, {});
    LooseStep([Download(id)] + (between + last), None, {});
    assert ([Download(id)] + (between + last))[1..] == between + last;
    QuietIsNotLoose(between, last, None, {id});
    LooseStep(last, None, {id});
    if Masks(parse, content) {
      assert last[0] == Remember(id) && last[1..] == rest;
      QuietIsNotLoose(rest, [], Some(id), none);
    }
  }

  lemma LooseStep(steps: seq<Step>, held: Option<string>, loose: set<string>)
    ensures steps == [] ==> Loose(steps, held, loose) == loose
    ensures steps != [] && steps[0].Download? ==>
      Loose(steps, held, loose) == Loose(steps[1..], held, if held == Some(steps[0].id) then loose else loose + {steps[0].id})
    ensures steps != [] && steps[0].Remember? && held.None? ==>
      Loose(steps, held, loose) == Loose(steps[1..], Some(steps[0].id), loose - {steps[0].id})
  {
    assert loose + {} == loose;
  }

  lemma {:induction false} IsDownloaded(steps: seq<Step>, id: string)
    requires Download(id) in steps
    ensures id in Downloaded(steps)
  {
    if steps[0] != Download(id) {
      assert steps == [steps[0]] + steps[1..];
      IsDownloaded(steps[1..], id);
    }
  }

  /**
   End to end: when the command is over, the secure file is left on disk with no warning that names it if and only
   if the registration of its values throws.
   */
  lemma SecureFileIsLeftExactly(m: Machine, provider: string, faults: Faults, parse: Parser, id: string, content: Option<string>,
                                before: seq<Step>, between: seq<Step>, rest: seq<Step>)
    requires id != "" && Quiet(before) && Quiet(between) && Quiet(rest) && KnownProvider(provider)
    requires AllEnabled(m, NOTHING, Command(parse, id, content, before, between, rest))
    requires id !in m.warnedIds
    ensures var m' := ExecuteSpec(m, provider, Command(parse, id, content, before, between, rest), faults);
      id in m'.secureFiles && id !in m'.warnedIds <==> !Masks(parse, content)
  {
    var steps := Command(parse, id, content, before, between, rest);
    CommandSteps(parse, id, content, before, between, rest);
    CommandIsLoose(parse, id, content, before, between, rest);
    hide Masks, Command, Loose, AllEnabled, ExecuteSpec, KnownProvider, Quiet;
    IsDownloaded(steps, id);
    SecureFilesAreDeletedExactly(m, provider, steps, faults);
    if !Masks(parse, content) { ExecuteNeverNames(m, provider, steps, faults, id); }
  }

  lemma CommandSteps(parse: Parser, id: string, content: Option<string>, before: seq<Step>, between: seq<Step>, rest: seq<Step>)
    requires Quiet(before) && Quiet(between) && Quiet(rest)
    ensures Download(id) in Command(parse, id, content, before, between, rest)
    ensures !Masks(parse, content) ==> Remember(id) !in Command(parse, id, content, before, between, rest)
  {
    hide Masks;
    assert Download(id) in [Download(id)] + (between + if Masks(parse, content) then [Remember(id)] + rest else []);
  }

  /** The condition in terms of the values: a carriage return inside a long line. */
  lemma MasksExactly(parse: Parser, content: Option<string>)
    ensures Masks(parse, content)
            <==> content.None? || forall t :: IsLineOf(ExtractSpec(parse, content.value), t) ==> '\r' !in t
  {
    hide ExtractSpec, Secrets, Accepted, IsLineOf;
    if content.Some? { MaskingCompletes(ExtractSpec(parse, content.value)); }
  }

  /** A var file that declares such a value: downloaded, not remembered, and left behind whatever the cleanup does. */
  lemma UnmaskableFileIsLeft(parse: Parser, faults: Faults)
    ensures var content := Some(PrintFile([Assign("k", "ab\rcd", NoComment)], false));
      && LoadSteps(parse, Some("vars"), content) == [Download("vars")]
      && var m' := ExecuteSpec(Machine(map[], {}, {}, {}, []), "none", LoadSteps(parse, Some("vars"), content), faults);
         "vars" in m'.secureFiles && m'.warned == {} && m'.warnedIds == {}
  {
    hide ExtractSpec, Secrets, Accepted, PrintFile;
    LoneCarriageReturnStops(parse);
    var m := Machine(map[], {}, {}, {}, []);
    assert KnownProvider("none") by { assert ["azurerm", "aws", "gcp", "oci", "vsphere", "none", ""][5] == "none"; }
    assert [Download("vars")] + [] == [Download("vars")] && [Download("vars")][1..] == [];
    var m1 := StepSpec(m, NOTHING, Download("vars")).0;
    assert StepsSpec(m1, NOTHING, []) == (m1, NOTHING);
    assert StepsSpec(m, NOTHING, [Download("vars")]) == (m1, NOTHING);
  }
}
