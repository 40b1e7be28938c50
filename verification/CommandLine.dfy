/**
 The argument lists of packer validate, build and console (`base-packer-command-handler.ts`), and how
 packer reads them.
 */
module CommandLine {
  import opened JsText
  import opened FlagParsing

  /** `contained` is the containment check of a variable file in the working directory. */
  datatype VarRequest = VarRequest(
    secureFile: Option<string>, variableFiles: Option<string>, packerVariables: Option<string>, contained: string -> bool)

  /** The operator's options as split into arguments, what the provider contributes if it succeeds, the template. */
  datatype Request = Request(
    vars: VarRequest, options: seq<string>, providerVars: Option<seq<string>>, templatePath: Option<string>)

  /** What `parseInt` makes of the input. */
  datatype Number = NotANumber | Number(n: int)

  datatype BuildRequest = BuildRequest(
    request: Request, only: Option<string>, except: Option<string>, parallelBuilds: Option<Number>, onError: Option<string>,
    force: bool, disableColor: bool)

  /** The trimmed lines that are not blank, and with `skipComments` do not start with `#`. */
  function Kept(lines: seq<string>, skipComments: bool): seq<string> {
    if lines == [] then []
    else
      var line := Trim(lines[0]);
      (if line == "" || (skipComments && line[0] == '#') then [] else [line]) + Kept(lines[1..], skipComments)
  }

  function KeptLines(text: Option<string>, skipComments: bool): seq<string> {
    if !Present(text) then [] else Kept(Split(text.value, '\n'), skipComments)
  }

  function VariableFiles(v: VarRequest): seq<string> { KeptLines(v.variableFiles, false) }

  function Variables(v: VarRequest): seq<string> { KeptLines(v.packerVariables, true) }

  predicate AllContained(v: VarRequest, files: seq<string>) { forall k :: 0 <= k < |files| ==> v.contained(files[k]) }

  /** The secure file first, then the listed ones. */
  function VarFiles(v: VarRequest): seq<string> {
    (if v.secureFile.Some? then [v.secureFile.value] else []) + VariableFiles(v)
  }

  function Template(r: Request): string {
    if Present(r.templatePath) then r.templatePath.value else "."
  }

  // ── The methods ──────────────────────────────────────────────────────────────

  class ToolRunner {
    var args: seq<string>

    constructor (command: string)
      ensures args == [command]
    {
      args := [command];
    }

    method Arg(s: string)
      modifies this
      ensures args == old(args) + [s]
    {
      args := args + [s];
    }

    /** `line`, after splitting the text. */
    method Line(tokens: seq<string>)
      modifies this
      ensures args == old(args) + tokens
    {
      args := args + tokens;
    }
  }

  method ApplyProviderVarArgs(tool: ToolRunner, entries: seq<string>)
    modifies tool
    ensures tool.args == old(tool.args) + VarArgs(entries)
  {
    for i := 0 to |entries|
      invariant tool.args + VarArgs(entries[i..]) == old(tool.args) + VarArgs(entries)
    {
      ghost var before := tool.args;
      assert entries[i..][0] == entries[i] && entries[i..][1..] == entries[i + 1..];
      tool.Arg("-var");
      tool.Arg(entries[i]);
      assert before + (["-var", entries[i]] + VarArgs(entries[i + 1..])) == tool.args + VarArgs(entries[i + 1..]);
    }
  }

  /** The files, and then the variables; a file outside the working directory stops the run. */
  method ApplyVarArgs(tool: ToolRunner, v: VarRequest) returns (ok: bool)
    modifies tool
    ensures ok <==> AllContained(v, VariableFiles(v))
    ensures ok ==> tool.args == old(tool.args) + Assigned("var-file", VarFiles(v)) + VarArgs(Variables(v))
  {
    hide Trim, Split, Assigned, VarArgs, Kept;
    ghost var start := tool.args;
    ghost var secure := if v.secureFile.Some? then [v.secureFile.value] else [];
    AssignedOne("var-file", secure);
    if v.secureFile.Some? {
      assert "-" + "var-file" + "=" == "-var-file=";
      tool.Arg("-var-file=" + v.secureFile.value);
    }
    assert tool.args == start + Assigned("var-file", secure);
    AssignedAppend("var-file", secure, VariableFiles(v));
    AssignedOne("var-file", []);
    if Present(v.variableFiles) {
      ok := ApplyVariableFiles(tool, v, Split(v.variableFiles.value, '\n'));
      if !ok { return; }
    }
    assert tool.args == start + Assigned("var-file", VarFiles(v));
    ok := true;
    if Present(v.packerVariables) {
      ApplyPackerVariables(tool, Split(v.packerVariables.value, '\n'));
    } else {
      assert VarArgs(Variables(v)) == [] by { NoVarArgs(); }
    }
  }

  lemma NoVarArgs()
    ensures VarArgs([]) == []
  {
  }

  method ApplyVariableFiles(tool: ToolRunner, v: VarRequest, lines: seq<string>) returns (ok: bool)
    modifies tool
    ensures ok <==> AllContained(v, Kept(lines, false))
    ensures ok ==> tool.args == old(tool.args) + Assigned("var-file", Kept(lines, false))
  {
    hide Trim, Assigned, Kept;
    ghost var all := Kept(lines, false);
    ghost var done: seq<string> := [];
    AssignedOne("var-file", []);
    KeptStep(lines, |lines|, false);
    assert lines[0..] == lines && [] + all == all;
    for i := 0 to |lines|
      invariant all == done + Kept(lines[i..], false)
      invariant AllContained(v, done)
      invariant tool.args == old(tool.args) + Assigned("var-file", done)
    {
      KeptStep(lines, i, false);
      var trimmed := Trim(lines[i]);
      if trimmed != "" {
        ghost var rest := Kept(lines[i + 1..], false);
        assert all == done + ([trimmed] + rest) && all[|done|] == trimmed;
        if !v.contained(trimmed) { return false; }
        VarFileFlag();
        AssignedAppend("var-file", done, [trimmed]);
        AssignedOne("var-file", [trimmed]);
        tool.Arg("-var-file=" + trimmed);
        done := done + [trimmed];
        assert all == done + rest;
      }
    }
    assert all == done;
    return true;
  }

  method ApplyPackerVariables(tool: ToolRunner, lines: seq<string>)
    modifies tool
    ensures tool.args == old(tool.args) + VarArgs(Kept(lines, true))
  {
    hide Trim;
    for i := 0 to |lines|
      invariant tool.args + VarArgs(Kept(lines[i..], true)) == old(tool.args) + VarArgs(Kept(lines, true))
    {
      ghost var before := tool.args;
      assert lines[i..][0] == lines[i] && lines[i..][1..] == lines[i + 1..];
      var trimmed := Trim(lines[i]);
      ghost var rest := Kept(lines[i + 1..], true);
      if trimmed != "" && trimmed[0] != '#' {
        tool.Arg("-var");
        tool.Arg(trimmed);
        assert Kept(lines[i..], true) == [trimmed] + rest && ([trimmed] + rest)[1..] == rest;
        assert before + (["-var", trimmed] + VarArgs(rest)) == tool.args + VarArgs(rest);
      } else {
        assert Kept(lines[i..], true) == rest;
      }
    }
  }

  lemma KeptStep(lines: seq<string>, i: nat, skipComments: bool)
    requires i <= |lines|
    ensures i == |lines| ==> Kept(lines[i..], skipComments) == []
    ensures i < |lines| ==>
      var line := Trim(lines[i]);
      Kept(lines[i..], skipComments) ==
      (if line == "" || (skipComments && line[0] == '#') then [] else [line]) + Kept(lines[i + 1..], skipComments)
  {
    hide Trim;
    if i < |lines| { assert lines[i..][0] == lines[i] && lines[i..][1..] == lines[i + 1..]; }
  }

  lemma VarFileFlag()
    ensures "-" + "var-file" + "=" == "-var-file="
  {
  }

  lemma AssignedOne(name: string, values: seq<string>)
    requires |values| <= 1
    ensures Assigned(name, values) == if values == [] then [] else ["-" + name + "=" + values[0]]
  {
  }

  lemma {:induction false} AssignedAppend(name: string, a: seq<string>, b: seq<string>)
    ensures Assigned(name, a + b) == Assigned(name, a) + Assigned(name, b)
  {
    if a == [] {
      assert a + b == b;
    } else {
      assert (a + b)[1..] == a[1..] + b;
      AssignedAppend(name, a[1..], b);
    }
  }

  /** Nothing is run when a variable file is refused or the provider fails. */
  predicate Runs(r: Request) { AllContained(r.vars, VariableFiles(r.vars)) && r.providerVars.Some? }

  /** The variable inputs, the operator's options, the provider's entries, the template, after the given arguments. */
  function WithVars(head: seq<string>, r: Request): seq<string>
    requires r.providerVars.Some?
  {
    WithOptions(head + Assigned("var-file", VarFiles(r.vars)) + VarArgs(Variables(r.vars)), r)
  }

  function WithOptions(head: seq<string>, r: Request): seq<string>
    requires r.providerVars.Some?
  {
    head + r.options + VarArgs(r.providerVars.value) + [Template(r)]
  }

  function Piece(given: bool, arg: string): seq<string> { if given then [arg] else [] }

  method Validate(r: Request, syntaxOnly: bool) returns (argv: Option<seq<string>>)
    ensures argv == if Runs(r) then Some(WithVars(["validate"] + Piece(syntaxOnly, "-syntax-only"), r)) else None
  {
    hide VariableFiles, VarFiles, Variables, Assigned, VarArgs;
    var tool := new ToolRunner("validate");
    if syntaxOnly { tool.Arg("-syntax-only"); }
    assert tool.args == ["validate"] + Piece(syntaxOnly, "-syntax-only");
    var ok := ApplyVarArgs(tool, r.vars);
    if !ok { return None; }
    tool.Line(r.options);
    if r.providerVars.None? { return None; }
    ApplyProviderVarArgs(tool, r.providerVars.value);
    tool.Arg(Template(r));
    return Some(tool.args);
  }

  const VALID_ON_ERROR_VALUES := ["default", "cleanup", "abort", "ask", "run-cleanup-provisioner"]

  function Decimal(n: nat): string {
    (if n < 10 then "" else Decimal(n / 10)) + ["0123456789"[n % 10]]
  }

  predicate SetsOnError(b: BuildRequest) { Present(b.onError) && b.onError.value != "default" }

  predicate ParallelIsValid(b: BuildRequest) {
    b.parallelBuilds.Some? ==> b.parallelBuilds.value.Number? && b.parallelBuilds.value.n >= 1
  }

  predicate OnErrorIsValid(b: BuildRequest) { SetsOnError(b) ==> b.onError.value in VALID_ON_ERROR_VALUES }

  predicate BuildRuns(b: BuildRequest) { ParallelIsValid(b) && OnErrorIsValid(b) && Runs(b.request) }

  /** The flags that select and bound the builds. */
  function SelectionFlags(b: BuildRequest): seq<string>
    requires ParallelIsValid(b)
  {
    (if Present(b.only) then ["-only=" + b.only.value] else [])
    + (if Present(b.except) then ["-except=" + b.except.value] else [])
    + (if b.parallelBuilds.Some? then ["-parallel-builds=" + Decimal(b.parallelBuilds.value.n)] else [])
  }

  /** The flags that say how to run. */
  function ModeFlags(b: BuildRequest): seq<string> {
    (if SetsOnError(b) then ["-on-error=" + b.onError.value] else []) + Piece(b.force, "-force") + Piece(b.disableColor, "-color=false")
  }

  method SelectBuilds(tool: ToolRunner, b: BuildRequest) returns (ok: bool)
    modifies tool
    ensures ok == ParallelIsValid(b)
    ensures ok ==> tool.args == old(tool.args) + SelectionFlags(b)
  {
    hide Decimal;
    if Present(b.only) { tool.Arg("-only=" + b.only.value); }
    if Present(b.except) { tool.Arg("-except=" + b.except.value); }
    if b.parallelBuilds.Some? {
      if b.parallelBuilds.value.NotANumber? || b.parallelBuilds.value.n < 1 { return false; }
      tool.Arg("-parallel-builds=" + Decimal(b.parallelBuilds.value.n));
    }
    ok := true;
  }

  method SelectModes(tool: ToolRunner, b: BuildRequest) returns (ok: bool)
    modifies tool
    ensures ok == OnErrorIsValid(b)
    ensures ok ==> tool.args == old(tool.args) + ModeFlags(b)
  {
    if SetsOnError(b) {
      if b.onError.value !in VALID_ON_ERROR_VALUES { return false; }
      tool.Arg("-on-error=" + b.onError.value);
    }
    if b.force { tool.Arg("-force"); }
    if b.disableColor { tool.Arg("-color=false"); }
    ok := true;
  }

  method Build(b: BuildRequest) returns (argv: Option<seq<string>>)
    ensures argv == if BuildRuns(b) then Some(WithVars(["build"] + SelectionFlags(b) + ModeFlags(b), b.request)) else None
  {
    hide VariableFiles, VarFiles, Variables, Assigned, VarArgs, SelectionFlags, ModeFlags, ParallelIsValid, OnErrorIsValid;
    var r := b.request;
    var tool := new ToolRunner("build");
    var ok := SelectBuilds(tool, b);
    if !ok { return None; }
    ok := SelectModes(tool, b);
    if !ok { return None; }
    ok := ApplyVarArgs(tool, r.vars);
    if !ok { return None; }
    tool.Line(r.options);
    if r.providerVars.None? { return None; }
    ApplyProviderVarArgs(tool, r.providerVars.value);
    tool.Arg(Template(r));
    return Some(tool.args);
  }

  /** Console takes no variable inputs. */
  method Console(r: Request) returns (argv: Option<seq<string>>)
    ensures argv == if r.providerVars.Some? then Some(WithOptions(["console"], r)) else None
  {
    hide VarArgs;
    var tool := new ToolRunner("console");
    tool.Line(r.options);
    if r.providerVars.None? { return None; }
    ApplyProviderVarArgs(tool, r.providerVars.value);
    tool.Arg(Template(r));
    return Some(tool.args);
  }

  // ── How packer reads them ────────────────────────────────────────────────────

  /** What is known of the flags the handler writes itself; the operator may use any others. */
  predicate KnowsFlags(kinds: Kinds) {
    && (forall name :: name in ["var", "var-file", "only", "except", "parallel-builds", "on-error"] ==> name in kinds && kinds[name].Valued?)
    && (forall name :: name in ["force", "color", "syntax-only"] ==> name in kinds && kinds[name].Switch?)
  }

  /** The values given with `-var`, in order. */
  function VarsOf(settings: seq<Setting>): seq<string> {
    if settings == [] then []
    else (if settings[0].name == "var" then [settings[0].value] else []) + VarsOf(settings[1..])
  }

  lemma {:induction false} VarsOfAppend(a: seq<Setting>, b: seq<Setting>)
    ensures VarsOf(a + b) == VarsOf(a) + VarsOf(b)
  {
    if a == [] {
      assert a + b == b;
    } else {
      assert (a + b)[1..] == a[1..] + b;
      VarsOfAppend(a[1..], b);
    }
  }

  lemma {:induction false} VarsOfVars(entries: seq<string>)
    ensures VarsOf(VarSettings(entries)) == entries
  {
    if entries != [] {
      VarsOfVars(entries[1..]);
      assert VarSettings(entries)[1..] == VarSettings(entries[1..]);
    }
  }

  lemma {:induction false} VarsOfOthers(settings: seq<Setting>)
    requires forall k :: 0 <= k < |settings| ==> settings[k].name != "var"
    ensures VarsOf(settings) == []
  {
    if settings != [] { VarsOfOthers(settings[1..]); }
  }

  /** The operator's options are read as flags only. */
  predicate OptionsFit(kinds: Kinds, r: Request)
    requires r.providerVars.Some?
  {
    Complete(kinds, r.options) || (r.providerVars.value == [] && EndsFlags(kinds, r.options))
  }

  /** The template and the provider's entries do not look like flags. */
  predicate Plain(r: Request)
    requires r.providerVars.Some?
  {
    Scan(Template(r)).NonFlag? && forall k :: 0 <= k < |r.providerVars.value| ==> Scan(r.providerVars.value[k]).NonFlag?
  }

  /** The settings of the command's own flags, then those of the variable inputs. */
  function VarInputSettings(r: Request): seq<Setting> {
    AssignedSettings("var-file", VarFiles(r.vars)) + VarSettings(Variables(r.vars))
  }

  /**
   After complete flags, the rest is read as meant exactly when the operator's options fit: then the
   template is the one positional argument, and the settings are the flags', the options' and the
   provider's, in this order.
   */
  lemma RestIsReadAsMeant(kinds: Kinds, flags: seq<string>, command: string, r: Request)
    requires r.providerVars.Some? && KnowsFlags(kinds) && Plain(r) && Complete(kinds, flags)
    ensures var p := Parse(kinds, WithOptions([command] + flags, r)[1..]);
      && ((p.Ok? && p.positional == [Template(r)]) <==> OptionsFit(kinds, r))
      && (Complete(kinds, r.options) ==>
            p == Ok(SettingsOf(kinds, flags) + (SettingsOf(kinds, r.options) + VarSettings(r.providerVars.value)), [Template(r)]))
  {
    hide Scan, Parse, Complete, VarArgs, VarSettings, EndsFlags;
    var tail := r.options + (VarArgs(r.providerVars.value) + [Template(r)]);
    assert WithOptions([command] + flags, r)[1..] == flags + tail;
    assert "var" in ["var", "var-file", "only", "except", "parallel-builds", "on-error"];
    TailIsReadAsMeant(kinds, r.options, r.providerVars.value, Template(r));
    CompleteAppend(kinds, flags, tail);
  }

  lemma VarInputsParse(kinds: Kinds, flags: seq<string>, r: Request)
    requires KnowsFlags(kinds) && Complete(kinds, flags)
    ensures var all := flags + Assigned("var-file", VarFiles(r.vars)) + VarArgs(Variables(r.vars));
      Complete(kinds, all) && SettingsOf(kinds, all) == SettingsOf(kinds, flags) + VarInputSettings(r)
  {
    hide Complete, SettingsOf, Assigned, VarArgs, VarFiles, Variables, AssignedSettings, VarSettings;
    var names := ["var", "var-file", "only", "except", "parallel-builds", "on-error"];
    assert names[0] in names && names[1] in names;
    NoEqualsSign();
    AssignedParse(kinds, "var-file", VarFiles(r.vars));
    VarArgsParse(kinds, Variables(r.vars));
    var files, vars := Assigned("var-file", VarFiles(r.vars)), VarArgs(Variables(r.vars));
    CompleteJoin(kinds, flags, files);
    CompleteJoin(kinds, flags + files, vars);
  }

  lemma NoEqualsSign()
    ensures '=' !in "var-file" && "var-file"[0] != '-'
  {
  }

  /**
   However the operator's variables read: the template is the one positional argument exactly when the
   options fit, and then, for complete options, packer's `-var` values are the kept lines in order, those
   of the options and the provider's, and its settings are the command's own, the inputs', the options'
   and the provider's.
   */
  predicate ReadAsMeant(kinds: Kinds, argv: seq<string>, own: seq<Setting>, r: Request)
    requires argv != [] && r.providerVars.Some?
  {
    var p := Parse(kinds, argv[1..]);
    && ((p.Ok? && p.positional == [Template(r)]) <==> OptionsFit(kinds, r))
    && (Complete(kinds, r.options) ==>
          && p.Ok?
          && VarsOf(p.settings) == Variables(r.vars) + VarsOf(SettingsOf(kinds, r.options)) + r.providerVars.value
          && p.settings == own + VarInputSettings(r) + (SettingsOf(kinds, r.options) + VarSettings(r.providerVars.value)))
  }

  lemma CommandIsReadAsMeant(kinds: Kinds, command: string, own: seq<string>, settings: seq<Setting>, r: Request)
    requires Runs(r) && KnowsFlags(kinds) && Plain(r) && Complete(kinds, own) && SettingsOf(kinds, own) == settings
    requires forall k :: 0 <= k < |settings| ==> settings[k].name != "var"
    ensures ReadAsMeant(kinds, WithVars([command] + own, r), settings, r)
  {
    hide Scan, Parse, Assigned, VarArgs, VarFiles, Variables, VarInputSettings, EndsFlags, Complete, SettingsOf, VarsOf, VarSettings, Plain;
    VarInputsParse(kinds, own, r);
    var flags := own + Assigned("var-file", VarFiles(r.vars)) + VarArgs(Variables(r.vars));
    assert [command] + flags == [command] + own + Assigned("var-file", VarFiles(r.vars)) + VarArgs(Variables(r.vars));
    assert WithVars([command] + own, r) == WithOptions([command] + flags, r);
    RestIsReadAsMeant(kinds, flags, command, r);
    VarsInOrder(settings, SettingsOf(kinds, r.options), r);
  }

  lemma ValidateIsReadAsMeant(kinds: Kinds, r: Request, syntaxOnly: bool)
    requires Runs(r) && KnowsFlags(kinds) && Plain(r)
    ensures ReadAsMeant(kinds, WithVars(["validate"] + Piece(syntaxOnly, "-syntax-only"), r), OwnSettings("syntax-only", syntaxOnly, "true"), r)
  {
    SyntaxOnlyParses(kinds, syntaxOnly);
    hide ReadAsMeant, Complete, SettingsOf, WithVars, Plain, Runs, KnowsFlags, Piece;
    assert |"syntax-only"| != |"var"|;
    CommandIsReadAsMeant(kinds, "validate", Piece(syntaxOnly, "-syntax-only"), OwnSettings("syntax-only", syntaxOnly, "true"), r);
  }

  lemma BuildIsReadAsMeant(kinds: Kinds, b: BuildRequest)
    requires BuildRuns(b) && KnowsFlags(kinds) && Plain(b.request)
    ensures ReadAsMeant(kinds, WithVars(["build"] + SelectionFlags(b) + ModeFlags(b), b.request), BuildSettings(b), b.request)
  {
    BuildFlagsParse(kinds, b);
    BuildSettingsAreNoVars(b);
    hide SelectionFlags, ModeFlags, ReadAsMeant, Complete, SettingsOf, WithVars, Plain, Runs, KnowsFlags, BuildSettings, ParallelIsValid,
         OnErrorIsValid;
    CommandInTwoParts(kinds, "build", SelectionFlags(b), ModeFlags(b), BuildSettings(b), b.request);
  }

  lemma CommandInTwoParts(kinds: Kinds, command: string, a: seq<string>, b: seq<string>, settings: seq<Setting>, r: Request)
    requires Runs(r) && KnowsFlags(kinds) && Plain(r) && Complete(kinds, a + b) && SettingsOf(kinds, a + b) == settings
    requires forall k :: 0 <= k < |settings| ==> settings[k].name != "var"
    ensures ReadAsMeant(kinds, WithVars([command] + a + b, r), settings, r)
  {
    hide ReadAsMeant, Complete, SettingsOf, WithVars, Plain, Runs, KnowsFlags;
    assert [command] + (a + b) == [command] + a + b;
    CommandIsReadAsMeant(kinds, command, a + b, settings, r);
  }

  lemma ConsoleIsReadAsMeant(kinds: Kinds, r: Request)
    requires r.providerVars.Some? && KnowsFlags(kinds) && Plain(r)
    ensures var p := Parse(kinds, WithOptions(["console"], r)[1..]);
      && ((p.Ok? && p.positional == [Template(r)]) <==> OptionsFit(kinds, r))
      && (Complete(kinds, r.options) ==> p == Ok(SettingsOf(kinds, r.options) + VarSettings(r.providerVars.value), [Template(r)]))
  {
    assert Complete(kinds, []) && SettingsOf(kinds, []) == [];
    hide Parse, Complete, SettingsOf, VarSettings, Plain, OptionsFit, KnowsFlags;
    RestIsReadAsMeant(kinds, [], "console", r);
    assert ["console"] + [] == ["console"];
    assert forall s: seq<Setting> :: [] + s == s;
  }

  function TextOf(s: Option<string>): string { if s.Some? then s.value else "" }

  /** A flag the command writes with a value, or does not write. */
  function Own(name: string, given: bool, value: string): seq<string> { if given then ["-" + name + "=" + value] else [] }

  function OwnSettings(name: string, given: bool, value: string): seq<Setting> { if given then [Setting(name, value)] else [] }

  function SelectionSettings(b: BuildRequest): seq<Setting>
    requires ParallelIsValid(b)
  {
    OwnSettings("only", Present(b.only), TextOf(b.only)) + OwnSettings("except", Present(b.except), TextOf(b.except))
    + (if b.parallelBuilds.Some? then [Setting("parallel-builds", Decimal(b.parallelBuilds.value.n))] else [])
  }

  function ModeSettings(b: BuildRequest): seq<Setting> {
    OwnSettings("on-error", SetsOnError(b), TextOf(b.onError)) + OwnSettings("force", b.force, "true") + OwnSettings("color", b.disableColor, "false")
  }

  /** The settings of build itself, in the order they are written. */
  function BuildSettings(b: BuildRequest): seq<Setting>
    requires BuildRuns(b)
  {
    SelectionSettings(b) + ModeSettings(b)
  }

  lemma BuildSettingsAreNoVars(b: BuildRequest)
    requires BuildRuns(b)
    ensures forall k :: 0 <= k < |BuildSettings(b)| ==> BuildSettings(b)[k].name != "var"
  {
    hide Decimal;
    assert |"only"| != 3 && |"except"| != 3 && |"parallel-builds"| != 3 && |"on-error"| != 3 && |"force"| != 3 && |"color"| != 3 && |"var"| == 3;
  }

  lemma BuildFlagsParse(kinds: Kinds, b: BuildRequest)
    requires BuildRuns(b) && KnowsFlags(kinds)
    ensures var own := SelectionFlags(b) + ModeFlags(b); Complete(kinds, own) && SettingsOf(kinds, own) == BuildSettings(b)
  {
    SelectionParses(kinds, b);
    ModesParse(kinds, b);
    hide Complete, SettingsOf, SelectionFlags, ModeFlags, SelectionSettings, ModeSettings;
    CompleteJoin(kinds, SelectionFlags(b), ModeFlags(b));
  }

  lemma OwnParses(kinds: Kinds, name: string, given: bool, value: string)
    requires name in kinds && name != "" && name[0] != '-' && '=' !in name
    ensures Complete(kinds, Own(name, given, value)) && SettingsOf(kinds, Own(name, given, value)) == OwnSettings(name, given, value)
  {
    hide Complete, SettingsOf;
    AssignedParse(kinds, name, if given then [value] else []);
    AssignedOne(name, if given then [value] else []);
    assert AssignedSettings(name, []) == [];
    assert [value][1..] == [];
  }

  /** Three lists of complete flags in a row. */
  lemma ThreeParse(kinds: Kinds, a: seq<string>, b: seq<string>, c: seq<string>)
    requires Complete(kinds, a) && Complete(kinds, b) && Complete(kinds, c)
    ensures Complete(kinds, a + b + c)
    ensures SettingsOf(kinds, a + b + c) == SettingsOf(kinds, a) + SettingsOf(kinds, b) + SettingsOf(kinds, c)
  {
    hide Complete, SettingsOf;
    CompleteJoin(kinds, a, b);
    CompleteJoin(kinds, a + b, c);
  }

  lemma SelectionParses(kinds: Kinds, b: BuildRequest)
    requires ParallelIsValid(b) && KnowsFlags(kinds)
    ensures Complete(kinds, SelectionFlags(b)) && SettingsOf(kinds, SelectionFlags(b)) == SelectionSettings(b)
  {
    KnownValued(kinds);
    hide Complete, SettingsOf, Decimal, KnowsFlags, SelectionFlags;
    var n := if b.parallelBuilds.Some? then Decimal(b.parallelBuilds.value.n) else "";
    OwnNames();
    OwnParses(kinds, "only", Present(b.only), TextOf(b.only));
    OwnParses(kinds, "except", Present(b.except), TextOf(b.except));
    OwnParses(kinds, "parallel-builds", b.parallelBuilds.Some?, n);
    ThreeParse(kinds, Own("only", Present(b.only), TextOf(b.only)), Own("except", Present(b.except), TextOf(b.except)),
               Own("parallel-builds", b.parallelBuilds.Some?, n));
    SpelledOut(b, n);
  }

  lemma KnownValued(kinds: Kinds)
    requires KnowsFlags(kinds)
    ensures "only" in kinds && "except" in kinds && "parallel-builds" in kinds && "on-error" in kinds
    ensures "force" in kinds && kinds["force"].Switch? && "color" in kinds
  {
    KnownSwitches(kinds);
    var names := ["var", "var-file", "only", "except", "parallel-builds", "on-error"];
    assert names[2] in names && names[3] in names && names[4] in names && names[5] in names;
  }

  lemma KnownSwitches(kinds: Kinds)
    requires KnowsFlags(kinds)
    ensures "force" in kinds && kinds["force"].Switch? && "color" in kinds
  {
    var switches := ["force", "color", "syntax-only"];
    assert switches[0] in switches && switches[1] in switches;
  }

  lemma SpelledOut(b: BuildRequest, n: string)
    requires ParallelIsValid(b) && (b.parallelBuilds.Some? ==> n == Decimal(b.parallelBuilds.value.n))
    ensures SelectionFlags(b)
            == Own("only", Present(b.only), TextOf(b.only)) + Own("except", Present(b.except), TextOf(b.except)) + Own("parallel-builds", b.parallelBuilds.Some?, n)
  {
    hide Decimal;
    assert "-" + "only" + "=" == "-only=" && "-" + "except" + "=" == "-except=" && "-" + "parallel-builds" + "=" == "-parallel-builds=";
  }

  lemma OwnNames()
    ensures '=' !in "only" && '=' !in "except" && '=' !in "parallel-builds" && '=' !in "on-error" && '=' !in "color" && '=' !in "force"
    ensures '=' !in "syntax-only"
  {
  }

  lemma ModesParse(kinds: Kinds, b: BuildRequest)
    requires KnowsFlags(kinds)
    ensures Complete(kinds, ModeFlags(b)) && SettingsOf(kinds, ModeFlags(b)) == ModeSettings(b)
  {
    KnownValued(kinds);
    hide Complete, SettingsOf, SetsOnError, KnowsFlags, ModeFlags;
    OwnNames();
    OwnParses(kinds, "on-error", SetsOnError(b), TextOf(b.onError));
    ForceParses(kinds, b.force);
    OwnParses(kinds, "color", b.disableColor, "false");
    ThreeParse(kinds, Own("on-error", SetsOnError(b), TextOf(b.onError)), Piece(b.force, "-force"), Own("color", b.disableColor, "false"));
    ModesSpelledOut(b);
  }

  lemma ModesSpelledOut(b: BuildRequest)
    ensures ModeFlags(b) == Own("on-error", SetsOnError(b), TextOf(b.onError)) + Piece(b.force, "-force") + Own("color", b.disableColor, "false")
  {
    assert "-" + "on-error" + "=" == "-on-error=" && "-" + "color" + "=" + "false" == "-color=false";
  }

  lemma ForceParses(kinds: Kinds, force: bool)
    requires "force" in kinds && kinds["force"].Switch?
    ensures Complete(kinds, Piece(force, "-force")) && SettingsOf(kinds, Piece(force, "-force")) == OwnSettings("force", force, "true")
  {
    hide Complete, SettingsOf, Piece;
    OwnNames();
    SwitchParses(kinds, "force", force);
    assert "-" + "force" == "-force";
  }

  lemma SyntaxOnlyParses(kinds: Kinds, syntaxOnly: bool)
    requires KnowsFlags(kinds)
    ensures var own := Piece(syntaxOnly, "-syntax-only");
      Complete(kinds, own) && SettingsOf(kinds, own) == OwnSettings("syntax-only", syntaxOnly, "true")
  {
    SyntaxOnlyIsKnown(kinds);
    hide KnowsFlags, Complete, SettingsOf, Piece;
    OwnNames();
    SwitchParses(kinds, "syntax-only", syntaxOnly);
    assert "-" + "syntax-only" == "-syntax-only";
  }

  lemma SwitchParses(kinds: Kinds, name: string, given: bool)
    requires name in kinds && kinds[name].Switch? && name != "" && name[0] != '-' && '=' !in name
    ensures Complete(kinds, Piece(given, "-" + name)) && SettingsOf(kinds, Piece(given, "-" + name)) == OwnSettings(name, given, "true")
  {
    OneSwitch(kinds, name);
  }

  lemma SyntaxOnlyIsKnown(kinds: Kinds)
    requires KnowsFlags(kinds)
    ensures "syntax-only" in kinds && kinds["syntax-only"].Switch?
  {
    var names := ["force", "color", "syntax-only"];
    assert names[2] in names;
  }

  lemma OneSwitch(kinds: Kinds, name: string)
    requires name in kinds && kinds[name].Switch? && name != "" && name[0] != '-' && '=' !in name
    ensures Complete(kinds, ["-" + name]) && SettingsOf(kinds, ["-" + name]) == [Setting(name, "true")]
  {
    ScanWritten(name, "");
    hide Scan;
    assert ["-" + name][1..] == [];
    assert Parse(kinds, []) == Ok([], []);
    assert Parse(kinds, ["-" + name]) == Prefixed([Setting(name, "true")], Ok([], []));
  }

  lemma VarsInOrder(own: seq<Setting>, options: seq<Setting>, r: Request)
    requires r.providerVars.Some? && forall k :: 0 <= k < |own| ==> own[k].name != "var"
    ensures VarsOf(own + VarInputSettings(r) + (options + VarSettings(r.providerVars.value)))
            == Variables(r.vars) + VarsOf(options) + r.providerVars.value
  {
    hide VarFiles, Variables, VarsOf, VarSettings;
    var files, vars, provider := AssignedSettings("var-file", VarFiles(r.vars)), VarSettings(Variables(r.vars)), VarSettings(r.providerVars.value);
    VarsOfOthers(own);
    FileSettingsAreNoVars(VarFiles(r.vars));
    VarsOfOthers(files);
    VarsOfVars(Variables(r.vars));
    VarsOfVars(r.providerVars.value);
    hide AssignedSettings;
    VarsOfParts(own, files, vars, options, provider);
  }

  lemma VarsOfParts(own: seq<Setting>, files: seq<Setting>, vars: seq<Setting>, options: seq<Setting>, provider: seq<Setting>)
    requires VarsOf(own) == [] && VarsOf(files) == []
    ensures VarsOf(own + (files + vars) + (options + provider)) == VarsOf(vars) + VarsOf(options) + VarsOf(provider)
  {
    hide VarsOf;
    VarsOfAppend(files, vars);
    VarsOfAppend(own, files + vars);
    VarsOfAppend(options, provider);
    VarsOfAppend(own + (files + vars), options + provider);
    assert [] + ([] + VarsOf(vars)) == VarsOf(vars);
    assert VarsOf(vars) + (VarsOf(options) + VarsOf(provider)) == VarsOf(vars) + VarsOf(options) + VarsOf(provider);
  }

  lemma {:induction false} FileSettingsAreNoVars(files: seq<string>)
    ensures forall s :: s in AssignedSettings("var-file", files) ==> s.name != "var"
  {
    if files != [] { FileSettingsAreNoVars(files[1..]); }
  }
}
