/** What the inputs of a command contribute to its argument list (`base-packer-command-handler.ts`). */
module CommandInputs {
  import opened JsText
  import opened FlagParsing
  import opened CommandLine

  // ── Lines of an input ────────────────────────────────────────────────────────

  /**
   The lines of an input are kept one by one: white space around a line goes, a blank line is left out, and with
   `skipComments` one that starts with `#`.
   */
  lemma {:induction false} LineIsKept(before: seq<string>, left: string, text: string, right: string, behind: seq<string>, skipComments: bool)
    requires AllSpace(left) && AllSpace(right) && IsTrimmed(text)
    ensures Kept(before + [left + text + right] + behind, skipComments) ==
            Kept(before, skipComments) + (if text == "" || (skipComments && text[0] == '#') then [] else [text]) + Kept(behind, skipComments)
    decreases |before|
  {
    hide Trim, IsSpace, IsTrimmed;
    var line := left + text + right;
    TrimUndoesPadding(left, text, right);
    if before == [] {
      assert before + [line] + behind == [line] + behind && ([line] + behind)[1..] == behind;
    } else {
      assert (before + [line] + behind)[0] == before[0] && (before + [line] + behind)[1..] == before[1..] + [line] + behind;
      LineIsKept(before[1..], left, text, right, behind, skipComments);
    }
  }

  /** One entry to a line, as an operator writes them. */
  datatype Entry = Entry(left: string, text: string, right: string)

  predicate IsEntry(e: Entry, skipComments: bool) {
    && AllSpace(e.left) && AllSpace(e.right) && IsTrimmed(e.text) && e.text != ""
    && '\n' !in e.left + e.text + e.right && !(skipComments && e.text[0] == '#')
  }

  function Lines(entries: seq<Entry>): (r: seq<string>)
    ensures |r| == |entries| && forall k :: 0 <= k < |r| ==> r[k] == entries[k].left + entries[k].text + entries[k].right
  {
    seq(|entries|, k requires 0 <= k < |entries| => entries[k].left + entries[k].text + entries[k].right)
  }

  function Texts(entries: seq<Entry>): (r: seq<string>)
    ensures |r| == |entries| && forall k :: 0 <= k < |r| ==> r[k] == entries[k].text
  {
    seq(|entries|, k requires 0 <= k < |entries| => entries[k].text)
  }

  lemma {:induction false} LinesAreKept(entries: seq<Entry>, skipComments: bool)
    requires forall k :: 0 <= k < |entries| ==> IsEntry(entries[k], skipComments)
    ensures Kept(Lines(entries), skipComments) == Texts(entries)
  {
    hide Trim, IsSpace;
    if entries != [] {
      var e := entries[0];
      assert IsEntry(e, skipComments);
      LinesAreKept(entries[1..], skipComments);
      assert Lines(entries)[1..] == Lines(entries[1..]) && Texts(entries)[1..] == Texts(entries[1..]);
      TrimUndoesPadding(e.left, e.text, e.right);
    }
  }

  /** The listed variable files, and the variables, are the entries of their inputs in order. */
  lemma EntriesAreRead(v: VarRequest, files: seq<Entry>, variables: seq<Entry>)
    requires files != [] && variables != []
    requires (forall k :: 0 <= k < |files| ==> IsEntry(files[k], false)) && forall k :: 0 <= k < |variables| ==> IsEntry(variables[k], true)
    requires v.variableFiles == Some(Join(Lines(files), "\n")) && v.packerVariables == Some(Join(Lines(variables), "\n"))
    ensures VariableFiles(v) == Texts(files) && Variables(v) == Texts(variables)
    ensures VarFiles(v) == (if v.secureFile.Some? then [v.secureFile.value] else []) + Texts(files)
  {
    hide Trim, IsSpace, Kept, Split;
    LinesAreKept(files, false);
    LinesAreKept(variables, true);
    SplitJoin(Lines(files), '\n');
    SplitJoin(Lines(variables), '\n');
    JoinIsNotEmpty(files, false);
    JoinIsNotEmpty(variables, true);
  }

  lemma JoinIsNotEmpty(entries: seq<Entry>, skipComments: bool)
    requires entries != [] && IsEntry(entries[0], skipComments)
    ensures Join(Lines(entries), "\n") != ""
  {
    assert Lines(entries)[0] != "";
  }

  /** Without an input there is nothing to read. */
  lemma NoInputNoEntries(v: VarRequest)
    ensures v.variableFiles.None? || v.variableFiles == Some("") ==> VariableFiles(v) == []
    ensures v.packerVariables.None? || v.packerVariables == Some("") ==> Variables(v) == []
  {
  }

  // ── The template and the var files ───────────────────────────────────────────

  /** The last argument is the template path, or the working directory when none is given. */
  lemma LastArgumentIsTheTemplate(head: seq<string>, r: Request)
    requires r.providerVars.Some?
    ensures var argv := WithOptions(head, r);
      argv != [] && argv[|argv| - 1] == match r.templatePath
                                        case Some(path) => if path == "" then "." else path
                                        case None => "."
  {
    hide VarArgs;
  }

  function ValuesOf(settings: seq<Setting>, name: string): seq<string> {
    if settings == [] then []
    else (if settings[0].name == name then [settings[0].value] else []) + ValuesOf(settings[1..], name)
  }

  lemma {:induction false} ValuesOfAppend(a: seq<Setting>, b: seq<Setting>, name: string)
    ensures ValuesOf(a + b, name) == ValuesOf(a, name) + ValuesOf(b, name)
  {
    if a == [] {
      assert a + b == b;
    } else {
      assert (a + b)[1..] == a[1..] + b;
      ValuesOfAppend(a[1..], b, name);
    }
  }

  lemma {:induction false} ValuesOfAssigned(name: string, values: seq<string>)
    ensures ValuesOf(AssignedSettings(name, values), name) == values
    ensures forall k :: 0 <= k < |AssignedSettings(name, values)| ==> AssignedSettings(name, values)[k].name == name
  {
    if values != [] {
      ValuesOfAssigned(name, values[1..]);
      assert AssignedSettings(name, values)[1..] == AssignedSettings(name, values[1..]);
    }
  }

  lemma {:induction false} ValuesOfOthers(settings: seq<Setting>, name: string)
    requires forall k :: 0 <= k < |settings| ==> settings[k].name != name
    ensures ValuesOf(settings, name) == []
  {
    if settings != [] { ValuesOfOthers(settings[1..], name); }
  }

  lemma VarSettingsAreVars(entries: seq<string>)
    ensures forall k :: 0 <= k < |VarSettings(entries)| ==> VarSettings(entries)[k].name == "var"
  {
  }

  /** Packer reads the secure file first, then the listed files in order, then those of the operator's options. */
  lemma FilesAreReadInOrder(kinds: Kinds, argv: seq<string>, own: seq<Setting>, r: Request)
    requires argv != [] && r.providerVars.Some? && ReadAsMeant(kinds, argv, own, r) && Complete(kinds, r.options)
    requires forall k :: 0 <= k < |own| ==> own[k].name != "var-file"
    ensures Parse(kinds, argv[1..]).Ok?
    ensures ValuesOf(Parse(kinds, argv[1..]).settings, "var-file") ==
            (if r.vars.secureFile.Some? then [r.vars.secureFile.value] else []) + VariableFiles(r.vars) + ValuesOf(SettingsOf(kinds, r.options), "var-file")
  {
    hide Parse, Complete, SettingsOf, VariableFiles, Variables, ValuesOf, AssignedSettings, VarSettings;
    var files, vars := AssignedSettings("var-file", VarFiles(r.vars)), VarSettings(Variables(r.vars));
    var options, provider := SettingsOf(kinds, r.options), VarSettings(r.providerVars.value);
    VarSettingsAreVars(Variables(r.vars));
    VarSettingsAreVars(r.providerVars.value);
    assert |"var"| != |"var-file"|;
    ValuesOfOthers(own, "var-file");
    ValuesOfOthers(vars, "var-file");
    ValuesOfOthers(provider, "var-file");
    ValuesOfAssigned("var-file", VarFiles(r.vars));
    ValuesOfParts(own, files, vars, options, provider, "var-file");
  }

  lemma ValuesOfParts(own: seq<Setting>, files: seq<Setting>, vars: seq<Setting>, options: seq<Setting>, provider: seq<Setting>, name: string)
    ensures ValuesOf(own + (files + vars) + (options + provider), name) ==
            ValuesOf(own, name) + ValuesOf(files, name) + ValuesOf(vars, name) + ValuesOf(options, name) + ValuesOf(provider, name)
  {
    hide ValuesOf;
    ValuesOfAppend(files, vars, name);
    ValuesOfAppend(options, provider, name);
    ValuesOfAppend(own, files + vars, name);
    ValuesOfAppend(own + (files + vars), options + provider, name);
  }

  // ── Build's own inputs ───────────────────────────────────────────────────────

  /** A build is run exactly when its inputs are valid, its files contained and its provider ready. */
  lemma BuildRunsExactly(b: BuildRequest)
    ensures BuildRuns(b) <==>
      && (b.parallelBuilds.Some? ==> b.parallelBuilds.value.Number? && b.parallelBuilds.value.n > 0)
      && (b.onError.Some? && b.onError.value != "" ==>
            b.onError.value in ["default", "cleanup", "abort", "ask", "run-cleanup-provisioner"])
      && (forall k :: 0 <= k < |VariableFiles(b.request.vars)| ==> b.request.vars.contained(VariableFiles(b.request.vars)[k]))
      && b.request.providerVars.Some?
  {
    hide VariableFiles;
    assert VALID_ON_ERROR_VALUES[0] == "default";
    assert VALID_ON_ERROR_VALUES == ["default", "cleanup", "abort", "ask", "run-cleanup-provisioner"];
  }

  /** What packer's own flags are set to by build: each setting stands for one input, and no other is made. */
  lemma BuildSettingsAreExact(b: BuildRequest, s: Setting)
    requires BuildRuns(b)
    ensures s in BuildSettings(b) <==>
      || (s.name == "only" && s.value != "" && b.only == Some(s.value))
      || (s.name == "except" && s.value != "" && b.except == Some(s.value))
      || (s.name == "parallel-builds" && b.parallelBuilds.Some? && s.value == Decimal(b.parallelBuilds.value.n))
      || (s.name == "on-error" && s.value != "" && s.value != "default" && b.onError == Some(s.value))
      || (s == Setting("force", "true") && b.force)
      || (s == Setting("color", "false") && b.disableColor)
  {
    hide Decimal;
  }

  predicate IsDecimal(s: string) { s != "" && (forall k :: 0 <= k < |s| ==> '0' <= s[k] <= '9') && (|s| > 1 ==> s[0] != '0') }

  /** The number a row of digits stands for. */
  function ReadDecimal(s: string): int
    requires forall k :: 0 <= k < |s| ==> '0' <= s[k] <= '9'
  {
    if s == "" then 0 else 10 * ReadDecimal(s[..|s| - 1]) + (s[|s| - 1] - '0') as int
  }

  /** The number of parallel builds is written in decimal: its digits read back as the number. */
  lemma {:induction false} DecimalReadsBack(n: nat)
    ensures IsDecimal(Decimal(n)) && ReadDecimal(Decimal(n)) == n && (n > 0 ==> Decimal(n)[0] != '0')
  {
    var digit := "0123456789"[n % 10];
    DigitOf(n % 10);
    hide ReadDecimal;
    if n < 10 {
      assert Decimal(n) == [digit];
      ReadDigit("", digit);
      NothingReadsZero();
    } else {
      DecimalReadsBack(n / 10);
      hide Decimal;
      var front := Decimal(n / 10);
      DecimalStep(n);
      ReadDigit(front, digit);
      assert (front + [digit])[0] == front[0];
    }
  }

  lemma NothingReadsZero()
    ensures ReadDecimal("") == 0
  {
  }

  lemma DecimalStep(n: nat)
    requires n >= 10
    ensures Decimal(n) == Decimal(n / 10) + ["0123456789"[n % 10]]
  {
  }

  lemma ReadDigit(front: string, digit: char)
    requires '0' <= digit <= '9' && forall k :: 0 <= k < |front| ==> '0' <= front[k] <= '9'
    ensures ReadDecimal(front + [digit]) == 10 * ReadDecimal(front) + (digit - '0') as int
  {
    assert (front + [digit])[..|front|] == front;
  }

  lemma DigitOf(d: nat)
    requires d < 10
    ensures '0' <= "0123456789"[d] <= '9' && ("0123456789"[d] - '0') as int == d
  {
  }
}
