/**
 The rule of Go's `flag` package that packer reads its command line with: flags up to the first
 argument that is not one; a flag that takes a value and has no `=` takes the next argument whole.
 The comments of `base-packer-command-handler.ts` rely on it.
 */
module FlagParsing {
  import opened JsText

  datatype Kind = Switch | Valued

  datatype Token = NonFlag | Terminator | BadSyntax | Flag(name: string, value: Option<string>)

  function Scan(s: string): Token {
    if |s| < 2 || s[0] != '-' then NonFlag
    else if s == "--" then Terminator
    else
      var name := if s[1] == '-' then s[2..] else s[1..];
      if name[0] == '-' || name[0] == '=' then BadSyntax
      else
        var at := IndexOf(name, '=');
        if at < 0 then Flag(name, None) else Flag(name[..at], Some(name[at + 1..]))
  }

  datatype Setting = Setting(name: string, value: string)

  datatype Parsed = Bad | Ok(settings: seq<Setting>, positional: seq<string>)

  function Prefixed(settings: seq<Setting>, p: Parsed): Parsed {
    if p.Bad? then Bad else Ok(settings + p.settings, p.positional)
  }

  lemma PrefixedTwice(a: seq<Setting>, b: seq<Setting>, p: Parsed)
    ensures Prefixed(a, Prefixed(b, p)) == Prefixed(a + b, p)
  {
    if p.Ok? { assert a + (b + p.settings) == a + b + p.settings; }
  }

  /** The flags the command knows, and whether each takes a value. */
  type Kinds = map<string, Kind>

  function Parse(kinds: Kinds, args: seq<string>): Parsed
    decreases |args|
  {
    if args == [] then Ok([], [])
    else
      match Scan(args[0])
      case NonFlag => Ok([], args)
      case Terminator => Ok([], args[1..])
      case BadSyntax => Bad
      case Flag(name, value) =>
        if name !in kinds then Bad
        else if kinds[name].Switch? || value.Some? then
          Prefixed([Setting(name, if value.Some? then value.value else "true")], Parse(kinds, args[1..]))
        else if |args| > 1 then Prefixed([Setting(name, args[1])], Parse(kinds, args[2..]))
        else Bad
  }

  /** Known flags only, each with its value: nothing is left over and nothing is missing. */
  predicate Complete(kinds: Kinds, args: seq<string>)
    decreases |args|
  {
    args == []
    || (var t := Scan(args[0]);
        && t.Flag? && t.name in kinds
        && if kinds[t.name].Switch? || t.value.Some? then Complete(kinds, args[1..])
           else |args| > 1 && Complete(kinds, args[2..]))
  }

  function SettingsOf(kinds: Kinds, args: seq<string>): seq<Setting> {
    var p := Parse(kinds, args);
    if p.Bad? then [] else p.settings
  }

  lemma {:induction false} CompleteParses(kinds: Kinds, args: seq<string>)
    requires Complete(kinds, args)
    ensures Parse(kinds, args) == Ok(SettingsOf(kinds, args), [])
    decreases |args|
  {
    if args != [] {
      var t := Scan(args[0]);
      if kinds[t.name].Switch? || t.value.Some? { CompleteParses(kinds, args[1..]); } else { CompleteParses(kinds, args[2..]); }
    }
  }

  /** How many arguments a first flag takes, itself included, and what it sets. */
  function Width(kinds: Kinds, args: seq<string>): nat
    requires args != [] && Complete(kinds, args)
  {
    if kinds[Scan(args[0]).name].Switch? || Scan(args[0]).value.Some? then 1 else 2
  }

  function First(kinds: Kinds, args: seq<string>): Setting
    requires args != [] && Complete(kinds, args)
  {
    var t := Scan(args[0]);
    Setting(t.name, if t.value.Some? then t.value.value else if Width(kinds, args) == 1 then "true" else args[1])
  }

  lemma FirstIsRead(kinds: Kinds, args: seq<string>, b: seq<string>)
    requires args != [] && Complete(kinds, args)
    ensures var n := Width(kinds, args);
      && n <= |args| && Complete(kinds, args[n..])
      && Parse(kinds, args + b) == Prefixed([First(kinds, args)], Parse(kinds, args[n..] + b))
      && (Complete(kinds, args[n..] + b) ==> Complete(kinds, args + b))
  {
    hide Scan;
    var n := Width(kinds, args);
    assert (args + b)[n..] == args[n..] + b;
    assert (args + b)[0] == args[0] && (n == 2 ==> (args + b)[1] == args[1]);
  }

  /** Parsing goes on after complete flags as if they were not there. */
  lemma {:induction false} CompleteAppend(kinds: Kinds, a: seq<string>, b: seq<string>)
    requires Complete(kinds, a)
    ensures Parse(kinds, a + b) == Prefixed(SettingsOf(kinds, a), Parse(kinds, b))
    decreases |a|
  {
    if a == [] {
      assert a + b == b;
    } else {
      var n := Width(kinds, a);
      FirstIsRead(kinds, a, b);
      FirstIsRead(kinds, a, []);
      CompleteAppend(kinds, a[n..], b);
      CompleteParses(kinds, a[n..]);
      assert a + [] == a && a[n..] + [] == a[n..];
      PrefixedTwice([First(kinds, a)], SettingsOf(kinds, a[n..]), Parse(kinds, b));
      OneMore(kinds, a, First(kinds, a), n);
    }
  }

  lemma OneMore(kinds: Kinds, a: seq<string>, first: Setting, n: nat)
    requires n <= |a| && Parse(kinds, a[n..]).Ok? && Parse(kinds, a) == Prefixed([first], Parse(kinds, a[n..]))
    ensures SettingsOf(kinds, a) == [first] + SettingsOf(kinds, a[n..])
  {
    hide Parse;
  }

  lemma {:induction false} CompleteJoin(kinds: Kinds, a: seq<string>, b: seq<string>)
    requires Complete(kinds, a) && Complete(kinds, b)
    ensures Complete(kinds, a + b) && SettingsOf(kinds, a + b) == SettingsOf(kinds, a) + SettingsOf(kinds, b)
    decreases |a|
  {
    CompleteAppend(kinds, a, b);
    CompleteParses(kinds, b);
    if a == [] {
      assert a + b == b;
    } else {
      FirstIsRead(kinds, a, b);
      CompleteJoin(kinds, a[Width(kinds, a)..], b);
    }
  }

  // ── Flags as the handler writes them ─────────────────────────────────────────

  lemma ScanWritten(name: string, value: string)
    requires name != "" && name[0] != '-' && '=' !in name
    ensures Scan("-" + name) == Flag(name, None)
    ensures Scan("-" + name + "=" + value) == Flag(name, Some(value))
  {
    var plain, full := "-" + name, "-" + name + "=" + value;
    assert plain[1] == name[0] && plain[1..] == name;
    assert full[1] == name[0] && full[1..] == name + "=" + value;
    var body := name + "=" + value;
    IndexOfFirst(name, '=', value);
    assert body == name + ['='] + value && body[..|name|] == name && body[|name| + 1..] == value;
  }

  /** `-var` before each entry. */
  function VarArgs(entries: seq<string>): seq<string> {
    if entries == [] then [] else ["-var", entries[0]] + VarArgs(entries[1..])
  }

  function VarSettings(entries: seq<string>): seq<Setting> {
    if entries == [] then [] else [Setting("var", entries[0])] + VarSettings(entries[1..])
  }

  /** Each entry is taken whole, whatever it looks like. */
  lemma {:induction false} VarArgsParse(kinds: Kinds, entries: seq<string>)
    requires "var" in kinds && kinds["var"].Valued?
    ensures Complete(kinds, VarArgs(entries)) && SettingsOf(kinds, VarArgs(entries)) == VarSettings(entries)
  {
    if entries != [] {
      var args := VarArgs(entries);
      ScanWritten("var", "");
      assert "-" + "var" == "-var";
      hide Scan;
      assert args[0] == "-var" && args[1] == entries[0] && args[2..] == VarArgs(entries[1..]);
      VarArgsParse(kinds, entries[1..]);
      CompleteParses(kinds, args[2..]);
    }
  }

  /** `-name=value` for each value. */
  function Assigned(name: string, values: seq<string>): seq<string> {
    if values == [] then [] else ["-" + name + "=" + values[0]] + Assigned(name, values[1..])
  }

  function AssignedSettings(name: string, values: seq<string>): seq<Setting> {
    if values == [] then [] else [Setting(name, values[0])] + AssignedSettings(name, values[1..])
  }

  lemma {:induction false} AssignedParse(kinds: Kinds, name: string, values: seq<string>)
    requires name in kinds && name != "" && name[0] != '-' && '=' !in name
    ensures Complete(kinds, Assigned(name, values)) && SettingsOf(kinds, Assigned(name, values)) == AssignedSettings(name, values)
  {
    if values != [] {
      var args := Assigned(name, values);
      ScanWritten(name, values[0]);
      hide Scan;
      assert args[1..] == Assigned(name, values[1..]);
      AssignedParse(kinds, name, values[1..]);
      CompleteParses(kinds, args[1..]);
    }
  }

  // ── Where the template ends up ───────────────────────────────────────────────

  /** Complete flags and then `--`. */
  predicate EndsFlags(kinds: Kinds, args: seq<string>) {
    args != [] && args[|args| - 1] == "--" && Complete(kinds, args[..|args| - 1])
  }

  /**
   The tail the handler writes after the operator's options, `-var` entries and then the template, is read
   as meant exactly when the options are complete flags, or, with no entries, complete flags and `--`.
   */
  lemma {:induction false} TailIsReadAsMeant(kinds: Kinds, options: seq<string>, entries: seq<string>, template: string)
    requires "var" in kinds && kinds["var"].Valued?
    requires Scan(template).NonFlag? && forall k :: 0 <= k < |entries| ==> Scan(entries[k]).NonFlag?
    ensures var p := Parse(kinds, options + (VarArgs(entries) + [template]));
      && ((p.Ok? && p.positional == [template]) <==> (Complete(kinds, options) || (entries == [] && EndsFlags(kinds, options))))
      && (Complete(kinds, options) ==> p == Ok(SettingsOf(kinds, options) + VarSettings(entries), [template]))
    decreases |options|
  {
    hide Scan;
    var tail := VarArgs(entries) + [template];
    var p := Parse(kinds, options + tail);
    if Complete(kinds, options) {
      VarArgsParse(kinds, entries);
      CompleteAppend(kinds, options, tail);
      CompleteAppend(kinds, VarArgs(entries), [template]);
    } else {
      NotReadAsMeant(kinds, options, entries, template);
    }
  }

  lemma {:induction false} NotReadAsMeant(kinds: Kinds, options: seq<string>, entries: seq<string>, template: string)
    requires Scan(template).NonFlag? && forall k :: 0 <= k < |entries| ==> Scan(entries[k]).NonFlag?
    requires !Complete(kinds, options)
    ensures var p := Parse(kinds, options + (VarArgs(entries) + [template]));
      (p.Ok? && p.positional == [template]) <==> (entries == [] && EndsFlags(kinds, options))
    decreases |options|
  {
    hide Scan;
    var tail := VarArgs(entries) + [template];
    var all := options + tail;
    var t := Scan(options[0]);
    assert all[0] == options[0] && all[1..] == options[1..] + tail;
    if t.Flag? && t.name in kinds {
      var n := if kinds[t.name].Switch? || t.value.Some? then 1 else 2;
      if n <= |options| {
        assert all[n..] == options[n..] + tail;
        NotReadAsMeant(kinds, options[n..], entries, template);
        EndsFlagsShift(kinds, options, n);
      } else {
        SwallowsTheTail(kinds, entries, template);
        assert all[2..] == tail[1..] && all[1] == tail[0];
        NoLoneTerminator(kinds, options);
      }
    } else {
      NotFlag(kinds, options, t);
    }
  }

  /** A first flag with its value does not decide whether the rest ends the flags. */
  lemma EndsFlagsShift(kinds: Kinds, options: seq<string>, n: nat)
    requires options != [] && 1 <= n <= |options| && !Complete(kinds, options)
    requires var t := Scan(options[0]); t.Flag? && t.name in kinds && n == if kinds[t.name].Switch? || t.value.Some? then 1 else 2
    ensures EndsFlags(kinds, options) <==> EndsFlags(kinds, options[n..])
  {
    TerminatorIsNoFlag();
    var front := options[..|options| - 1];
    if n < |options| {
      assert front[0] == options[0] && front[n..] == options[n..][..|options[n..]| - 1];
    }
  }

  lemma TerminatorIsNoFlag()
    ensures Scan("--") == Terminator
  {
  }

  lemma NoLoneTerminator(kinds: Kinds, options: seq<string>)
    requires |options| == 1 && Scan(options[0]).Flag?
    ensures !EndsFlags(kinds, options)
  {
    TerminatorIsNoFlag();
  }

  lemma NotFlag(kinds: Kinds, options: seq<string>, t: Token)
    requires options != [] && t == Scan(options[0]) && !(t.Flag? && t.name in kinds)
    ensures EndsFlags(kinds, options) <==> t.Terminator? && |options| == 1
    ensures t.Terminator? ==> options[0] == "--"
  {
    var front := options[..|options| - 1];
    TerminatorIsNoFlag();
    if |options| > 1 { assert front[0] == options[0]; }
  }

  /** An option still waiting for its value takes the first argument of the tail, and the template is lost. */
  lemma SwallowsTheTail(kinds: Kinds, entries: seq<string>, template: string)
    requires Scan(template).NonFlag? && forall k :: 0 <= k < |entries| ==> Scan(entries[k]).NonFlag?
    ensures var tail := VarArgs(entries) + [template]; tail != [] && Parse(kinds, tail[1..]).Ok? && Parse(kinds, tail[1..]).positional != [template]
  {
    hide Scan;
    var tail := VarArgs(entries) + [template];
    if entries != [] {
      assert tail[1] == entries[0] && |tail| >= 3;
      assert tail[1..][0] == entries[0];
    }
  }
}
