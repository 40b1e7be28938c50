/** The passthrough of environment variables, on the text an operator writes (`environment-variable-policy.ts`). */
module PassthroughText {
  import opened JsText
  import opened PassthroughPolicy

  // ── What a line says ─────────────────────────────────────────────────────────

  predicate IsVariableName(name: string) { name != "" && IsTrimmed(name) && name[0] != '#' && '=' !in name }

  /** White space around the parts of an assignment. */
  datatype Padding = Padding(left: string, before: string, after: string, right: string)

  predicate IsPadding(pad: Padding) { AllSpace(pad.left) && AllSpace(pad.before) && AllSpace(pad.after) && AllSpace(pad.right) }

  function Print(pad: Padding, name: string, value: string): string {
    pad.left + name + pad.before + "=" + pad.after + value + pad.right
  }

  /** The line is an assignment of the value to the name, with white space anywhere around the two. */
  ghost predicate Assigns(line: string, name: string, value: string) {
    IsVariableName(name) && IsTrimmed(value) && exists pad :: IsPadding(pad) && line == Print(pad, name, value)
  }

  /** Blank, or its first character that is no white space is `#`. */
  ghost predicate IsComment(line: string) {
    AllSpace(line) || exists left, rest :: AllSpace(left) && line == left + "#" + rest
  }

  // ── The parser is right ──────────────────────────────────────────────────────

  lemma AssignmentIsParsed(pad: Padding, name: string, value: string)
    requires IsVariableName(name) && IsTrimmed(value) && IsPadding(pad)
    ensures ParseLine(Print(pad, name, value)) == Pair(name, value)
  {
    hide IsSpace, Trim, IndexOf, Print;
    var head, tail := name + pad.before, if value == "" then "" else pad.after + value;
    PrintIsTrimmed(pad, name, value);
    SpaceHasNoEquals(pad.before);
    EqualsSplits(head, tail);
    assert name + pad.before == "" + name + pad.before;
    TrimUndoesPadding("", name, pad.before);
    if value == "" {
      SpaceTrimsToNothing("");
    } else {
      assert pad.after + value == pad.after + value + "";
      TrimUndoesPadding(pad.after, value, "");
    }
  }

  /** The outer white space goes, and all that follows the equals sign when there is no value. */
  lemma PrintIsTrimmed(pad: Padding, name: string, value: string)
    requires IsVariableName(name) && IsTrimmed(value) && IsPadding(pad)
    ensures Trim(Print(pad, name, value)) == name + pad.before + "=" + if value == "" then "" else pad.after + value
  {
    hide IsSpace, Trim;
    var inner := name + pad.before + "=" + if value == "" then "" else pad.after + value;
    var right := if value == "" then pad.after + pad.right else pad.right;
    assert Print(pad, name, value) == pad.left + inner + right;
    AllSpaceJoin(pad.after, pad.right);
    EqualsIsNoSpace();
    assert inner[0] == name[0] && inner[|inner| - 1] == if value == "" then '=' else value[|value| - 1];
    TrimPadded(pad.left, inner, right);
  }

  lemma EqualsSplits(head: string, tail: string)
    requires '=' !in head
    ensures var s := head + "=" + tail; IndexOf(s, '=') == |head| && s[..|head|] == head && s[|head| + 1..] == tail
  {
    hide IndexOf;
    assert head + ['='] + tail == head + "=" + tail;
    IndexOfFirst(head, '=', tail);
  }

  lemma EqualsIsNoSpace()
    ensures !IsSpace('=') && !IsSpace('#')
  {
  }

  lemma SpaceHasNoEquals(s: string)
    requires AllSpace(s)
    ensures '=' !in s
  {
    EqualsIsNoSpace();
    hide IsSpace;
  }

  /** No white space comes before a character that is none. */
  lemma NoSpaceBefore(s: string, space: string, rest: string)
    requires s != "" && !IsSpace(s[0]) && s == space + rest
    ensures AllSpace(space) ==> space == ""
  {
    hide IsSpace;
    assert space != "" ==> s[0] == space[0];
  }

  lemma ParsedIsAssignment(line: string)
    requires ParseLine(line).Pair?
    ensures Assigns(line, ParseLine(line).key, ParseLine(line).value)
  {
    hide IsSpace, Trim, IndexOf, IsTrimmed;
    var left, right := TrimTakesSpace(line);
    var trimmed := Trim(line);
    var at := IndexOf(trimmed, '=');
    var name, value := Trim(trimmed[..at]), Trim(trimmed[at + 1..]);
    FirstOfTrimmed(trimmed);
    NameIsTrimmed(trimmed, at);
    var l, before := TrimTakesSpace(trimmed[..at]);
    var after, r := TrimTakesSpace(trimmed[at + 1..]);
    assert l == "" by { NoSpaceBefore(trimmed[..at], l, name + before); }
    AllSpaceJoin(r, right);
    PiecesMakeTheLine(line, left, trimmed, right, at, name + before, after + value + r);
    assert line == Print(Padding(left, before, after, r + right), name, value);
  }

  lemma FirstOfTrimmed(trimmed: string)
    requires trimmed != "" && IsTrimmed(trimmed)
    ensures !IsSpace(trimmed[0])
  {
  }

  /** What stands before the equals sign is a name with space after it. */
  lemma NameIsTrimmed(trimmed: string, at: int)
    requires trimmed != "" && !IsSpace(trimmed[0]) && trimmed[0] != '#' && 0 < at < |trimmed| && '=' !in trimmed[..at]
    ensures IsVariableName(Trim(trimmed[..at]))
    ensures trimmed[..at][0] == trimmed[0] && IsTrimmed(Trim(trimmed[at + 1..]))
  {
    hide IsSpace, Trim, IsTrimmed;
    var head := trimmed[..at];
    var l, before := TrimTakesSpace(head);
    var after, r := TrimTakesSpace(trimmed[at + 1..]);
    var name := Trim(head);
    NoSpaceBefore(head, l, name + before);
    assert head == l + (name + before);
    NoSpaceBefore(head, head, "");
    assert head == name + before && name[0] == head[0];
    assert forall k :: 0 <= k < |name| ==> name[k] == head[k];
  }

  lemma PiecesMakeTheLine(line: string, left: string, trimmed: string, right: string, at: int, head: string, tail: string)
    requires line == left + trimmed + right && 0 <= at < |trimmed| && trimmed[at] == '='
    requires trimmed[..at] == head && trimmed[at + 1..] == tail
    ensures line == left + head + "=" + tail + right
  {
    assert trimmed == trimmed[..at] + "=" + trimmed[at + 1..];
  }

  lemma CommentIsIgnored(line: string)
    ensures ParseLine(line).Ignored? <==> IsComment(line)
  {
    hide IsSpace, Trim, IndexOf;
    var left, right := TrimTakesSpace(line);
    var trimmed := Trim(line);
    EqualsIsNoSpace();
    if trimmed != "" && trimmed[0] == '#' { assert line == left + "#" + (trimmed[1..] + right); }
    if AllSpace(line) { SpaceTrimsToNothing(line); }
    if l, rest :| AllSpace(l) && line == l + "#" + rest {
      var l', r' := TrimTakesSpace(rest);
      var body := "#" + if Trim(rest) == "" then "" else l' + Trim(rest);
      var end := if Trim(rest) == "" then rest else r';
      assert line == l + body + end;
      TrimPadded(l, body, end);
    }
  }

  /** A line assigns at most one value to one name, and that is what the code reads in it. */
  lemma LineIsReadExactly(line: string, name: string, value: string)
    ensures ParseLine(line) == Pair(name, value) <==> Assigns(line, name, value)
    ensures ParseLine(line).Ignored? <==> IsComment(line)
  {
    hide ParseLine, IsVariableName, IsTrimmed, IsPadding, Print;
    CommentIsIgnored(line);
    if ParseLine(line) == Pair(name, value) { ParsedIsAssignment(line); }
    if Assigns(line, name, value) {
      var pad :| IsPadding(pad) && line == Print(pad, name, value);
      AssignmentIsParsed(pad, name, value);
    }
  }

  // ── What a line does ─────────────────────────────────────────────────────────

  /** The key contains one of the four words, in any case. */
  lemma SecretShapeIsExact(key: string)
    ensures IsSecretShaped(key) <==>
      exists a, w, b, word :: word in ["token", "secret", "password", "key"] && SameLetters(w, word) && key == a + w + b
  {
    hide SameLetters;
    var words := ["token", "secret", "password", "key"];
    assert words[0] in words && words[1] in words && words[2] in words && words[3] in words;
    forall word ensures ContainsLetters(key, word) <==> exists a, w, b :: SameLetters(w, word) && key == a + w + b { ContainsIsSomewhere(key, word); }
    hide ContainsLetters;
  }

  lemma ContainsIsSomewhere(key: string, word: string)
    ensures ContainsLetters(key, word) <==> exists a, w, b :: SameLetters(w, word) && key == a + w + b
  {
    if k: int :| 0 <= k <= |key| && LettersAt(key, k, word) {
      var w := key[k..k + |word|];
      assert key == key[..k] + w + key[k + |word|..];
    }
    if a, w, b :| SameLetters(w, word) && key == a + w + b {
      assert key[|a|..|a| + |word|] == w;
      assert LettersAt(key, |a|, word);
    }
  }

  /** The name is the prefix and one of these words. */
  predicate IsPrefixed(key: string, prefix: string, words: seq<string>) { exists k :: 0 <= k < |words| && key == prefix + words[k] }

  ghost predicate Begins(key: string, prefix: string) { exists rest :: key == prefix + rest }

  /** The names that select an identity, word by word. */
  lemma IdentityNamesAreExact(key: string)
    ensures SelectsIdentity(key) <==>
      || IsPrefixed(key, "AWS_", ["ACCESS_KEY_ID", "SECRET_ACCESS_KEY", "SESSION_TOKEN", "PROFILE", "SHARED_CREDENTIALS_FILE",
                                  "WEB_IDENTITY_TOKEN_FILE", "ROLE_ARN", "ROLE_SESSION_NAME"])
      || IsPrefixed(key, "GOOGLE_", ["APPLICATION_CREDENTIALS", "CREDENTIALS", "OAUTH_ACCESS_TOKEN", "GHA_CREDS_PATH"])
      || IsPrefixed(key, "PKR_VAR_arm_", ["client_id", "client_secret", "client_jwt", "client_cert_path", "tenant_id", "subscription_id",
                                          "oidc_request_url", "oidc_request_token", "use_azure_cli_auth"])
      || IsPrefixed(key, "PKR_VAR_vsphere_", ["server", "user", "password", "insecure_connection"])
      || Begins(key, "CLOUDSDK_AUTH_") || Begins(key, "PKR_VAR_oci_") || Begins(key, "OCI_CLI_") || Begins(key, "ARM_")
      || SameLetters(key, "path")
  {
    OneOfIsPrefixed(key, "AWS_", AWS_IDENTITY);
    OneOfIsPrefixed(key, "GOOGLE_", GOOGLE_IDENTITY);
    OneOfIsPrefixed(key, "PKR_VAR_arm_", ARM_IDENTITY);
    OneOfIsPrefixed(key, "PKR_VAR_vsphere_", VSPHERE_IDENTITY);
    StartsIsBegins(key, "CLOUDSDK_AUTH_");
    StartsIsBegins(key, "PKR_VAR_oci_");
    StartsIsBegins(key, "OCI_CLI_");
    StartsIsBegins(key, "ARM_");
    hide OneOf, IsPrefixed, SameLetters, Begins, StartsWith;
  }

  lemma OneOfIsPrefixed(key: string, prefix: string, words: seq<string>)
    ensures OneOf(key, prefix, words) <==> IsPrefixed(key, prefix, words)
  {
    if OneOf(key, prefix, words) {
      var k :| 0 <= k < |words| && words[k] == key[|prefix|..];
      assert key == prefix + words[k];
    }
    if k :| 0 <= k < |words| && key == prefix + words[k] { assert key[|prefix|..] == words[k]; }
  }

  lemma StartsIsBegins(key: string, prefix: string)
    ensures StartsWith(key, prefix) <==> Begins(key, prefix)
  {
    if StartsWith(key, prefix) { assert key == prefix + key[|prefix|..]; }
  }

  /** The names the task manages too, and is warned about: those of its clouds, and of a proxy. */
  lemma ManagedNamesAreExact(key: string)
    ensures IsManaged(key) <==>
      || Begins(key, "AWS_") || Begins(key, "GOOGLE_") || Begins(key, "PKR_VAR_oci_") || Begins(key, "PKR_VAR_vsphere_") || Begins(key, "PKR_VAR_arm_")
      || exists front, end :: key == front + end && SameLetters(end, "proxy")
  {
    StartsIsBegins(key, "AWS_");
    StartsIsBegins(key, "GOOGLE_");
    StartsIsBegins(key, "PKR_VAR_oci_");
    StartsIsBegins(key, "PKR_VAR_vsphere_");
    StartsIsBegins(key, "PKR_VAR_arm_");
    EndsLikeProxy(key);
    hide Begins, StartsWith, SameLetters;
  }

  lemma EndsLikeProxy(key: string)
    ensures (|key| >= 5 && SameLetters(key[|key| - 5..], "proxy")) <==> exists front, end :: key == front + end && SameLetters(end, "proxy")
  {
    if |key| >= 5 && SameLetters(key[|key| - 5..], "proxy") { assert key == key[..|key| - 5] + key[|key| - 5..]; }
    if front, end :| key == front + end && SameLetters(end, "proxy") { assert key[|key| - 5..] == end; }
  }

  /** The line stops the run: it names an identity, or asks the masker for a value of several lines. */
  ghost predicate Stops(line: string) {
    exists name, value :: Assigns(line, name, value)
                          && (SelectsIdentity(name) || (value != "" && IsSecretShaped(name) && Multiline(value)))
  }

  lemma StopsIsThrows(line: string)
    ensures Stops(line) <==> Throws(line)
  {
    hide ParseLine, Assigns, SelectsIdentity, IsSecretShaped, Multiline;
    forall name, value ensures ParseLine(line) == Pair(name, value) <==> Assigns(line, name, value) { LineIsReadExactly(line, name, value); }
    if Throws(line) { assert Assigns(line, ParseLine(line).key, ParseLine(line).value); }
  }

  /**
   One line, by its text: a comment changes nothing; an assignment sets its variable, unless the value is empty or the line stops
   the run; any other line is warned of and changes no variable.
   */
  lemma LineIsExact(p: Passed, line: string, name: string, value: string)
    ensures var (next, ok) := StepLine(p, line);
      && (ok <==> !Stops(line))
      && (IsComment(line) ==> ok && next == p)
      && (ok && Assigns(line, name, value) ==>
            && next.variables == (if value == "" then p.variables else p.variables[name := value])
            && next.secrets == (if value != "" && IsSecretShaped(name) then p.secrets + [value] else p.secrets)
            && next.warnings == p.warnings + (if IsManaged(name) then 1 else 0) + (if value == "" then 1 else 0))
      && (!IsComment(line) && (forall n, v :: !Assigns(line, n, v)) ==> ok && next == p.(warnings := p.warnings + 1))
  {
    hide ParseLine, Assigns, SelectsIdentity, IsManaged, IsSecretShaped, Multiline, IsComment, Stops;
    StopsIsThrows(line);
    LineIsReadExactly(line, name, value);
    if ParseLine(line).Pair? { LineIsReadExactly(line, ParseLine(line).key, ParseLine(line).value); }
  }

  /** A line without an equals sign, or whose first character that is no white space is one, assigns nothing. */
  lemma WithoutNameIsNoAssignment(line: string, left: string, rest: string)
    requires '=' !in line || (AllSpace(left) && line == left + "=" + rest)
    ensures forall name, value :: !Assigns(line, name, value)
  {
    hide Assigns;
    forall name, value ensures !Assigns(line, name, value) {
      if Assigns(line, name, value) { AssignmentBegins(line, name, value, left, rest); }
    }
  }

  lemma AssignmentBegins(line: string, name: string, value: string, left: string, rest: string)
    requires Assigns(line, name, value)
    ensures '=' in line && (AllSpace(left) ==> line != left + "=" + rest)
  {
    hide IsSpace;
    EqualsIsNoSpace();
    var pad :| IsPadding(pad) && line == Print(pad, name, value);
    var tail := name + pad.before + "=" + pad.after + value + pad.right;
    assert line == pad.left + tail && tail[0] == name[0] && tail[|name + pad.before|] == '=';
    assert line[|pad.left| + |name + pad.before|] == '=';
    if AllSpace(left) { FirstNoSpace(pad.left, tail, left, "=" + rest); }
    assert left + "=" + rest == left + ("=" + rest);
  }

  /** The first character that is no white space is where it is. */
  lemma FirstNoSpace(a: string, x: string, b: string, y: string)
    requires AllSpace(a) && AllSpace(b) && x != "" && y != "" && !IsSpace(x[0]) && !IsSpace(y[0])
    ensures a + x == b + y ==> x[0] == y[0]
  {
    hide IsSpace;
    assert |a| < |b| ==> (b + y)[|a|] == b[|a|] && (a + x)[|a|] == x[0];
    assert |b| < |a| ==> (a + x)[|b|] == a[|b|] && (b + y)[|b|] == y[0];
    assert |a| == |b| ==> (a + x)[|a|] == x[0] && (b + y)[|a|] == y[0];
  }

  // ── What a text does ─────────────────────────────────────────────────────────

  ghost predicate LastGives(lines: seq<string>, key: string, value: string) {
    value != "" && exists k :: 0 <= k < |lines| && Assigns(lines[k], key, value)
                               && forall j, other :: k < j < |lines| && other != "" ==> !Assigns(lines[j], key, other)
  }

  ghost predicate NothingGives(lines: seq<string>, key: string) {
    forall k, value :: 0 <= k < |lines| && value != "" ==> !Assigns(lines[k], key, value)
  }

  lemma {:induction false} LastValueIsLast(lines: seq<string>, key: string)
    ensures LastValue(lines, key).Some? ==> LastGives(lines, key, LastValue(lines, key).value)
    ensures LastValue(lines, key).None? <==> NothingGives(lines, key)
  {
    hide ParseLine, Assigns;
    if lines != [] {
      var last, front := lines[|lines| - 1], lines[..|lines| - 1];
      LastValueIsLast(front, key);
      forall value ensures ParseLine(last) == Pair(key, value) <==> Assigns(last, key, value) { LineIsReadExactly(last, key, value); }
      assert forall k :: 0 <= k < |front| ==> front[k] == lines[k];
      if LastValue(lines, key).Some? && !(ParseLine(last).Pair? && ParseLine(last).key == key && ParseLine(last).value != "") {
        var k :| 0 <= k < |front| && Assigns(front[k], key, LastValue(lines, key).value)
                 && forall j, other :: k < j < |front| && other != "" ==> !Assigns(front[j], key, other);
        forall j, other | k < j < |lines| && other != "" ensures !Assigns(lines[j], key, other) {
          if j < |front| { assert front[j] == lines[j]; }
        }
        assert lines[k] == front[k];
      }
      if LastValue(lines, key).Some? && ParseLine(last).Pair? && ParseLine(last).key == key && ParseLine(last).value != "" {
        assert Assigns(lines[|lines| - 1], key, ParseLine(last).value);
      }
    }
  }

  /**
   The whole text: it runs to its end exactly when no line stops it, and then each variable has the last value some line assigns
   to it, and its own where none does.
   */
  lemma TextIsExact(p: Passed, lines: seq<string>, key: string)
    ensures var (after, ok) := StepLines(p, lines);
      && (ok <==> forall k :: 0 <= k < |lines| ==> !Stops(lines[k]))
      && (ok && NothingGives(lines, key) ==> ValueOf(after.variables, key) == ValueOf(p.variables, key))
      && (ok && !NothingGives(lines, key) ==> exists value :: LastGives(lines, key, value) && ValueOf(after.variables, key) == Some(value))
  {
    hide Stops, Throws, LastGives, NothingGives, LastValue;
    PassthroughIsExact(p, lines, key);
    LastValueIsLast(lines, key);
    forall k | 0 <= k < |lines| ensures Stops(lines[k]) <==> Throws(lines[k]) { StopsIsThrows(lines[k]); }
  }

  // ── Printed assignments ──────────────────────────────────────────────────────

  datatype Assignment = Assignment(pad: Padding, name: string, value: string)

  predicate IsAssignment(a: Assignment) {
    IsPadding(a.pad) && IsVariableName(a.name) && IsTrimmed(a.value) && '\n' !in Print(a.pad, a.name, a.value)
  }

  function PrintAll(assignments: seq<Assignment>): (lines: seq<string>)
    ensures |lines| == |assignments|
    ensures forall k :: 0 <= k < |lines| ==> lines[k] == Print(assignments[k].pad, assignments[k].name, assignments[k].value)
  {
    seq(|assignments|, k requires 0 <= k < |assignments| => Print(assignments[k].pad, assignments[k].name, assignments[k].value))
  }

  /** The value of the last assignment to the name that is not empty. */
  function LastAssigned(assignments: seq<Assignment>, name: string): Option<string> {
    if assignments == [] then None
    else
      var last := assignments[|assignments| - 1];
      if last.name == name && last.value != "" then Some(last.value) else LastAssigned(assignments[..|assignments| - 1], name)
  }

  /** An operator's assignments, one to a line: every variable ends with the last value assigned to it. */
  lemma PrintedAssignmentsAreSet(p: Passed, assignments: seq<Assignment>, name: string)
    requires assignments != [] && forall k :: 0 <= k < |assignments| ==> IsAssignment(assignments[k])
    ensures var text := Join(PrintAll(assignments), "\n");
      var (after, ok) := StepLines(p, Split(text, '\n'));
      && (ok <==> forall k :: 0 <= k < |assignments| ==>
            !SelectsIdentity(assignments[k].name) && !(assignments[k].value != "" && IsSecretShaped(assignments[k].name) && Multiline(assignments[k].value)))
      && (ok ==> ValueOf(after.variables, name) == (if LastAssigned(assignments, name).Some? then LastAssigned(assignments, name) else ValueOf(p.variables, name)))
  {
    hide IsVariableName, IsTrimmed, IsPadding, Print, StepLines, LastValue, LastAssigned, SelectsIdentity, IsSecretShaped, Multiline, ParseLine;
    var lines := PrintAll(assignments);
    SplitJoin(lines, '\n');
    PassthroughIsExact(p, lines, name);
    LastAssignedIsLastValue(assignments, name);
    forall k | 0 <= k < |assignments| ensures ParseLine(lines[k]) == Pair(assignments[k].name, assignments[k].value) {
      AssignmentIsParsed(assignments[k].pad, assignments[k].name, assignments[k].value);
    }
  }

  lemma {:induction false} LastAssignedIsLastValue(assignments: seq<Assignment>, name: string)
    requires forall k :: 0 <= k < |assignments| ==> IsAssignment(assignments[k])
    ensures LastValue(PrintAll(assignments), name) == LastAssigned(assignments, name)
  {
    hide IsVariableName, IsTrimmed, IsPadding, Print, ParseLine;
    if assignments != [] {
      var n := |assignments| - 1;
      LastAssignedIsLastValue(assignments[..n], name);
      assert PrintAll(assignments)[..n] == PrintAll(assignments[..n]);
      AssignmentIsParsed(assignments[n].pad, assignments[n].name, assignments[n].value);
    }
  }
}
