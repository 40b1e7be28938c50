/** The file-level loop of the var-file extractor, and the registration of what it returns. */
module VarFileExtraction {
  import opened JsText
  import opened VarFileScanner

  datatype Json = JString(s: string) | JArray(items: seq<Json>) | JObject(members: seq<Member>) | JOther

  datatype Member = Member(name: string, value: Json)

  /** Every string value, members and elements in order; member names are not values. */
  function JsonStrings(node: Json): seq<string> {
    match node
    case JString(s) => [s]
    case JArray(items) => JsonItems(items)
    case JObject(members) => JsonMembers(members)
    case JOther => []
  }

  function JsonItems(items: seq<Json>): seq<string> {
    if items == [] then [] else JsonStrings(items[0]) + JsonItems(items[1..])
  }

  function JsonMembers(members: seq<Member>): seq<string> {
    if members == [] then [] else JsonStrings(members[0].value) + JsonMembers(members[1..])
  }

  /** One level of the recursion, and the lists with nothing in them. */
  lemma JsonSteps(node: Json)
    ensures JsonStrings(node) == match node
                                 case JString(s) => [s]
                                 case JArray(items) => JsonItems(items)
                                 case JObject(members) => JsonMembers(members)
                                 case JOther => []
    ensures JsonItems([]) == [] && JsonMembers([]) == []
  {
  }

  lemma ItemsStep(items: seq<Json>, k: nat)
    requires k < |items|
    ensures JsonItems(items[k..]) == JsonStrings(items[k]) + JsonItems(items[k + 1..])
  {
    hide JsonStrings;
    assert items[k..][1..] == items[k + 1..];
  }

  lemma MembersStep(members: seq<Member>, k: nat)
    requires k < |members|
    ensures JsonMembers(members[k..]) == JsonStrings(members[k].value) + JsonMembers(members[k + 1..])
  {
    hide JsonStrings;
    assert members[k..][1..] == members[k + 1..];
  }

  method CollectJsonStrings(node: Json, out: seq<string>) returns (r: seq<string>)
    ensures r == out + JsonStrings(node)
    decreases node
  {
    hide JsonStrings, JsonItems, JsonMembers;
    JsonSteps(node);
    r := out;
    match node {
      case JString(s) =>
        r := r + [s];
      case JArray(items) =>
        assert items[0..] == items && items[|items|..] == [];
        for k := 0 to |items|
          invariant r + JsonItems(items[k..]) == out + JsonItems(items)
        {
          ItemsStep(items, k);
          r := CollectJsonStrings(items[k], r);
        }
      case JObject(members) =>
        assert members[0..] == members && members[|members|..] == [];
        for k := 0 to |members|
          invariant r + JsonMembers(members[k..]) == out + JsonMembers(members)
        {
          MembersStep(members, k);
          r := CollectJsonStrings(members[k].value, r);
        }
      case JOther =>
    }
  }

  predicate Terminates(h: Heredoc, bodyLine: string) {
    if h.indented then Trim(bodyLine) == h.terminator else bodyLine == h.terminator
  }

  // ── The scan of a whole file as a one-pass automaton over its lines ──────────

  /** What has been emitted so far, and the heredoc now open with the body lines read for it. */
  datatype State = State(out: seq<string>, open: Option<Heredoc>, body: seq<string>)

  const INITIAL := State([], None, [])

  function Emit(body: seq<string>): seq<string> {
    if body == [] then [] else [Join(body, "\n")]
  }

  /** Consume one line (carriage return already stripped). */
  function Step(st: State, line: string): State {
    match st.open
    case None =>
      var r := ScanHclLineSpec(line);
      State(st.out + r.values, r.heredoc, [])
    case Some(h) =>
      if Terminates(h, line) then State(st.out + Emit(st.body), None, [])
      else st.(body := st.body + [line])
  }

  function Run(st: State, lines: seq<string>): State
    decreases |lines|
  {
    if lines == [] then st else Run(Step(st, StripCr(lines[0])), lines[1..])
  }

  /** At end of file an unterminated heredoc still yields what was read of it. */
  function Finish(st: State): seq<string> {
    st.out + (if st.open.Some? then Emit(st.body) else [])
  }

  function ExtractLines(lines: seq<string>): seq<string> { Finish(Run(INITIAL, lines)) }

  predicate Closed(lines: seq<string>) { Run(INITIAL, lines).open.None? }

  lemma RunOne(st: State, line: string)
    ensures Run(st, [line]) == Step(st, StripCr(line))
  {
    hide Step, StripCr;
    var next := Step(st, StripCr(line));
    assert Run(next, [line][1..]) == next;
  }

  lemma {:induction false} RunAppend(st: State, a: seq<string>, b: seq<string>)
    ensures Run(st, a + b) == Run(Run(st, a), b)
    decreases |a|
  {
    if a == [] {
      assert a + b == b;
    } else {
      assert (a + b)[1..] == a[1..] + b;
      RunAppend(Step(st, StripCr(a[0])), a[1..], b);
    }
  }

  lemma StepShift(out: seq<string>, st: State, line: string)
    ensures Step(st.(out := out + st.out), line) == Step(st, line).(out := out + Step(st, line).out)
  {
    hide ScanHclLineSpec, Terminates, Emit;
    match st.open
    case None => assert out + st.out + ScanHclLineSpec(line).values == out + (st.out + ScanHclLineSpec(line).values);
    case Some(h) => assert out + st.out + Emit(st.body) == out + (st.out + Emit(st.body));
  }

  /** The output already emitted never influences what is emitted later. */
  lemma {:induction false} RunShift(out: seq<string>, st: State, lines: seq<string>)
    ensures Run(st.(out := out + st.out), lines) == Run(st, lines).(out := out + Run(st, lines).out)
    decreases |lines|
  {
    hide Step, StripCr;
    if lines != [] {
      var line := StripCr(lines[0]);
      StepShift(out, st, line);
      RunShift(out, Step(st, line), lines[1..]);
    }
  }

  /**
   A file that leaves no heredoc open is extracted independently of what follows it. One that leaves a
   heredoc open would swallow lines of what follows.
   */
  lemma ExtractIsAHomomorphism(a: seq<string>, b: seq<string>)
    requires Closed(a)
    ensures ExtractLines(a + b) == ExtractLines(a) + ExtractLines(b)
    ensures Closed(a + b) <==> Closed(b)
  {
    hide Step, StripCr, Run;
    RunAppend(INITIAL, a, b);
    var mid := Run(INITIAL, a);
    ClosedBodyEmpty(INITIAL, a);
    assert mid == INITIAL.(out := mid.out + INITIAL.out);
    RunShift(mid.out, INITIAL, b);
  }

  lemma {:induction false} ClosedBodyEmpty(st: State, lines: seq<string>)
    requires st.open.None? ==> st.body == []
    ensures Run(st, lines).open.None? ==> Run(st, lines).body == []
    decreases |lines|
  {
    if lines != [] { ClosedBodyEmpty(Step(st, StripCr(lines[0])), lines[1..]); }
  }

  lemma PlainLineStays(a: seq<string>, line: string, b: seq<string>)
    requires Closed(a) && ScanHclLineSpec(StripCr(line)).heredoc.None?
    ensures ExtractLines(a + [line] + b) ==
            ExtractLines(a) + ScanHclLineSpec(StripCr(line)).values + ExtractLines(b)
  {
    hide ScanHclLineSpec, StripCr, Closed;
    var st := Step(INITIAL, StripCr(line));
    assert Run(st, [line][1..]) == st;
    assert Run(INITIAL, [line]) == st;
    assert ExtractLines([line]) == ScanHclLineSpec(StripCr(line)).values;
    assert Closed([line]) by { OneLineCloses(line); }
    ExtractIsAHomomorphism(a, [line]);
    ExtractIsAHomomorphism(a + [line], b);
  }

  /** The line contributes its own literals and changes nothing before or after it, wherever it stands. */
  ghost predicate StaysOnItsLine(line: string) {
    forall a: seq<string>, b: seq<string> :: Closed(a) ==>
      ExtractLines(a + [line] + b) == ExtractLines(a) + ScanHclLineSpec(StripCr(line)).values + ExtractLines(b)
  }

  /** A line keeps to itself, whatever its quotes, if and only if it opens no heredoc. */
  lemma StrayQuoteStaysOnItsLine(line: string)
    ensures StaysOnItsLine(line) <==> ScanHclLineSpec(StripCr(line)).heredoc.None?
  {
    hide ScanHclLineSpec, StripCr, ExtractLines, Closed;
    if ScanHclLineSpec(StripCr(line)).heredoc.None? {
      forall a: seq<string>, b: seq<string> | Closed(a)
        ensures ExtractLines(a + [line] + b) == ExtractLines(a) + ScanHclLineSpec(StripCr(line)).values + ExtractLines(b)
      {
        PlainLineStays(a, line, b);
      }
    } else {
      OpenerSwallows(line, ScanHclLineSpec(StripCr(line)).heredoc.value);
      var a: seq<string> := [];
      assert a + [line] + [""] == [line, ""];
      EmptyLineExtractsNothing();
      assert ExtractLines(a) == [] && Closed(a) by { NoLines(); }
    }
  }

  /** The lines after an opener belong to its heredoc: even an empty one becomes a value. */
  lemma OpenerSwallows(line: string, h: Heredoc)
    requires ScanHclLineSpec(StripCr(line)).heredoc == Some(h)
    ensures ExtractLines([line, ""]) == ScanHclLineSpec(StripCr(line)).values + [""]
  {
    hide MatchHeredocOpen, ScanLine;
    HeredocOpenIsTheRegexMatch(StripCr(line), h);
    assert IsName(h.terminator);
    var st := Step(INITIAL, StripCr(line));
    assert [line, ""] == [line] + [""];
    RunAppend(INITIAL, [line], [""]);
    RunOne(INITIAL, line);
    RunOne(st, "");
    assert !Terminates(h, "");
    assert INITIAL.out + ScanHclLineSpec(StripCr(line)).values == ScanHclLineSpec(StripCr(line)).values;
    assert st.body + [""] == [""];
  }

  lemma NoLines()
    ensures ExtractLines([]) == [] && Closed([])
  {
  }

  lemma EmptyLineExtractsNothing()
    ensures ExtractLines([""]) == []
  {
    hide MatchHeredocOpen;
    EmptyScan();
    EmptyLineOpensNothing();
    RunOne(INITIAL, "");
  }

  lemma OneLineCloses(line: string)
    requires ScanHclLineSpec(StripCr(line)).heredoc.None?
    ensures Closed([line])
  {
    hide ScanHclLineSpec, StripCr;
    var st := Step(INITIAL, StripCr(line));
    assert Run(st, [line][1..]) == st;
  }

  /** A heredoc consumes its opener, every body line, and its terminator, and nothing else. */
  lemma HeredocBlock(open: string, body: seq<string>, close: string, h: Heredoc)
    requires ScanHclLineSpec(StripCr(open)).heredoc == Some(h)
    requires forall k :: 0 <= k < |body| ==> !Terminates(h, StripCr(body[k]))
    requires Terminates(h, StripCr(close))
    ensures Closed([open] + body + [close])
    ensures ExtractLines([open] + body + [close]) ==
            ScanHclLineSpec(StripCr(open)).values + if body == [] then [] else [Join(Stripped(body), "\n")]
  {
    hide Run, ScanHclLineSpec, StripCr, Terminates, Closed, ExtractLines, Join;
    HeredocConsumed(open, body, close, h);
  }

  lemma HeredocConsumed(open: string, body: seq<string>, close: string, h: Heredoc)
    requires ScanHclLineSpec(StripCr(open)).heredoc == Some(h)
    requires forall k :: 0 <= k < |body| ==> !Terminates(h, StripCr(body[k]))
    requires Terminates(h, StripCr(close))
    ensures Closed([open] + body + [close])
    ensures ExtractLines([open] + body + [close]) == ScanHclLineSpec(StripCr(open)).values + Emit(Stripped(body))
  {
    hide Run, Step, ScanHclLineSpec, StripCr, Terminates, Stripped, Emit;
    var values, lines := ScanHclLineSpec(StripCr(open)).values, [open] + body + [close];
    RunAppend(INITIAL, [open] + body, [close]);
    RunAppend(INITIAL, [open], body);
    RunOne(INITIAL, open);
    StepOutside([], StripCr(open));
    assert [] + values == values;
    RunBody(State(values, Some(h), []), body, h);
    assert [] + Stripped(body) == Stripped(body);
    RunOne(State(values, Some(h), Stripped(body)), close);
    StepInside(values, h, Stripped(body), StripCr(close));
    assert Run(INITIAL, lines) == State(values + Emit(Stripped(body)), None, []);
  }

  function Stripped(lines: seq<string>): seq<string> {
    if lines == [] then [] else [StripCr(lines[0])] + Stripped(lines[1..])
  }

  lemma {:induction false} RunBody(st: State, body: seq<string>, h: Heredoc)
    requires st.open == Some(h)
    requires forall k :: 0 <= k < |body| ==> !Terminates(h, StripCr(body[k]))
    ensures Run(st, body) == st.(body := st.body + Stripped(body))
    decreases |body|
  {
    hide Step, StripCr, Terminates;
    if body == [] {
      assert st.body + Stripped(body) == st.body;
    } else {
      var line, rest := StripCr(body[0]), Stripped(body[1..]);
      StepInside(st.out, h, st.body, line);
      assert st == State(st.out, Some(h), st.body);
      RunBody(st.(body := st.body + [line]), body[1..], h);
      assert Stripped(body) == [line] + rest;
      assert st.body + ([line] + rest) == st.body + [line] + rest;
    }
  }

  // ── The loops themselves ─────────────────────────────────────────────────────

  /** The two nested loops that share one line index refine the one-pass automaton. */
  method ExtractHcl(lines: seq<string>) returns (out: seq<string>)
    ensures out == ExtractLines(lines)
  {
    hide ScanHclLineSpec, StripCr, Trim, Join, Step;
    out := [];
    var i := 0;
    while i < |lines|
      invariant 0 <= i <= |lines| + 1
      invariant i <= |lines| ==> Run(INITIAL, lines) == Run(State(out, None, []), lines[i..])
      invariant i > |lines| ==> ExtractLines(lines) == out
    {
      var r := ScanHclLine(StripCr(lines[i]));
      StepOutside(out, StripCr(lines[i]));
      RunNext(State(out, None, []), lines, i);
      out := out + r.values;
      if r.heredoc.Some? {
        var h := r.heredoc.value;
        var body: seq<string> := [];
        var closed := false;
        i := i + 1;
        while i < |lines|
          invariant i <= |lines| && !closed
          invariant Run(INITIAL, lines) == Run(State(out, Some(h), body), lines[i..])
        {
          var bodyLine := StripCr(lines[i]);
          StepInside(out, h, body, bodyLine);
          RunNext(State(out, Some(h), body), lines, i);
          if if h.indented then Trim(bodyLine) == h.terminator else bodyLine == h.terminator {
            closed := true;
            break;
          }
          body := body + [bodyLine];
          i := i + 1;
        }
        assert out + Emit(body) == if |body| > 0 then out + [Join(body, "\n")] else out;
        if |body| > 0 { out := out + [Join(body, "\n")]; }
        i := i + 1;
      } else {
        i := i + 1;
      }
    }
  }

  lemma RunNext(st: State, lines: seq<string>, i: nat)
    requires i < |lines|
    ensures Run(st, lines[i..]) == Run(Step(st, StripCr(lines[i])), lines[i + 1..])
  {
    hide Step, StripCr;
    assert lines[i..][0] == lines[i] && lines[i..][1..] == lines[i + 1..];
  }

  lemma StepOutside(out: seq<string>, line: string)
    ensures Step(State(out, None, []), line) == State(out + ScanHclLineSpec(line).values, ScanHclLineSpec(line).heredoc, [])
  {
    hide ScanHclLineSpec;
  }

  lemma StepInside(out: seq<string>, h: Heredoc, body: seq<string>, line: string)
    ensures Step(State(out, Some(h), body), line) ==
            if Terminates(h, line) then State(out + Emit(body), None, []) else State(out, Some(h), body + [line])
  {
    hide Terminates, Emit;
  }

  function ExtractSpec(parse: string -> Option<Json>, content: string): seq<string> {
    var trimmed := Trim(content);
    if ("{" <= trimmed || "[" <= trimmed) && parse(trimmed).Some? then JsonStrings(parse(trimmed).value)
    else ExtractLines(Split(content, '\n'))
  }

  /** `parse` stands for `JSON.parse`: `None` when it throws. */
  method ExtractVarFileScalarStrings(parse: string -> Option<Json>, content: string) returns (out: seq<string>)
    ensures out == ExtractSpec(parse, content)
  {
    out := [];
    var trimmed := Trim(content);
    if StartsWith(trimmed, "{") || StartsWith(trimmed, "[") {
      var parsed := parse(trimmed);
      if parsed.Some? {
        out := CollectJsonStrings(parsed.value, out);
        return;
      }
    }
    out := ExtractHcl(Split(content, '\n'));
  }

  // ── Registration ─────────────────────────────────────────────────────────────

  /** The secrets one value asks to be registered, in order. */
  function LineSecrets(lines: seq<string>): seq<string> {
    if lines == [] then []
    else (if |Trim(lines[0])| >= MIN_MASKABLE_VALUE_LENGTH then [Trim(lines[0])] else []) + LineSecrets(lines[1..])
  }

  function Secrets(values: seq<string>): seq<string> {
    if values == [] then [] else LineSecrets(SplitLines(values[0])) + Secrets(values[1..])
  }

  /** What is registered before the first secret the masker refuses. */
  function Accepted(secrets: seq<string>): seq<string> {
    if secrets == [] || Multiline(secrets[0]) then [] else [secrets[0]] + Accepted(secrets[1..])
  }

  /** The state of the agent's secret masker. */
  class Masker {
    var registered: seq<string>
    var warnings: nat

    constructor ()
      ensures registered == [] && warnings == 0
    {
      registered := [];
      warnings := 0;
    }

    method SetSecret(secret: string) returns (ok: bool)
      modifies this`registered
      ensures ok == !Multiline(secret)
      ensures registered == old(registered) + if ok then [secret] else []
    {
      if '\r' in secret || '\n' in secret { return false; }
      registered := registered + [secret];
      return true;
    }

    /** The inner loop: one value's lines. Stops where the masker throws. */
    method RegisterLines(lines: seq<string>) returns (ok: bool)
      modifies this`registered
      ensures registered == old(registered) + Accepted(LineSecrets(lines))
      ensures ok <==> Accepted(LineSecrets(lines)) == LineSecrets(lines)
    {
      hide Trim, Multiline, Accepted;
      AcceptedStops([], []);
      ghost var done: seq<string> := [];
      for k := 0 to |lines|
        invariant LineSecrets(lines) == done + LineSecrets(lines[k..])
        invariant Accepted(done) == done && registered == old(registered) + done
      {
        assert lines[k..][1..] == lines[k + 1..];
        var trimmed := Trim(lines[k]);
        if |trimmed| >= MIN_MASKABLE_VALUE_LENGTH {
          AcceptedOne(trimmed);
          AcceptedStep(done, [trimmed], LineSecrets(lines[k + 1..]));
          ok := SetSecret(trimmed);
          if !ok { return; }
          done := done + [trimmed];
        }
      }
      assert LineSecrets(lines) == done;
      ok := true;
    }

    /** `content` is `None` when the file cannot be read; `ok` is false when an error escapes. */
    method MaskSecureVarFileValues(parse: string -> Option<Json>, content: Option<string>) returns (ok: bool)
      modifies this
      ensures content.None? ==> ok && registered == old(registered) && warnings == old(warnings) + 1
      ensures content.Some? ==>
        var secrets := Secrets(ExtractSpec(parse, content.value));
        && registered == old(registered) + Accepted(secrets)
        && (ok <==> Accepted(secrets) == secrets)
        && warnings == old(warnings) + if ExtractSpec(parse, content.value) == [] then 1 else 0
    {
      hide ExtractSpec, LineSecrets, SplitLines, Accepted, Secrets;
      SecretsStep([], 0);
      if content.None? {
        warnings := warnings + 1;
        return true;
      }
      var values := ExtractVarFileScalarStrings(parse, content.value);
      AcceptedStops([], []);
      assert values[0..] == values;
      if |values| == 0 {
        warnings := warnings + 1;
        return true;
      }
      ghost var done: seq<string> := [];
      for v := 0 to |values|
        invariant Secrets(values) == done + Secrets(values[v..])
        invariant Accepted(done) == done && registered == old(registered) + done
        invariant warnings == old(warnings)
      {
        SecretsStep(values, v);
        var secrets := LineSecrets(SplitLines(values[v]));
        AcceptedStep(done, secrets, Secrets(values[v + 1..]));
        ok := RegisterLines(SplitLines(values[v]));
        if !ok { return; }
        done := done + secrets;
      }
      SecretsStep(values, |values|);
      assert Secrets(values) == done;
      ok := true;
    }
  }

  lemma SecretsStep(values: seq<string>, v: nat)
    requires v <= |values|
    ensures Secrets([]) == [] && values[|values|..] == []
    ensures v < |values| ==> Secrets(values[v..]) == LineSecrets(SplitLines(values[v])) + Secrets(values[v + 1..])
  {
    hide LineSecrets, SplitLines;
    if v < |values| { assert values[v..][1..] == values[v + 1..]; }
  }

  lemma AcceptedOne(secret: string)
    ensures Accepted([secret]) == if Multiline(secret) then [] else [secret]
  {
    hide Multiline;
    assert Accepted([secret][1..]) == [];
  }

  lemma AcceptedStep(done: seq<string>, secrets: seq<string>, rest: seq<string>)
    requires Accepted(done) == done
    ensures done + (secrets + rest) == done + secrets + rest
    ensures Accepted(secrets) == secrets ==> Accepted(done + secrets) == done + secrets
    ensures Accepted(secrets) != secrets ==>
      && Accepted(done + secrets + rest) == done + Accepted(secrets)
      && Accepted(done + secrets + rest) != done + secrets + rest
  {
    hide Accepted;
    AcceptedAppend(done, secrets);
    AcceptedStops(secrets, rest);
    AcceptedAppend(done, secrets + rest);
    assert done + (secrets + rest) == done + secrets + rest;
    assert (done + Accepted(secrets))[|done|..] == Accepted(secrets);
    assert (done + (secrets + rest))[|done|..] == secrets + rest;
  }

  lemma {:induction false} AcceptedStops(a: seq<string>, b: seq<string>)
    ensures Accepted(a) != a ==> Accepted(a + b) == Accepted(a) && Accepted(a) != a + b
    ensures Accepted([]) == []
  {
    hide Multiline;
    if a != [] && !Multiline(a[0]) {
      assert (a + b)[1..] == a[1..] + b;
      AcceptedStops(a[1..], b);
    }
  }

  lemma {:induction false} AcceptedAppend(a: seq<string>, b: seq<string>)
    requires Accepted(a) == a
    ensures Accepted(a + b) == a + Accepted(b)
  {
    hide Multiline, Accepted;
    if a == [] {
      assert a + b == b;
    } else {
      assert (a + b)[0] == a[0] && (a + b)[1..] == a[1..] + b;
      AcceptedStepOne(a);
      AcceptedStepOne(a + b);
      assert a[1..] == Accepted(a[1..]);
      AcceptedAppend(a[1..], b);
      assert [a[0]] + (a[1..] + Accepted(b)) == a + Accepted(b);
    }
  }

  lemma AcceptedStepOne(secrets: seq<string>)
    requires secrets != []
    ensures Accepted(secrets) == if Multiline(secrets[0]) then [] else [secrets[0]] + Accepted(secrets[1..])
  {
    hide Multiline;
  }
}
