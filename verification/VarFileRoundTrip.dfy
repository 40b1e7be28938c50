/**
 A printer for var files, and the proof that the extractor reads back what it prints: the escaping
 of one literal, one line, a heredoc block, and the whole file with either line ending.
 */
module VarFileRoundTrip {
  import opened JsText
  import opened VarFileScanner
  import opened VarFileExtraction

  // ── Literals: the natural escaper, and what the five replaces make of it ─────

  /** The escape sequence of one character. */
  function EscapeChar(c: char): string {
    if c == '\\' then "\\\\"
    else if c == '"' then "\\\""
    else if c == '\n' then "\\n"
    else if c == '\r' then "\\r"
    else if c == '\t' then "\\t"
    else [c]
  }

  function Escape(s: string): string {
    if s == "" then "" else EscapeChar(s[0]) + Escape(s[1..])
  }

  /** The control character that `\c` denotes after a backslash, for the three letters that denote one. */
  function Control(c: char): Option<char> {
    if c == 'n' then Some('\n') else if c == 'r' then Some('\r') else if c == 't' then Some('\t') else None
  }

  /** The value as the extractor reads it back: n, r or t directly after a backslash becomes a control. */
  function Mangle(s: string): string {
    if |s| < 2 then s
    else if s[0] == '\\' && Control(s[1]).Some? then [s[0], Control(s[1]).value] + Mangle(s[2..])
    else [s[0]] + Mangle(s[1..])
  }

  predicate Faithful(s: string) {
    forall k :: 0 <= k < |s| - 1 && s[k] == '\\' ==> Control(s[k + 1]).None?
  }

  /** The escape of `c` after the first `k` of the five replaces. */
  function StageChar(k: nat, c: char): string {
    if (k >= 1 && c == '\n') || (k >= 2 && c == '\r') || (k >= 3 && c == '\t') || (k >= 4 && c == '"') then [c]
    else EscapeChar(c)
  }

  /** Whether `\c` has been taken for a control character by the first `k` replaces. */
  predicate Taken(k: nat, c: char) {
    (k >= 1 && c == 'n') || (k >= 2 && c == 'r') || (k >= 3 && c == 't')
  }

  /** The escaped text of `s` after the first `k` replaces. */
  function Stage(k: nat, s: string): string {
    if s == "" then ""
    else if s[0] == '\\' && |s| > 1 && Taken(k, s[1]) then ['\\', Control(s[1]).value] + Stage(k, s[2..])
    else StageChar(k, s[0]) + Stage(k, s[1..])
  }

  /** The letter, and what replaces the pair, in the k-th replace. */
  function Letter(k: nat): char { if k == 1 then 'n' else if k == 2 then 'r' else if k == 3 then 't' else '"' }

  function Denoted(k: nat): char { if k == 1 then '\n' else if k == 2 then '\r' else if k == 3 then '\t' else '"' }

  lemma {:induction false} StageZero(s: string)
    ensures Stage(0, s) == Escape(s)
  {
    if s != "" { StageZero(s[1..]); }
  }

  /** What the text of a stage starts with decides whether a preceding backslash pairs with it. */
  lemma StageHead(k: nat, s: string)
    requires s != ""
    ensures Stage(k, s) != ""
    ensures 1 <= k <= 3 ==> (Stage(k - 1, s)[0] == Letter(k) <==> s[0] == Letter(k))
    ensures k == 4 ==> Stage(3, s)[0] != '"'
  {
    hide Stage, StageChar, EscapeChar, Letter;
    StageFirst(k, s);
    if 1 <= k <= 4 {
      StageFirst(k - 1, s);
      StageCharHead(k, s[0]);
    }
  }

  lemma StageCharHead(k: nat, c: char)
    requires 1 <= k <= 4
    ensures StageChar(k - 1, c) != "" && (k <= 3 ==> (StageChar(k - 1, c)[0] == Letter(k) <==> c == Letter(k)))
    ensures StageChar(3, c) != "" && StageChar(3, c)[0] != '"'
  {
  }

  /** The first character of a stage: the value's own, or a backslash where the value's is still escaped. */
  lemma StageFirst(k: nat, s: string)
    requires s != ""
    ensures Stage(k, s) != "" && (Stage(k, s)[0] == StageChar(k, s[0])[0])
  {
  }

  lemma ReplaceStep(p: char, rest: string, a: char, b: char, c: char)
    ensures ReplacePair("", a, b, c) == ""
    ensures !(p == a && rest != "" && rest[0] == b) ==>
            ReplacePair([p] + rest, a, b, c) == [p] + ReplacePair(rest, a, b, c)
    ensures p == a && rest != "" && rest[0] == b ==>
            ReplacePair([p] + rest, a, b, c) == [c] + ReplacePair(rest[1..], a, b, c)
  {
    var all := [p] + rest;
    assert all[1..] == rest;
    if rest == "" {
      assert ReplacePair(rest, a, b, c) == rest;
    } else {
      assert all[2..] == rest[1..];
    }
  }

  /** A text that begins with two given characters, of which the second does not start a pair. */
  lemma ReplaceTwo(p: char, q: char, rest: string, a: char, b: char, c: char)
    requires !(q == a && rest != "" && rest[0] == b)
    ensures ReplacePair([p, q] + rest, a, b, c) ==
            (if p == a && q == b then [c] else [p, q]) + ReplacePair(rest, a, b, c)
  {
    hide ReplacePair;
    assert [p, q] + rest == [p] + ([q] + rest);
    assert ([q] + rest)[1..] == rest;
    assert [p] + ([q] + ReplacePair(rest, a, b, c)) == [p, q] + ReplacePair(rest, a, b, c);
    ReplaceStep(p, [q] + rest, a, b, c);
    ReplaceStep(q, rest, a, b, c);
  }

  /** Two characters of which the second, with the one after it, is the pair. */
  lemma ReplaceSecond(p: char, rest: string, a: char, b: char, c: char)
    requires rest != "" && rest[0] == b && !(p == a && a == b)
    ensures ReplacePair([p, a] + rest, a, b, c) == [p, c] + ReplacePair(rest[1..], a, b, c)
  {
    hide ReplacePair;
    assert [p, a] + rest == [p] + ([a] + rest);
    assert [p] + ([c] + ReplacePair(rest[1..], a, b, c)) == [p, c] + ReplacePair(rest[1..], a, b, c);
    ReplaceStep(p, [a] + rest, a, b, c);
    ReplaceStep(a, rest, a, b, c);
  }

  /** Each of the first four replaces takes one stage to the next. */
  lemma {:induction false} StageStep(k: nat, s: string)
    requires 1 <= k <= 4
    ensures ReplacePair(Stage(k - 1, s), '\\', Letter(k), Denoted(k)) == Stage(k, s)
    decreases |s|
  {
    hide ReplacePair;
    var b, c := Letter(k), Denoted(k);
    if s == "" {
      ReplaceStep('x', "", '\\', b, c);
    } else if s[0] == '\\' && |s| > 1 && Taken(k - 1, s[1]) {
      ReplaceTwo('\\', Control(s[1]).value, Stage(k - 1, s[2..]), '\\', b, c);
      StageStep(k, s[2..]);
    } else if s[0] == '\\' {
      StageStepBackslash(k, s);
    } else {
      StageStep(k, s[1..]);
      assert Stage(k - 1, s) == StageChar(k - 1, s[0]) + Stage(k - 1, s[1..]) && Stage(k, s) == StageChar(k, s[0]) + Stage(k, s[1..]);
      hide Stage;
      StageOneChar(k, s[0], Stage(k - 1, s[1..]));
    }
  }

  /** The k-th replace on the escape of a character other than the backslash, and what follows it. */
  lemma StageOneChar(k: nat, c: char, rest: string)
    requires 1 <= k <= 4 && c != '\\'
    ensures ReplacePair(StageChar(k - 1, c) + rest, '\\', Letter(k), Denoted(k))
            == StageChar(k, c) + ReplacePair(rest, '\\', Letter(k), Denoted(k))
  {
    hide ReplacePair;
    var text := StageChar(k - 1, c);
    if |text| == 1 {
      assert text == [text[0]];
      ReplaceStep(text[0], rest, '\\', Letter(k), Denoted(k));
    } else {
      assert text == ['\\', text[1]];
      ReplaceTwo('\\', text[1], rest, '\\', Letter(k), Denoted(k));
    }
  }

  lemma {:induction false} StageStepBackslash(k: nat, s: string)
    requires 1 <= k <= 4
    requires s != "" && s[0] == '\\' && (|s| > 1 ==> !Taken(k - 1, s[1]))
    ensures ReplacePair(Stage(k - 1, s), '\\', Letter(k), Denoted(k)) == Stage(k, s)
    decreases |s|, 0
  {
    hide ReplacePair;
    var b, c := Letter(k), Denoted(k);
    var rest := Stage(k - 1, s[1..]);
    assert Stage(k - 1, s) == ['\\', '\\'] + rest;
    if |s| == 1 {
      ReplaceTwo('\\', '\\', rest, '\\', b, c);
      StageStep(k, s[1..]);
    } else {
      StageHead(k, s[1..]);
      if k <= 3 && s[1] == b {
        assert s[1..][1..] == s[2..];
        assert rest == [b] + Stage(k - 1, s[2..]);
        ReplaceSecond('\\', rest, '\\', b, c);
        StageStep(k, s[2..]);
      } else {
        ReplaceTwo('\\', '\\', rest, '\\', b, c);
        StageStep(k, s[1..]);
      }
    }
  }

  /** The fifth replace turns the last stage into the value as the extractor reads it. */
  lemma {:induction false} LastReplace(s: string)
    ensures ReplacePair(Stage(4, s), '\\', '\\', '\\') == Mangle(s)
    decreases |s|
  {
    hide ReplacePair;
    if s == "" {
      ReplaceStep('x', "", '\\', '\\', '\\');
    } else if s[0] == '\\' && |s| > 1 && Control(s[1]).Some? {
      ReplaceTwo('\\', Control(s[1]).value, Stage(4, s[2..]), '\\', '\\', '\\');
      LastReplace(s[2..]);
    } else {
      var rest := Stage(4, s[1..]);
      LastReplace(s[1..]);
      assert Mangle(s) == [s[0]] + Mangle(s[1..]);
      if s[0] == '\\' {
        assert Stage(4, s) == ['\\'] + (['\\'] + rest);
        ReplaceStep('\\', ['\\'] + rest, '\\', '\\', '\\');
        assert (['\\'] + rest)[1..] == rest;
      } else {
        ReplaceStep(s[0], rest, '\\', '\\', '\\');
      }
    }
  }

  /** What the five replaces make of any escaped value. */
  lemma UnescapeOfEscape(s: string)
    ensures UnescapeHcl(Escape(s)) == Mangle(s)
  {
    hide ReplacePair, Stage, Escape, Mangle;
    StageZero(s);
    StageStep(1, s);
    StageStep(2, s);
    StageStep(3, s);
    StageStep(4, s);
    LastReplace(s);
  }

  lemma {:induction false} MangleIdentity(s: string)
    ensures Mangle(s) == s <==> Faithful(s)
  {
    if |s| >= 2 {
      if s[0] == '\\' && Control(s[1]).Some? {
        assert Mangle(s)[1] != s[1];
      } else {
        MangleIdentity(s[1..]);
        assert Mangle(s)[1..] == Mangle(s[1..]);
        assert Faithful(s[1..]) ==> Faithful(s) by {
          if Faithful(s[1..]) {
            forall k | 0 <= k < |s| - 1 && s[k] == '\\' ensures Control(s[k + 1]).None? {
              if k > 0 { assert s[1..][k - 1] == s[k] && s[1..][k] == s[k + 1]; }
            }
          }
        }
        assert Faithful(s) ==> Faithful(s[1..]) by {
          if Faithful(s) {
            forall k | 0 <= k < |s[1..]| - 1 && s[1..][k] == '\\' ensures Control(s[1..][k + 1]).None? {
              assert s[k + 1] == '\\';
            }
          }
        }
      }
    }
  }

  /** Unescaping inverts the natural escaper on exactly the values where no backslash meets n, r or t. */
  lemma UnescapeInvertsEscape(s: string)
    ensures UnescapeHcl(Escape(s)) == s <==> Faithful(s)
  {
    hide UnescapeHcl, Escape, Mangle, Faithful;
    UnescapeOfEscape(s);
    MangleIdentity(s);
  }

  // ── Scanning what the escaper printed ────────────────────────────────────────

  /** A backslash and an n, escaped and read back: the n has become a line feed. */
  lemma BackslashNIsMisread()
    ensures !Faithful("\\n") && Escape("\\n") == "\\\\n" && UnescapeHcl("\\\\n") == "\\\n"
  {
    var s := "\\n";
    assert s[0] == '\\' && s[1] == 'n' && s[2..] == "" && s[1..] == "n" && "n"[1..] == "";
    assert Escape("n") == "n" && Escape(s) == "\\\\" + "n";
    UnescapeOfEscape(s);
    assert Mangle(s) == ['\\', '\n'] + Mangle("");
  }

  function Quoted(v: string): string { "\"" + Escape(v) + "\"" }

  /** Inside a literal, the escape of one character is read without leaving the literal. */
  lemma ScanEscapedChar(c: char, next: string, current: string)
    ensures ScanText(EscapeChar(c) + next, true, current) == ScanText(next, true, current + EscapeChar(c))
  {
    hide UnescapeHcl;
    var text := EscapeChar(c) + next;
    assert text[..|EscapeChar(c)|] == EscapeChar(c) && text[|EscapeChar(c)|..] == next;
  }

  lemma ScanClosingQuote(rest: string, current: string)
    ensures ScanText("\"" + rest, true, current) ==
            var tail := ScanText(rest, false, "");
            Scan([UnescapeHcl(current)] + tail.values, tail.end)
  {
    hide UnescapeHcl;
    assert ("\"" + rest)[1..] == rest;
  }

  /** An escaped value never closes its literal early: the scan reaches exactly the closing quote. */
  lemma {:induction false} ScanEscaped(v: string, rest: string, current: string)
    ensures ScanText(Escape(v) + ("\"" + rest), true, current) ==
            var tail := ScanText(rest, false, "");
            Scan([UnescapeHcl(current + Escape(v))] + tail.values, tail.end)
    decreases |v|
  {
    hide UnescapeHcl, ScanText, EscapeChar;
    if v == "" {
      assert Escape(v) + ("\"" + rest) == "\"" + rest;
      assert current + Escape(v) == current;
      ScanClosingQuote(rest, current);
    } else {
      var e, more := EscapeChar(v[0]), Escape(v[1..]);
      assert Escape(v) + ("\"" + rest) == e + (more + ("\"" + rest));
      assert current + Escape(v) == current + e + more;
      ScanEscapedChar(v[0], more + ("\"" + rest), current);
      ScanEscaped(v[1..], rest, current + e);
    }
  }

  lemma ScanQuoted(v: string, rest: string)
    ensures ScanText(Quoted(v) + rest, false, "") ==
            var tail := ScanText(rest, false, "");
            Scan([Mangle(v)] + tail.values, tail.end)
  {
    hide UnescapeHcl, Escape, Mangle;
    var text := Quoted(v) + rest;
    assert text[1..] == Escape(v) + ("\"" + rest);
    assert text[0] == '"';
    ScanEscaped(v, rest, "");
    assert "" + Escape(v) == Escape(v);
    UnescapeOfEscape(v);
  }

  /** Text without quotes and comment signs is skipped. */
  lemma {:induction false} ScanPlain(text: string, rest: string)
    requires forall k :: 0 <= k < |text| ==> text[k] != '"' && text[k] != '#' && text[k] != '/'
    ensures ScanText(text + rest, false, "") == ScanText(rest, false, "")
    decreases |text|
  {
    if text == "" {
      assert text + rest == rest;
    } else {
      assert (text + rest)[1..] == text[1..] + rest;
      ScanPlain(text[1..], rest);
    }
  }

  // ── The printer ──────────────────────────────────────────────────────────────

  datatype Comment = NoComment | Hash(text: string) | Slashes(text: string)

  datatype Item =
    | Assign(name: string, value: string, comment: Comment)
    | AssignList(name: string, elements: seq<string>, comment: Comment)
    | AssignDoc(name: string, doc: Heredoc, indent: string, body: seq<string>)
    | Note(text: string)

  function CommentText(c: Comment): string {
    match c
    case NoComment => ""
    case Hash(text) => " #" + text
    case Slashes(text) => " //" + text
  }

  function Elements(vs: seq<string>): string {
    if vs == [] then ""
    else if |vs| == 1 then Quoted(vs[0])
    else Quoted(vs[0]) + ", " + Elements(vs[1..])
  }

  function PrintItem(item: Item): seq<string> {
    match item
    case Assign(name, value, comment) => [name + " = " + (Quoted(value) + CommentText(comment))]
    case AssignList(name, elements, comment) => [name + " = [" + (Elements(elements) + ("]" + CommentText(comment)))]
    case AssignDoc(name, doc, indent, body) => [name + " = " + Opener(doc)] + body + [Terminator(doc, indent)]
    case Note(text) => ["#" + text]
  }

  function Terminator(doc: Heredoc, indent: string): string {
    (if doc.indented then indent else "") + doc.terminator
  }

  /** One line of text: no line feed, and no carriage return at its end. */
  predicate IsLine(s: string) { '\n' !in s && (s != "" ==> s[|s| - 1] != '\r') }

  predicate WellFormedComment(c: Comment) {
    match c
    case NoComment => true
    case Hash(text) => IsLine(text)
    case Slashes(text) => IsLine(text)
  }

  predicate WellFormed(item: Item) {
    match item
    case Assign(name, _, comment) => IsName(name) && WellFormedComment(comment)
    case AssignList(name, _, comment) => IsName(name) && WellFormedComment(comment)
    case AssignDoc(name, doc, indent, body) =>
      && IsName(name) && IsName(doc.terminator)
      && AllSpace(indent) && '\n' !in indent
      && forall k :: 0 <= k < |body| ==> IsLine(body[k]) && !Terminates(doc, body[k])
    case Note(text) => IsLine(text)
  }

  function Mangled(vs: seq<string>): seq<string> {
    if vs == [] then [] else [Mangle(vs[0])] + Mangled(vs[1..])
  }

  /** The values an item declares. */
  function Declared(item: Item): seq<string> {
    match item
    case Assign(_, value, _) => [value]
    case AssignList(_, elements, _) => elements
    case AssignDoc(_, _, _, body) => []
    case Note(_) => []
  }

  /** The value of a heredoc body: its lines joined; no line, no value. */
  function DocValues(body: seq<string>): seq<string> {
    if body == [] then [] else [Join(body, "\n")]
  }

  /** What is extracted for an item: its literals as read back, or its heredoc body. */
  function Extracted(item: Item): seq<string> {
    Mangled(Declared(item)) + if item.AssignDoc? then DocValues(item.body) else []
  }

  // ── One item ─────────────────────────────────────────────────────────────────

  lemma NameIsPlain(name: string)
    requires IsName(name)
    ensures forall k :: 0 <= k < |name| ==>
      name[k] != '"' && name[k] != '#' && name[k] != '/' && name[k] != '\n' && name[k] != '\r' && !IsSpace(name[k])
  {
    hide IsSpace;
    forall k | 0 <= k < |name| ensures !IsSpace(name[k]) { WordIsNotSpace(name[k]); }
  }

  lemma ScanCommentText(c: Comment)
    ensures ScanText(CommentText(c), false, "") == Scan([], if c.NoComment? then OutsideLiteral else InComment)
  {
    if !c.NoComment? {
      var text := CommentText(c);
      assert text[0] == ' ';
      assert text[1..][0] == '#' || "//" <= text[1..];
    }
  }

  lemma {:induction false} ScanElements(vs: seq<string>, rest: string)
    ensures ScanText(Elements(vs) + rest, false, "") ==
            var tail := ScanText(rest, false, "");
            Scan(Mangled(vs) + tail.values, tail.end)
    decreases |vs|
  {
    hide ScanText, Quoted, Mangle, Elements, Mangled;
    var tail := ScanText(rest, false, "");
    ElementsStep(vs);
    if vs == [] {
      assert "" + rest == rest;
      assert [] + tail.values == tail.values;
    } else if |vs| == 1 {
      ScanQuoted(vs[0], rest);
    } else {
      ScanElements(vs[1..], rest);
      ScanNextElement(vs[0], Elements(vs[1..]), rest);
      assert [Mangle(vs[0])] + (Mangled(vs[1..]) + tail.values) == [Mangle(vs[0])] + Mangled(vs[1..]) + tail.values;
    }
  }

  lemma ElementsStep(vs: seq<string>)
    ensures vs == [] ==> Elements(vs) == "" && Mangled(vs) == []
    ensures |vs| == 1 ==> Elements(vs) == Quoted(vs[0]) && Mangled(vs) == [Mangle(vs[0])]
    ensures |vs| > 1 ==> Elements(vs) == Quoted(vs[0]) + ", " + Elements(vs[1..]) && Mangled(vs) == [Mangle(vs[0])] + Mangled(vs[1..])
  {
    hide Quoted, Mangle;
    MangledStep(vs);
    hide Mangled;
  }

  lemma MangledStep(vs: seq<string>)
    ensures vs == [] ==> Mangled(vs) == []
    ensures |vs| == 1 ==> Mangled(vs) == [Mangle(vs[0])]
    ensures vs != [] ==> Mangled(vs) == [Mangle(vs[0])] + Mangled(vs[1..])
  {
    hide Mangle;
    if |vs| == 1 { assert vs[1..] == []; }
  }

  lemma ScanNextElement(v: string, es: string, rest: string)
    ensures ScanText(Quoted(v) + ", " + es + rest, false, "") ==
            var tail := ScanText(es + rest, false, "");
            Scan([Mangle(v)] + tail.values, tail.end)
  {
    hide ScanText, Quoted, Mangle;
    assert Quoted(v) + ", " + es + rest == Quoted(v) + (", " + (es + rest));
    ScanQuoted(v, ", " + (es + rest));
    ScanPlain(", ", es + rest);
  }

  lemma NoHeredocAfter(line: string)
    requires line != "" && !IsSpace(line[|line| - 1]) && !IsWord(line[|line| - 1])
    ensures MatchHeredocOpen(line).None?
  {
    hide IsSpace, IsWord;
    assert TrimEnd(line) == line;
    assert WordSuffix(line) == "";
  }

  lemma ScanAssign(name: string, value: string, comment: Comment)
    requires IsName(name)
    ensures ScanHclLineSpec(name + " = " + (Quoted(value) + CommentText(comment))) == LineResult([Mangle(value)], None)
  {
    hide IsSpace, IsName, ScanText, MatchHeredocOpen, Mangle, CommentText, Escape;
    var rest := Quoted(value) + CommentText(comment);
    NameIsPlain(name);
    ScanPlain(name + " = ", rest);
    ScanQuoted(value, CommentText(comment));
    ScanCommentText(comment);
    if comment.NoComment? { AssignOpensNothing(name, value, comment); }
  }

  lemma AssignOpensNothing(name: string, value: string, comment: Comment)
    requires comment.NoComment?
    ensures MatchHeredocOpen(name + " = " + (Quoted(value) + CommentText(comment))).None?
  {
    hide Escape, MatchHeredocOpen;
    NoHeredocAfter(name + " = " + (Quoted(value) + CommentText(comment)));
  }

  lemma ScanAssignList(name: string, elements: seq<string>, comment: Comment)
    requires IsName(name)
    ensures ScanHclLineSpec(name + " = [" + (Elements(elements) + ("]" + CommentText(comment)))) ==
            LineResult(Mangled(elements), None)
  {
    hide IsSpace, IsName, ScanText, MatchHeredocOpen, Mangled, CommentText, Elements;
    var tail := "]" + CommentText(comment);
    NameIsPlain(name);
    ScanPlain(name + " = [", Elements(elements) + tail);
    ScanElements(elements, tail);
    ScanPlain("]", CommentText(comment));
    ScanCommentText(comment);
    assert Mangled(elements) + [] == Mangled(elements);
    if comment.NoComment? { ListOpensNothing(name, elements, comment); }
  }

  lemma ListOpensNothing(name: string, elements: seq<string>, comment: Comment)
    requires comment.NoComment?
    ensures MatchHeredocOpen(name + " = [" + (Elements(elements) + ("]" + CommentText(comment)))).None?
  {
    hide Elements, MatchHeredocOpen;
    NoHeredocAfter(name + " = [" + (Elements(elements) + ("]" + CommentText(comment))));
  }

  lemma ScanDocOpener(name: string, doc: Heredoc)
    requires IsName(name) && IsName(doc.terminator)
    ensures ScanHclLineSpec(name + " = " + Opener(doc)) == LineResult([], Some(doc))
  {
    hide IsSpace, IsName, ScanText, MatchHeredocOpen;
    var line := name + " = " + Opener(doc);
    NameIsPlain(name);
    NameIsPlain(doc.terminator);
    ScanPlain(line, "");
    assert line + "" == line;
    EmptyScan();
    assert OpensAt(line, |name + " = "|, doc);
    HeredocOpenComplete(line, |name + " = "|, doc);
  }

  /** A literal that is never closed and ends like an opener opens a heredoc, from inside the literal. */
  lemma UnclosedLiteralOpens(name: string, text: string, doc: Heredoc)
    requires IsName(name) && IsName(doc.terminator) && '"' !in text
    ensures ScanLine(name + " = " + ("\"" + (text + Opener(doc)))).end == InsideLiteral
    ensures ScanHclLineSpec(name + " = " + ("\"" + (text + Opener(doc)))) == LineResult([], Some(doc))
  {
    hide MatchHeredocOpen, ScanText, IsName, OpensAt, Opener;
    var inside, left := text + Opener(doc), name + " = " + "\"" + text;
    var line := name + " = " + ("\"" + inside);
    UnclosedScan(name, text, doc);
    assert line == left + Opener(doc) + "";
    OpenerInPlace(left, doc, "");
    HeredocOpenComplete(line, |left|, doc);
  }

  lemma UnclosedScan(name: string, text: string, doc: Heredoc)
    requires IsName(name) && IsName(doc.terminator) && '"' !in text
    ensures ScanLine(name + " = " + ("\"" + (text + Opener(doc)))) == Scan([], InsideLiteral)
  {
    hide MatchHeredocOpen;
    var inside := text + Opener(doc);
    NameIsPlain(name);
    NameIsPlain(doc.terminator);
    ScanPlain(name + " = ", "\"" + inside);
    assert ("\"" + inside)[1..] == inside;
    NeverClosed(inside, "");
  }

  lemma {:induction false} NeverClosed(text: string, current: string)
    requires '"' !in text
    ensures ScanText(text, true, current) == Scan([], InsideLiteral)
    decreases |text|
  {
    if text != "" {
      if text[0] == '\\' && |text| > 1 { NeverClosed(text[2..], current + text[..2]); } else { NeverClosed(text[1..], current + [text[0]]); }
    }
  }

  /** So the stray quote of the first line takes the second line whole, in place of the value it declares. */
  lemma StrayQuoteSwallowsALine()
    ensures ScanLine("x = \"<<E").end == InsideLiteral
    ensures ExtractLines(["x = \"<<E", "p = \"hunter2\""]) == ["p = \"hunter2\""]
    ensures ExtractLines(["p = \"hunter2\""]) == ["hunter2"]
  {
    hide ScanText, MatchHeredocOpen, Escape;
    var doc, open, line := Heredoc("E", false), "x = \"<<E", "p = \"hunter2\"";
    UnclosedLiteralOpens("x", "", doc);
    assert "x" + " = " + ("\"" + ("" + Opener(doc))) == open;
    SwallowedRun(open, line, doc);
    PlainPassword();
  }

  lemma SwallowedRun(open: string, line: string, doc: Heredoc)
    requires ScanHclLineSpec(open) == LineResult([], Some(doc)) && open != "" && open[|open| - 1] != '\r'
    requires !doc.indented && line != doc.terminator && line != "" && line[|line| - 1] != '\r'
    ensures ExtractLines([open, line]) == [line]
  {
    hide ScanHclLineSpec;
    var st := Step(INITIAL, open);
    assert st == State([], Some(doc), []) by { assert INITIAL.out + [] == []; }
    assert [open, line] == [open] + [line];
    RunAppend(INITIAL, [open], [line]);
    RunOne(INITIAL, open);
    RunOne(st, line);
    assert [] + [line] == [line];
  }

  lemma PlainPassword()
    ensures ExtractLines(["p = \"hunter2\""]) == ["hunter2"]
  {
    AreWords();
    hide ExtractLines, IsWord;
    WordValue("p", "hunter2");
    assert "p" + " = " + "\"" + "hunter2" + "\"" == "p = \"hunter2\"";
  }

  lemma AreWords()
    ensures IsName("p") && forall k :: 0 <= k < |"hunter2"| ==> IsWord("hunter2"[k])
  {
  }

  /** A value of word characters is read as it is written. */
  lemma WordValue(name: string, value: string)
    requires IsName(name) && forall k :: 0 <= k < |value| ==> IsWord(value[k])
    ensures ExtractLines([name + " = " + "\"" + value + "\""]) == [value]
  {
    PlainText(value);
    hide ScanText, MatchHeredocOpen, Escape, Mangle, ScanHclLineSpec, ExtractLines, IsName, IsWord;
    ScanAssign(name, value, NoComment);
    var line := name + " = " + "\"" + value + "\"";
    assert name + " = " + (Quoted(value) + CommentText(NoComment)) == line;
    OneLiteral(line, value);
  }

  lemma OneLiteral(line: string, value: string)
    requires ScanHclLineSpec(line) == LineResult([value], None) && line != "" && line[|line| - 1] != '\r'
    ensures ExtractLines([line]) == [value]
  {
    hide ScanHclLineSpec;
    RunOne(INITIAL, line);
    assert INITIAL.out + [value] == [value];
  }

  lemma {:induction false} PlainText(s: string)
    requires forall k :: 0 <= k < |s| ==> IsWord(s[k])
    ensures Escape(s) == s && Mangle(s) == s
  {
    if s != "" { PlainText(s[1..]); }
  }

  lemma TerminatorTerminates(doc: Heredoc, indent: string)
    requires IsName(doc.terminator) && AllSpace(indent)
    ensures Terminates(doc, Terminator(doc, indent))
  {
    hide IsSpace, Trim;
    var t := doc.terminator;
    if doc.indented {
      NameIsPlain(t);
      assert indent + t + "" == indent + t;
      TrimPadded(indent, t, "");
    }
  }

  // ── Files ────────────────────────────────────────────────────────────────────

  /** The line as it stands in the file before its line feed. */
  function Raw(line: string, crlf: bool): string { if crlf then line + "\r" else line }

  function RawLines(lines: seq<string>, crlf: bool): seq<string> {
    if lines == [] then [] else [Raw(lines[0], crlf)] + RawLines(lines[1..], crlf)
  }

  function PrintFile(items: seq<Item>, crlf: bool): string { Text(FileLines(items), crlf) }

  function FileLines(items: seq<Item>): seq<string> {
    if items == [] then [] else PrintItem(items[0]) + FileLines(items[1..])
  }

  function Text(lines: seq<string>, crlf: bool): string {
    if lines == [] then "" else Raw(lines[0], crlf) + ("\n" + Text(lines[1..], crlf))
  }

  function FileExtracted(items: seq<Item>): seq<string> {
    if items == [] then [] else Extracted(items[0]) + FileExtracted(items[1..])
  }

  lemma StripRaw(line: string, crlf: bool)
    requires IsLine(line)
    ensures StripCr(Raw(line, crlf)) == line
  {
    if crlf { assert (line + "\r")[..|line|] == line; }
  }

  lemma {:induction false} RawLinesAt(lines: seq<string>, crlf: bool)
    ensures |RawLines(lines, crlf)| == |lines|
    ensures forall k :: 0 <= k < |lines| ==> RawLines(lines, crlf)[k] == Raw(lines[k], crlf)
  {
    hide Raw;
    if lines != [] { RawLinesAt(lines[1..], crlf); }
  }

  lemma {:induction false} StrippedRaw(lines: seq<string>, crlf: bool)
    requires forall k :: 0 <= k < |lines| ==> IsLine(lines[k])
    ensures Stripped(RawLines(lines, crlf)) == lines
  {
    hide StripCr, Raw, IsLine;
    if lines != [] {
      StripRaw(lines[0], crlf);
      StrippedRaw(lines[1..], crlf);
      assert RawLines(lines, crlf)[1..] == RawLines(lines[1..], crlf);
      assert [lines[0]] + lines[1..] == lines;
    }
  }

  lemma {:induction false} RawLinesAppend(a: seq<string>, b: seq<string>, crlf: bool)
    ensures RawLines(a + b, crlf) == RawLines(a, crlf) + RawLines(b, crlf)
  {
    hide Raw;
    if a == [] {
      assert a + b == b;
    } else {
      assert (a + b)[1..] == a[1..] + b;
      RawLinesAppend(a[1..], b, crlf);
    }
  }

  /** A line whose scan opens no heredoc, as a file of its own. */
  lemma OneLine(line: string, crlf: bool)
    requires IsLine(line) && ScanHclLineSpec(line).heredoc.None?
    ensures Closed(RawLines([line], crlf))
    ensures ExtractLines(RawLines([line], crlf)) == ScanHclLineSpec(line).values
  {
    hide ScanHclLineSpec, StripCr, Raw, Run, Closed, IsLine;
    StripRaw(line, crlf);
    var raw := Raw(line, crlf);
    assert RawLines([line][1..], crlf) == [];
    assert RawLines([line], crlf) == [raw];
    OneLineCloses(raw);
    RunOne(INITIAL, raw);
  }

  lemma IsLineAppend(a: string, b: string)
    requires '\n' !in a && b != "" && IsLine(b)
    ensures IsLine(a + b)
  {
  }

  lemma {:induction false} EscapeIsPlain(v: string)
    ensures '\n' !in Escape(v) && '\r' !in Escape(v)
  {
    if v != "" { EscapeIsPlain(v[1..]); }
  }

  lemma {:induction false} ElementsArePlain(vs: seq<string>)
    ensures '\n' !in Elements(vs)
  {
    hide Escape;
    if vs != [] {
      EscapeIsPlain(vs[0]);
      ElementsArePlain(vs[1..]);
    }
  }

  /** A value's closing text and its comment end the line properly. */
  lemma TailIsLine(closing: string, c: Comment)
    requires WellFormedComment(c) && closing != "" && IsLine(closing)
    ensures IsLine(closing + CommentText(c))
  {
  }

  lemma AssignIsLine(name: string, value: string, c: Comment)
    requires IsName(name) && WellFormedComment(c)
    ensures IsLine(name + " = " + (Quoted(value) + CommentText(c)))
  {
    hide IsName, IsSpace, Escape, CommentText;
    NameIsPlain(name);
    EscapeIsPlain(value);
    TailIsLine(Quoted(value), c);
    IsLineAppend(name + " = ", Quoted(value) + CommentText(c));
  }

  lemma ListIsLine(name: string, elements: seq<string>, c: Comment)
    requires IsName(name) && WellFormedComment(c)
    ensures IsLine(name + " = [" + (Elements(elements) + ("]" + CommentText(c))))
  {
    hide IsName, IsSpace, Elements, CommentText;
    NameIsPlain(name);
    ElementsArePlain(elements);
    TailIsLine("]", c);
    IsLineAppend(Elements(elements), "]" + CommentText(c));
    IsLineAppend(name + " = [", Elements(elements) + ("]" + CommentText(c)));
  }

  lemma DocFramesAreLines(name: string, doc: Heredoc, indent: string)
    requires IsName(name) && IsName(doc.terminator) && '\n' !in indent
    ensures IsLine(name + " = " + Opener(doc)) && IsLine(Terminator(doc, indent))
  {
    hide IsName, IsSpace;
    NameIsPlain(name);
    NameIsPlain(doc.terminator);
    NameNotEmpty(doc.terminator);
    IsLineAppend(name + " = ", Opener(doc));
    assert "" + doc.terminator == doc.terminator;
    IsLineAppend(if doc.indented then indent else "", doc.terminator);
  }

  /** Every printed line is a line, so splitting the file finds the printed lines again. */
  lemma PrintedLines(item: Item)
    requires WellFormed(item)
    ensures forall k :: 0 <= k < |PrintItem(item)| ==> IsLine(PrintItem(item)[k])
  {
    hide IsName, IsSpace, IsLine, Quoted, Elements, CommentText, Terminates, Opener, Terminator;
    match item {
      case Assign(name, value, comment) => AssignIsLine(name, value, comment);
      case AssignList(name, elements, comment) => ListIsLine(name, elements, comment);
      case AssignDoc(name, doc, indent, body) =>
        DocFramesAreLines(name, doc, indent);
        var lines := PrintItem(item);
        assert forall k :: 0 < k < |lines| - 1 ==> lines[k] == body[k - 1];
      case Note(text) => NoteIsLine(text);
    }
  }

  lemma NoteIsLine(text: string)
    requires IsLine(text)
    ensures IsLine("#" + text)
  {
  }

  lemma NameNotEmpty(name: string)
    requires IsName(name)
    ensures name != ""
  {
  }

  /** One printed item is extracted on its own, and leaves no heredoc open. */
  lemma ItemRoundTrip(item: Item, crlf: bool)
    requires WellFormed(item)
    ensures Closed(RawLines(PrintItem(item), crlf))
    ensures ExtractLines(RawLines(PrintItem(item), crlf)) == Extracted(item)
  {
    hide IsName, IsSpace, IsLine, Closed, ExtractLines, RawLines, ScanHclLineSpec, Terminates, Elements, Quoted, Mangle;
    PrintedLines(item);
    var lines := PrintItem(item);
    assert IsLine(lines[0]);
    match item {
      case Assign(name, value, comment) =>
        ScanAssign(name, value, comment);
        OneLine(lines[0], crlf);
        assert Mangled([value][1..]) == [];
      case AssignList(name, elements, comment) =>
        ScanAssignList(name, elements, comment);
        OneLine(lines[0], crlf);
      case AssignDoc(name, doc, indent, body) =>
        DocRoundTrip(name, doc, indent, body, crlf);
      case Note(text) =>
        ScanNote(text);
        OneLine(lines[0], crlf);
    }
  }

  lemma ScanNote(text: string)
    ensures ScanHclLineSpec("#" + text) == LineResult([], None)
  {
    hide MatchHeredocOpen;
    assert ScanText("#" + text, false, "") == Scan([], InComment);
  }

  lemma DocRoundTrip(name: string, doc: Heredoc, indent: string, body: seq<string>, crlf: bool)
    requires WellFormed(AssignDoc(name, doc, indent, body))
    ensures var lines := RawLines(PrintItem(AssignDoc(name, doc, indent, body)), crlf);
      Closed(lines) && ExtractLines(lines) == DocValues(body)
  {
    hide IsName, IsSpace, IsLine, Closed, ExtractLines, RawLines, ScanHclLineSpec, Terminates, Raw, StripCr, Join;
    var item := AssignDoc(name, doc, indent, body);
    var lines := PrintItem(item);
    PrintedLines(item);
    var open, close := lines[0], Terminator(doc, indent);
    assert lines[|lines| - 1] == close;
    assert lines == [open] + body + [close];
    RawLinesAppend([open] + body, [close], crlf);
    RawLinesAppend([open], body, crlf);
    RawLinesAt([open], crlf);
    RawLinesAt([close], crlf);
    RawLinesAt(body, crlf);
    StrippedRaw(body, crlf);
    assert RawLines([open], crlf) == [Raw(open, crlf)];
    assert RawLines([close], crlf) == [Raw(close, crlf)];
    assert [] + DocValues(body) == DocValues(body);
    StripRaw(open, crlf);
    StripRaw(close, crlf);
    forall k | 0 <= k < |body| ensures !Terminates(doc, StripCr(Raw(body[k], crlf))) { StripRaw(body[k], crlf); }
    ScanDocOpener(name, doc);
    TerminatorTerminates(doc, indent);
    HeredocBlock(Raw(open, crlf), RawLines(body, crlf), Raw(close, crlf), doc);
  }

  lemma {:induction false} ItemsRoundTrip(items: seq<Item>, crlf: bool)
    requires forall k :: 0 <= k < |items| ==> WellFormed(items[k])
    ensures Closed(RawLines(FileLines(items), crlf))
    ensures ExtractLines(RawLines(FileLines(items), crlf)) == FileExtracted(items)
  {
    if items == [] {
      NothingExtracts(crlf);
    } else {
      hide WellFormed, RawLines, Extracted, PrintItem, Closed, ExtractLines;
      ItemRoundTrip(items[0], crlf);
      ItemsRoundTrip(items[1..], crlf);
      RawLinesAppend(PrintItem(items[0]), FileLines(items[1..]), crlf);
      ExtractIsAHomomorphism(RawLines(PrintItem(items[0]), crlf), RawLines(FileLines(items[1..]), crlf));
    }
  }

  lemma NothingExtracts(crlf: bool)
    ensures Closed(RawLines([], crlf)) && ExtractLines(RawLines([], crlf)) == []
    ensures ExtractLines([""]) == []
  {
    EmptyLineExtractsNothing();
  }

  lemma {:induction false} SplitText(lines: seq<string>, crlf: bool)
    requires forall k :: 0 <= k < |lines| ==> IsLine(lines[k])
    ensures Split(Text(lines, crlf), '\n') == RawLines(lines, crlf) + [""]
  {
    hide Split;
    if lines == [] {
      SplitNone("", '\n');
    } else {
      var raw, more := Raw(lines[0], crlf), Text(lines[1..], crlf);
      assert raw + ['\n'] + more == raw + ("\n" + more);
      SplitCons(raw, more, '\n');
      SplitText(lines[1..], crlf);
      assert [raw] + (RawLines(lines[1..], crlf) + [""]) == RawLines(lines, crlf) + [""];
    }
  }

  lemma {:induction false} FileLinesAreLines(items: seq<Item>)
    requires forall k :: 0 <= k < |items| ==> WellFormed(items[k])
    ensures forall k :: 0 <= k < |FileLines(items)| ==> IsLine(FileLines(items)[k])
  {
    hide WellFormed, IsLine, PrintItem;
    if items != [] {
      PrintedLines(items[0]);
      FileLinesAreLines(items[1..]);
    }
  }

  /** A printed file is never mistaken for JSON. */
  lemma PrintedIsNotJson(items: seq<Item>, crlf: bool)
    requires forall k :: 0 <= k < |items| ==> WellFormed(items[k])
    ensures var t := Trim(PrintFile(items, crlf)); !("{" <= t) && !("[" <= t)
  {
    hide IsSpace, Escape, Elements, TrimEnd, Terminates;
    var text := PrintFile(items, crlf);
    if items != [] {
      var first := PrintItem(items[0])[0];
      assert FileLines(items)[0] == first;
      PrintedLineStart(items[0]);
      assert text[0] == first[0];
      assert LeadingSpaces(text) == 0;
      assert text[0..] == text;
    }
  }

  lemma PrintedLineStart(item: Item)
    requires WellFormed(item)
    ensures |PrintItem(item)| > 0 && PrintItem(item)[0] != ""
    ensures var c := PrintItem(item)[0][0]; !IsSpace(c) && c != '{' && c != '['
  {
    hide IsSpace, Escape, Elements, Terminates;
    match item {
      case Assign(name, _, _) => WordIsNotSpace(name[0]);
      case AssignList(name, _, _) => WordIsNotSpace(name[0]);
      case AssignDoc(name, _, _, _) => WordIsNotSpace(name[0]);
      case Note(text) => HashIsNotSpace();
    }
  }

  lemma HashIsNotSpace()
    ensures !IsSpace('#')
  {
  }

  /** Print, then extract: the values come back in order, as the unescaper reads them. */
  lemma PrintExtract(parse: string -> Option<Json>, items: seq<Item>, crlf: bool)
    requires forall k :: 0 <= k < |items| ==> WellFormed(items[k])
    ensures ExtractSpec(parse, PrintFile(items, crlf)) == FileExtracted(items)
  {
    hide WellFormed, Text, FileLines, RawLines, Split, ExtractLines, Closed, FileExtracted, Trim, IsLine;
    PrintedIsNotJson(items, crlf);
    FileLinesAreLines(items);
    SplitText(FileLines(items), crlf);
    ItemsRoundTrip(items, crlf);
    NothingExtracts(crlf);
    ExtractIsAHomomorphism(RawLines(FileLines(items), crlf), [""]);
    assert FileExtracted(items) + [] == FileExtracted(items);
  }

  function FileValues(items: seq<Item>): seq<string> {
    if items == [] then []
    else Declared(items[0]) + (if items[0].AssignDoc? then DocValues(items[0].body) else []) + FileValues(items[1..])
  }

  predicate FaithfulItem(item: Item) { forall v :: v in Declared(item) ==> Faithful(v) }

  lemma {:induction false} MangledIdentity(vs: seq<string>)
    ensures |Mangled(vs)| == |vs|
    ensures Mangled(vs) == vs <==> forall v :: v in vs ==> Faithful(v)
  {
    hide Mangle, Faithful;
    if vs != [] {
      MangleIdentity(vs[0]);
      MangledIdentity(vs[1..]);
      var rest := Mangled(vs[1..]);
      assert Mangled(vs) == [Mangle(vs[0])] + rest;
      hide Mangled;
      assert vs == [vs[0]] + vs[1..];
      SameLengthParts([Mangle(vs[0])], [vs[0]], rest, vs[1..]);
      assert [Mangle(vs[0])] == [vs[0]] <==> Mangle(vs[0]) == vs[0] by { if [Mangle(vs[0])] == [vs[0]] { assert [Mangle(vs[0])][0] == [vs[0]][0]; } }
    }
  }

  lemma SameLengthParts(a: seq<string>, a': seq<string>, b: seq<string>, b': seq<string>)
    requires |a| == |a'|
    ensures a + b == a' + b' <==> a == a' && b == b'
  {
    if a + b == a' + b' {
      assert (a + b)[..|a|] == a && (a' + b')[..|a|] == a';
      assert (a + b)[|a|..] == b && (a' + b')[|a|..] == b';
    }
  }

  /**
   The round trip returns exactly the printed values if and only if no printed literal holds a
   backslash directly followed by n, r or t.
   */
  lemma {:induction false} RoundTripExact(items: seq<Item>)
    ensures FileExtracted(items) == FileValues(items) <==> forall k :: 0 <= k < |items| ==> FaithfulItem(items[k])
  {
    hide DocValues, Mangled, FaithfulItem, Declared;
    if items != [] {
      var docs := if items[0].AssignDoc? then DocValues(items[0].body) else [];
      var d := Declared(items[0]);
      MangledIdentity(d);
      ItemFaithful(items[0]);
      RoundTripExact(items[1..]);
      SameLengthParts(Mangled(d), d, docs + FileExtracted(items[1..]), docs + FileValues(items[1..]));
      SameLengthParts(docs, docs, FileExtracted(items[1..]), FileValues(items[1..]));
      assert Mangled(d) + docs + FileExtracted(items[1..]) == Mangled(d) + (docs + FileExtracted(items[1..]));
      assert d + docs + FileValues(items[1..]) == d + (docs + FileValues(items[1..]));
      assert forall k :: 1 <= k < |items| ==> items[k] == items[1..][k - 1];
      assert forall k :: 0 <= k < |items[1..]| ==> items[1..][k] == items[k + 1];
    }
  }

  lemma ItemFaithful(item: Item)
    ensures FaithfulItem(item) <==> forall v :: v in Declared(item) ==> Faithful(v)
  {
  }
}
