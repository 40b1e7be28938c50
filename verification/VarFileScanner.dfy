/**
 One line of the secure var-file extractor (`secure-var-file-masking.ts`): a scanner with literal, escape
 and comment states, and the heredoc opener at the end of a line.
 */
module VarFileScanner {
  import opened JsText

  const MIN_MASKABLE_VALUE_LENGTH := 4

  // ── Unescaping: five global replaces in a row ────────────────────────────────

  /** `s.replace(/ab/g, c)`: every non-overlapping occurrence of the pair, left to right. */
  function ReplacePair(s: string, a: char, b: char, c: char): string {
    if |s| < 2 then s
    else if s[0] == a && s[1] == b then [c] + ReplacePair(s[2..], a, b, c)
    else [s[0]] + ReplacePair(s[1..], a, b, c)
  }

  function UnescapeHcl(raw: string): string {
    var s1 := ReplacePair(raw, '\\', 'n', '\n');
    var s2 := ReplacePair(s1, '\\', 'r', '\r');
    var s3 := ReplacePair(s2, '\\', 't', '\t');
    var s4 := ReplacePair(s3, '\\', '"', '"');
    ReplacePair(s4, '\\', '\\', '\\')
  }

  // ── One line ─────────────────────────────────────────────────────────────────

  datatype Heredoc = Heredoc(terminator: string, indented: bool)

  /** How the scan of a line ended: in a comment, outside every literal, or in an unclosed one. */
  datatype End = InComment | OutsideLiteral | InsideLiteral

  datatype Scan = Scan(values: seq<string>, end: End)

  datatype LineResult = LineResult(values: seq<string>, heredoc: Option<Heredoc>)

  /** The literal/comment automaton on the rest of a line. */
  function ScanText(rest: string, inString: bool, current: string): Scan {
    if rest == "" then Scan([], if inString then InsideLiteral else OutsideLiteral)
    else if inString then
      if rest[0] == '\\' && |rest| > 1 then ScanText(rest[2..], true, current + rest[..2])
      else if rest[0] == '"' then
        var tail := ScanText(rest[1..], false, "");
        Scan([UnescapeHcl(current)] + tail.values, tail.end)
      else ScanText(rest[1..], true, current + [rest[0]])
    else if rest[0] == '"' then ScanText(rest[1..], true, current)
    else if rest[0] == '#' || "//" <= rest then Scan([], InComment)
    else ScanText(rest[1..], false, current)
  }

  function ScanLine(line: string): Scan { ScanText(line, false, "") }

  predicate IsName(s: string) {
    s != "" && !IsDigit(s[0]) && forall k :: 0 <= k < |s| ==> IsWord(s[k])
  }

  function Opener(h: Heredoc): string {
    (if h.indented then "<<-" else "<<") + h.terminator
  }

  /** A match of `/<<(-?)([A-Za-z_][A-Za-z0-9_]*)\s*$/` that starts at position `p`. */
  predicate OpensAt(line: string, p: nat, h: Heredoc) {
    && IsName(h.terminator)
    && p + |Opener(h)| <= |line| && line[p..p + |Opener(h)|] == Opener(h)
    && AllSpace(line[p + |Opener(h)|..])
  }

  /** The longest suffix made of word characters. */
  function WordSuffix(s: string): (r: string)
    ensures EndsWith(s, r) && forall k :: 0 <= k < |r| ==> IsWord(r[k])
    ensures |r| < |s| ==> !IsWord(s[|s| - |r| - 1])
  {
    if s != "" && IsWord(s[|s| - 1]) then WordSuffix(s[..|s| - 1]) + [s[|s| - 1]] else ""
  }

  /** What `HEREDOC_OPEN.exec(line)` captures, read from the right end of the line. */
  function MatchHeredocOpen(line: string): Option<Heredoc> {
    var body := TrimEnd(line);
    var name := WordSuffix(body);
    var before := body[..|body| - |name|];
    if !IsName(name) then None
    else if EndsWith(before, "<<-") then Some(Heredoc(name, true))
    else if EndsWith(before, "<<") then Some(Heredoc(name, false))
    else None
  }

  function ScanHclLineSpec(line: string): LineResult {
    var scan := ScanLine(line);
    LineResult(scan.values, if scan.end.InComment? then None else MatchHeredocOpen(line))
  }

  lemma ScanEnd(inString: bool)
    ensures forall current :: ScanText("", inString, current) == Scan([], if inString then InsideLiteral else OutsideLiteral)
  {
  }

  /** One turn of the automaton, at an index of the line. */
  lemma ScanStep(line: string, i: nat, inString: bool, current: string)
    requires i < |line|
    ensures var ch, scan := line[i], ScanText(line[i..], inString, current);
      if inString then
        if ch == '\\' && i + 1 < |line| then scan == ScanText(line[i + 2..], true, current + [ch, line[i + 1]])
        else if ch == '"' then
          var tail := ScanText(line[i + 1..], false, "");
          scan == Scan([UnescapeHcl(current)] + tail.values, tail.end)
        else scan == ScanText(line[i + 1..], true, current + [ch])
      else if ch == '"' then scan == ScanText(line[i + 1..], true, current)
      else if ch == '#' || (ch == '/' && i + 1 < |line| && line[i + 1] == '/') then scan == Scan([], InComment)
      else scan == ScanText(line[i + 1..], false, current)
  {
    hide UnescapeHcl;
    var rest := line[i..];
    assert rest[1..] == line[i + 1..];
    if i + 1 < |line| { assert rest[2..] == line[i + 2..] && rest[..2] == [line[i], line[i + 1]] && rest[1] == line[i + 1]; }
  }

  method ScanHclLine(line: string) returns (r: LineResult)
    ensures r == ScanHclLineSpec(line)
  {
    hide ScanText, UnescapeHcl;
    ScanEnd(false);
    ScanEnd(true);
    var values: seq<string> := [];
    var inString := false;
    var current := "";
    var i := 0;
    while i < |line|
      invariant 0 <= i <= |line|
      invariant !inString ==> current == ""
      invariant ScanLine(line).values == values + ScanText(line[i..], inString, current).values
      invariant ScanLine(line).end == ScanText(line[i..], inString, current).end
    {
      var ch := line[i];
      ScanStep(line, i, inString, current);
      if inString {
        if ch == '\\' && i + 1 < |line| {
          current := current + [ch, line[i + 1]];
          i := i + 2;
          continue;
        }
        if ch == '"' {
          values := values + [UnescapeHcl(current)];
          current := "";
          inString := false;
          i := i + 1;
          continue;
        }
        current := current + [ch];
        i := i + 1;
        continue;
      }
      if ch == '"' {
        inString := true;
        i := i + 1;
        continue;
      }
      if ch == '#' || (ch == '/' && i + 1 < |line| && line[i + 1] == '/') {
        return LineResult(values, None);
      }
      i := i + 1;
    }
    assert line[|line|..] == "";
    r := LineResult(values, MatchHeredocOpen(line));
  }

  /** The right-to-left reading finds exactly the regular expression's matches. */
  lemma HeredocOpenIsTheRegexMatch(line: string, h: Heredoc)
    ensures MatchHeredocOpen(line) == Some(h) <==> exists p: nat :: OpensAt(line, p, h)
  {
    if MatchHeredocOpen(line) == Some(h) {
      HeredocOpenFound(line, h);
    }
    forall p: nat | OpensAt(line, p, h) ensures MatchHeredocOpen(line) == Some(h) {
      HeredocOpenComplete(line, p, h);
    }
  }

  lemma OpenerInPlace(left: string, h: Heredoc, space: string)
    requires IsName(h.terminator) && AllSpace(space)
    ensures OpensAt(left + Opener(h) + space, |left|, h)
  {
    var line := left + Opener(h) + space;
    assert line[|left|..|left| + |Opener(h)|] == Opener(h);
    assert line[|left| + |Opener(h)|..] == space;
  }

  lemma HeredocOpenFound(line: string, h: Heredoc)
    requires MatchHeredocOpen(line) == Some(h)
    ensures exists p: nat :: OpensAt(line, p, h)
  {
    var left := MatchSplits(line, h);
    hide *;
    OpenerInPlace(left, h, line[|TrimEnd(line)|..]);
    assert OpensAt(line, |left|, h);
  }

  lemma MatchSplits(line: string, h: Heredoc) returns (left: string)
    requires MatchHeredocOpen(line) == Some(h)
    ensures line == left + Opener(h) + line[|TrimEnd(line)|..]
    ensures IsName(h.terminator) && AllSpace(line[|TrimEnd(line)|..])
  {
    hide IsSpace, TrimEnd, WordSuffix, IsName;
    var body := TrimEnd(line);
    var dash := if h.indented then "<<-" else "<<";
    var before := body[..|body| - |h.terminator|];
    left := before[..|before| - |dash|];
    Regroup(line, body, before, left, dash, h.terminator);
  }

  lemma Regroup(line: string, body: string, before: string, left: string, dash: string, name: string)
    requires body <= line && EndsWith(body, name) && before == body[..|body| - |name|]
    requires EndsWith(before, dash) && left == before[..|before| - |dash|]
    ensures line == left + (dash + name) + line[|body|..]
  {
    assert before == left + dash;
    assert body == before + name;
    assert left + (dash + name) == left + dash + name;
  }

  lemma HeredocOpenComplete(line: string, p: nat, h: Heredoc)
    requires OpensAt(line, p, h)
    ensures MatchHeredocOpen(line) == Some(h)
  {
    var dash := if h.indented then "<<-" else "<<";
    var before := line[..p] + dash;
    var space := line[p + |Opener(h)|..];
    assert line == before + h.terminator + space;
    MatchPieces(before, h, dash, space);
  }

  lemma MatchPieces(before: string, h: Heredoc, dash: string, space: string)
    requires IsName(h.terminator) && AllSpace(space)
    requires dash == (if h.indented then "<<-" else "<<") && EndsWith(before, dash)
    ensures MatchHeredocOpen(before + h.terminator + space) == Some(h)
  {
    hide IsSpace, TrimEnd, WordSuffix;
    var body := before + h.terminator;
    WordIsNotSpace(body[|body| - 1]);
    TrimEndPadded(body, space);
    assert before[|before| - 1] == dash[|dash| - 1];
    WordSuffixOf(before, h.terminator);
    assert body[..|body| - |h.terminator|] == before;
    assert !h.indented ==> before[|before| - 1] == '<';
    assert EndsWith(before, "<<-") ==> before[|before| - 1] == '-';
  }

  lemma {:induction false} WordSuffixOf(before: string, word: string)
    requires before != "" && !IsWord(before[|before| - 1])
    requires forall k :: 0 <= k < |word| ==> IsWord(word[k])
    ensures WordSuffix(before + word) == word
  {
    if word == "" {
      assert before + word == before;
    } else {
      var n := |word| - 1;
      assert (before + word)[..|before + word| - 1] == before + word[..n];
      WordSuffixOf(before, word[..n]);
    }
  }

  /**
   Where an opener lies relative to the literals of its line: outside all of them when the scan of
   the whole line ends outside, inside the unclosed one when the scan ends inside.
   */
  lemma HeredocOpensWhereTheScanEnds(line: string, p: nat, h: Heredoc)
    requires OpensAt(line, p, h) && !ScanLine(line).end.InComment?
    ensures ScanLine(line[..p]).end == ScanLine(line).end
  {
    var tail := line[p..];
    forall k | 0 <= k < |tail| ensures tail[k] != '"' {
      if k < |Opener(h)| {
        assert tail[k] == line[p..p + |Opener(h)|][k];
      } else {
        assert tail[k] == line[p + |Opener(h)|..][k - |Opener(h)|];
      }
    }
    assert line == line[..p] + tail;
    TailWithoutQuotes(line[..p], tail, false, "");
  }

  lemma {:induction false} QuoteFree(tail: string, inString: bool, current: string)
    requires '"' !in tail && !ScanText(tail, inString, current).end.InComment?
    ensures ScanText(tail, inString, current).end == if inString then InsideLiteral else OutsideLiteral
    decreases |tail|
  {
    if tail != "" {
      if inString && tail[0] == '\\' && |tail| > 1 {
        QuoteFree(tail[2..], true, current + tail[..2]);
      } else {
        QuoteFree(tail[1..], inString, if inString then current + [tail[0]] else current);
      }
    }
  }

  lemma {:induction false} TailWithoutQuotes(head: string, tail: string, inString: bool, current: string)
    requires '"' !in tail
    requires !ScanText(head + tail, inString, current).end.InComment?
    ensures ScanText(head, inString, current).end == ScanText(head + tail, inString, current).end
    decreases |head|
  {
    var all := head + tail;
    if head == "" {
      assert all == tail;
      QuoteFree(tail, inString, current);
    } else {
      assert all[1..] == head[1..] + tail;
      if inString && head[0] == '\\' && |all| > 1 {
        if |head| > 1 {
          assert all[2..] == head[2..] + tail && all[..2] == head[..2];
          TailWithoutQuotes(head[2..], tail, true, current + head[..2]);
        } else {
          assert all[2..] == tail[1..];
          QuoteFree(tail[1..], true, current + all[..2]);
        }
      } else if inString && head[0] == '"' {
        TailWithoutQuotes(head[1..], tail, false, "");
      } else if inString {
        TailWithoutQuotes(head[1..], tail, true, current + [head[0]]);
      } else if head[0] == '"' {
        TailWithoutQuotes(head[1..], tail, true, current);
      } else {
        TailWithoutQuotes(head[1..], tail, false, current);
      }
    }
  }

  // ── The empty line ───────────────────────────────────────────────────────────

  lemma EmptyScan()
    ensures ScanText("", false, "") == Scan([], OutsideLiteral)
  {
  }

  lemma EmptyLineOpensNothing()
    ensures MatchHeredocOpen("").None?
  {
  }
}
