/** The JavaScript string operations the modelled code relies on, over sequences of characters. */
module JsText {
  datatype Option<+T> = None | Some(value: T)

  /** What `trim()` removes and what `\s` matches: ECMAScript white space and line terminators. */
  predicate IsSpace(c: char) {
    var n := c as int;
    || 9 <= n <= 13 || n == 32 || n == 0xA0 || n == 0x1680 || 0x2000 <= n <= 0x200A
    || n == 0x2028 || n == 0x2029 || n == 0x202F || n == 0x205F || n == 0x3000 || n == 0xFEFF
  }

  /** The characters that `.` does not match in a regular expression without the `s` flag. */
  predicate IsLineTerminator(c: char) {
    c == '\n' || c == '\r' || c as int == 0x2028 || c as int == 0x2029
  }

  predicate IsDigit(c: char) { '0' <= c <= '9' }

  predicate IsLetter(c: char) { 'a' <= c <= 'z' || 'A' <= c <= 'Z' }

  /** The class `\w`. */
  predicate IsWord(c: char) { IsLetter(c) || IsDigit(c) || c == '_' }

  predicate IsHex(c: char) { IsDigit(c) || 'a' <= c <= 'f' || 'A' <= c <= 'F' }

  /**
   `toLowerCase` as far as a comparison with an ASCII text can see it: the ASCII capitals, and the one
   other character whose lower case is a single ASCII letter, the Kelvin sign.
   */
  function LowerChar(c: char): char {
    if 'A' <= c <= 'Z' then c - 'A' + 'a' else if c as int == 0x212A then 'k' else c
  }

  function Lower(s: string): (r: string)
    ensures |r| == |s| && forall k :: 0 <= k < |s| ==> r[k] == LowerChar(s[k])
  {
    seq(|s|, k requires 0 <= k < |s| => LowerChar(s[k]))
  }

  /** Two ASCII texts agree in lower case exactly when they differ in the case of letters alone. */
  lemma LowerForgetsCase(a: string, b: string)
    requires forall k :: 0 <= k < |a| ==> a[k] as int < 128
    requires forall k :: 0 <= k < |b| ==> b[k] as int < 128
    ensures Lower(a) == Lower(b) <==>
      |a| == |b| && forall k :: 0 <= k < |a| ==>
        a[k] == b[k] || (IsLetter(a[k]) && IsLetter(b[k]) && (a[k] as int == b[k] as int + 32 || b[k] as int == a[k] as int + 32))
  {
    forall k | 0 <= k < |a| && k < |b|
      ensures LowerChar(a[k]) == LowerChar(b[k]) <==>
        a[k] == b[k] || (IsLetter(a[k]) && IsLetter(b[k]) && (a[k] as int == b[k] as int + 32 || b[k] as int == a[k] as int + 32))
    {
      CaseOf(a[k], b[k]);
    }
    hide LowerChar, IsLetter;
    if |a| == |b| && forall k :: 0 <= k < |a| ==> LowerChar(a[k]) == LowerChar(b[k]) { assert Lower(a) == Lower(b); }
  }

  lemma CaseOf(c: char, d: char)
    requires c as int < 128 && d as int < 128
    ensures LowerChar(c) == LowerChar(d) <==> c == d || (IsLetter(c) && IsLetter(d) && (c as int == d as int + 32 || d as int == c as int + 32))
  {
  }

  /** An input that is there and not empty. */
  predicate Present(s: Option<string>) { s.Some? && s.value != "" }

  /** What `setSecret` of the task library throws on. */
  predicate Multiline(secret: string) { '\r' in secret || '\n' in secret }

  lemma WordIsNotSpace(c: char)
    requires IsWord(c)
    ensures !IsSpace(c) && c != '"' && c != '\\' && c != '#' && c != '/' && c != '<' && c != '-'
  {
  }

  predicate AllSpace(s: string) { forall k :: 0 <= k < |s| ==> IsSpace(s[k]) }

  predicate StartsWith(s: string, prefix: string) { prefix <= s }

  predicate EndsWith(s: string, suffix: string) {
    |suffix| <= |s| && s[|s| - |suffix|..] == suffix
  }

  function LeadingSpaces(s: string): (n: nat)
    ensures n <= |s| && AllSpace(s[..n]) && (n < |s| ==> !IsSpace(s[n]))
  {
    hide IsSpace;
    if s != "" && IsSpace(s[0]) then 1 + LeadingSpaces(s[1..]) else 0
  }

  function TrimStart(s: string): (r: string)
    ensures |r| <= |s| && (r != "" ==> !IsSpace(r[0]))
  {
    hide IsSpace;
    s[LeadingSpaces(s)..]
  }

  function TrimEnd(s: string): (r: string)
    ensures r <= s && AllSpace(s[|r|..])
    ensures r != "" ==> !IsSpace(r[|r| - 1])
  {
    hide IsSpace;
    if s != "" && IsSpace(s[|s| - 1]) then TrimEnd(s[..|s| - 1]) else s
  }

  function Trim(s: string): (r: string)
    ensures r != "" ==> !IsSpace(r[0]) && !IsSpace(r[|r| - 1])
  {
    hide IsSpace;
    TrimEnd(TrimStart(s))
  }

  lemma {:induction false} TrimStartPadded(left: string, s: string)
    requires AllSpace(left) && s != "" && !IsSpace(s[0])
    ensures TrimStart(left + s) == s
  {
    hide IsSpace;
    if left == "" {
      assert left + s == s;
    } else {
      assert (left + s)[1..] == left[1..] + s;
      TrimStartPadded(left[1..], s);
    }
  }

  lemma {:induction false} TrimEndPadded(s: string, right: string)
    requires AllSpace(right) && s != "" && !IsSpace(s[|s| - 1])
    ensures TrimEnd(s + right) == s
  {
    hide IsSpace;
    if right == "" {
      assert s + right == s;
    } else {
      assert (s + right)[..|s + right| - 1] == s + right[..|right| - 1];
      TrimEndPadded(s, right[..|right| - 1]);
    }
  }

  /** A string that neither starts nor ends with white space is its own trim, whatever surrounds it. */
  lemma TrimPadded(left: string, s: string, right: string)
    requires AllSpace(left) && AllSpace(right)
    requires s != "" && !IsSpace(s[0]) && !IsSpace(s[|s| - 1])
    ensures Trim(left + s + right) == s
  {
    hide IsSpace;
    assert left + s + right == left + (s + right);
    TrimStartPadded(left, s + right);
    TrimEndPadded(s, right);
  }

  /** Neither starts nor ends with white space. */
  predicate IsTrimmed(s: string) { s != "" ==> !IsSpace(s[0]) && !IsSpace(s[|s| - 1]) }

  lemma AllSpaceJoin(a: string, b: string)
    requires AllSpace(a) && AllSpace(b)
    ensures AllSpace(a + b)
  {
    hide IsSpace;
  }

  /** What trimming takes off. */
  lemma TrimTakesSpace(s: string) returns (left: string, right: string)
    ensures AllSpace(left) && AllSpace(right) && s == left + Trim(s) + right && IsTrimmed(Trim(s))
    ensures Trim(s) == "" ==> AllSpace(s)
  {
    hide IsSpace, LeadingSpaces, TrimEnd;
    var n := LeadingSpaces(s);
    var body := TrimStart(s);
    left, right := s[..n], body[|TrimEnd(body)|..];
    assert body == s[n..] && body == TrimEnd(body) + right;
    if Trim(s) == "" {
      AllSpaceJoin(left, right);
      assert s == left + right;
    }
  }

  /** Trimming undoes padding, of the empty text too. */
  lemma TrimUndoesPadding(left: string, s: string, right: string)
    requires AllSpace(left) && AllSpace(right) && IsTrimmed(s)
    ensures Trim(left + s + right) == s
  {
    if s != "" {
      TrimPadded(left, s, right);
    } else {
      AllSpaceJoin(left, right);
      assert left + s + right == left + right;
      SpaceTrimsToNothing(left + right);
    }
  }

  lemma SpaceTrimsToNothing(s: string)
    requires AllSpace(s)
    ensures Trim(s) == ""
  {
    var left, right := TrimTakesSpace(s);
    InsideOfSpace(left, Trim(s), right);
  }

  lemma InsideOfSpace(left: string, t: string, right: string)
    requires AllSpace(left + t + right)
    ensures AllSpace(t)
  {
    hide IsSpace;
    forall k | 0 <= k < |t| ensures IsSpace(t[k]) { assert (left + t + right)[|left| + k] == t[k]; }
  }

  /** `indexOf(c)` */
  function IndexOf(s: string, c: char): (r: int)
    ensures -1 <= r < |s|
    ensures r >= 0 ==> s[r] == c && c !in s[..r]
    ensures r < 0 <==> c !in s
  {
    if s == "" then -1
    else if s[0] == c then 0
    else
      var rest := IndexOf(s[1..], c);
      if rest < 0 then -1 else rest + 1
  }

  lemma {:induction false} IndexOfFirst(left: string, c: char, right: string)
    requires c !in left
    ensures IndexOf(left + [c] + right, c) == |left|
  {
    var s := left + [c] + right;
    if left != "" {
      assert s[1..] == left[1..] + [c] + right;
      IndexOfFirst(left[1..], c, right);
    }
  }

  /** `split(sep)` for a one-character separator: always at least one piece. */
  function Split(s: string, sep: char): (r: seq<string>)
    ensures |r| >= 1
    ensures forall k :: 0 <= k < |r| ==> sep !in r[k]
  {
    if s == "" then [""]
    else if s[0] == sep then [""] + Split(s[1..], sep)
    else
      var rest := Split(s[1..], sep);
      [[s[0]] + rest[0]] + rest[1..]
  }

  function Join(parts: seq<string>, sep: string): string {
    if parts == [] then ""
    else if |parts| == 1 then parts[0]
    else parts[0] + sep + Join(parts[1..], sep)
  }

  lemma {:induction false} SplitCons(line: string, rest: string, sep: char)
    requires sep !in line
    ensures Split(line + [sep] + rest, sep) == [line] + Split(rest, sep)
  {
    if line == "" {
      assert line + [sep] + rest == [sep] + rest;
    } else {
      SplitCons(line[1..], rest, sep);
      assert (line + [sep] + rest)[1..] == line[1..] + [sep] + rest;
      assert [line[0]] + line[1..] == line;
    }
  }

  lemma {:induction false} SplitNone(line: string, sep: char)
    requires sep !in line
    ensures Split(line, sep) == [line]
  {
    if line != "" {
      SplitNone(line[1..], sep);
      assert [line[0]] + line[1..] == line;
    }
  }

  /** Splitting is undone by joining, and a join of separator-free pieces is undone by splitting. */
  lemma {:induction false} JoinSplit(s: string, sep: char)
    ensures Join(Split(s, sep), [sep]) == s
  {
    if s != "" {
      var rest := Split(s[1..], sep);
      JoinSplit(s[1..], sep);
      if s[0] == sep {
        assert Split(s, sep)[1..] == rest;
      } else {
        assert Split(s, sep)[1..] == rest[1..];
      }
    }
  }

  lemma {:induction false} SplitJoin(parts: seq<string>, sep: char)
    requires parts != [] && forall k :: 0 <= k < |parts| ==> sep !in parts[k]
    ensures Split(Join(parts, [sep]), sep) == parts
  {
    if |parts| == 1 {
      SplitNone(parts[0], sep);
    } else {
      SplitCons(parts[0], Join(parts[1..], [sep]), sep);
      SplitJoin(parts[1..], sep);
    }
  }

  // ── Joined components ────────────────────────────────────────────────────────

  /** A path component: not empty, and free of the separator. */
  predicate IsComponent(c: string, sep: char) { c != "" && sep !in c }

  lemma {:induction false} JoinAppend(a: seq<string>, b: seq<string>, sep: char)
    requires a != [] && b != []
    ensures Join(a + b, [sep]) == Join(a, [sep]) + [sep] + Join(b, [sep])
  {
    assert (a + b)[1..] == a[1..] + b;
    if |a| == 1 {
      assert a + b == [a[0]] + b;
      assert (a + b)[1..] == b;
    } else {
      JoinAppend(a[1..], b, sep);
      assert a[0] + [sep] + (Join(a[1..], [sep]) + [sep] + Join(b, [sep]))
          == (a[0] + [sep] + Join(a[1..], [sep])) + [sep] + Join(b, [sep]);
    }
  }

  /** Two joins agree as strings, up to a following separator, only when the components do. */
  lemma {:induction false} JoinPrefix(a: seq<string>, t: seq<string>, sep: char)
    requires a != [] && t != []
    requires forall k :: 0 <= k < |a| ==> IsComponent(a[k], sep)
    requires forall k :: 0 <= k < |t| ==> IsComponent(t[k], sep)
    requires Join(a, [sep]) + [sep] <= Join(t, [sep]) + [sep]
    ensures a <= t
    decreases |a|
  {
    var ja, jt := Join(a, [sep]) + [sep], Join(t, [sep]) + [sep];
    HeadUpToSep(a, sep);
    HeadUpToSep(t, sep);
    var ra, rt := ja[|a[0]| + 1..], jt[|t[0]| + 1..];
    assert a[0] == t[0] by { SameHead(a[0], ra, t[0], rt, sep); }
    if |a| > 1 {
      assert ra == Join(a[1..], [sep]) + [sep] && ra <= rt;
      assert |t| > 1 by {
        assert |t| == 1 ==> rt == "";
      }
      JoinPrefix(a[1..], t[1..], sep);
    }
  }

  lemma HeadUpToSep(a: seq<string>, sep: char)
    requires a != []
    ensures Join(a, [sep]) + [sep] == a[0] + [sep] + (if |a| == 1 then "" else Join(a[1..], [sep]) + [sep])
  {
  }

  lemma SameHead(x: string, rx: string, y: string, ry: string, sep: char)
    requires sep !in x && sep !in y
    requires x + [sep] + rx <= y + [sep] + ry
    ensures x == y && rx <= ry
  {
    var a, b := x + [sep] + rx, y + [sep] + ry;
    assert a[|x|] == sep && b[|x|] == sep && b[|y|] == sep;
    assert forall k :: 0 <= k < |x| ==> a[k] == x[k] && b[k] == a[k];
    assert forall k :: 0 <= k < |y| ==> b[k] == y[k];
    assert |x| == |y|;
    assert x == a[..|x|] == b[..|x|] == y;
    assert rx == a[|x| + 1..] && ry == b[|x| + 1..];
  }

  lemma {:induction false} JoinEnd(a: seq<string>, sep: char)
    requires a != [] && forall k :: 0 <= k < |a| ==> IsComponent(a[k], sep)
    ensures var j := Join(a, [sep]); j != "" && j[|j| - 1] != sep
  {
    if |a| > 1 { JoinEnd(a[1..], sep); }
  }

  lemma JoinInjective(a: seq<string>, b: seq<string>, sep: char)
    requires forall k :: 0 <= k < |a| ==> IsComponent(a[k], sep)
    requires forall k :: 0 <= k < |b| ==> IsComponent(b[k], sep)
    requires Join(a, [sep]) == Join(b, [sep])
    ensures a == b
  {
    if a == [] || b == [] {
      if a != [] { JoinEnd(a, sep); }
      if b != [] { JoinEnd(b, sep); }
    } else {
      JoinPrefix(a, b, sep);
      JoinPrefix(b, a, sep);
    }
  }

  // ── Lines ────────────────────────────────────────────────────────────────────

  /** `line.replace(/\r$/, '')` */
  function StripCr(line: string): (r: string)
    ensures r == line || r + "\r" == line
  {
    if line != "" && line[|line| - 1] == '\r' then line[..|line| - 1] else line
  }

  /** `value.split(/\r?\n/)` */
  function SplitLines(value: string): seq<string> { var pieces := Split(value, '\n'); SplitCrs(pieces) }

  /** Every piece but the last was followed by a line feed, so it loses one trailing carriage return. */
  function SplitCrs(pieces: seq<string>): (r: seq<string>)
    ensures |r| == |pieces|
    ensures forall k :: 0 <= k < |pieces| ==> r[k] == if k < |pieces| - 1 then StripCr(pieces[k]) else pieces[k]
  {
    seq(|pieces|, k requires 0 <= k < |pieces| => if k < |pieces| - 1 then StripCr(pieces[k]) else pieces[k])
  }

  /** The lines of a value: a line feed ends one, with a carriage return before it, and nothing else does. */
  lemma LinesEndAtFeeds(a: string, b: string)
    ensures SplitLines(a + "\r\n" + b) == SplitLines(a) + SplitLines(b)
    ensures a == "" || a[|a| - 1] != '\r' ==> SplitLines(a + "\n" + b) == SplitLines(a) + SplitLines(b)
    ensures '\n' !in a ==> SplitLines(a) == [a]
  {
    hide StripCr, Split, SplitCrs;
    var left, more, right := Split(a, '\n'), Split(a + "\r", '\n'), Split(b, '\n');
    assert a + "\r\n" + b == (a + "\r") + "\n" + b;
    SplitAt(a, b);
    SplitAt(a + "\r", b);
    LastPieceGrows(a, '\r');
    CrEndsPiece(left[|left| - 1]);
    CrsOfBoth(more, right, left);
    if a == "" {
      SplitNone("", '\n');
      StripNothing("");
      CrsOfBoth(left, right, left);
    } else if a[|a| - 1] != '\r' {
      NoCrAtTheEnd(a);
      CrsOfBoth(left, right, left);
    }
    if '\n' !in a {
      SplitNone(a, '\n');
      CrsOfOne(a);
    }
  }

  lemma CrsOfOne(piece: string)
    ensures SplitCrs([piece]) == [piece]
  {
  }

  /** Once something follows, the last of the pieces loses its carriage return too. */
  lemma CrsOfBoth(pieces: seq<string>, right: seq<string>, plain: seq<string>)
    requires |plain| == |pieces| > 0 && right != []
    requires pieces[..|pieces| - 1] == plain[..|plain| - 1] && StripCr(pieces[|pieces| - 1]) == plain[|plain| - 1]
    ensures SplitCrs(pieces + right) == SplitCrs(plain) + SplitCrs(right)
  {
    hide StripCr, SplitCrs;
    var n := |pieces|;
    var all, left, tail := SplitCrs(pieces + right), SplitCrs(plain), SplitCrs(right);
    forall k | 0 <= k < |all| ensures all[k] == (left + tail)[k] {
      if k < n - 1 {
        assert pieces[..n - 1][k] == plain[..n - 1][k];
      } else if k >= n {
        assert (pieces + right)[k] == right[k - n];
      }
    }
  }

  lemma {:induction false} SplitAt(a: string, b: string)
    ensures Split(a + "\n" + b, '\n') == Split(a, '\n') + Split(b, '\n')
  {
    hide Split;
    SplitStep(a);
    if a == "" {
      SplitStep("\n" + b);
      assert "" + "\n" + b == "\n" + b && ("\n" + b)[1..] == b;
    } else {
      SplitAt(a[1..], b);
      var rest := a[1..] + "\n" + b;
      assert a + "\n" + b == [a[0]] + rest;
      SplitPrepend(a[0], rest);
      FirstOfBoth(a[0], Split(a[1..], '\n'), Split(b, '\n'));
    }
  }

  lemma SplitPrepend(c: char, s: string)
    ensures Split([c] + s, '\n') == var rest := Split(s, '\n'); if c == '\n' then [""] + rest else [[c] + rest[0]] + rest[1..]
  {
    assert ([c] + s)[1..] == s;
  }

  lemma FirstOfBoth(c: char, l: seq<string>, r: seq<string>)
    requires l != []
    ensures [[c] + (l + r)[0]] + (l + r)[1..] == ([[c] + l[0]] + l[1..]) + r && [""] + (l + r) == ([""] + l) + r
  {
  }

  lemma SplitStep(s: string)
    ensures Split(s, '\n') == if s == "" then [""] else
      var rest := Split(s[1..], '\n');
      if s[0] == '\n' then [""] + rest else [[s[0]] + rest[0]] + rest[1..]
  {
  }

  /** A character at the end goes to the last piece. */
  lemma {:induction false} LastPieceGrows(a: string, c: char)
    requires c != '\n'
    ensures var pieces, more := Split(a, '\n'), Split(a + [c], '\n');
      |more| == |pieces| && more[..|more| - 1] == pieces[..|pieces| - 1] && more[|more| - 1] == pieces[|pieces| - 1] + [c]
  {
    hide Split;
    SplitStep(a);
    SplitStep(a + [c]);
    if a == "" {
      SplitNone([c], '\n');
      assert a + [c] == [c] && "" + [c] == [c];
    } else {
      assert (a + [c])[0] == a[0] && (a + [c])[1..] == a[1..] + [c];
      LastPieceGrows(a[1..], c);
      LastOfMore(a[0], Split(a[1..], '\n'), Split(a[1..] + [c], '\n'), c);
    }
  }

  /** Putting a character, or a break, in front of the first piece leaves the last one alone. */
  lemma LastOfMore(first: char, pieces: seq<string>, more: seq<string>, c: char)
    requires |more| == |pieces| > 0 && more[..|more| - 1] == pieces[..|pieces| - 1] && more[|more| - 1] == pieces[|pieces| - 1] + [c]
    ensures var p, m := [""] + pieces, [""] + more; m[..|m| - 1] == p[..|p| - 1] && m[|m| - 1] == p[|p| - 1] + [c]
    ensures var p, m := [[first] + pieces[0]] + pieces[1..], [[first] + more[0]] + more[1..];
      |m| == |p| && m[..|m| - 1] == p[..|p| - 1] && m[|m| - 1] == p[|p| - 1] + [c]
  {
    var n := |pieces|;
    var front, last := pieces[..n - 1], pieces[n - 1];
    assert pieces == front + [last] && more == front + [last + [c]];
    assert ([""] + pieces)[..n] == [""] + front && ([""] + more)[..n] == [""] + front;
    if n == 1 {
      assert [first] + (last + [c]) == [first] + last + [c];
    } else {
      assert pieces[1..] == front[1..] + [last] && more[1..] == front[1..] + [last + [c]];
      FrontOf([first] + pieces[0], front[1..], last);
      FrontOf([first] + pieces[0], front[1..], last + [c]);
    }
  }

  lemma FrontOf(head: string, front: seq<string>, last: string)
    ensures var s := [head] + (front + [last]); s[..|s| - 1] == [head] + front && s[|s| - 1] == last
  {
  }

  lemma CrEndsPiece(piece: string)
    ensures StripCr(piece + "\r") == piece
  {
  }

  lemma StripNothing(piece: string)
    requires piece == "" || piece[|piece| - 1] != '\r'
    ensures StripCr(piece) == piece
  {
  }

  lemma NoCrAtTheEnd(a: string)
    requires a != "" && a[|a| - 1] != '\r'
    ensures var pieces := Split(a, '\n'); StripCr(pieces[|pieces| - 1]) == pieces[|pieces| - 1]
  {
    var front, c := a[..|a| - 1], a[|a| - 1];
    var pieces := Split(a, '\n');
    assert a == front + [c];
    if c == '\n' {
      assert front + "\n" + "" == a;
      SplitAt(front, "");
    } else {
      LastPieceGrows(front, c);
    }
    StripNothing(pieces[|pieces| - 1]);
  }
}
