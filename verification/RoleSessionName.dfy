/**
 The AWS role session name (`credential-guards.ts`, resolveRoleSessionName): derived from the prefix,
 the project and the build id, sanitized by three replaces and cut to 64 characters from the left.
 */
module RoleSessionName {
  import opened JsText

  /** The class `[\w+=,.@-]`. */
  predicate IsAllowed(c: char) { IsWord(c) || c in "+=,.@-" }

  predicate AllAllowed(s: string) { forall k :: 0 <= k < |s| ==> IsAllowed(s[k]) }

  /** `ROLE_SESSION_NAME_PATTERN` */
  predicate IsSessionName(s: string) { 2 <= |s| <= 64 && AllAllowed(s) }

  /** `replace(/[^\w+=,.@-]/g, '-')` */
  function Sanitize(s: string): (r: string)
    ensures |r| == |s| && forall k :: 0 <= k < |s| ==> r[k] == if IsAllowed(s[k]) then s[k] else '-'
  {
    seq(|s|, k requires 0 <= k < |s| => if IsAllowed(s[k]) then s[k] else '-')
  }

  /** `replace(/-{2,}/g, '-')`: a hyphen before a hyphen is dropped. */
  function Collapse(s: string): string {
    if s == "" then ""
    else if s[0] == '-' && |s| > 1 && s[1] == '-' then Collapse(s[1..])
    else [s[0]] + Collapse(s[1..])
  }

  /** `replace(/^-+/, '')` */
  function StripLeft(s: string): (r: string)
    ensures r != "" ==> r[0] != '-'
  {
    if s != "" && s[0] == '-' then StripLeft(s[1..]) else s
  }

  /** `replace(/-+$/, '')` */
  function StripRight(s: string): (r: string)
    ensures r <= s && (r != "" ==> r[|r| - 1] != '-')
  {
    if s != "" && s[|s| - 1] == '-' then StripRight(s[..|s| - 1]) else s
  }

  /** The parts that are there and not blank, in order. */
  function Kept(parts: seq<Option<string>>): seq<string> {
    if parts == [] then []
    else (if parts[0].Some? && Trim(parts[0].value) != "" then [parts[0].value] else []) + Kept(parts[1..])
  }

  function Derived(prefix: string, project: Option<string>, buildId: Option<string>): string {
    StripRight(StripLeft(Collapse(Sanitize(Join(Kept([Some(prefix), project, buildId]), "-")))))
  }

  /** The tail is kept when truncating, with any hyphen the cut exposes removed. */
  function Bounded(derived: string): string {
    if |derived| > 64 then StripLeft(derived[|derived| - 64..]) else derived
  }

  /** `None` when an explicit input is not a valid name. */
  function ResolveRoleSessionName(explicit: Option<string>, prefix: string, project: Option<string>, buildId: Option<string>): Option<string> {
    if explicit.Some? && Trim(explicit.value) != "" then
      if IsSessionName(Trim(explicit.value)) then Some(Trim(explicit.value)) else None
    else
      var bounded := Bounded(Derived(prefix, project, buildId));
      Some(if IsSessionName(bounded) then bounded else prefix)
  }

  // ── The shape of what the replaces leave ─────────────────────────────────────

  predicate NoDouble(s: string) { forall k :: 0 <= k < |s| - 1 ==> !(s[k] == '-' && s[k + 1] == '-') }

  lemma {:induction false} CollapseShape(s: string)
    ensures var r := Collapse(s);
      && NoDouble(r) && (AllAllowed(s) ==> AllAllowed(r)) && |r| <= |s|
      && (s != "" ==> r != "" && r[0] == s[0])
  {
    if s != "" { CollapseShape(s[1..]); }
  }

  /** Collapsing up to a character that is no hyphen leaves the rest to itself. */
  lemma {:induction false} CollapseAppend(a: string, b: string)
    requires b != "" && b[0] != '-'
    ensures Collapse(a + b) == Collapse(a) + Collapse(b)
  {
    hide Collapse;
    CollapseStep(a);
    CollapseStep(a + b);
    if a == "" {
      assert a + b == b;
    } else {
      assert (a + b)[0] == a[0] && (a + b)[1..] == a[1..] + b;
      assert |a| > 1 ==> (a + b)[1] == a[1];
      assert |a| == 1 ==> (a + b)[1] == b[0];
      CollapseAppend(a[1..], b);
      assert [a[0]] + (Collapse(a[1..]) + Collapse(b)) == [a[0]] + Collapse(a[1..]) + Collapse(b);
    }
  }

  lemma CollapseStep(s: string)
    ensures Collapse(s) == if s == "" then "" else (if s[0] == '-' && |s| > 1 && s[1] == '-' then "" else [s[0]]) + Collapse(s[1..])
  {
  }

  lemma {:induction false} CollapseClean(s: string)
    requires NoDouble(s)
    ensures Collapse(s) == s
  {
    if s != "" { CollapseClean(s[1..]); }
  }

  lemma {:induction false} CollapseLast(s: string)
    requires s != ""
    ensures var r := Collapse(s); r != "" && r[|r| - 1] == s[|s| - 1]
  {
    if |s| > 1 {
      CollapseLast(s[1..]);
      CollapseShape(s[1..]);
    } else {
      CollapseShape(s[1..]);
    }
  }

  lemma {:induction false} StripLeftSuffix(s: string)
    ensures var r := StripLeft(s); |r| <= |s| && r == s[|s| - |r|..]
    ensures NoDouble(s) ==> |StripLeft(s)| >= |s| - 1
  {
    if s != "" && s[0] == '-' { StripLeftSuffix(s[1..]); }
  }

  lemma StripRightKeeps(s: string)
    requires s != "" && s[|s| - 1] != '-'
    ensures StripRight(s) == s
  {
  }

  lemma StripLeftKeeps(s: string)
    requires s != "" && s[0] != '-'
    ensures StripLeft(s) == s
  {
  }

  lemma {:induction false} StripRightShape(s: string)
    ensures NoDouble(s) ==> |StripRight(s)| >= |s| - 1
  {
    if s != "" && s[|s| - 1] == '-' { StripRightShape(s[..|s| - 1]); }
  }

  lemma SanitizeAllowed(s: string)
    ensures AllAllowed(Sanitize(s)) && (AllAllowed(s) ==> Sanitize(s) == s)
  {
  }

  lemma SanitizeAppend(a: string, b: string)
    ensures Sanitize(a + b) == Sanitize(a) + Sanitize(b)
  {
    hide IsAllowed;
  }

  /** A prefix as the handlers pass it: two or more allowed characters, no hyphen at either end. */
  predicate GoodPrefix(p: string) { |p| >= 2 && AllAllowed(p) && p[0] != '-' && p[|p| - 1] != '-' }

  lemma GoodPrefixIsKept(p: string)
    requires GoodPrefix(p)
    ensures Trim(p) != ""
  {
    hide Trim;
    AllowedIsNotSpace(p[0]);
    AllowedIsNotSpace(p[|p| - 1]);
    assert "" + p + "" == p;
    hide IsSpace, IsAllowed;
    TrimPadded("", p, "");
  }

  lemma AllowedIsNotSpace(c: char)
    requires IsAllowed(c)
    ensures !IsSpace(c)
  {
  }

  /** What follows the prefix in the joined parts: nothing, or a hyphen and the rest. */
  lemma JoinedParts(prefix: string, project: Option<string>, buildId: Option<string>)
    requires GoodPrefix(prefix)
    ensures var joined := Join(Kept([Some(prefix), project, buildId]), "-");
      prefix <= joined && (joined == prefix || joined[|prefix|] == '-')
  {
    hide Trim;
    GoodPrefixIsKept(prefix);
    var parts := [Some(prefix), project, buildId];
    assert parts[1..] == [project, buildId] && parts[1..][1..] == [buildId] && parts[1..][1..][1..] == [];
    var kept := Kept(parts);
    assert kept[0] == prefix && kept[1..] == Kept([project, buildId]);
    if |kept| > 1 { assert Join(kept, "-") == prefix + ("-" + Join(kept[1..], "-")); }
  }

  /** The sanitized text of a prefix and what follows it. */
  lemma DerivedShape(prefix: string, project: Option<string>, buildId: Option<string>)
    requires GoodPrefix(prefix)
    ensures var d := Derived(prefix, project, buildId);
      |d| >= 2 && AllAllowed(d) && NoDouble(d) && d[0] == prefix[0] && d[|d| - 1] != '-'
  {
    hide Collapse, StripLeft, StripRight, Sanitize, IsAllowed, Kept;
    var joined := Join(Kept([Some(prefix), project, buildId]), "-");
    JoinedParts(prefix, project, buildId);
    var clean := Sanitize(joined);
    SanitizeAllowed(joined);
    var flat := Collapse(clean);
    CollapseShape(clean);
    StripLeftKeeps(flat);
    StripRightShape(flat);
    SecondCharacter(prefix, joined);
  }

  /** Some character of the prefix after its first is kept, so at least two characters remain. */
  lemma SecondCharacter(prefix: string, joined: string)
    requires GoodPrefix(prefix) && prefix <= joined
    ensures var d := StripRight(Collapse(Sanitize(joined)));
      |d| >= 2 && AllAllowed(d) && NoDouble(d) && d[0] == prefix[0]
  {
    hide Sanitize, IsAllowed, Kept, StripRight, Collapse;
    var n := |prefix| - 1;
    var head, tail := joined[..n], joined[n..];
    assert joined == head + tail && tail[0] == prefix[n];
    SanitizeAppend(head, tail);
    SanitizeAllowed(joined);
    SanitizeAllowed(prefix);
    PrefixSanitized(prefix, joined);
    var sh, st := Sanitize(head), Sanitize(tail);
    assert st[0] == prefix[n] && sh[0] == prefix[0];
    CollapseAppend(sh, st);
    CollapseShape(sh + st);
    CollapseShape(sh);
    CollapseShape(st);
    var flat := Collapse(sh + st);
    assert flat == Collapse(sh) + Collapse(st);
    KeepsInner(flat, |Collapse(sh)|);
  }

  lemma PrefixSanitized(prefix: string, joined: string)
    requires GoodPrefix(prefix) && prefix <= joined
    ensures var n := |prefix| - 1;
      Sanitize(joined[..n])[0] == prefix[0] && Sanitize(joined[n..])[0] == prefix[n]
      && |Sanitize(joined[..n])| == n && |Sanitize(joined[n..])| == |joined| - n
  {
    hide IsAllowed;
  }

  /** Stripping hyphens from the right stops at a character that is none. */
  lemma {:induction false} KeepsInner(s: string, k: nat)
    requires k < |s| && s[k] != '-'
    ensures |StripRight(s)| > k && StripRight(s) <= s
  {
    if s[|s| - 1] == '-' {
      KeepsInner(s[..|s| - 1], k);
    }
  }

  /**
   For a proper prefix the name is always the sanitized text, never the fallback: 2 to 64 allowed
   characters, with no hyphen at either end and no two in a row.
   */
  lemma DerivedNameIsValid(prefix: string, project: Option<string>, buildId: Option<string>)
    requires GoodPrefix(prefix)
    ensures var name := Bounded(Derived(prefix, project, buildId));
      && ResolveRoleSessionName(None, prefix, project, buildId) == Some(name)
      && IsSessionName(name) && NoDouble(name) && name[0] != '-' && name[|name| - 1] != '-'
  {
    hide Derived, IsAllowed;
    var d := Derived(prefix, project, buildId);
    DerivedShape(prefix, project, buildId);
    if |d| > 64 {
      var cut := d[|d| - 64..];
      assert NoDouble(cut) by {
        forall k | 0 <= k < |cut| - 1 ensures !(cut[k] == '-' && cut[k + 1] == '-') {
          assert cut[k] == d[|d| - 64 + k] && cut[k + 1] == d[|d| - 64 + k + 1];
        }
      }
      StripLeftSuffix(cut);
      var name := StripLeft(cut);
      SuffixShape(cut, name);
      assert cut[63] == d[|d| - 1];
    }
  }

  lemma SuffixShape(s: string, r: string)
    requires NoDouble(s) && AllAllowed(s) && |r| <= |s| && r == s[|s| - |r|..]
    ensures NoDouble(r) && AllAllowed(r)
  {
    hide IsAllowed;
    assert forall k :: 0 <= k < |r| ==> r[k] == s[|s| - |r| + k];
  }

  // ── The build id survives ────────────────────────────────────────────────────

  /** Letters and digits, at least one. */
  predicate IsBuildId(id: string) {
    id != "" && forall k :: 0 <= k < |id| ==> IsLetter(id[k]) || IsDigit(id[k])
  }

  /** The text after the last hyphen. */
  function AfterLastHyphen(s: string): (r: string)
    ensures |r| <= |s| && ('-' !in s ==> r == s)
  {
    if s == "" || s[|s| - 1] == '-' then "" else AfterLastHyphen(s[..|s| - 1]) + [s[|s| - 1]]
  }

  lemma {:induction false} AfterHyphen(left: string, id: string)
    requires '-' !in id
    ensures AfterLastHyphen(left + "-" + id) == id
  {
    if id == "" {
      assert left + "-" + id == left + "-";
    } else {
      var n := |id| - 1;
      assert (left + "-" + id)[..|left + "-" + id| - 1] == left + "-" + id[..n];
      AfterHyphen(left, id[..n]);
    }
  }

  lemma BuildIdIsPlain(id: string)
    requires IsBuildId(id)
    ensures AllAllowed(id) && '-' !in id && NoDouble(id) && Trim(id) != ""
  {
    hide Trim;
    AllowedIsNotSpace(id[0]);
    AllowedIsNotSpace(id[|id| - 1]);
    assert "" + id + "" == id;
    TrimPadded("", id, "");
  }

  /** With a build id, the joined parts end with a hyphen and the id. */
  lemma JoinedEndsWithId(prefix: string, project: Option<string>, id: string)
    requires GoodPrefix(prefix) && IsBuildId(id)
    ensures exists left :: prefix <= left && Join(Kept([Some(prefix), project, Some(id)]), "-") == left + "-" + id
  {
    hide Trim, IsAllowed;
    GoodPrefixIsKept(prefix);
    BuildIdIsPlain(id);
    var parts := [Some(prefix), project, Some(id)];
    assert parts[1..] == [project, Some(id)] && parts[1..][1..] == [Some(id)] && parts[1..][1..][1..] == [];
    assert Kept([Some(id)]) == [id];
    if project.Some? && Trim(project.value) != "" {
      assert Kept(parts) == [prefix, project.value, id];
      assert [prefix, project.value, id][1..] == [project.value, id] && [project.value, id][1..] == [id];
      var left := prefix + "-" + project.value;
      var inner := project.value + ("-" + id);
      assert Join([project.value, id], "-") == inner;
      assert Join([prefix, project.value, id], "-") == prefix + "-" + inner;
      assert prefix + "-" + inner == left + "-" + id;
      assert prefix <= left;
    } else {
      assert Kept(parts) == [prefix, id];
      assert [prefix, id][1..] == [id];
      assert Join(Kept(parts), "-") == prefix + "-" + id;
    }
  }

  /** The derived text ends with a hyphen and the id, with something before them. */
  lemma DerivedEndsWithId(prefix: string, project: Option<string>, id: string)
    requires GoodPrefix(prefix) && IsBuildId(id)
    ensures exists before :: before != "" && Derived(prefix, project, Some(id)) == before + "-" + id
  {
    hide Trim, IsAllowed, Collapse, Sanitize, StripLeft, StripRight, Kept, Join, IsLetter, IsDigit;
    JoinedEndsWithId(prefix, project, id);
    var left :| prefix <= left && Join(Kept([Some(prefix), project, Some(id)]), "-") == left + "-" + id;
    BuildIdIsPlain(id);
    SanitizedEnd(left, id);
    var head := Sanitize(left) + "-";
    var flat := Collapse(head + id);
    CollapseAppend(head, id);
    CollapseClean(id);
    CollapseShape(head);
    CollapseLast(head);
    var ch := Collapse(head);
    PrefixSanitized(prefix, left);
    SanitizedStart(prefix, left);
    assert flat == ch + id;
    StripLeftKeeps(flat);
    StripRightKeeps(flat);
    assert flat == ch[..|ch| - 1] + "-" + id;
    assert ch[..|ch| - 1] != "" by { assert ch[0] == prefix[0] != '-'; }
  }

  lemma SanitizedStart(prefix: string, left: string)
    requires GoodPrefix(prefix) && prefix <= left
    ensures Sanitize(left) != "" && Sanitize(left)[0] == prefix[0]
  {
    hide IsAllowed;
  }

  lemma SanitizedEnd(left: string, id: string)
    requires AllAllowed(id)
    ensures Sanitize(left + "-" + id) == Sanitize(left) + "-" + id
  {
    HyphenAllowed();
    hide IsAllowed;
    SanitizeAllowed(id);
    SanitizeAllowed("-");
    SanitizeAppend(left + "-", id);
    SanitizeAppend(left, "-");
  }

  lemma HyphenAllowed()
    ensures IsAllowed('-') && AllAllowed("-")
  {
  }

  /**
   An alphanumeric build id is the text after the last hyphen of the name exactly when it fits the 64
   characters, whatever the project is called.
   */
  lemma BuildIdSurvives(prefix: string, project: Option<string>, id: string)
    requires GoodPrefix(prefix) && IsBuildId(id)
    ensures AfterLastHyphen(Bounded(Derived(prefix, project, Some(id)))) == id <==> |id| <= 64
  {
    hide IsAllowed, Derived, IsLetter, IsDigit, Trim, StripLeft, AfterLastHyphen, NoDouble;
    DerivedNameIsValid(prefix, project, Some(id));
    if |id| <= 64 {
      DerivedShape(prefix, project, Some(id));
      DerivedEndsWithId(prefix, project, id);
      BuildIdIsPlain(id);
      var d := Derived(prefix, project, Some(id));
      var before :| before != "" && d == before + "-" + id;
      if |d| <= 64 {
        AfterHyphen(before, id);
      } else {
        CutEndsWithId(before, d, id);
      }
    }
  }

  /** The last 64 characters of a text that ends with a hyphen and the id. */
  lemma CutEndsWithId(before: string, d: string, id: string)
    requires d == before + "-" + id && NoDouble(d) && 1 <= |id| <= 64 < |d| && '-' !in id
    ensures AfterLastHyphen(StripLeft(d[|d| - 64..])) == id
  {
    hide StripLeft, AfterLastHyphen, NoDouble;
    var cut := d[|d| - 64..];
    assert cut[64 - |id|..] == id;
    if |id| == 64 {
      assert cut == id;
      StripLeftKeeps(id);
    } else if |id| == 63 {
      assert cut == "-" + id;
      StripOneHyphen(id);
    } else {
      assert cut == before[|d| - 64..] + "-" + id;
      CutKeepsHyphen(before[|d| - 64..], d, id);
      var kept :| StripLeft(cut) == kept + "-" + id;
      AfterHyphen(kept, id);
    }
  }

  lemma StripOneHyphen(id: string)
    requires id != "" && id[0] != '-'
    ensures StripLeft("-" + id) == id
  {
    assert ("-" + id)[1..] == id;
  }

  lemma CutKeepsHyphen(before: string, d: string, id: string)
    requires before != "" && NoDouble(d) && EndsWith(d, before + "-" + id)
    ensures exists kept :: StripLeft(before + "-" + id) == kept + "-" + id
  {
    var cut := before + "-" + id;
    assert cut == d[|d| - |cut|..];
    assert cut[|before|] == '-';
    assert forall j :: 0 <= j < |cut| ==> cut[j] == d[|d| - |cut| + j];
    if before[0] == '-' {
      assert cut[0] == d[|d| - |cut|] && cut[1] == d[|d| - |cut| + 1];
      assert cut[0] == '-';
      assert cut[1] != '-';
      assert |before| != 1;
      assert cut[1..] == before[1..] + "-" + id;
      StripLeftKeeps(cut[1..]);
      assert StripLeft(cut) == before[1..] + "-" + id;
    } else {
      StripLeftKeeps(cut);
      assert StripLeft(cut) == before + "-" + id;
    }
  }

  /** So two builds of one project share a session name only if an id is longer than 64 characters. */
  lemma DistinctBuildsDistinctNames(prefix: string, project: Option<string>, id: string, id': string)
    requires GoodPrefix(prefix) && IsBuildId(id) && IsBuildId(id') && id != id' && |id| <= 64 && |id'| <= 64
    ensures ResolveRoleSessionName(None, prefix, project, Some(id)) != ResolveRoleSessionName(None, prefix, project, Some(id'))
  {
    hide Bounded, Derived, IsBuildId, GoodPrefix;
    DerivedNameIsValid(prefix, project, Some(id));
    DerivedNameIsValid(prefix, project, Some(id'));
    BuildIdSurvives(prefix, project, id);
    BuildIdSurvives(prefix, project, id');
  }

  // ── The name is its words ────────────────────────────────────────────────────

  /** The stretches without a hyphen. */
  function Words(pieces: seq<string>): (r: seq<string>)
    ensures forall k :: 0 <= k < |r| ==> r[k] != ""
  {
    if pieces == [] then [] else (if pieces[0] == "" then [] else [pieces[0]]) + Words(pieces[1..])
  }

  /** The two replaces of hyphens and the two at the ends leave the words of a text with one hyphen between them. */
  lemma {:induction false} HyphensSeparateWords(s: string)
    ensures StripRight(StripLeft(Collapse(s))) == Join(Words(Split(s, '-')), "-")
    ensures StripLeft(Collapse(s)) == "" <==> Words(Split(s, '-')) == []
    decreases |s|
  {
    hide Collapse, StripLeft, StripRight, Split, Words;
    var word, rest := FirstWord(s);
    NoWords();
    if rest.None? {
      assert s == word;
      SplitNone(word, '-');
      WordsStep(word, []);
      WordIsKept(word);
      OneWord(word);
    } else {
      var tail := rest.value;
      SplitCons(word, tail, '-');
      assert s == word + ['-'] + tail;
      WordsStep(word, Split(tail, '-'));
      HyphensSeparateWords(tail);
      HyphenFirst(tail);
      CollapsePlain(word, "-" + tail);
      assert s == word + ("-" + tail);
      if word == "" {
        assert "" + Collapse("-" + tail) == Collapse("-" + tail) && [] + Words(Split(tail, '-')) == Words(Split(tail, '-'));
      } else {
        StripLeftSuffix(Collapse(tail));
        assert word + ("-" + StripLeft(Collapse(tail))) == Collapse(s);
        WordFirst(word, StripLeft(Collapse(tail)), Words(Split(tail, '-')));
      }
    }
  }

  lemma FirstWord(s: string) returns (word: string, rest: Option<string>)
    ensures '-' !in word && s == word + (if rest.Some? then "-" + rest.value else "")
    ensures rest.Some? ==> |rest.value| < |s|
  {
    var k := 0;
    while k < |s| && s[k] != '-'
      invariant 0 <= k <= |s| && '-' !in s[..k]
    {
      k := k + 1;
    }
    word, rest := s[..k], if k < |s| then Some(s[k + 1..]) else None;
    assert k < |s| ==> s == s[..k] + "-" + s[k + 1..];
  }

  lemma NoWords()
    ensures Words([]) == []
  {
  }

  lemma WordsStep(word: string, pieces: seq<string>)
    ensures Words([word] + pieces) == (if word == "" then [] else [word]) + Words(pieces)
    ensures [word] + [] == [word]
  {
    assert ([word] + pieces)[1..] == pieces;
  }

  lemma WordIsKept(word: string)
    requires '-' !in word
    ensures Collapse(word) == word && StripLeft(word) == word && StripRight(word) == word
  {
    CollapseClean(word);
  }

  lemma {:induction false} CollapsePlain(word: string, rest: string)
    requires '-' !in word
    ensures Collapse(word + rest) == word + Collapse(rest)
  {
    hide Collapse;
    CollapseStep(word + rest);
    if word == "" {
      assert word + rest == rest && word + Collapse(rest) == Collapse(rest);
    } else {
      assert (word + rest)[1..] == word[1..] + rest;
      CollapsePlain(word[1..], rest);
      assert [word[0]] + (word[1..] + Collapse(rest)) == word + Collapse(rest);
    }
  }

  /** A hyphen before a text swallows the hyphens the text begins with. */
  lemma {:induction false} HyphenFirst(rest: string)
    ensures Collapse("-" + rest) == "-" + StripLeft(Collapse(rest)) && StripLeft(Collapse("-" + rest)) == StripLeft(Collapse(rest))
    decreases |rest|
  {
    hide Collapse, StripLeft;
    CollapseHyphen(rest);
    if rest != "" && rest[0] == '-' {
      HyphenFirst(rest[1..]);
      assert rest == "-" + rest[1..];
      StripOne(StripLeft(Collapse(rest[1..])));
    } else {
      CollapseShape(rest);
      StripOne(Collapse(rest));
    }
  }

  lemma CollapseHyphen(rest: string)
    ensures Collapse("-" + rest) == if rest != "" && rest[0] == '-' then Collapse(rest) else "-" + Collapse(rest)
    ensures rest == "" ==> Collapse(rest) == ""
  {
    assert ("-" + rest)[1..] == rest;
  }

  lemma StripOne(s: string)
    requires s == "" || s[0] != '-'
    ensures StripLeft("-" + s) == s && StripLeft(s) == s
  {
    assert ("-" + s)[1..] == s;
  }

  lemma OneWord(word: string)
    ensures Join((if word == "" then [] else [word]) + [], "-") == word
  {
  }

  /** A word, a hyphen, and what is left of the rest. */
  lemma WordFirst(word: string, rest: string, words: seq<string>)
    requires word != "" && '-' !in word && StripRight(rest) == Join(words, "-") && (rest == "" <==> words == [])
    requires rest != "" ==> rest[0] != '-'
    ensures var s := word + ("-" + rest); StripLeft(s) == s && StripRight(s) == Join([word] + words, "-")
  {
    hide StripLeft, StripRight, Join;
    StripLeftKeeps(word + ("-" + rest));
    JoinWord(word, words);
    if rest == "" {
      assert word + ("-" + "") == word + "-";
      StripOneRight(word);
    } else {
      WordThenRest(word, rest);
    }
  }

  lemma WordThenRest(word: string, rest: string)
    requires rest != "" && rest[0] != '-'
    ensures StripRight(word + ("-" + rest)) == word + "-" + StripRight(rest)
  {
    hide StripRight;
    StripRightAfter(word + "-", rest);
    assert word + ("-" + rest) == word + "-" + rest;
  }

  lemma JoinWord(word: string, words: seq<string>)
    ensures Join([word] + words, "-") == if words == [] then word else word + "-" + Join(words, "-")
  {
    assert ([word] + words)[1..] == words;
  }

  lemma StripOneRight(word: string)
    requires word != "" && word[|word| - 1] != '-'
    ensures StripRight(word + "-") == word
  {
    assert (word + "-")[..|word|] == word;
  }

  /** Stripping at the end does not reach what comes before a character that is no hyphen. */
  lemma {:induction false} StripRightAfter(head: string, s: string)
    requires s != "" && s[0] != '-'
    ensures StripRight(head + s) == head + StripRight(s)
    decreases |s|
  {
    if s[|s| - 1] == '-' {
      assert (head + s)[..|head + s| - 1] == head + s[..|s| - 1];
      StripRightAfter(head, s[..|s| - 1]);
    }
  }

  /** What the name is made of: the prefix, and the project and the build id where they are not blank. */
  function Source(prefix: string, project: Option<string>, buildId: Option<string>): string {
    prefix
    + (if project.Some? && Trim(project.value) != "" then "-" + project.value else "")
    + (if buildId.Some? && Trim(buildId.value) != "" then "-" + buildId.value else "")
  }

  /**
   The name, in closed form: the words of the source, a character that is not allowed being a hyphen, with one hyphen between
   them; of more than 64 characters the last 64, without a hyphen in front.
   */
  lemma NameIsItsWords(prefix: string, project: Option<string>, buildId: Option<string>)
    requires GoodPrefix(prefix)
    ensures var words := Join(Words(Split(Sanitize(Source(prefix, project, buildId)), '-')), "-");
      ResolveRoleSessionName(None, prefix, project, buildId) ==
      Some(if |words| <= 64 then words else StripLeft(words[|words| - 64..]))
  {
    hide Trim, Collapse, StripLeft, StripRight, Sanitize, Words, Split, Join, IsAllowed;
    SourceIsJoined(prefix, project, buildId);
    HyphensSeparateWords(Sanitize(Source(prefix, project, buildId)));
    DerivedNameIsValid(prefix, project, buildId);
  }

  lemma SourceIsJoined(prefix: string, project: Option<string>, buildId: Option<string>)
    requires GoodPrefix(prefix)
    ensures Join(Kept([Some(prefix), project, buildId]), "-") == Source(prefix, project, buildId)
  {
    hide Trim, IsAllowed, Kept;
    GoodPrefixIsKept(prefix);
    KeptFirst(Some(prefix), [project, buildId]);
    KeptFirst(project, [buildId]);
    KeptFirst(buildId, []);
    assert [Some(prefix)] + [project, buildId] == [Some(prefix), project, buildId] && [project] + [buildId] == [project, buildId];
    var b := Kept([buildId]);
    JoinWord(prefix, Kept([project, buildId]));
    if project.Some? { JoinWord(project.value, b); }
  }

  lemma KeptFirst(part: Option<string>, parts: seq<Option<string>>)
    ensures Kept([part] + parts) == (if part.Some? && Trim(part.value) != "" then [part.value] else []) + Kept(parts)
    ensures Kept([]) == [] && [part] + [] == [part]
  {
    assert ([part] + parts)[1..] == parts;
  }
}
