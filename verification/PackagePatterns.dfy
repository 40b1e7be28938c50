/**
 The pattern tables of `scripts/lib/package-contents.js` as regular expressions on reported paths, and that
 classification by them is classification by components.
 */
module PackagePatterns {
  import opened JsText
  import opened PackageTree
  import opened PackageContents

  predicate SlashFree(pieces: Path) { forall k :: 0 <= k < |pieces| ==> '/' !in pieces[k] }

  // ── A pattern that begins with `(^|\/)` ──────────────────────────────────────

  predicate Boundary(text: string, i: nat)
    requires i <= |text|
  {
    i == 0 || text[i - 1] == '/'
  }

  /** `(^|\/)`, and then what the matcher accepts of the rest. */
  predicate Somewhere(text: string, matcher: string -> bool) {
    exists i :: 0 <= i <= |text| && Boundary(text, i) && matcher(text[i..])
  }

  /** Such a pattern looks at the rests that begin with a piece of the path. */
  lemma {:induction false} SomewhereIsAtAPiece(pieces: Path, matcher: string -> bool)
    requires pieces != [] && SlashFree(pieces)
    ensures Somewhere(Rel(pieces), matcher) <==> exists k :: 0 <= k < |pieces| && matcher(Rel(pieces[k..]))
  {
    hide Somewhere;
    assert pieces[0..] == pieces;
    if |pieces| == 1 {
      SomewhereInOne(pieces[0], matcher);
    } else {
      var rest := pieces[1..];
      SomewhereIsAtAPiece(rest, matcher);
      SomewhereStep(pieces[0], Rel(rest), matcher);
      assert forall k :: 0 <= k < |rest| ==> rest[k..] == pieces[k + 1..];
      if k :| 0 <= k < |rest| && matcher(Rel(rest[k..])) { assert matcher(Rel(pieces[k + 1..])); }
      if k :| 1 <= k < |pieces| && matcher(Rel(pieces[k..])) { assert matcher(Rel(rest[k - 1..])); }
    }
  }

  lemma SomewhereInOne(piece: string, matcher: string -> bool)
    requires '/' !in piece
    ensures Somewhere(piece, matcher) <==> matcher(piece)
  {
    assert piece[0..] == piece && Boundary(piece, 0);
  }

  lemma SomewhereStep(head: string, rest: string, matcher: string -> bool)
    requires '/' !in head
    ensures Somewhere(head + "/" + rest, matcher) <==> matcher(head + "/" + rest) || Somewhere(rest, matcher)
  {
    var text, n := head + "/" + rest, |head| + 1;
    assert text[0..] == text && Boundary(text, 0);
    forall i: nat | i <= |rest| ensures text[n + i..] == rest[i..] && (Boundary(text, n + i) <==> Boundary(rest, i)) {
      assert text[n + i - 1] == if i == 0 then '/' else rest[i - 1];
    }
    forall i: nat | 0 < i <= |head| ensures !Boundary(text, i) { assert text[i - 1] == head[i - 1]; }
    if Somewhere(rest, matcher) {
      var i: nat :| i <= |rest| && Boundary(rest, i) && matcher(rest[i..]);
      assert Boundary(text, n + i) && matcher(text[n + i..]);
    }
    if i: nat :| 0 < i <= |text| && Boundary(text, i) && matcher(text[i..]) {
      assert i >= n && Boundary(rest, i - n) && matcher(rest[i - n..]);
    }
  }

  // ── The matchers ─────────────────────────────────────────────────────────────

  /** `name(\/|$)` */
  function Segment(name: string): string -> bool {
    rest => name <= rest && (|rest| == |name| || rest[|name|] == '/')
  }

  /** `name$` */
  function Whole(name: string): string -> bool { rest => rest == name }

  /** `prefix[^/]*$` */
  function Prefixed(prefix: string): string -> bool { rest => prefix <= rest && '/' !in rest }

  /** `tsconfig[^/]*\.json$` */
  function Tsconfig(): string -> bool {
    rest => StartsWith(rest, "tsconfig") && EndsWith(rest, ".json") && |rest| >= |"tsconfig"| + |".json"| && '/' !in rest
  }

  /** `stem($|\.)` */
  function Stem(stem: string): string -> bool {
    rest => stem <= rest && (|rest| == |stem| || rest[|stem|] == '.')
  }

  lemma SegmentAtPiece(tail: Path, name: string)
    requires tail != [] && SlashFree(tail) && '/' !in name
    ensures Segment(name)(Rel(tail)) <==> tail[0] == name
  {
    var head, text := tail[0], Rel(tail);
    if |tail| > 1 { assert text[|head|] == '/' && text[..|head|] == head; } else { assert text == head; }
    assert forall m :: 0 <= m < |head| ==> text[m] == head[m];
    if name <= text { assert forall m :: 0 <= m < |name| ==> name[m] == text[m]; }
  }

  lemma TwoSegmentsAtPiece(tail: Path, a: string, b: string)
    requires tail != [] && SlashFree(tail) && '/' !in a && '/' !in b
    ensures Segment(a + "/" + b)(Rel(tail)) <==> |tail| > 1 && tail[0] == a && tail[1] == b
  {
    OneOrMore(tail);
    hide Rel, Segment;
    SegmentAtPiece(tail, a);
    if |tail| > 1 {
      SegmentAtPiece(tail[1..], b);
      if tail[0] == a {
        SegmentAfterSlash(a, b, Rel(tail[1..]));
      } else {
        SegmentBelow(a, b, Rel(tail));
      }
    } else if Segment(a + "/" + b)(Rel(tail)) {
      SegmentHasSlash(a, b, Rel(tail));
    }
  }

  /** After the first name and its slash the rest of the pattern is left. */
  lemma SegmentAfterSlash(a: string, b: string, more: string)
    ensures Segment(a + "/" + b)(a + "/" + more) <==> Segment(b)(more)
  {
    var text, both := a + "/" + more, a + "/" + b;
    assert text[|a| + 1..] == more && both[|a| + 1..] == b;
    if b <= more {
      assert more == b + more[|b|..];
      assert text == both + more[|b|..];
    }
    if both <= text { assert more[..|b|] == text[..|both|][|a| + 1..]; }
    assert |more| > |b| ==> text[|both|] == more[|b|];
  }

  /** A text that begins with both names begins with the first. */
  lemma SegmentBelow(a: string, b: string, text: string)
    ensures Segment(a + "/" + b)(text) ==> Segment(a)(text)
  {
    var both := a + "/" + b;
    if both <= text {
      assert text[..|a|] == both[..|a|] == a && text[|a|] == both[|a|] == '/';
    }
  }

  lemma SegmentHasSlash(a: string, b: string, text: string)
    requires Segment(a + "/" + b)(text)
    ensures '/' in text
  {
    var both := a + "/" + b;
    assert text[|a|] == both[|a|] == '/';
  }

  lemma OneOrMore(tail: Path)
    requires tail != []
    ensures Rel(tail) == if |tail| == 1 then tail[0] else tail[0] + "/" + Rel(tail[1..])
  {
  }

  /** A rest without a slash is the last piece. */
  lemma LastPiece(tail: Path)
    requires tail != [] && SlashFree(tail)
    ensures '/' !in Rel(tail) <==> |tail| == 1
    ensures |tail| == 1 ==> Rel(tail) == tail[0]
  {
    hide Rel;
    OneOrMore(tail);
    if |tail| > 1 { assert Rel(tail)[|tail[0]|] == '/'; }
  }

  lemma StemAtPiece(tail: Path, stem: string)
    requires tail != [] && SlashFree(tail) && '/' !in stem
    ensures Stem(stem)(Rel(tail)) <==> tail == [stem] || stem + "." <= tail[0]
  {
    hide Rel;
    OneOrMore(tail);
    var head, text := tail[0], Rel(tail);
    assert head <= text && (|tail| > 1 ==> text[|head|] == '/');
    assert forall m :: 0 <= m < |head| ==> text[m] == head[m];
    if stem + "." <= head {
      assert (stem + ".")[|stem|] == '.' && stem == (stem + ".")[..|stem|];
      assert text[|stem|] == '.' && stem <= text;
    }
    if Stem(stem)(text) {
      assert forall m :: 0 <= m < |stem| ==> stem[m] == text[m];
      if |stem| < |head| {
        assert head[..|stem| + 1] == stem + ".";
      } else {
        assert |stem| == |head| && |tail| == 1 && stem == head;
      }
    }
  }

  /** A pattern `suffix$` on a reported path looks at the last component only. */
  lemma {:induction false} SuffixLooksAtLast(path: Path, suffix: string)
    requires path != [] && '/' !in suffix
    ensures EndsWith(Rel(path), suffix) <==> EndsWith(Last(path), suffix)
  {
    if |path| > 1 {
      SuffixLooksAtLast(path[1..], suffix);
      SuffixStep(path[0] + "/", Rel(path[1..]), suffix);
    }
  }

  lemma SuffixStep(head: string, rest: string, suffix: string)
    requires head != "" && head[|head| - 1] == '/' && '/' !in suffix
    ensures EndsWith(head + rest, suffix) <==> EndsWith(rest, suffix)
  {
    var text := head + rest;
    if |suffix| <= |rest| {
      assert text[|text| - |suffix|..] == rest[|rest| - |suffix|..];
    } else if |suffix| <= |text| {
      assert text[|text| - |suffix|..][|suffix| - |rest| - 1] == text[|head| - 1] == '/';
    }
  }

  lemma SuffixesLookAtLast(pieces: Path, suffixes: seq<string>)
    requires pieces != [] && SlashFree(suffixes)
    ensures HasSuffix(Rel(pieces), suffixes) <==> HasSuffix(Last(pieces), suffixes)
  {
    hide Rel, EndsWith;
    forall j | 0 <= j < |suffixes| ensures EndsWith(Rel(pieces), suffixes[j]) <==> EndsWith(Last(pieces), suffixes[j]) {
      SuffixLooksAtLast(pieces, suffixes[j]);
    }
  }

  // ── Tables of patterns ───────────────────────────────────────────────────────

  /** `node_modules\/name(\/|$)` */
  function InModules(name: string): string -> bool { Segment("node_modules" + "/" + name) }

  /** Some pattern of the table matches somewhere; `pattern` makes the matcher of a name. */
  predicate AnySomewhere(text: string, names: seq<string>, pattern: string -> (string -> bool)) {
    exists j :: 0 <= j < |names| && Somewhere(text, pattern(names[j]))
  }

  lemma TableIsAtAPiece(pieces: Path, names: seq<string>, pattern: string -> (string -> bool))
    requires pieces != [] && SlashFree(pieces)
    ensures AnySomewhere(Rel(pieces), names, pattern)
            <==> exists k, j :: 0 <= k < |pieces| && 0 <= j < |names| && pattern(names[j])(Rel(pieces[k..]))
  {
    hide Rel, Somewhere;
    forall j | 0 <= j < |names|
      ensures Somewhere(Rel(pieces), pattern(names[j])) <==> exists k :: 0 <= k < |pieces| && pattern(names[j])(Rel(pieces[k..]))
    {
      SomewhereIsAtAPiece(pieces, pattern(names[j]));
    }
  }

  lemma SegmentTable(pieces: Path, names: seq<string>)
    requires pieces != [] && SlashFree(pieces) && SlashFree(names)
    ensures AnySomewhere(Rel(pieces), names, Segment) <==> exists k :: 0 <= k < |pieces| && pieces[k] in names
  {
    hide Rel, AnySomewhere, Segment;
    TableIsAtAPiece(pieces, names, Segment);
    forall k, j | 0 <= k < |pieces| && 0 <= j < |names| ensures Segment(names[j])(Rel(pieces[k..])) <==> pieces[k] == names[j] {
      SegmentAtPiece(pieces[k..], names[j]);
    }
    if k :| 0 <= k < |pieces| && pieces[k] in names {
      var j :| 0 <= j < |names| && names[j] == pieces[k];
      assert Segment(names[j])(Rel(pieces[k..]));
    }
  }

  lemma InModulesTable(pieces: Path, names: seq<string>)
    requires pieces != [] && SlashFree(pieces) && SlashFree(names)
    ensures AnySomewhere(Rel(pieces), names, InModules)
            <==> exists k :: 0 <= k < |pieces| - 1 && pieces[k] == "node_modules" && pieces[k + 1] in names
  {
    hide Rel, AnySomewhere, Segment;
    TableIsAtAPiece(pieces, names, InModules);
    forall k, j | 0 <= k < |pieces| && 0 <= j < |names|
      ensures InModules(names[j])(Rel(pieces[k..])) <==> k + 1 < |pieces| && pieces[k] == "node_modules" && pieces[k + 1] == names[j]
    {
      TwoSegmentsAtPiece(pieces[k..], "node_modules", names[j]);
    }
    if k, j :| 0 <= k < |pieces| && 0 <= j < |names| && InModules(names[j])(Rel(pieces[k..])) {
      assert k < |pieces| - 1 && pieces[k] == "node_modules" && pieces[k + 1] in names;
    }
    if k :| 0 <= k < |pieces| - 1 && pieces[k] == "node_modules" && pieces[k + 1] in names {
      var j :| 0 <= j < |names| && names[j] == pieces[k + 1];
      assert InModules(names[j])(Rel(pieces[k..]));
    }
  }

  lemma WholeTable(pieces: Path, names: seq<string>)
    requires pieces != [] && SlashFree(pieces) && SlashFree(names)
    ensures AnySomewhere(Rel(pieces), names, Whole) <==> Last(pieces) in names
  {
    hide Rel, AnySomewhere;
    TableIsAtAPiece(pieces, names, Whole);
    var last := |pieces| - 1;
    forall k | 0 <= k < |pieces| ensures '/' !in Rel(pieces[k..]) <==> k == last
      ensures k == last ==> Rel(pieces[k..]) == Last(pieces)
    {
      LastPiece(pieces[k..]);
    }
    if Last(pieces) in names {
      var j :| 0 <= j < |names| && names[j] == Last(pieces);
      assert Whole(names[j])(Rel(pieces[last..]));
    }
  }

  lemma PrefixTable(pieces: Path, names: seq<string>)
    requires pieces != [] && SlashFree(pieces)
    ensures AnySomewhere(Rel(pieces), names, Prefixed) <==> HasPrefix(Last(pieces), names)
  {
    hide Rel, AnySomewhere;
    TableIsAtAPiece(pieces, names, Prefixed);
    var last := |pieces| - 1;
    forall k | 0 <= k < |pieces| ensures '/' !in Rel(pieces[k..]) <==> k == last
      ensures k == last ==> Rel(pieces[k..]) == Last(pieces)
    {
      LastPiece(pieces[k..]);
    }
    if j :| 0 <= j < |names| && names[j] <= Last(pieces) { assert Prefixed(names[j])(Rel(pieces[last..])); }
  }

  lemma TsconfigAtLast(pieces: Path)
    requires pieces != [] && SlashFree(pieces)
    ensures Somewhere(Rel(pieces), Tsconfig()) <==> Tsconfig()(Last(pieces))
  {
    hide Rel, Somewhere, EndsWith;
    SomewhereIsAtAPiece(pieces, Tsconfig());
    var last := |pieces| - 1;
    forall k | 0 <= k < |pieces| ensures '/' !in Rel(pieces[k..]) <==> k == last
      ensures k == last ==> Rel(pieces[k..]) == Last(pieces)
    {
      LastPiece(pieces[k..]);
    }
    if Tsconfig()(Last(pieces)) { assert Tsconfig()(Rel(pieces[last..])); }
  }

  lemma StemTable(pieces: Path, stems: seq<string>)
    requires pieces != [] && SlashFree(pieces) && SlashFree(stems)
    ensures AnySomewhere(Rel(pieces), stems, Stem)
            <==> (Last(pieces) in stems || exists i :: 0 <= i < |pieces| && exists j :: 0 <= j < |stems| && stems[j] + "." <= pieces[i])
  {
    hide Rel, AnySomewhere, Stem;
    TableIsAtAPiece(pieces, stems, Stem);
    forall k, j | 0 <= k < |pieces| && 0 <= j < |stems|
      ensures Stem(stems[j])(Rel(pieces[k..])) <==> (k == |pieces| - 1 && Last(pieces) == stems[j]) || stems[j] + "." <= pieces[k]
    {
      StemAtPiece(pieces[k..], stems[j]);
      assert pieces[k..] == [stems[j]] <==> k == |pieces| - 1 && pieces[k] == stems[j];
    }
    if Last(pieces) in stems {
      var j :| 0 <= j < |stems| && stems[j] == Last(pieces);
      assert Stem(stems[j])(Rel(pieces[|pieces| - 1..]));
    }
    if i, j :| 0 <= i < |pieces| && 0 <= j < |stems| && stems[j] + "." <= pieces[i] { assert Stem(stems[j])(Rel(pieces[i..])); }
  }

  // ── The classification of a path's text ──────────────────────────────────────

  predicate TextDropsTree(text: string) {
    AnySomewhere(text, DROPPED_NAMES, Segment) || AnySomewhere(text, DROPPED_IN_MODULES, InModules)
  }

  predicate TextDropsName(text: string) {
    || HasSuffix(text, DROPPED_SUFFIXES) || Somewhere(text, Tsconfig())
    || AnySomewhere(text, DROPPED_FILES, Whole) || AnySomewhere(text, DROPPED_PREFIXES, Prefixed)
  }

  /** `DROP_PATTERNS` */
  predicate TextDrops(text: string) { TextDropsTree(text) || TextDropsName(text) }

  /** `NEVER_SHIP_PATTERNS` */
  predicate TextIsSecret(text: string) {
    AnySomewhere(text, SECRET_STEMS, Stem) || HasSuffix(text, SECRET_SUFFIXES) || AnySomewhere(text, SECRET_FILES, Whole)
  }

  predicate TextInNodeModules(text: string) { AnySomewhere(text, ["node_modules"], Segment) }

  /** `SHIP_PATTERNS` */
  predicate TextIsAllowed(text: string) { HasSuffix(text, SHIPPED_SUFFIXES) || AnySomewhere(text, SHIPPED_FILES, Whole) }

  function TextClassify(text: string): Verdict {
    if TextDrops(text) then Drop
    else if TextIsSecret(text) then NeverShip
    else if TextInNodeModules(text) then Ship
    else if TextIsAllowed(text) then Ship
    else Unknown
  }

  predicate TextDirectoryDropped(text: string) { TextDrops(text + "/") || TextDrops(text) }

  lemma TablesAreSlashFree()
    ensures SlashFree(DROPPED_NAMES) && SlashFree(DROPPED_IN_MODULES) && SlashFree(DROPPED_SUFFIXES) && SlashFree(DROPPED_FILES)
  {
  }

  lemma MoreTablesAreSlashFree()
    ensures SlashFree(SECRET_SUFFIXES) && SlashFree(SECRET_FILES) && SlashFree(SECRET_STEMS)
    ensures SlashFree(SHIPPED_SUFFIXES) && SlashFree(SHIPPED_FILES) && SlashFree(["node_modules"])
  {
  }

  lemma DropsAreByPieces(pieces: Path)
    requires pieces != [] && SlashFree(pieces)
    ensures TextDropsTree(Rel(pieces)) <==> DropsTree(pieces)
    ensures TextDropsName(Rel(pieces)) <==> DropsName(Last(pieces))
  {
    TablesAreSlashFree();
    hide Rel, AnySomewhere, HasSuffix, HasPrefix, Somewhere, SlashFree;
    SegmentTable(pieces, DROPPED_NAMES);
    InModulesTable(pieces, DROPPED_IN_MODULES);
    DropsTreeParts(pieces);
    SuffixesLookAtLast(pieces, DROPPED_SUFFIXES);
    TsconfigAtLast(pieces);
    LastIsSlashFree(pieces);
    WholeTable(pieces, DROPPED_FILES);
    PrefixTable(pieces, DROPPED_PREFIXES);
  }

  lemma LastIsSlashFree(pieces: Path)
    requires pieces != [] && SlashFree(pieces)
    ensures '/' !in Last(pieces)
  {
  }

  lemma DropsTreeParts(pieces: Path)
    ensures DropsTree(pieces)
            <==> ((exists k :: 0 <= k < |pieces| && pieces[k] in DROPPED_NAMES)
                  || (exists k :: 0 <= k < |pieces| - 1 && pieces[k] == "node_modules" && pieces[k + 1] in DROPPED_IN_MODULES))
  {
    if k :| 0 <= k < |pieces| && pieces[k] in DROPPED_NAMES { assert DropsAt(pieces, k); }
    if k :| 0 <= k < |pieces| - 1 && pieces[k] == "node_modules" && pieces[k + 1] in DROPPED_IN_MODULES { assert DropsAt(pieces, k); }
  }

  /** Matching the patterns against the reported path is classifying its components. */
  lemma ClassifyIsByPatterns(path: Path)
    requires path != [] && SlashFree(path)
    ensures TextClassify(Rel(path)) == Classify(path) && TextInNodeModules(Rel(path)) == InNodeModules(path)
  {
    MoreTablesAreSlashFree();
    DropsAreByPieces(path);
    hide Rel, AnySomewhere, HasSuffix, TextDropsTree, TextDropsName, DropsTree, DropsName, SlashFree;
    StemTable(path, SECRET_STEMS);
    SuffixesLookAtLast(path, SECRET_SUFFIXES);
    WholeTable(path, SECRET_FILES);
    SegmentTable(path, ["node_modules"]);
    SuffixesLookAtLast(path, SHIPPED_SUFFIXES);
    WholeTable(path, SHIPPED_FILES);
  }

  /** So is the test for pruning, which also tries the path with a trailing slash. */
  lemma DirectoryDroppedIsByPatterns(path: Path)
    requires path != [] && SlashFree(path)
    ensures TextDirectoryDropped(Rel(path)) <==> DirectoryDropped(path)
  {
    var trailing := path + [""];
    DropsAreByPieces(path);
    DropsAreByPieces(trailing);
    TrailingSlash(path);
    NothingDropsAtTheSlash(path);
    hide Rel, TextDropsTree, TextDropsName, DropsTree, DropsName, SecretShaped, Allowed;
  }

  lemma {:induction false} TrailingSlash(path: Path)
    requires path != []
    ensures Rel(path + [""]) == Rel(path) + "/"
  {
    JoinAppend(path, [""], '/');
  }

  lemma NothingDropsAtTheSlash(path: Path)
    ensures DropsTree(path + [""]) <==> DropsTree(path)
    ensures !DropsName("") && Last(path + [""]) == ""
  {
    DropsTreeParts(path);
    DropsTreeParts(path + [""]);
    assert "" !in DROPPED_NAMES && "" !in DROPPED_IN_MODULES;
    hide DropsTree;
    var more := path + [""];
    assert forall k :: 0 <= k < |path| ==> more[k] == path[k];
    assert more[|path|] == "";
  }
}
