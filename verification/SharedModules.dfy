/**
 The parity check of duplicated modules and its `--fix` (`scripts/check-shared-modules.js`): copies are
 compared with their canonical file modulo line endings and rewritten byte for byte.
 */
module SharedModules {
  import opened JsText

  /** A file by its directory and name. */
  datatype Place = Place(dir: string, file: string)

  type Files = map<Place, string>

  datatype Family = Family(dirs: seq<string>, modules: seq<string>)

  /** `replace(/\r\n/g, '\n')` */
  function Normalize(s: string): string {
    if s == "" then ""
    else if s[0] == '\r' && |s| > 1 && s[1] == '\n' then Normalize(s[1..])
    else [s[0]] + Normalize(s[1..])
  }

  /** What normalization leaves is the lines, one line feed between them. */
  lemma {:induction false} NormalizeJoinsLines(s: string)
    ensures Normalize(s) == Join(SplitLines(s), "\n")
    decreases |s|
  {
    hide SplitLines;
    if s == "" {
      LinesEndAtFeeds("", "");
    } else if s[0] == '\n' {
      LinesEndAtFeeds("", s[1..]);
      assert s == "" + "\n" + s[1..];
      NormalizeJoinsLines(s[1..]);
      BreakFirst(s[1..]);
    } else if s[0] == '\r' && |s| > 1 && s[1] == '\n' {
      LinesEndAtFeeds("", s[2..]);
      assert s == "" + "\r\n" + s[2..] && s[1..][1..] == s[2..];
      NormalizeJoinsLines(s[2..]);
      BreakFirst(s[2..]);
      assert Normalize(s[1..]) == "\n" + Normalize(s[2..]);
    } else {
      NormalizeJoinsLines(s[1..]);
      CharacterFirst(s);
    }
  }

  lemma BreakFirst(rest: string)
    ensures Join([""] + SplitLines(rest), "\n") == "\n" + Join(SplitLines(rest), "\n") && Join([""] + SplitLines(rest), "\n")[1..] == Join(SplitLines(rest), "\n")
    ensures SplitLines("") == [""]
  {
    var lines := SplitLines(rest);
    assert ([""] + lines)[1..] == lines;
    LinesEndAtFeeds("", "");
  }

  /** A character that begins no line break belongs to the first line. */
  lemma CharacterFirst(s: string)
    requires s != "" && s[0] != '\n' && !(s[0] == '\r' && |s| > 1 && s[1] == '\n')
    ensures Join(SplitLines(s), "\n") == [s[0]] + Join(SplitLines(s[1..]), "\n")
  {
    hide Split, StripCr;
    var pieces, rest := Split(s, '\n'), Split(s[1..], '\n');
    SplitStep(s);
    SplitStep(s[1..]);
    StripAfter(s[0], rest[0]);
    var lines, more := SplitLines(s), SplitLines(s[1..]);
    assert lines == [[s[0]] + more[0]] + more[1..];
    if |more| == 1 { assert Join(lines, "\n") == lines[0]; } else { assert lines[1..] == more[1..]; }
  }

  lemma StripAfter(c: char, piece: string)
    ensures !(c == '\r' && piece == "") ==> StripCr([c] + piece) == [c] + StripCr(piece)
  {
  }

  /** Two texts are the same to the check exactly when they have the same lines, each ended by a line feed or by both characters. */
  lemma SameLinesExactly(a: string, b: string)
    ensures Normalize(a) == Normalize(b) <==> SplitLines(a) == SplitLines(b)
  {
    NormalizeJoinsLines(a);
    NormalizeJoinsLines(b);
    LinesHaveNoFeed(a);
    LinesHaveNoFeed(b);
    SplitJoin(SplitLines(a), '\n');
    SplitJoin(SplitLines(b), '\n');
  }

  lemma LinesHaveNoFeed(s: string)
    ensures SplitLines(s) != [] && forall k :: 0 <= k < |SplitLines(s)| ==> '\n' !in SplitLines(s)[k]
  {
    hide Split;
    var pieces := Split(s, '\n');
    assert forall k :: 0 <= k < |pieces| ==> '\n' !in pieces[k];
  }

  /** Two directories at least, and one module, in every family. */
  predicate Comparable(families: seq<Family>) {
    forall k :: 0 <= k < |families| ==> |families[k].dirs| >= 2 && families[k].modules != []
  }

  /** The run so far: the files, whether it has failed, and how many copies it has rewritten. */
  datatype Progress = Progress(files: Files, failed: bool, rewritten: nat)

  /** One copy against its canonical file, which is there. */
  function CompareCopy(p: Progress, canonical: Place, copy: Place, fix: bool): Progress
    requires canonical in p.files
  {
    if copy !in p.files then p.(failed := true)
    else if Normalize(p.files[copy]) == Normalize(p.files[canonical]) then p
    else if fix then Progress(p.files[copy := p.files[canonical]], p.failed, p.rewritten + 1)
    else p.(failed := true)
  }

  /** Whether the canonical file is there, then each copy in turn. */
  function ComparePair(p: Progress, canonical: Place, copy: Place, fix: bool): Progress {
    if canonical in p.files then CompareCopy(p, canonical, copy, fix) else p.(failed := true)
  }

  /** The copies of one module of a family, canonical directory aside. */
  function CopiesOf(dirs: seq<string>, file: string): (r: seq<Place>)
    ensures |r| == |dirs| && forall k :: 0 <= k < |dirs| ==> r[k] == Place(dirs[k], file)
  {
    seq(|dirs|, k requires 0 <= k < |dirs| => Place(dirs[k], file))
  }

  /** A canonical file and one of its copies. */
  datatype Pair = Pair(canonical: Place, copy: Place)

  function PairsOf(canonical: Place, copies: seq<Place>): (r: seq<Pair>)
    ensures |r| == |copies| && forall k :: 0 <= k < |copies| ==> r[k] == Pair(canonical, copies[k])
  {
    seq(|copies|, k requires 0 <= k < |copies| => Pair(canonical, copies[k]))
  }

  function FilePairs(dirs: seq<string>, file: string): seq<Pair>
    requires dirs != []
  {
    PairsOf(Place(dirs[0], file), CopiesOf(dirs[1..], file))
  }

  function ModulePairs(dirs: seq<string>, modules: seq<string>): seq<Pair>
    requires dirs != []
    decreases |modules|
  {
    if modules == [] then [] else FilePairs(dirs, modules[0]) + ModulePairs(dirs, modules[1..])
  }

  /** Every pair the loops visit, in order. */
  function FamilyPairs(families: seq<Family>): seq<Pair>
    requires forall k :: 0 <= k < |families| ==> families[k].dirs != []
    decreases |families|
  {
    if families == [] then [] else ModulePairs(families[0].dirs, families[0].modules) + FamilyPairs(families[1..])
  }

  function ComparePairs(p: Progress, pairs: seq<Pair>, fix: bool): Progress
    decreases |pairs|
  {
    if pairs == [] then p else ComparePairs(ComparePair(p, pairs[0].canonical, pairs[0].copy, fix), pairs[1..], fix)
  }

  lemma {:induction false} ComparePairsAppend(p: Progress, a: seq<Pair>, b: seq<Pair>, fix: bool)
    ensures ComparePairs(p, a + b, fix) == ComparePairs(ComparePairs(p, a, fix), b, fix)
    decreases |a|
  {
    hide ComparePair;
    if a == [] {
      assert a + b == b;
    } else {
      assert (a + b)[0] == a[0] && (a + b)[1..] == a[1..] + b;
      ComparePairsAppend(ComparePair(p, a[0].canonical, a[0].copy, fix), a[1..], b, fix);
    }
  }

  // ── Provenance ───────────────────────────────────────────────────────────────

  /** A file copied from another repository; an absent field is empty. */
  datatype Entry = Entry(dir: string, file: string, upstream: string)

  /** The three marks of a provenance header. */
  datatype Mark = Upstream(name: string) | Policy | Status

  /** `head` is the first 40 lines. */
  const HEADER_LINES := 40

  function Head(text: string): string {
    var lines := Split(text, '\n');
    Join(if |lines| <= HEADER_LINES then lines else lines[..HEADER_LINES], "\n")
  }

  /** In the header, and not twice in the file. `matches` counts the matches of a mark's expression. */
  predicate Declares(matches: (Mark, string) -> nat, mark: Mark, text: string) {
    matches(mark, Head(text)) > 0 && matches(mark, text) <= 1
  }

  function MarksOf(upstream: string): seq<Mark> { [Upstream(upstream), Policy, Status] }

  predicate CarriesHeader(matches: (Mark, string) -> nat, upstream: string, text: string) {
    forall k :: 0 <= k < |MarksOf(upstream)| ==> Declares(matches, MarksOf(upstream)[k], text)
  }

  /** Each of the three marks is in the first lines, and in the whole file once. */
  lemma HeaderIsExact(matches: (Mark, string) -> nat, upstream: string, text: string)
    ensures CarriesHeader(matches, upstream, text) <==>
      forall mark :: mark == Upstream(upstream) || mark == Policy || mark == Status ==> matches(mark, Head(text)) > 0 && matches(mark, text) <= 1
  {
    hide Head;
    var marks := MarksOf(upstream);
    assert marks[0] == Upstream(upstream) && marks[1] == Policy && marks[2] == Status;
    forall mark | mark == Upstream(upstream) || mark == Policy || mark == Status
      ensures CarriesHeader(matches, upstream, text) ==> Declares(matches, mark, text)
    {
      assert mark == marks[0] || mark == marks[1] || mark == marks[2];
    }
  }

  /** The head is the whole text when it has at most 40 lines, and otherwise the 40 lines before the rest. */
  lemma HeadIsTheFirstLines(text: string)
    ensures |Split(text, '\n')| <= 40 ==> Head(text) == text
    ensures |Split(text, '\n')| > 40 ==> |Split(Head(text), '\n')| == 40 && exists rest :: text == Head(text) + "\n" + rest
  {
    hide Split;
    var lines := Split(text, '\n');
    JoinSplit(text, '\n');
    if |lines| > 40 {
      assert lines == lines[..40] + lines[40..];
      JoinAppend(lines[..40], lines[40..], '\n');
      SplitJoin(lines[..40], '\n');
      assert text == Head(text) + "\n" + Join(lines[40..], "\n");
    }
  }

  predicate EntryHolds(matches: (Mark, string) -> nat, files: Files, entry: Entry) {
    var place := Place(entry.dir, entry.file);
    place in files && CarriesHeader(matches, entry.upstream, Normalize(files[place]))
  }

  predicate ProvenanceHolds(matches: (Mark, string) -> nat, files: Files, entries: seq<Entry>) {
    forall k :: 0 <= k < |entries| ==> EntryHolds(matches, files, entries[k])
  }

  /** Every entry names a directory, a file and a repository. */
  predicate Checkable(entries: seq<Entry>) {
    forall k :: 0 <= k < |entries| ==> entries[k].dir != "" && entries[k].file != "" && entries[k].upstream != ""
  }

  // ── The script ───────────────────────────────────────────────────────────────

  class ParityCheck {
    var files: Files
    var failed: bool
    var rewritten: nat

    constructor (files: Files)
      ensures this.files == files && !failed && rewritten == 0
    {
      this.files, failed, rewritten := files, false, 0;
    }

    function State(): Progress
      reads this
    {
      Progress(files, failed, rewritten)
    }

    /** The inner loops of one family and module: a missing canonical file is one failure, and no copy is looked at. */
    method CompareModule(dirs: seq<string>, file: string, fix: bool)
      requires |dirs| >= 2
      modifies this
      ensures State() == ComparePairs(old(State()), FilePairs(dirs, file), fix)
    {
      hide Normalize;
      var canonical := Place(dirs[0], file);
      ghost var pairs := FilePairs(dirs, file);
      if canonical !in files {
        AllMissing(State(), canonical, pairs, fix);
        failed := true;
        return;
      }
      var base := Normalize(files[canonical]);
      ghost var start := State();
      for i := 1 to |dirs|
        invariant canonical in files && Normalize(files[canonical]) == base
        invariant ComparePairs(State(), pairs[i - 1..], fix) == ComparePairs(start, pairs, fix)
      {
        assert pairs[i - 1..][0] == pairs[i - 1] == Pair(canonical, Place(dirs[i], file)) && pairs[i - 1..][1..] == pairs[i..];
        var copy := Place(dirs[i], file);
        if copy !in files {
          failed := true;
        } else if Normalize(files[copy]) != base {
          if fix {
            files := files[copy := files[canonical]];
            rewritten := rewritten + 1;
          } else {
            failed := true;
          }
        }
      }
    }

    method CompareFamilies(families: seq<Family>, fix: bool)
      requires Comparable(families)
      modifies this
      ensures State() == ComparePairs(old(State()), FamilyPairs(families), fix)
    {
      ghost var start := State();
      for i := 0 to |families|
        invariant ComparePairs(State(), FamilyPairs(families[i..]), fix) == ComparePairs(start, FamilyPairs(families), fix)
      {
        assert families[i..][0] == families[i] && families[i..][1..] == families[i + 1..];
        var dirs, modules := families[i].dirs, families[i].modules;
        assert |dirs| >= 2;
        ghost var rest := FamilyPairs(families[i + 1..]);
        assert FamilyPairs(families[i..]) == ModulePairs(dirs, modules) + rest;
        ghost var at := State();
        for j := 0 to |modules|
          invariant ComparePairs(State(), ModulePairs(dirs, modules[j..]), fix) == ComparePairs(at, ModulePairs(dirs, modules), fix)
        {
          assert modules[j..][0] == modules[j] && modules[j..][1..] == modules[j + 1..];
          ComparePairsAppend(State(), FilePairs(dirs, modules[j]), ModulePairs(dirs, modules[j + 1..]), fix);
          CompareModule(dirs, modules[j], fix);
        }
        ComparePairsAppend(at, ModulePairs(dirs, modules), rest, fix);
      }
    }

    /** One file copied from another repository. */
    method CheckEntry(matches: (Mark, string) -> nat, entry: Entry)
      modifies this`failed
      ensures failed == (old(failed) || !EntryHolds(matches, files, entry))
    {
      hide Normalize, Head;
      var place := Place(entry.dir, entry.file);
      if place !in files {
        failed := true;
        return;
      }
      var text, marks := Normalize(files[place]), MarksOf(entry.upstream);
      var problems := 0;
      for k := 0 to |marks|
        invariant problems == 0 <==> forall i :: 0 <= i < k ==> Declares(matches, marks[i], text)
        invariant problems >= 0
      {
        if matches(marks[k], Head(text)) == 0 {
          problems := problems + 1;
        } else if matches(marks[k], text) > 1 {
          problems := problems + 1;
        }
      }
      if problems > 0 { failed := true; }
    }

    /**
     The whole run: whether it passes. Lists that compare nothing fail before any file is read; a fix run
     judges the headers of the files as it has rewritten them.
     */
    method Check(families: seq<Family>, provenance: seq<Entry>, matches: (Mark, string) -> nat, fix: bool) returns (ok: bool)
      modifies this
      ensures files == RunFiles(old(files), families, provenance, fix)
      ensures ok == RunPasses(matches, old(files), families, provenance, fix)
      ensures Compares(families, provenance) ==> rewritten == Compared(old(files), families, fix).rewritten
    {
      hide EntryHolds;
      failed, rewritten := false, 0;
      if families == [] && provenance == [] { return false; }
      if !Comparable(families) || !Checkable(provenance) { return false; }
      CompareFamilies(families, fix);
      ghost var compared := State();
      for k := 0 to |provenance|
        invariant files == compared.files && rewritten == compared.rewritten
        invariant failed <==> compared.failed || !forall i :: 0 <= i < k ==> EntryHolds(matches, files, provenance[i])
      {
        CheckEntry(matches, provenance[k]);
      }
      return !failed;
    }
  }

  /** There is something to compare, and all of it can be. */
  predicate Compares(families: seq<Family>, provenance: seq<Entry>) {
    Comparable(families) && Checkable(provenance) && (families != [] || provenance != [])
  }

  function Compared(files: Files, families: seq<Family>, fix: bool): Progress
    requires Comparable(families)
  {
    ComparePairs(Progress(files, false, 0), FamilyPairs(families), fix)
  }

  /** The pairs of the comparisons are all there: each family has a canonical directory, another one, and a module. */
  lemma EveryFamilyIsCompared(families: seq<Family>, k: nat, i: nat, j: nat)
    requires Comparable(families) && k < |families| && i < |families[k].modules| && 0 < j < |families[k].dirs|
    ensures Pair(Place(families[k].dirs[0], families[k].modules[i]), Place(families[k].dirs[j], families[k].modules[i])) in FamilyPairs(families)
    decreases |families|
  {
    var dirs, modules := families[0].dirs, families[0].modules;
    if k == 0 {
      ModuleIsCompared(dirs, modules, i, j);
    } else {
      EveryFamilyIsCompared(families[1..], k - 1, i, j);
    }
  }

  lemma {:induction false} ModuleIsCompared(dirs: seq<string>, modules: seq<string>, i: nat, j: nat)
    requires i < |modules| && 0 < j < |dirs|
    ensures Pair(Place(dirs[0], modules[i]), Place(dirs[j], modules[i])) in ModulePairs(dirs, modules)
    decreases |modules|
  {
    if i == 0 {
      var pairs := FilePairs(dirs, modules[0]);
      assert pairs[j - 1] == Pair(Place(dirs[0], modules[0]), Place(dirs[j], modules[0]));
    } else {
      ModuleIsCompared(dirs, modules[1..], i - 1, j);
    }
  }

  /** A run that passes has compared something: every family has two directories and a module, every entry names what it copies. */
  lemma PassedRunCompares(matches: (Mark, string) -> nat, files: Files, families: seq<Family>, provenance: seq<Entry>, fix: bool)
    requires RunPasses(matches, files, families, provenance, fix)
    ensures families != [] || provenance != []
    ensures forall k :: 0 <= k < |families| ==> |families[k].dirs| >= 2 && |families[k].modules| >= 1
    ensures forall k :: 0 <= k < |provenance| ==>
      var e := provenance[k]; e.dir != "" && e.file != "" && e.upstream != "" && Place(e.dir, e.file) in RunFiles(files, families, provenance, fix)
  {
    hide Compared, CarriesHeader, Normalize, RunFiles;
  }

  function RunFiles(files: Files, families: seq<Family>, provenance: seq<Entry>, fix: bool): Files {
    if Compares(families, provenance) then Compared(files, families, fix).files else files
  }

  predicate RunPasses(matches: (Mark, string) -> nat, files: Files, families: seq<Family>, provenance: seq<Entry>, fix: bool) {
    && Compares(families, provenance) && !Compared(files, families, fix).failed
    && ProvenanceHolds(matches, RunFiles(files, families, provenance, fix), provenance)
  }

  lemma {:induction false} AllMissing(p: Progress, canonical: Place, pairs: seq<Pair>, fix: bool)
    requires canonical !in p.files && pairs != [] && forall k :: 0 <= k < |pairs| ==> pairs[k].canonical == canonical
    ensures ComparePairs(p, pairs, fix) == p.(failed := true)
    decreases |pairs|
  {
    if |pairs| > 1 {
      AllMissing(p.(failed := true), canonical, pairs[1..], fix);
    } else {
      assert pairs[1..] == [];
    }
  }

  // ── Convergence ──────────────────────────────────────────────────────────────

  /** No file is both a canonical one and a copy, nor a copy of two. */
  ghost predicate RolesAreClear(pairs: seq<Pair>) {
    && (forall i, j :: 0 <= i < |pairs| && 0 <= j < |pairs| ==> pairs[i].canonical != pairs[j].copy)
    && (forall i, j :: 0 <= i < |pairs| && 0 <= j < |pairs| && pairs[i].copy == pairs[j].copy ==> pairs[i].canonical == pairs[j].canonical)
  }

  /** Both files of the pair are there. */
  predicate Complete(files: Files, pair: Pair) { pair.canonical in files && pair.copy in files }

  predicate Agrees(files: Files, pair: Pair) {
    Complete(files, pair) && Normalize(files[pair.copy]) == Normalize(files[pair.canonical])
  }

  /** What a fix run leaves at each place: a drifted copy has its canonical file's bytes, all else is as it was. */
  lemma {:induction false} FixIsExact(p: Progress, pairs: seq<Pair>, place: Place)
    requires RolesAreClear(pairs)
    ensures var after := ComparePairs(p, pairs, true);
      && after.files.Keys == p.files.Keys
      && ((forall k :: 0 <= k < |pairs| ==> pairs[k].copy != place) && place in p.files ==> after.files[place] == p.files[place])
      && (forall k :: 0 <= k < |pairs| && pairs[k].copy == place && Complete(p.files, pairs[k]) ==>
            after.files[place] == if Agrees(p.files, pairs[k]) then p.files[place] else p.files[pairs[k].canonical])
    decreases |pairs|
  {
    if pairs != [] {
      var first := pairs[0];
      var next := ComparePair(p, first.canonical, first.copy, true);
      FixOfOne(p, first);
      RolesOfRest(pairs);
      assert ComparePairs(p, pairs, true) == ComparePairs(next, pairs[1..], true);
      hide ComparePair, ComparePairs, Agrees, RolesAreClear;
      FixIsExact(next, pairs[1..], place);
      forall k | 0 <= k < |pairs| ensures pairs[k].canonical != first.copy && (pairs[k].copy == first.copy ==> pairs[k].canonical == first.canonical) {
        RolesAt(pairs, 0, k);
      }
      assert forall k :: 1 <= k < |pairs| ==> pairs[k] == pairs[1..][k - 1];
      forall k | 1 <= k < |pairs| && Complete(p.files, pairs[k])
        ensures Agrees(next.files, pairs[k]) <==> Agrees(p.files, pairs[k]) || pairs[k].copy == first.copy
      {
        AgreesAfterOne(p, first, pairs[k]);
      }
    }
  }

  /** One pair of a fix run: the copy ends with the canonical file's bytes if it did not agree, all else stays. */
  lemma FixOfOne(p: Progress, pair: Pair)
    ensures var next := ComparePair(p, pair.canonical, pair.copy, true).files;
      && next.Keys == p.files.Keys
      && (forall place :: place in p.files && place != pair.copy ==> next[place] == p.files[place])
      && (Complete(p.files, pair) ==> next[pair.copy] == if Agrees(p.files, pair) then p.files[pair.copy] else p.files[pair.canonical])
      && (!Complete(p.files, pair) ==> next == p.files)
  {
    hide Normalize;
  }

  /** Another pair agrees afterwards if it did before, or has the same copy. */
  lemma AgreesAfterOne(p: Progress, first: Pair, pair: Pair)
    requires Complete(p.files, pair) && pair.canonical != first.copy && (pair.copy == first.copy ==> pair.canonical == first.canonical)
    ensures var next := ComparePair(p, first.canonical, first.copy, true).files;
      next.Keys == p.files.Keys && (Agrees(next, pair) <==> Agrees(p.files, pair) || pair.copy == first.copy)
  {
    FixOfOne(p, first);
    hide Normalize, ComparePair;
    if pair.copy == first.copy { assert pair == first; }
  }

  lemma RolesAt(pairs: seq<Pair>, i: nat, j: nat)
    requires RolesAreClear(pairs) && i < |pairs| && j < |pairs|
    ensures pairs[j].canonical != pairs[i].copy && (pairs[j].copy == pairs[i].copy ==> pairs[j].canonical == pairs[i].canonical)
  {
  }

  lemma RolesOfRest(pairs: seq<Pair>)
    requires pairs != [] && RolesAreClear(pairs)
    ensures RolesAreClear(pairs[1..])
  {
  }

  /** A verify run fails exactly at a pair that does not agree, and changes nothing. */
  lemma {:induction false} VerifyIsExact(p: Progress, pairs: seq<Pair>)
    ensures var after := ComparePairs(p, pairs, false);
      && after.files == p.files && after.rewritten == p.rewritten
      && (after.failed <==> p.failed || exists k :: 0 <= k < |pairs| && !Agrees(p.files, pairs[k]))
    decreases |pairs|
  {
    hide Normalize;
    if pairs != [] {
      VerifyIsExact(ComparePair(p, pairs[0].canonical, pairs[0].copy, false), pairs[1..]);
      assert forall k :: 1 <= k < |pairs| ==> pairs[k] == pairs[1..][k - 1];
    }
  }

  /** A fix run fails exactly at a pair with a missing file. */
  lemma {:induction false} FixFailsOnMissing(p: Progress, pairs: seq<Pair>)
    ensures var after := ComparePairs(p, pairs, true);
      && after.files.Keys == p.files.Keys
      && (after.failed <==> p.failed || exists k :: 0 <= k < |pairs| && !Complete(p.files, pairs[k]))
    decreases |pairs|
  {
    hide Normalize;
    if pairs != [] {
      var next := ComparePair(p, pairs[0].canonical, pairs[0].copy, true);
      assert next.files.Keys == p.files.Keys;
      FixFailsOnMissing(next, pairs[1..]);
      assert forall k :: 1 <= k < |pairs| ==> pairs[k] == pairs[1..][k - 1];
      assert forall k :: 0 <= k < |pairs| ==> (Complete(next.files, pairs[k]) <==> Complete(p.files, pairs[k]));
    }
  }

  /** A fix run over pairs that agree, or miss a file, rewrites nothing. */
  lemma {:induction false} NothingToFix(p: Progress, pairs: seq<Pair>)
    requires forall k :: 0 <= k < |pairs| && Complete(p.files, pairs[k]) ==> Agrees(p.files, pairs[k])
    ensures var after := ComparePairs(p, pairs, true); after.files == p.files && after.rewritten == p.rewritten
    decreases |pairs|
  {
    hide Normalize;
    if pairs != [] {
      assert Complete(p.files, pairs[0]) ==> Agrees(p.files, pairs[0]);
      NothingToFix(ComparePair(p, pairs[0].canonical, pairs[0].copy, true), pairs[1..]);
    }
  }

  // ── When one fix run is enough ───────────────────────────────────────────────

  /** Whose content a place ends with, as far as the list and the places that are there can tell. */
  function Origin(present: set<Place>, pairs: seq<Pair>, place: Place): Place
    decreases |pairs|
  {
    if pairs == [] then place
    else
      var last, before := pairs[|pairs| - 1], pairs[..|pairs| - 1];
      if place == last.copy && last.copy in present && last.canonical in present then Origin(present, before, last.canonical)
      else Origin(present, before, place)
  }

  /** Both files of each pair end with the content of one place. */
  predicate OriginsAgree(present: set<Place>, pairs: seq<Pair>) {
    forall k :: 0 <= k < |pairs| && pairs[k].copy in present && pairs[k].canonical in present ==>
      Origin(present, pairs, pairs[k].copy) == Origin(present, pairs, pairs[k].canonical)
  }

  /** After one fix run every pair with both files agrees. */
  predicate Settles(files: Files, pairs: seq<Pair>) {
    forall k :: 0 <= k < |pairs| && Complete(files, pairs[k]) ==> Agrees(ComparePairs(Progress(files, false, 0), pairs, true).files, pairs[k])
  }

  lemma {:induction false} FixFollowsOrigins(p: Progress, pairs: seq<Pair>, place: Place)
    requires place in p.files
    ensures var after, origin := ComparePairs(p, pairs, true).files, Origin(p.files.Keys, pairs, place);
      after.Keys == p.files.Keys && origin in p.files && Normalize(after[place]) == Normalize(p.files[origin])
    decreases |pairs|
  {
    if pairs != [] {
      var last, before := pairs[|pairs| - 1], pairs[..|pairs| - 1];
      var from := if place == last.copy && last.copy in p.files && last.canonical in p.files then last.canonical else place;
      FixFollowsOrigins(p, before, from);
      var mid := ComparePairs(p, before, true);
      assert pairs == before + [last];
      ComparePairsAppend(p, before, [last], true);
      OnePair(mid, last);
      FixOfOne(mid, last);
      hide Normalize, ComparePairs, ComparePair;
    }
  }

  lemma OnePair(p: Progress, pair: Pair)
    ensures ComparePairs(p, [pair], true) == ComparePair(p, pair.canonical, pair.copy, true)
  {
    hide ComparePair;
    assert [pair][1..] == [];
  }

  /** A list is settled by one fix run, whatever its files hold, if and only if its origins agree. */
  lemma SettlesExactly(present: set<Place>, pairs: seq<Pair>)
    ensures (forall files: Files :: files.Keys == present ==> Settles(files, pairs)) <==> OriginsAgree(present, pairs)
  {
    if OriginsAgree(present, pairs) {
      forall files: Files | files.Keys == present ensures Settles(files, pairs) { OriginsSettle(files, pairs); }
    } else {
      var k :| 0 <= k < |pairs| && pairs[k].copy in present && pairs[k].canonical in present
               && Origin(present, pairs, pairs[k].copy) != Origin(present, pairs, pairs[k].canonical);
      var files := Unsettled(present, pairs, k);
    }
  }

  lemma OriginsSettle(files: Files, pairs: seq<Pair>)
    requires OriginsAgree(files.Keys, pairs)
    ensures Settles(files, pairs)
  {
    hide Normalize, ComparePairs, Origin;
    var start := Progress(files, false, 0);
    forall k | 0 <= k < |pairs| && Complete(files, pairs[k]) ensures Agrees(ComparePairs(start, pairs, true).files, pairs[k]) {
      FixFollowsOrigins(start, pairs, pairs[k].copy);
      FixFollowsOrigins(start, pairs, pairs[k].canonical);
    }
  }

  /** Where the origins of a pair differ, contents that tell them apart are never settled. */
  lemma Unsettled(present: set<Place>, pairs: seq<Pair>, k: nat) returns (files: Files)
    requires k < |pairs| && pairs[k].copy in present && pairs[k].canonical in present
    requires Origin(present, pairs, pairs[k].copy) != Origin(present, pairs, pairs[k].canonical)
    ensures files.Keys == present && !Settles(files, pairs)
  {
    hide ComparePairs, Origin;
    var origin := Origin(present, pairs, pairs[k].copy);
    files := map p | p in present :: if p == origin then "a" else "b";
    var start := Progress(files, false, 0);
    FixFollowsOrigins(start, pairs, pairs[k].copy);
    FixFollowsOrigins(start, pairs, pairs[k].canonical);
    assert Normalize("a")[0] == 'a' && Normalize("b")[0] == 'b';
  }

  /** Clear roles are enough: a copy's origin is its canonical file, and that of a canonical file itself. */
  lemma ClearRolesAgree(present: set<Place>, pairs: seq<Pair>)
    requires RolesAreClear(pairs)
    ensures OriginsAgree(present, pairs)
  {
    hide Origin, RolesAreClear;
    forall k | 0 <= k < |pairs| && pairs[k].copy in present && pairs[k].canonical in present
      ensures Origin(present, pairs, pairs[k].copy) == Origin(present, pairs, pairs[k].canonical)
    {
      forall i | 0 <= i < |pairs| ensures pairs[i].copy != pairs[k].canonical && (pairs[i].copy == pairs[k].copy ==> pairs[i].canonical == pairs[k].canonical) {
        RolesAt(pairs, i, k);
      }
      OriginOfCanonical(present, pairs, pairs[k].canonical);
      OriginOfCopy(present, pairs, pairs[k]);
    }
  }

  lemma {:induction false} OriginOfCanonical(present: set<Place>, pairs: seq<Pair>, place: Place)
    requires forall i :: 0 <= i < |pairs| ==> pairs[i].copy != place
    ensures Origin(present, pairs, place) == place
    decreases |pairs|
  {
    if pairs != [] { OriginOfCanonical(present, pairs[..|pairs| - 1], place); }
  }

  lemma {:induction false} OriginOfCopy(present: set<Place>, pairs: seq<Pair>, pair: Pair)
    requires pair in pairs && pair.copy in present && pair.canonical in present
    requires forall i :: 0 <= i < |pairs| ==> pairs[i].copy != pair.canonical && (pairs[i].copy == pair.copy ==> pairs[i].canonical == pair.canonical)
    ensures Origin(present, pairs, pair.copy) == pair.canonical
    decreases |pairs|
  {
    var last, before := pairs[|pairs| - 1], pairs[..|pairs| - 1];
    if last.copy == pair.copy {
      OriginOfCanonical(present, before, pair.canonical);
    } else {
      assert pairs == before + [last];
      OriginOfCopy(present, before, pair);
    }
  }

  /**
   What a settled fix run leaves: a verify run then fails exactly when the fix run did, which is when a file is
   missing, and a second fix run rewrites nothing. With clear roles canonical files are untouched.
   */
  lemma OneFixSettles(files: Files, pairs: seq<Pair>)
    requires OriginsAgree(files.Keys, pairs)
    ensures var fixed := ComparePairs(Progress(files, false, 0), pairs, true);
      && fixed.files.Keys == files.Keys
      && (fixed.failed <==> exists k :: 0 <= k < |pairs| && !Complete(files, pairs[k]))
      && ComparePairs(Progress(fixed.files, false, 0), pairs, false) == Progress(fixed.files, fixed.failed, 0)
      && ComparePairs(Progress(fixed.files, false, 0), pairs, true) == Progress(fixed.files, fixed.failed, 0)
      && (RolesAreClear(pairs) ==>
            forall place :: place in files && (forall k :: 0 <= k < |pairs| ==> pairs[k].copy != place) ==> fixed.files[place] == files[place])
  {
    hide Normalize, ComparePairs, OriginsAgree, RolesAreClear;
    var start := Progress(files, false, 0);
    var fixed := ComparePairs(start, pairs, true);
    OriginsSettle(files, pairs);
    FixFailsOnMissing(start, pairs);
    if RolesAreClear(pairs) {
      forall place: Place
        ensures place in files && (forall k :: 0 <= k < |pairs| ==> pairs[k].copy != place) ==> fixed.files[place] == files[place]
      {
        FixIsExact(start, pairs, place);
      }
    }
    var again := Progress(fixed.files, false, 0);
    VerifyIsExact(again, pairs);
    FixFailsOnMissing(again, pairs);
    assert forall k :: 0 <= k < |pairs| && Complete(fixed.files, pairs[k]) ==> Complete(files, pairs[k]);
    NothingToFix(again, pairs);
  }

  /**
   Over whole runs: what a fix run says is what every later run says, fix or verify, and none of them
   changes a file again.
   */
  lemma FixRunHasTheLastWord(matches: (Mark, string) -> nat, files: Files, families: seq<Family>, provenance: seq<Entry>, fix: bool)
    requires Comparable(families) ==> OriginsAgree(files.Keys, FamilyPairs(families))
    ensures var fixed := RunFiles(files, families, provenance, true);
      && RunFiles(fixed, families, provenance, fix) == fixed
      && RunPasses(matches, fixed, families, provenance, fix) == RunPasses(matches, files, families, provenance, true)
  {
    hide ProvenanceHolds, ComparePairs, Checkable, OriginsAgree, RolesAreClear;
    if Compares(families, provenance) { OneFixSettles(files, FamilyPairs(families)); }
  }

  /** A file that is a copy of two canonical ones never settles: the fix passes, and the next verify fails. */
  lemma CopyOfTwoNeverSettles(a: Place, b: Place, copy: Place)
    requires a != b && a != copy && b != copy
    ensures var files: Files, pairs := map[a := "a", b := "b", copy := "b"], [Pair(a, copy), Pair(b, copy)];
      var fixed := ComparePairs(Progress(files, false, 0), pairs, true);
      && !fixed.failed && fixed.files == files && fixed.rewritten == 2
      && ComparePairs(Progress(fixed.files, false, 0), pairs, false).failed
  {
    var files: Files, pairs := map[a := "a", b := "b", copy := "b"], [Pair(a, copy), Pair(b, copy)];
    assert Normalize("a")[0] == 'a' && Normalize("b")[0] == 'b';
    var p0 := Progress(files, false, 0);
    var p1 := ComparePair(p0, a, copy, true);
    assert p1 == Progress(files[copy := "a"], false, 1);
    var p2 := ComparePair(p1, b, copy, true);
    assert p2 == Progress(files[copy := "a"][copy := "b"], false, 2) && p2.files == files;
    assert pairs[1..] == [Pair(b, copy)] && pairs[1..][1..] == [];
    assert ComparePairs(p2, [], true) == p2;
    assert ComparePairs(p1, pairs[1..], true) == ComparePairs(p2, [], true);
    assert ComparePairs(p0, pairs, true) == ComparePairs(p1, pairs[1..], true);
    var v1 := ComparePair(p0, a, copy, false);
    assert v1.failed;
    VerifyIsExact(p0, pairs);
    assert !Agrees(files, pairs[0]);
  }
}
