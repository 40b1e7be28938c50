/**
 The packager (`scripts/copy-build.js`) over a repository tree, and the enumeration of task directories it
 shares with the gate: what the copy phase refuses, and what it leaves in ./build.
 */
module PackageComposition {
  import opened JsText
  import opened PackageTree
  import opened PackageContents
  import opened PackageManifest

  const TASKS: Path := ["Tasks"]

  /** Why a path is refused. */
  datatype Why = IsALink | NotRegular | Secret | Unlisted | StrayTask | Stray | Absent
               | Dangling | Escapes | Unreadable

  datatype Refusal = Refusal(path: Path, why: Why)

  // ── The enumeration of task directories ──────────────────────────────────────

  function TaskDirsOfFamily(family: string, entries: seq<Entry>): seq<Path> {
    if entries == [] then []
    else
      (if entries[0].node.Dir? && Exists(Child(entries[0].node.entries, "task.json"))
       then [["Tasks", family, entries[0].name]] else [])
      + TaskDirsOfFamily(family, entries[1..])
  }

  function TaskDirsOf(families: seq<Entry>): seq<Path> {
    if families == [] then []
    else
      (if families[0].node.Dir? then TaskDirsOfFamily(families[0].name, families[0].node.entries) else [])
      + TaskDirsOf(families[1..])
  }

  function InsertPath(x: Path, s: seq<Path>): seq<Path> {
    if s == [] || Less(Rel(x), Rel(s[0])) then [x] + s else [s[0]] + InsertPath(x, s[1..])
  }

  /** `sort()` by the path's text. */
  function SortPaths(s: seq<Path>): seq<Path> { if s == [] then [] else InsertPath(s[0], SortPaths(s[1..])) }

  lemma {:induction false} InsertPathIsSorted(x: Path, s: seq<Path>)
    requires forall i, j :: 0 <= i < j < |s| ==> !Less(Rel(s[j]), Rel(s[i]))
    ensures var r := InsertPath(x, s);
      && |r| == |s| + 1 && (forall y :: y in r <==> y == x || y in s)
      && (forall i, j :: 0 <= i < j < |r| ==> !Less(Rel(r[j]), Rel(r[i])))
  {
    hide Less, Rel;
    if s != [] {
      LessIsStrict(Rel(x), Rel(s[0]));
      if Less(Rel(x), Rel(s[0])) {
        forall j | 0 <= j < |s| ensures !Less(Rel(s[j]), Rel(x)) {
          LessIsStrict(Rel(s[j]), Rel(s[0]));
          if Less(Rel(s[j]), Rel(x)) { LessIsTransitive(Rel(s[j]), Rel(x), Rel(s[0])); }
        }
      } else {
        InsertPathIsSorted(x, s[1..]);
        var rest := InsertPath(x, s[1..]);
        forall j | 0 <= j < |rest| ensures !Less(Rel(rest[j]), Rel(s[0])) {
          assert rest[j] in rest;
          if rest[j] != x { var k :| 0 <= k < |s[1..]| && s[1..][k] == rest[j]; assert s[k + 1] == rest[j]; }
        }
      }
    }
  }

  /** The same directories, in the order of their text. */
  lemma {:induction false} SortPathsIsSorted(s: seq<Path>)
    ensures var r := SortPaths(s);
      && |r| == |s| && (forall y :: y in r <==> y in s)
      && (forall i, j :: 0 <= i < j < |r| ==> !Less(Rel(r[j]), Rel(r[i])))
  {
    hide Less, Rel;
    if s != [] {
      SortPathsIsSorted(s[1..]);
      InsertPathIsSorted(s[0], SortPaths(s[1..]));
      assert s == [s[0]] + s[1..];
    }
  }

  function TaskDirs(tree: Node): seq<Path> { SortPaths(TaskDirsOf(DirEntries(NodeAt(tree, TASKS)))) }

  /** None is the exception of reading a Tasks that is no directory. */
  method DiscoverTaskDirs(tree: Node) returns (found: Option<seq<Path>>)
    ensures found == if Readable(tree, TASKS) then Some(TaskDirs(tree)) else None
  {
    hide TaskDirsOfFamily, NodeAt, SortPaths, TaskDirsOf;
    NoFamilies();
    if Exists(NodeAt(tree, TASKS)) && !NodeAt(tree, TASKS).value.Dir? { return None; }
    var dirs: seq<Path> := [];
    var families := DirEntries(NodeAt(tree, TASKS));
    assert families[0..] == families;
    for i := 0 to |families|
      invariant dirs + TaskDirsOf(families[i..]) == TaskDirsOf(families)
    {
      FamilyStep(families, i);
      var family := families[i];
      if family.node.Dir? {
        var below := DiscoverInFamily(family.name, family.node.entries);
        dirs := dirs + below;
      }
    }
    assert families[|families|..] == [] && dirs == TaskDirsOf(families);
    return Some(SortPaths(dirs));
  }

  lemma FamilyStep(families: seq<Entry>, i: nat)
    requires i < |families|
    ensures TaskDirsOf(families[i..]) ==
            (if families[i].node.Dir? then TaskDirsOfFamily(families[i].name, families[i].node.entries) else []) + TaskDirsOf(families[i + 1..])
  {
    hide TaskDirsOfFamily;
    assert families[i..][1..] == families[i + 1..];
  }

  lemma NoFamilies()
    ensures TaskDirsOf([]) == []
  {
  }

  method DiscoverInFamily(family: string, entries: seq<Entry>) returns (dirs: seq<Path>)
    ensures dirs == TaskDirsOfFamily(family, entries)
  {
    hide Exists, Child;
    dirs := [];
    assert entries[0..] == entries;
    for j := 0 to |entries|
      invariant dirs + TaskDirsOfFamily(family, entries[j..]) == TaskDirsOfFamily(family, entries)
    {
      assert entries[j..][1..] == entries[j + 1..];
      if entries[j].node.Dir? {
        if Exists(Child(entries[j].node.entries, "task.json")) {
          dirs := dirs + [["Tasks", family, entries[j].name]];
        }
      }
    }
  }

  predicate InsideTaskDir(rel: Path, dirs: seq<Path>) { exists k :: 0 <= k < |dirs| && dirs[k] <= rel }

  predicate AncestorOfTaskDir(rel: Path, dirs: seq<Path>) { exists k :: 0 <= k < |dirs| && rel < dirs[k] }

  /** Exactly the real directories two levels below Tasks/ that contain a task.json. */
  predicate IsTaskDir(tree: Node, dir: Path) {
    && |dir| == 3 && dir[0] == "Tasks"
    && var node := NodeAt(tree, dir);
       node.Some? && node.value.Dir? && Exists(Child(node.value.entries, "task.json"))
  }

  function Kept(): Path -> bool { rel => !DirectoryDropped(rel) }

  function KeptOutside(dirs: seq<Path>): Path -> bool { rel => !DirectoryDropped(rel) && !InsideTaskDir(rel, dirs) }

  // ── What the pruned walk loses ───────────────────────────────────────────────

  /**
   An entry that the whole walk of a directory reports and the pruned one does not would be dropped anyway,
   when no directory on the way has a name that an end-anchored pattern drops.
   */
  lemma PruningLosesOnlyDropped(tree: Node, dir: Path, f: Found)
    requires Proper(tree) && f in WalkTreeSpec(tree, dir, All()) && f !in WalkTreeSpec(tree, dir, Kept())
    requires forall j :: |dir| <= j < |f.path| - 1 ==> !DropsName(f.path[j])
    ensures f.path != [] && Classify(f.path) == Drop
  {
    hide NodeAt, Proper, DropsName, DropsTree, WalkTreeSpec, Increasing, NoRepeat;
    ReportIsExact(tree, dir, All());
    ReportIsExact(tree, dir, Kept());
    var j :| |dir| < j < |f.path| && !Kept()(f.path[..j]);
    assert Last(f.path[..j]) == f.path[j - 1] && !DropsName(f.path[j - 1]);
    DroppedByName(f.path[..j]);
    assert f.path == f.path[..j] + f.path[j..];
    DropsTreeBelow(f.path[..j], f.path[j..]);
    DropsTreeIsDrop(f.path);
  }

  function All(): Path -> bool { rel => true }

  /** A dropped directory that no pattern drops as a tree is dropped by its own name. */
  lemma DroppedByName(dir: Path)
    requires dir != [] && DirectoryDropped(dir)
    ensures DropsTree(dir) || DropsName(Last(dir))
  {
  }

  // ── The packager ─────────────────────────────────────────────────────────────

  function CopyRefusal(f: Found): Option<Why>
    requires f.path != []
  {
    match f.kind
    case IsSymlink => Some(IsALink)
    case IsOther => Some(NotRegular)
    case IsDir => None
    case _ =>
      match Classify(f.path)
      case NeverShip => Some(Secret)
      case Unknown => Some(Unlisted)
      case Drop => None
      case Ship => if f.kind.IsAway? then Some(Escapes) else None
  }

  predicate Ships(f: Found)
    requires f.path != []
  {
    f.kind.IsFile? && Classify(f.path) == Ship
  }

  /** Bundled dependencies, noticed before the copy is tried. */
  predicate IsBundled(f: Found)
    requires f.path != []
  {
    IsRegular(f.kind) && Classify(f.path) == Ship && InNodeModules(f.path)
  }

  predicate NonEmptyPaths(report: seq<Found>) { forall k :: 0 <= k < |report| ==> report[k].path != [] }

  function CopyRefusals(report: seq<Found>): seq<Refusal>
    requires NonEmptyPaths(report)
  {
    if report == [] then []
    else
      (if CopyRefusal(report[0]).Some? then [Refusal(report[0].path, CopyRefusal(report[0]).value)] else [])
      + CopyRefusals(report[1..])
  }

  function Copied(report: seq<Found>): set<Path>
    requires NonEmptyPaths(report)
  {
    set f | f in report && Ships(f) :: f.path
  }

  predicate Bundles(report: seq<Found>)
    requires NonEmptyPaths(report)
  {
    exists k :: 0 <= k < |report| && IsBundled(report[k])
  }

  /** The walk that both programs make of a directory they compose. */
  function Report(tree: Node, dir: Path): (report: seq<Found>)
    requires Proper(tree)
    ensures NonEmptyPaths(report)
  {
    ReportIsExact(tree, dir, Kept());
    assert forall k :: 0 <= k < |WalkTreeSpec(tree, dir, Kept())| ==> WalkTreeSpec(tree, dir, Kept())[k] in WalkTreeSpec(tree, dir, Kept());
    WalkTreeSpec(tree, dir, Kept())
  }

  /** The reports of several directories, one after the other. */
  function Reports(tree: Node, dirs: seq<Path>): (report: seq<Found>)
    requires Proper(tree)
    ensures NonEmptyPaths(report)
  {
    if dirs == [] then [] else Report(tree, dirs[0]) + Reports(tree, dirs[1..])
  }

  predicate IsStray(f: Found, dirs: seq<Path>)
    requires f.path != []
  {
    (IsRegular(f.kind) || f.kind.IsSymlink?) && !InsideTaskDir(f.path, dirs) && Classify(f.path) != Drop
  }

  function StrayReport(tree: Node, dirs: seq<Path>): (report: seq<Found>)
    requires Proper(tree)
    ensures NonEmptyPaths(report)
  {
    var report := WalkTreeSpec(tree, TASKS, KeptOutside(dirs));
    ReportIsExact(tree, TASKS, KeptOutside(dirs));
    assert forall k :: 0 <= k < |report| ==> report[k] in report;
    report
  }

  function StrayRefusals(report: seq<Found>, dirs: seq<Path>): seq<Refusal>
    requires NonEmptyPaths(report)
  {
    if report == [] then []
    else
      (if IsStray(report[0], dirs) then [Refusal(report[0].path, Stray)] else [])
      + StrayRefusals(report[1..], dirs)
  }

  /** What becomes of one root asset: a refusal, a copy, neither, or an exception that ends the script. */
  datatype AssetOutcome = Refused(why: Why) | CopiedAsset | SkippedAsset | Throws

  function AssetSpec(tree: Node, a: Asset, bundling: bool): AssetOutcome {
    var node := NodeAt(tree, [a.name]);
    if Exists(node) && node.value.Symlink? then Refused(IsALink)
    else if Exists(node) then if node.value.File? then CopiedAsset else if node.value.Away? then Refused(Escapes) else Throws
    else if a.required || (a.requiredWhenBundling && bundling) then Refused(Absent)
    else SkippedAsset
  }

  function AssetRefusals(tree: Node, assets: seq<Asset>, bundling: bool): seq<Refusal> {
    if assets == [] then []
    else
      (if AssetSpec(tree, assets[0], bundling).Refused? then [Refusal([assets[0].name], AssetSpec(tree, assets[0], bundling).why)] else [])
      + AssetRefusals(tree, assets[1..], bundling)
  }

  function AssetCopies(tree: Node, assets: seq<Asset>, bundling: bool): set<Path> {
    set a | a in assets && AssetSpec(tree, a, bundling).CopiedAsset? :: [a.name]
  }

  /** An asset that is there but cannot be copied as a file, such as a directory of that name. */
  predicate CannotCopy(tree: Node, a: Asset) {
    var node := NodeAt(tree, [a.name]);
    Exists(node) && !node.value.Symlink? && !node.value.File? && !node.value.Away?
  }

  /** The assets before the first that cannot be copied. */
  function Handled(tree: Node, assets: seq<Asset>): seq<Asset> {
    if assets == [] || CannotCopy(tree, assets[0]) then [] else [assets[0]] + Handled(tree, assets[1..])
  }

  /** Tasks and the root directories can be read. */
  predicate TreesReadable(tree: Node) {
    Readable(tree, TASKS) && forall k :: 0 <= k < |ROOT_DIRS| ==> Readable(tree, ROOT_DIRS[k])
  }

  /** The copy phase ends with an exception. */
  predicate PackagerThrows(tree: Node) {
    !TreesReadable(tree) || exists k :: 0 <= k < |ROOT_ASSETS| && CannotCopy(tree, ROOT_ASSETS[k])
  }

  lemma {:induction false} HandledIsPrefix(tree: Node, assets: seq<Asset>)
    ensures Handled(tree, assets) <= assets
    ensures Handled(tree, assets) == assets <==> forall k :: 0 <= k < |assets| ==> !CannotCopy(tree, assets[k])
  {
    hide CannotCopy;
    if assets != [] {
      HandledIsPrefix(tree, assets[1..]);
      assert assets == [assets[0]] + assets[1..];
      assert forall k :: 0 <= k < |assets[1..]| ==> assets[1..][k] == assets[k + 1];
      assert forall k :: 1 <= k < |assets| ==> assets[k] == assets[1..][k - 1];
    }
  }

  function ComposedReport(tree: Node): (report: seq<Found>)
    requires Proper(tree)
    ensures NonEmptyPaths(report)
  {
    Reports(tree, TaskDirs(tree)) + Reports(tree, ROOT_DIRS)
  }

  /** The refusals of the packager's copy phase, in order. */
  function PackagerRefusals(tree: Node): seq<Refusal>
    requires Proper(tree)
  {
    CopyRefusals(Reports(tree, TaskDirs(tree)))
    + StrayRefusals(StrayReport(tree, TaskDirs(tree)), TaskDirs(tree))
    + CopyRefusals(Reports(tree, ROOT_DIRS))
    + AssetRefusals(tree, Handled(tree, ROOT_ASSETS), Bundles(ComposedReport(tree)))
  }

  /** What the copy phase has put into ./build by its end. */
  function PackagerCopies(tree: Node): set<Path>
    requires Proper(tree)
  {
    Copied(ComposedReport(tree)) + AssetCopies(tree, Handled(tree, ROOT_ASSETS), Bundles(ComposedReport(tree)))
  }

  lemma CopyRefusalsAppend(a: seq<Found>, b: seq<Found>)
    requires NonEmptyPaths(a) && NonEmptyPaths(b)
    ensures NonEmptyPaths(a + b) && CopyRefusals(a + b) == CopyRefusals(a) + CopyRefusals(b)
    ensures Copied(a + b) == Copied(a) + Copied(b)
    ensures Bundles(a + b) == (Bundles(a) || Bundles(b))
  {
    RefusalsAppend(a, b);
    CopiedAppend(a, b);
    BundlesAppend(a, b);
  }

  lemma {:induction false} RefusalsAppend(a: seq<Found>, b: seq<Found>)
    requires NonEmptyPaths(a) && NonEmptyPaths(b)
    ensures NonEmptyPaths(a + b) && CopyRefusals(a + b) == CopyRefusals(a) + CopyRefusals(b)
  {
    hide CopyRefusal, CopyRefusals;
    if a == [] {
      assert a + b == b;
      assert CopyRefusals(a) == [] by { NoneRefused(); }
    } else {
      assert (a + b)[0] == a[0] && (a + b)[1..] == a[1..] + b;
      RefusalsAppend(a[1..], b);
      CopyRefusalsStep(a + b);
      CopyRefusalsStep(a);
      assert RefusalOf(a[0]) + (CopyRefusals(a[1..]) + CopyRefusals(b)) == RefusalOf(a[0]) + CopyRefusals(a[1..]) + CopyRefusals(b);
    }
  }

  function RefusalOf(f: Found): seq<Refusal>
    requires f.path != []
  {
    if CopyRefusal(f).Some? then [Refusal(f.path, CopyRefusal(f).value)] else []
  }

  lemma CopyRefusalsStep(report: seq<Found>)
    requires report != [] && NonEmptyPaths(report)
    ensures CopyRefusals(report) == RefusalOf(report[0]) + CopyRefusals(report[1..])
  {
    hide CopyRefusal;
  }

  lemma NoneRefused()
    ensures NonEmptyPaths([]) && CopyRefusals([]) == []
  {
  }

  lemma CopiedAppend(a: seq<Found>, b: seq<Found>)
    requires NonEmptyPaths(a) && NonEmptyPaths(b)
    ensures NonEmptyPaths(a + b) && Copied(a + b) == Copied(a) + Copied(b)
  {
    hide Ships;
  }

  lemma BundlesAppend(a: seq<Found>, b: seq<Found>)
    requires NonEmptyPaths(a) && NonEmptyPaths(b)
    ensures Bundles(a + b) == (Bundles(a) || Bundles(b))
  {
    hide Ships, IsBundled;
    var c := a + b;
    assert forall k :: 0 <= k < |a| ==> c[k] == a[k];
    assert forall k :: 0 <= k < |b| ==> c[|a| + k] == b[k];
  }

  // ── What ./build holds ───────────────────────────────────────────────────────

  lemma {:induction false} ReportsMembers(tree: Node, dirs: seq<Path>, f: Found)
    requires Proper(tree)
    ensures f in Reports(tree, dirs) <==> exists k :: 0 <= k < |dirs| && Reported(tree, dirs[k], Kept(), f)
  {
    hide Proper, Reported, WalkTreeSpec, Increasing;
    if dirs != [] {
      ReportIsExact(tree, dirs[0], Kept());
      ReportsMembers(tree, dirs[1..], f);
      assert forall k :: 0 < k < |dirs| ==> dirs[k] == dirs[1..][k - 1];
      assert forall k :: 0 <= k < |dirs[1..]| ==> dirs[1..][k] == dirs[k + 1];
    }
  }

  /** What ./build is meant to hold: root assets that are there, and shippable files within reach. */
  ghost predicate InPackage(tree: Node, path: Path)
    requires Proper(tree)
  {
    || (exists k :: 0 <= k < |ROOT_ASSETS| && path == [ROOT_ASSETS[k].name] && NodeAt(tree, path) == Some(File))
    || (path != [] && Classify(path) == Ship
        && exists k :: 0 <= k < |TaskDirs(tree) + ROOT_DIRS|
                       && Reported(tree, (TaskDirs(tree) + ROOT_DIRS)[k], Kept(), Found(path, IsFile)))
  }

  lemma AssetCopiesOf(tree: Node, assets: seq<Asset>, bundling: bool, path: Path)
    ensures path in AssetCopies(tree, assets, bundling) <==>
      exists k :: 0 <= k < |assets| && path == [assets[k].name] && NodeAt(tree, path) == Some(File)
  {
    hide NodeAt;
    forall k | 0 <= k < |assets|
      ensures AssetSpec(tree, assets[k], bundling).CopiedAsset? <==> NodeAt(tree, [assets[k].name]) == Some(File) {}
    forall a | a in assets && AssetSpec(tree, a, bundling).CopiedAsset?
      ensures exists k :: 0 <= k < |assets| && [a.name] == [assets[k].name] && NodeAt(tree, [a.name]) == Some(File)
    {
      var k :| 0 <= k < |assets| && assets[k] == a;
    }
  }

  /** Nothing else is ever in ./build, and all of it is when the copy phase has finished. */
  lemma CopiesAreThePackage(tree: Node, path: Path)
    requires Proper(tree)
    ensures path in PackagerCopies(tree) ==> InPackage(tree, path)
    ensures !PackagerThrows(tree) && InPackage(tree, path) ==> path in PackagerCopies(tree)
  {
    hide NodeAt, Proper, TaskDirs, ComposedReport, Reported, Classify, AssetCopies, WalkTreeSpec, Handled, CannotCopy, Copied;
    var report, assets := ComposedReport(tree), ROOT_ASSETS;
    HandledIsPrefix(tree, assets);
    AssetCopiesOf(tree, Handled(tree, assets), Bundles(report), path);
    ComposedMembers(tree, Found(path, IsFile));
    CopiedIsShipped(report, path);
  }

  lemma ComposedMembers(tree: Node, f: Found)
    requires Proper(tree)
    ensures f in ComposedReport(tree) <==>
      exists k :: 0 <= k < |TaskDirs(tree) + ROOT_DIRS| && Reported(tree, (TaskDirs(tree) + ROOT_DIRS)[k], Kept(), f)
  {
    hide NodeAt, Proper, TaskDirs, Reports, Reported, Report;
    ReportsMembers(tree, TaskDirs(tree), f);
    ReportsMembers(tree, ROOT_DIRS, f);
    var dirs := TaskDirs(tree) + ROOT_DIRS;
    assert forall k :: 0 <= k < |TaskDirs(tree)| ==> dirs[k] == TaskDirs(tree)[k];
    assert forall k :: 0 <= k < |ROOT_DIRS| ==> dirs[|TaskDirs(tree)| + k] == ROOT_DIRS[k];
  }

  lemma CopiedIsShipped(report: seq<Found>, path: Path)
    requires NonEmptyPaths(report)
    ensures path in Copied(report) <==> Found(path, IsFile) in report && path != [] && Classify(path) == Ship
  {
    hide Classify;
    var f := Found(path, IsFile);
    if path in Copied(report) {
      var g :| g in report && Ships(g) && g.path == path;
      assert g == f;
    }
    if f in report && path != [] && Classify(path) == Ship { assert Ships(f); }
  }

  /** So the second look at the finished ./build finds nothing outside the allowlist. */
  lemma OutputIsAllowed(tree: Node, path: Path)
    requires Proper(tree) && path in PackagerCopies(tree)
    ensures IsAllowed(path)
  {
    hide Classify, PackagerCopies, Proper, NodeAt, Reported, TaskDirs;
    CopiesAreThePackage(tree, path);
  }

  predicate IsRootAsset(path: Path) { exists k :: 0 <= k < |ROOT_ASSETS| && path == [ROOT_ASSETS[k].name] }

  /** A root asset, or a path the classifier ships. */
  predicate IsAllowed(path: Path) { IsRootAsset(path) || (path != [] && Classify(path) == Ship) }

  // ── The second look ──────────────────────────────────────────────────────────

  const MANIFEST: Path := [ROOT_ASSETS[0].name]

  function PromiseRefusals(places: seq<Place>, build: set<Path>): seq<Refusal> {
    if places == [] then [] else PromiseRefusal(places[0], build) + PromiseRefusals(places[1..], build)
  }

  function PromiseRefusal(place: Place, build: set<Path>): seq<Refusal> {
    if IsKept(place, build) then []
    else if place.Outside? then [Refusal(MANIFEST, Escapes)]
    else [Refusal(place.path, Dangling)]
  }

  lemma PromiseStep(places: seq<Place>, k: nat, build: set<Path>)
    requires k < |places|
    ensures PromiseRefusals(places[k..], build) == PromiseRefusal(places[k], build) + PromiseRefusals(places[k + 1..], build)
  {
    hide PromiseRefusal;
    assert places[k..][1..] == places[k + 1..];
  }

  lemma NoPromises(build: set<Path>)
    ensures PromiseRefusals([], build) == []
  {
  }

  /** What the second look refuses: the promises of the packaged manifest that ./build does not keep. */
  function OutputRefusals(d: Document, build: set<Path>): seq<Refusal> {
    match d
    case NotJson => [Refusal(MANIFEST, Unreadable)]
    case Null => []
    case Falsy => []
    case Read(m) => PromiseRefusals(Promised(m), build)
  }

  predicate ComposeThrows(tree: Node, d: Document)
    requires Proper(tree)
  {
    PackagerThrows(tree) || (PackagerRefusals(tree) == [] && PromisesThrow(d))
  }

  /** All that is refused: by the copy phase, or by the second look at a ./build that was copied without refusals. */
  function ComposeRefusals(tree: Node, d: Document): seq<Refusal>
    requires Proper(tree)
  {
    if PackagerThrows(tree) || PackagerRefusals(tree) != [] || PromisesThrow(d) then PackagerRefusals(tree)
    else OutputRefusals(d, PackagerCopies(tree))
  }

  lemma {:induction false} NoPromiseRefusals(places: seq<Place>, build: set<Path>)
    ensures PromiseRefusals(places, build) == [] <==> forall place :: place in places ==> IsKept(place, build)
  {
    hide IsKept;
    if places != [] {
      NoPromiseRefusals(places[1..], build);
      assert places == [places[0]] + places[1..];
    }
  }

  class Packager {
    const tree: Node
    var errors: seq<Refusal>
    var build: Option<set<Path>>
    var bundlesDependencies: bool

    constructor (tree: Node)
      ensures this.tree == tree && errors == [] && build == None && !bundlesDependencies
    {
      this.tree := tree;
      errors, build, bundlesDependencies := [], None, false;
    }

    /** Copy one file that exists, or refuse it if it resolves outside the root; false where the copy throws. */
    method CopyFile(rel: Path) returns (ok: bool)
      requires build.Some?
      modifies this`build, this`errors
      ensures ok <==> NodeAt(tree, rel) == Some(File) || NodeAt(tree, rel) == Some(Away)
      ensures build == if NodeAt(tree, rel) == Some(File) then Some(old(build).value + {rel}) else old(build)
      ensures errors == old(errors) + if NodeAt(tree, rel) == Some(Away) then [Refusal(rel, Escapes)] else []
    {
      var node := NodeAt(tree, rel);
      if node.None? { return false; }
      if node.value.Away? {
        errors := errors + [Refusal(rel, Escapes)];
        return true;
      }
      if !node.value.File? { return false; }
      build := Some(build.value + {rel});
      return true;
    }

    /** One entry of a walk: refused, skipped, passed over or copied. */
    method CopyEntry(entry: Found)
      requires build.Some? && entry.path != []
      requires NodeAt(tree, entry.path).Some? && KindOf(NodeAt(tree, entry.path).value) == entry.kind
      modifies this
      ensures errors == old(errors) + if CopyRefusal(entry).Some? then [Refusal(entry.path, CopyRefusal(entry).value)] else []
      ensures build == Some(old(build).value + if Ships(entry) then {entry.path} else {})
      ensures bundlesDependencies == (old(bundlesDependencies) || IsBundled(entry))
    {
      hide NodeAt, Classify, InNodeModules;
      assert build.value + {} == build.value;
      if entry.kind.IsSymlink? {
        errors := errors + [Refusal(entry.path, IsALink)];
        return;
      }
      if entry.kind.IsOther? {
        errors := errors + [Refusal(entry.path, NotRegular)];
        return;
      }
      if entry.kind.IsDir? { return; }
      var verdict := Classify(entry.path);
      if verdict == Drop {
      } else if verdict == NeverShip {
        errors := errors + [Refusal(entry.path, Secret)];
      } else if verdict == Unknown {
        errors := errors + [Refusal(entry.path, Unlisted)];
      } else {
        if InNodeModules(entry.path) { bundlesDependencies := true; }
        var copied := CopyFile(entry.path);
      }
    }

    /** One directory; false where reading it throws. */
    method CopyTree(dir: Path) returns (ok: bool)
      requires Proper(tree) && build.Some?
      modifies this
      ensures ok <==> Readable(tree, dir)
      ensures !ok ==> errors == old(errors) && build == old(build) && bundlesDependencies == old(bundlesDependencies)
      ensures ok ==>
        && errors == old(errors) + CopyRefusals(Report(tree, dir))
        && build == Some(old(build).value + Copied(Report(tree, dir)))
        && bundlesDependencies == (old(bundlesDependencies) || Bundles(Report(tree, dir)))
    {
      hide NodeAt, Proper, WalkTreeSpec, CopyRefusal, Ships, IsBundled, Reported, Increasing, CopyRefusals, Copied, Bundles, Readable;
      var walked := WalkTree(tree, dir, rel => !DirectoryDropped(rel));
      if walked.None? { return false; }
      var report := walked.value;
      KeptIs(tree, dir, rel => !DirectoryDropped(rel));
      ReportIsExact(tree, dir, Kept());
      EmptyRefusals();
      assert report[..0] == [];
      ghost var b := build.value;
      assert b + {} == b;
      for k := 0 to |report|
        invariant build.Some? && NonEmptyPaths(report[..k])
        invariant errors == old(errors) + CopyRefusals(report[..k])
        invariant build == Some(b + Copied(report[..k]))
        invariant bundlesDependencies == (old(bundlesDependencies) || Bundles(report[..k]))
      {
        var entry := report[k];
        assert entry in report;
        ReportedNode(tree, dir, entry);
        assert report[..k + 1] == report[..k] + [entry];
        OneRefusal(entry);
        CopyRefusalsAppend(report[..k], [entry]);
        assert b + Copied(report[..k]) + Copied([entry]) == b + Copied(report[..k + 1]);
        CopyEntry(entry);
      }
      assert report[..|report|] == report;
      ok := true;
    }

    /**
     The copy phase, the second look at the finished ./build with the manifest that was packaged, and the removal
     of a half-composed ./build. An exception ends the script before that removal.
     */
    method Compose(manifest: Document) returns (threw: bool)
      requires Proper(tree) && errors == [] && !bundlesDependencies
      modifies this
      ensures threw == ComposeThrows(tree, manifest)
      ensures TreesReadable(tree) ==>
        && errors == ComposeRefusals(tree, manifest)
        && build == if threw || errors == [] then Some(PackagerCopies(tree)) else None
      ensures !TreesReadable(tree) ==> build.Some?
    {
      hide NodeAt, Proper, PackagerRefusals, PackagerCopies, TreesReadable, PackagerThrows, OutputRefusals;
      var ended := CopyPhase();
      if !ended { return true; }
      if |errors| == 0 {
        ended := AssertOutput(manifest);
        if !ended { return true; }
      }
      if |errors| > 0 { build := None; }
      return false;
    }

    /** False where an exception ends it. */
    method CopyPhase() returns (ok: bool)
      requires Proper(tree) && errors == [] && !bundlesDependencies
      modifies this
      ensures ok == !PackagerThrows(tree) && build.Some? && (ok ==> TreesReadable(tree))
      ensures TreesReadable(tree) ==> errors == PackagerRefusals(tree) && build == Some(PackagerCopies(tree))
    {
      hide NodeAt, Proper, Reports, StrayReport, CopyRefusals, StrayRefusals, Copied, Bundles, AssetRefusals, AssetCopies,
           TaskDirs, NonEmptyPaths, Handled, CannotCopy, Readable;
      build := Some({});
      var found := DiscoverTaskDirs(tree);
      if found.None? { return false; }
      var taskDirs := found.value;
      TaskDirsAreReal(tree);
      ok := CopyTrees(taskDirs);
      RefuseStrays(taskDirs);
      ok := CopyTrees(ROOT_DIRS);
      if !ok { return; }
      CopyRefusalsAppend(Reports(tree, taskDirs), Reports(tree, ROOT_DIRS));
      var assets := ROOT_ASSETS;
      HandledIsPrefix(tree, assets);
      ok := CopyAssets(assets);
      assert [] + CopyRefusals(Reports(tree, taskDirs)) == CopyRefusals(Reports(tree, taskDirs));
      assert {} + Copied(Reports(tree, taskDirs)) + Copied(Reports(tree, ROOT_DIRS)) == Copied(ComposedReport(tree));
      assert errors == PackagerRefusals(tree);
    }

    /** The promises of the manifest, then what is in ./build; false where reading the manifest throws. */
    method AssertOutput(manifest: Document) returns (ok: bool)
      requires Proper(tree) && build == Some(PackagerCopies(tree))
      modifies this`errors
      ensures ok == !PromisesThrow(manifest)
      ensures errors == old(errors) + if ok then OutputRefusals(manifest, PackagerCopies(tree)) else []
    {
      hide PackagerCopies, Promised, PromiseRefusals;
      if manifest.NotJson? {
        errors := errors + [Refusal(MANIFEST, Unreadable)];
        return true;
      }
      if manifest.Null? { return false; }
      if manifest.Read? {
        if manifest.manifest.files.NotAList? { return false; }
        CheckPromises(Promised(manifest.manifest));
      }
      CheckOutput();
      return true;
    }

    method CheckPromises(places: seq<Place>)
      requires build.Some?
      modifies this`errors
      ensures errors == old(errors) + PromiseRefusals(places, build.value)
    {
      hide PromiseRefusal, PromiseRefusals;
      NoPromises(build.value);
      assert places[0..] == places && places[|places|..] == [];
      for k := 0 to |places|
        invariant errors + PromiseRefusals(places[k..], build.value) == old(errors) + PromiseRefusals(places, build.value)
      {
        PromiseStep(places, k, build.value);
        CheckPromise(places[k]);
      }
    }

    method CheckPromise(place: Place)
      requires build.Some?
      modifies this`errors
      ensures errors == old(errors) + PromiseRefusal(place, build.value)
    {
      hide InBuild;
      if place.Outside? {
        errors := errors + [Refusal(MANIFEST, Escapes)];
      } else if !InBuild(build.value, place.path) {
        errors := errors + [Refusal(place.path, Dangling)];
      }
    }

    /** Nothing outside the allowlist is in ./build. */
    method CheckOutput()
      requires Proper(tree) && build == Some(PackagerCopies(tree))
      modifies this`errors
      ensures errors == old(errors)
    {
      hide PackagerCopies, Classify, Proper;
      var rest, refused: seq<Refusal> := build.value, [];
      while rest != {}
        invariant rest <= build.value
        invariant forall k :: 0 <= k < |refused| ==> refused[k].path in build.value && !IsAllowed(refused[k].path)
        decreases rest
      {
        var path :| path in rest;
        if !IsAllowed(path) { refused := refused + [Refusal(path, Unlisted)]; }
        rest := rest - {path};
      }
      if refused != [] { OutputIsAllowed(tree, refused[0].path); }
      errors := errors + refused;
    }

    method CopyTrees(dirs: seq<Path>) returns (ok: bool)
      requires Proper(tree) && build.Some?
      modifies this
      ensures build.Some?
      ensures ok <==> forall k :: 0 <= k < |dirs| ==> Readable(tree, dirs[k])
      ensures ok ==>
        && errors == old(errors) + CopyRefusals(Reports(tree, dirs))
        && build == Some(old(build).value + Copied(Reports(tree, dirs)))
        && bundlesDependencies == (old(bundlesDependencies) || Bundles(Reports(tree, dirs)))
    {
      hide NodeAt, Proper, Report, CopyRefusals, Copied, Bundles, NonEmptyPaths, Readable;
      EmptyRefusals();
      assert dirs[..0] == [];
      ghost var b := build.value;
      assert b + {} == b;
      for k := 0 to |dirs|
        invariant build.Some? && forall i :: 0 <= i < k ==> Readable(tree, dirs[i])
        invariant errors == old(errors) + CopyRefusals(Reports(tree, dirs[..k]))
        invariant build == Some(b + Copied(Reports(tree, dirs[..k])))
        invariant bundlesDependencies == (old(bundlesDependencies) || Bundles(Reports(tree, dirs[..k])))
      {
        ReportsSnoc(tree, dirs[..k], dirs[k]);
        assert dirs[..k + 1] == dirs[..k] + [dirs[k]];
        CopyRefusalsAppend(Reports(tree, dirs[..k]), Report(tree, dirs[k]));
        assert b + Copied(Reports(tree, dirs[..k])) + Copied(Report(tree, dirs[k])) == b + Copied(Reports(tree, dirs[..k + 1]));
        ok := CopyTree(dirs[k]);
        if !ok { return; }
      }
      assert dirs[..|dirs|] == dirs;
      ok := true;
    }

    method RefuseStrays(dirs: seq<Path>)
      requires Proper(tree) && build.Some? && Readable(tree, TASKS)
      modifies this`errors
      ensures errors == old(errors) + StrayRefusals(StrayReport(tree, dirs), dirs)
    {
      hide Proper, WalkTreeSpec, InsideTaskDir, Reported, Increasing, StrayRefusals;
      var report := WalkTree(tree, TASKS, rel => !DirectoryDropped(rel) && !InsideTaskDir(rel, dirs));
      StrayKeptIs(tree, dirs, rel => !DirectoryDropped(rel) && !InsideTaskDir(rel, dirs));
      assert report == Some(StrayReport(tree, dirs));
      RefuseStraysOf(report.value, dirs);
    }

    method RefuseStraysOf(report: seq<Found>, dirs: seq<Path>)
      requires NonEmptyPaths(report)
      modifies this`errors
      ensures errors == old(errors) + StrayRefusals(report, dirs)
    {
      hide IsStray, StrayRefusals;
      assert report[0..] == report && report[|report|..] == [];
      NoStrayRefusalsOfNothing(dirs);
      for k := 0 to |report|
        invariant errors + StrayRefusals(report[k..], dirs) == old(errors) + StrayRefusals(report, dirs)
      {
        StrayStep(report, k, dirs);
        if IsStray(report[k], dirs) { errors := errors + [Refusal(report[k].path, Stray)]; }
      }
    }

    method CopyAsset(asset: Asset) returns (ok: bool)
      requires build.Some?
      modifies this`errors, this`build
      ensures ok <==> !CannotCopy(tree, asset)
      ensures var outcome := AssetSpec(tree, asset, bundlesDependencies);
        && errors == old(errors) + (if outcome.Refused? then [Refusal([asset.name], outcome.why)] else [])
        && build == Some(old(build).value + if outcome.CopiedAsset? then {[asset.name]} else {})
    {
      hide NodeAt;
      assert build.value + {} == build.value;
      var node := NodeAt(tree, [asset.name]);
      if Exists(node) && node.value.Symlink? {
        errors := errors + [Refusal([asset.name], IsALink)];
        return true;
      }
      if Exists(node) {
        ok := CopyFile([asset.name]);
        return;
      }
      if asset.required || (asset.requiredWhenBundling && bundlesDependencies) {
        errors := errors + [Refusal([asset.name], Absent)];
      }
      return true;
    }

    method CopyAssets(assets: seq<Asset>) returns (ok: bool)
      requires build.Some?
      modifies this`errors, this`build
      ensures ok <==> Handled(tree, assets) == assets
      ensures errors == old(errors) + AssetRefusals(tree, Handled(tree, assets), bundlesDependencies)
      ensures build == Some(old(build).value + AssetCopies(tree, Handled(tree, assets), bundlesDependencies))
    {
      hide AssetSpec, AssetCopies, AssetRefusals, Handled, CannotCopy;
      ghost var done := Handled(tree, assets);
      ghost var b := build.value;
      HandledIsPrefix(tree, assets);
      NoAssets(tree, bundlesDependencies);
      assert done[0..] == done && done[..0] == [] && b + {} == b;
      for k := 0 to |assets|
        invariant build.Some? && k <= |done|
        invariant errors + AssetRefusals(tree, done[k..], bundlesDependencies) == old(errors) + AssetRefusals(tree, done, bundlesDependencies)
        invariant build == Some(b + AssetCopies(tree, done[..k], bundlesDependencies))
      {
        var asset := assets[k];
        HandledStep(tree, assets, k);
        ok := CopyAsset(asset);
        if !ok {
          NoneCopied(tree, asset, bundlesDependencies);
          assert done[k..] == [] && done[..k] == done;
          assert b + AssetCopies(tree, done, bundlesDependencies) + {} == b + AssetCopies(tree, done, bundlesDependencies);
          return;
        }
        AssetStep(tree, done, k, bundlesDependencies);
        assert done[..k + 1] == done[..k] + [asset];
        CopiesSnoc(tree, done[..k], asset, bundlesDependencies);
        ghost var one := if AssetSpec(tree, asset, bundlesDependencies).CopiedAsset? then {[asset.name]} else {};
        assert b + AssetCopies(tree, done[..k], bundlesDependencies) + one == b + (AssetCopies(tree, done[..k], bundlesDependencies) + one);
      }
      assert done == assets && done[|done|..] == [] && done[..|done|] == done;
      ok := true;
    }
  }

  /** The first asset not handled is the first that cannot be copied. */
  lemma {:induction false} HandledStep(tree: Node, assets: seq<Asset>, k: nat)
    requires k < |assets| && k <= |Handled(tree, assets)|
    ensures k < |Handled(tree, assets)| <==> !CannotCopy(tree, assets[k])
    ensures k < |Handled(tree, assets)| ==> Handled(tree, assets)[k] == assets[k]
    decreases |assets|
  {
    hide CannotCopy;
    if !CannotCopy(tree, assets[0]) && k > 0 { HandledStep(tree, assets[1..], k - 1); }
  }

  lemma NoneCopied(tree: Node, a: Asset, bundling: bool)
    requires CannotCopy(tree, a)
    ensures AssetSpec(tree, a, bundling) == Throws
  {
    hide NodeAt;
  }

  lemma NoStrayRefusalsOfNothing(dirs: seq<Path>)
    ensures StrayRefusals([], dirs) == []
  {
  }

  lemma StrayStep(report: seq<Found>, k: nat, dirs: seq<Path>)
    requires NonEmptyPaths(report) && k < |report|
    ensures StrayRefusals(report[k..], dirs) ==
            (if IsStray(report[k], dirs) then [Refusal(report[k].path, Stray)] else []) + StrayRefusals(report[k + 1..], dirs)
  {
    hide IsStray;
    assert report[k..][1..] == report[k + 1..];
  }

  lemma AssetStep(tree: Node, assets: seq<Asset>, k: nat, bundling: bool)
    requires k < |assets|
    ensures AssetRefusals(tree, assets[k..], bundling) ==
            (var outcome := AssetSpec(tree, assets[k], bundling);
             if outcome.Refused? then [Refusal([assets[k].name], outcome.why)] else [])
            + AssetRefusals(tree, assets[k + 1..], bundling)
  {
    hide AssetSpec;
    assert assets[k..][1..] == assets[k + 1..];
  }

  lemma NoAssets(tree: Node, bundling: bool)
    ensures AssetCopies(tree, [], bundling) == {} && AssetRefusals(tree, [], bundling) == []
  {
  }

  lemma CopiesSnoc(tree: Node, assets: seq<Asset>, a: Asset, bundling: bool)
    ensures AssetCopies(tree, assets + [a], bundling) ==
            AssetCopies(tree, assets, bundling) + if AssetSpec(tree, a, bundling).CopiedAsset? then {[a.name]} else {}
  {
    hide AssetSpec;
  }

  lemma EmptyRefusals()
    ensures NonEmptyPaths([]) && CopyRefusals([]) == [] && Copied([]) == {} && !Bundles([])
  {
  }

  lemma OneRefusal(f: Found)
    requires f.path != []
    ensures NonEmptyPaths([f])
    ensures CopyRefusals([f]) == if CopyRefusal(f).Some? then [Refusal(f.path, CopyRefusal(f).value)] else []
    ensures Copied([f]) == if Ships(f) then {f.path} else {}
    ensures Bundles([f]) == IsBundled(f)
  {
    hide CopyRefusal, Ships, IsBundled;
    assert [f][1..] == [];
    assert [f][0] == f;
  }

  /** The walk depends on what `descend` answers, not on how it is written. */
  lemma {:induction false} WalkSame(path: Path, entries: seq<Entry>, d: Path -> bool, d': Path -> bool)
    requires forall p :: d(p) == d'(p)
    ensures Walk(path, entries, d) == Walk(path, entries, d')
    decreases entries
  {
    if entries != [] {
      var rel := path + [entries[0].name];
      if entries[0].node.Dir? { WalkSame(rel, entries[0].node.entries, d, d'); }
      WalkSame(path, entries[1..], d, d');
    }
  }

  lemma KeptIs(tree: Node, dir: Path, d: Path -> bool)
    requires forall p :: d(p) == !DirectoryDropped(p)
    ensures WalkTreeSpec(tree, dir, d) == WalkTreeSpec(tree, dir, Kept())
  {
    WalkSame(dir, DirEntries(NodeAt(tree, dir)), d, Kept());
  }

  lemma StrayKeptIs(tree: Node, dirs: seq<Path>, d: Path -> bool)
    requires forall p :: d(p) == (!DirectoryDropped(p) && !InsideTaskDir(p, dirs))
    ensures WalkTreeSpec(tree, TASKS, d) == WalkTreeSpec(tree, TASKS, KeptOutside(dirs))
  {
    WalkSame(TASKS, DirEntries(NodeAt(tree, TASKS)), d, KeptOutside(dirs));
  }

  lemma ReportedNode(tree: Node, dir: Path, f: Found)
    requires Reported(tree, dir, Kept(), f)
    ensures f.path != [] && NodeAt(tree, f.path).Some? && KindOf(NodeAt(tree, f.path).value) == f.kind
  {
  }

  lemma {:induction false} ReportsSnoc(tree: Node, dirs: seq<Path>, dir: Path)
    requires Proper(tree)
    ensures Reports(tree, dirs + [dir]) == Reports(tree, dirs) + Report(tree, dir)
  {
    hide Report, Proper;
    if dirs == [] {
      assert dirs + [dir] == [dir] && [dir][1..] == [];
      assert Reports(tree, [dir][1..]) == [];
    } else {
      assert (dirs + [dir])[1..] == dirs[1..] + [dir];
      ReportsSnoc(tree, dirs[1..], dir);
    }
  }

  // ── Task directories ─────────────────────────────────────────────────────────

  lemma {:induction false} FamilyMembers(family: string, entries: seq<Entry>, dir: Path)
    ensures dir in TaskDirsOfFamily(family, entries) <==>
      exists k :: 0 <= k < |entries| && entries[k].node.Dir? && Exists(Child(entries[k].node.entries, "task.json"))
                  && dir == ["Tasks", family, entries[k].name]
  {
    hide Exists, Child;
    if entries != [] {
      FamilyMembers(family, entries[1..], dir);
      assert forall k :: 0 < k < |entries| ==> entries[k] == entries[1..][k - 1];
      assert forall k :: 0 <= k < |entries[1..]| ==> entries[1..][k] == entries[k + 1];
    }
  }

  lemma {:induction false} FamiliesMembers(families: seq<Entry>, dir: Path)
    ensures dir in TaskDirsOf(families) <==>
      exists k :: 0 <= k < |families| && families[k].node.Dir? && dir in TaskDirsOfFamily(families[k].name, families[k].node.entries)
  {
    hide TaskDirsOfFamily;
    if families != [] {
      FamiliesMembers(families[1..], dir);
      assert forall k :: 0 < k < |families| ==> families[k] == families[1..][k - 1];
      assert forall k :: 0 <= k < |families[1..]| ==> families[1..][k] == families[k + 1];
    }
  }

  /** The enumeration finds exactly the canonical task directories. */
  lemma TaskDirsExact(tree: Node, dir: Path)
    requires Proper(tree)
    ensures dir in TaskDirs(tree) <==> IsTaskDir(tree, dir)
  {
    hide Exists, TaskDirsOfFamily, TaskDirsOf, Proper, NodeAt;
    var families := DirEntries(NodeAt(tree, TASKS));
    FamiliesMembers(families, dir);
    SortPathsIsSorted(TaskDirsOf(families));
    forall k | 0 <= k < |families| && families[k].node.Dir? && dir in TaskDirsOfFamily(families[k].name, families[k].node.entries)
      ensures IsTaskDir(tree, dir)
    {
      EntryNode(tree, TASKS, k);
      var family := TASKS + [families[k].name];
      FamilyMembers(families[k].name, families[k].node.entries, dir);
      var j :| 0 <= j < |families[k].node.entries| && families[k].node.entries[j].node.Dir?
               && Exists(Child(families[k].node.entries[j].node.entries, "task.json"))
               && dir == ["Tasks", families[k].name, families[k].node.entries[j].name];
      EntryNode(tree, family, j);
      assert family + [families[k].node.entries[j].name] == dir;
    }
    if IsTaskDir(tree, dir) { TaskDirIsFound(tree, dir); }
  }

  lemma TaskDirIsFound(tree: Node, dir: Path)
    requires Proper(tree) && IsTaskDir(tree, dir)
    ensures dir in TaskDirs(tree)
  {
    hide Exists, TaskDirsOfFamily, TaskDirsOf, SortPaths;
    var families := DirEntries(NodeAt(tree, TASKS));
    SortPathsIsSorted(TaskDirsOf(families));
    assert dir == TASKS + dir[1..];
    NodeAtAppend(tree, TASKS, dir[1..]);
    ChildIsEntry(families, dir[1]);
    var k :| 0 <= k < |families| && families[k].name == dir[1] && families[k].node == Child(families, dir[1]).value;
    assert dir[1..][1..] == [dir[2]];
    assert NodeAt(families[k].node, [dir[2]]) == NodeAt(tree, dir);
    var entries := families[k].node.entries;
    ChildIsEntry(entries, dir[2]);
    assert [dir[2]][1..] == [];
    var j :| 0 <= j < |entries| && entries[j].name == dir[2] && entries[j].node == Child(entries, dir[2]).value;
    assert NodeAt(entries[j].node, []) == Some(entries[j].node);
    assert NodeAt(families[k].node, [dir[2]]) == Some(entries[j].node);
    assert dir == ["Tasks", families[k].name, entries[j].name];
    FamilyMembers(families[k].name, entries, dir);
    assert dir in TaskDirsOfFamily(families[k].name, entries);
    FamiliesMembers(families, dir);
  }

  lemma TaskDirsAreReal(tree: Node)
    requires Proper(tree)
    ensures forall k :: 0 <= k < |TaskDirs(tree)| ==> Readable(tree, TaskDirs(tree)[k])
  {
    hide TaskDirs, Proper, NodeAt;
    forall k | 0 <= k < |TaskDirs(tree)| ensures Readable(tree, TaskDirs(tree)[k]) {
      TaskDirsExact(tree, TaskDirs(tree)[k]);
    }
  }
}
