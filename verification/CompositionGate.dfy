/**
 The composition gate (`scripts/check-package-composition.js`, its tree, image and root-asset checks)
 and the agreement of the two programs: a tree the gate passes is composed without a refusal.
 */
module CompositionGate {
  import opened JsText
  import opened PackageTree
  import opened PackageContents
  import opened PackageComposition

  const IMAGES: Path := ["images"]

  // ── What the gate refuses ────────────────────────────────────────────────────

  /** A task.json at a depth that the enumeration does not reach. */
  predicate MisplacedTask(f: Found, dirs: seq<Path>)
    requires f.path != []
  {
    IsRegular(f.kind) && Last(f.path) == "task.json" && f.path[..|f.path| - 1] !in dirs
  }

  predicate Placed(path: Path, dirs: seq<Path>) {
    InsideTaskDir(path, dirs) || AncestorOfTaskDir(path, dirs) || path in dirs
  }

  function GateRefusal(f: Found, dirs: seq<Path>): Option<Why>
    requires f.path != []
  {
    if f.kind.IsSymlink? then Some(IsALink)
    else if f.kind.IsOther? then Some(NotRegular)
    else if MisplacedTask(f, dirs) then Some(StrayTask)
    else if !Placed(f.path, dirs) then
      if Classify(f.path) == Drop || f.kind.IsDir? then None else Some(Stray)
    else if f.kind.IsDir? then None
    else VerdictRefusal(Classify(f.path))
  }

  function VerdictRefusal(v: Verdict): Option<Why> {
    match v
    case NeverShip => Some(Secret)
    case Unknown => Some(Unlisted)
    case Drop => None
    case Ship => None
  }

  function ImageRefusal(f: Found): Option<Why>
    requires f.path != []
  {
    if f.kind.IsSymlink? then Some(IsALink)
    else if !IsRegular(f.kind) then None
    else VerdictRefusal(Classify(f.path))
  }

  predicate GateBundles(report: seq<Found>, dirs: seq<Path>)
    requires NonEmptyPaths(report)
  {
    exists k :: 0 <= k < |report| && GateBundlesEntry(report[k], dirs)
  }

  predicate GateBundlesEntry(f: Found, dirs: seq<Path>)
    requires f.path != []
  {
    IsBundled(f) && !MisplacedTask(f, dirs) && Placed(f.path, dirs)
  }

  function GateAssetRefusal(tree: Node, a: Asset, bundling: bool): Option<Why> {
    var node := NodeAt(tree, [a.name]);
    if Exists(node) && node.value.Symlink? then Some(IsALink)
    else if !Exists(node) && (a.required || (a.requiredWhenBundling && bundling)) then Some(Absent)
    else None
  }

  function TaskRefusals(report: seq<Found>, dirs: seq<Path>): seq<Refusal>
    requires NonEmptyPaths(report)
  {
    if report == [] then []
    else One(report[0].path, GateRefusal(report[0], dirs)) + TaskRefusals(report[1..], dirs)
  }

  function ImageRefusals(report: seq<Found>): seq<Refusal>
    requires NonEmptyPaths(report)
  {
    if report == [] then []
    else One(report[0].path, ImageRefusal(report[0])) + ImageRefusals(report[1..])
  }

  function GateAssetRefusals(tree: Node, assets: seq<Asset>, bundling: bool): seq<Refusal> {
    if assets == [] then []
    else One([assets[0].name], GateAssetRefusal(tree, assets[0], bundling)) + GateAssetRefusals(tree, assets[1..], bundling)
  }

  function One(path: Path, why: Option<Why>): seq<Refusal> {
    if why.Some? then [Refusal(path, why.value)] else []
  }

  /** Everything the gate refuses about the tree, in order. */
  function GateRefusals(tree: Node): seq<Refusal>
    requires Proper(tree)
  {
    TaskRefusals(Report(tree, TASKS), TaskDirs(tree))
    + ImageRefusals(Reports(tree, ROOT_DIRS))
    + GateAssetRefusals(tree, ROOT_ASSETS, GateBundles(Report(tree, TASKS), TaskDirs(tree)))
  }

  /** The gate gets to its end and has nothing to refuse. */
  predicate GatePasses(tree: Node)
    requires Proper(tree)
  {
    TreesReadable(tree) && GateRefusals(tree) == []
  }

  // ── The gate ─────────────────────────────────────────────────────────────────

  class Gate {
    const tree: Node
    var errors: seq<Refusal>
    var bundlesDependencies: bool

    constructor (tree: Node)
      ensures this.tree == tree && errors == [] && !bundlesDependencies
    {
      this.tree := tree;
      errors, bundlesDependencies := [], false;
    }

    /** One entry under Tasks/. */
    method CheckEntry(f: Found, taskDirs: seq<Path>)
      requires f.path != []
      modifies this
      ensures errors == old(errors) + One(f.path, GateRefusal(f, taskDirs))
      ensures bundlesDependencies == (old(bundlesDependencies) || GateBundlesEntry(f, taskDirs))
    {
      hide Classify, InNodeModules, InsideTaskDir, AncestorOfTaskDir;
      var isTaskDirAncestor := AncestorOfTaskDir(f.path, taskDirs) || f.path in taskDirs;
      var inTask := InsideTaskDir(f.path, taskDirs);
      if f.kind.IsSymlink? {
        errors := errors + [Refusal(f.path, IsALink)];
        return;
      }
      if f.kind.IsOther? {
        errors := errors + [Refusal(f.path, NotRegular)];
        return;
      }
      if IsRegular(f.kind) && Last(f.path) == "task.json" && f.path[..|f.path| - 1] !in taskDirs {
        errors := errors + [Refusal(f.path, StrayTask)];
        return;
      }
      var verdict := Classify(f.path);
      if !inTask && !isTaskDirAncestor {
        if verdict == Drop { return; }
        if f.kind.IsDir? { return; }
        errors := errors + [Refusal(f.path, Stray)];
        return;
      }
      if f.kind.IsDir? { return; }
      if verdict == NeverShip {
        errors := errors + [Refusal(f.path, Secret)];
      } else if verdict == Unknown {
        errors := errors + [Refusal(f.path, Unlisted)];
      } else if verdict == Ship && InNodeModules(f.path) {
        bundlesDependencies := true;
      }
    }

    method CheckTasks(taskDirs: seq<Path>)
      requires Proper(tree) && Readable(tree, TASKS)
      modifies this
      ensures errors == old(errors) + TaskRefusals(Report(tree, TASKS), taskDirs)
      ensures bundlesDependencies == (old(bundlesDependencies) || GateBundles(Report(tree, TASKS), taskDirs))
    {
      hide NodeAt, Proper, WalkTreeSpec;
      var report := WalkTree(tree, TASKS, rel => !DirectoryDropped(rel));
      KeptIs(tree, TASKS, rel => !DirectoryDropped(rel));
      assert report == Some(Report(tree, TASKS));
      CheckTaskEntries(report.value, taskDirs);
    }

    /** The loop over them. */
    method CheckTaskEntries(report: seq<Found>, taskDirs: seq<Path>)
      requires NonEmptyPaths(report)
      modifies this
      ensures errors == old(errors) + TaskRefusals(report, taskDirs)
      ensures bundlesDependencies == (old(bundlesDependencies) || GateBundles(report, taskDirs))
    {
      hide GateRefusal, GateBundlesEntry, One;
      assert report[0..] == report;
      for k := 0 to |report|
        invariant NonEmptyPaths(report)
        invariant errors + TaskRefusals(report[k..], taskDirs) == old(errors) + TaskRefusals(report, taskDirs)
        invariant bundlesDependencies ==
          (old(bundlesDependencies) || exists i :: 0 <= i < k && GateBundlesEntry(report[i], taskDirs))
      {
        assert report[k..][1..] == report[k + 1..];
        CheckEntry(report[k], taskDirs);
      }
    }

    method CheckRootDirs(dirs: seq<Path>) returns (ok: bool)
      requires Proper(tree)
      modifies this`errors
      ensures ok <==> forall k :: 0 <= k < |dirs| ==> Readable(tree, dirs[k])
      ensures ok ==> errors == old(errors) + ImageRefusals(Reports(tree, dirs))
    {
      hide Proper, NonEmptyPaths, Reports, Report, ImageRefusals, Readable;
      assert dirs[0..] == dirs && dirs[|dirs|..] == [];
      NoImages(tree);
      for i := 0 to |dirs|
        invariant forall k :: 0 <= k < i ==> Readable(tree, dirs[k])
        invariant errors + ImageRefusals(Reports(tree, dirs[i..])) == old(errors) + ImageRefusals(Reports(tree, dirs))
      {
        ImagesStep(tree, dirs, i);
        ok := CheckRootDir(dirs[i]);
        if !ok { return; }
      }
      ok := true;
    }

    /** One root directory; false where reading it throws. */
    method CheckRootDir(dir: Path) returns (ok: bool)
      requires Proper(tree)
      modifies this`errors
      ensures ok <==> Readable(tree, dir)
      ensures errors == old(errors) + if ok then ImageRefusals(Report(tree, dir)) else []
    {
      hide NodeAt, Proper, WalkTreeSpec;
      var report := WalkTree(tree, dir, rel => !DirectoryDropped(rel));
      KeptIs(tree, dir, rel => !DirectoryDropped(rel));
      if report.None? { return false; }
      assert report == Some(Report(tree, dir));
      CheckImages(report.value);
      ok := true;
    }

    method CheckImages(report: seq<Found>)
      requires NonEmptyPaths(report)
      modifies this`errors
      ensures errors == old(errors) + ImageRefusals(report)
    {
      hide ImageRefusal, One;
      assert report[0..] == report;
      for k := 0 to |report|
        invariant NonEmptyPaths(report)
        invariant errors + ImageRefusals(report[k..]) == old(errors) + ImageRefusals(report)
      {
        assert report[k..][1..] == report[k + 1..];
        CheckImage(report[k]);
      }
    }

    /** One entry under a root directory. */
    method CheckImage(entry: Found)
      requires entry.path != []
      modifies this`errors
      ensures errors == old(errors) + One(entry.path, ImageRefusal(entry))
    {
      hide Classify;
      if entry.kind.IsSymlink? {
        errors := errors + [Refusal(entry.path, IsALink)];
        return;
      }
      if !IsRegular(entry.kind) { return; }
      var verdict := Classify(entry.path);
      if verdict == NeverShip {
        errors := errors + [Refusal(entry.path, Secret)];
      } else if verdict == Unknown {
        errors := errors + [Refusal(entry.path, Unlisted)];
      }
    }

    method CheckAssets(assets: seq<Asset>)
      modifies this`errors
      ensures errors == old(errors) + GateAssetRefusals(tree, assets, bundlesDependencies)
    {
      hide GateAssetRefusal, GateAssetRefusals;
      assert assets[0..] == assets && assets[|assets|..] == [];
      NoGateAssets(tree, bundlesDependencies);
      for k := 0 to |assets|
        invariant errors + GateAssetRefusals(tree, assets[k..], bundlesDependencies)
               == old(errors) + GateAssetRefusals(tree, assets, bundlesDependencies)
      {
        GateAssetStep(tree, assets, k, bundlesDependencies);
        CheckAsset(assets[k]);
      }
    }

    method CheckAsset(asset: Asset)
      modifies this`errors
      ensures errors == old(errors) + One([asset.name], GateAssetRefusal(tree, asset, bundlesDependencies))
    {
      hide NodeAt;
      var node := NodeAt(tree, [asset.name]);
      if Exists(node) && node.value.Symlink? {
        errors := errors + [Refusal([asset.name], IsALink)];
        return;
      }
      var required := asset.required || (asset.requiredWhenBundling && bundlesDependencies);
      if !Exists(node) {
        if required { errors := errors + [Refusal([asset.name], Absent)]; }
      }
    }

    method Check() returns (threw: bool)
      requires Proper(tree) && errors == [] && !bundlesDependencies
      modifies this
      ensures threw <==> !TreesReadable(tree)
      ensures !threw ==> errors == GateRefusals(tree)
    {
      hide NodeAt, Proper, TaskRefusals, ImageRefusals, GateAssetRefusals, GateBundles, TaskDirs, Report, Reports, Readable;
      var found := DiscoverTaskDirs(tree);
      if found.None? { return true; }
      CheckTasks(found.value);
      var ok := CheckRootDirs(ROOT_DIRS);
      if !ok { return true; }
      CheckAssets(ROOT_ASSETS);
      return false;
    }
  }

  lemma NoImages(tree: Node)
    requires Proper(tree)
    ensures ImageRefusals(Reports(tree, [])) == []
  {
  }

  lemma ImagesStep(tree: Node, dirs: seq<Path>, i: nat)
    requires Proper(tree) && i < |dirs|
    ensures ImageRefusals(Reports(tree, dirs[i..])) ==
            ImageRefusals(Report(tree, dirs[i])) + ImageRefusals(Reports(tree, dirs[i + 1..]))
  {
    hide Proper, NonEmptyPaths, Report, ImageRefusals;
    assert dirs[i..][1..] == dirs[i + 1..];
    ImageRefusalsAppend(Report(tree, dirs[i]), Reports(tree, dirs[i + 1..]));
  }

  lemma NoGateAssets(tree: Node, bundling: bool)
    ensures GateAssetRefusals(tree, [], bundling) == []
  {
  }

  lemma GateAssetStep(tree: Node, assets: seq<Asset>, k: nat, bundling: bool)
    requires k < |assets|
    ensures GateAssetRefusals(tree, assets[k..], bundling) ==
            One([assets[k].name], GateAssetRefusal(tree, assets[k], bundling)) + GateAssetRefusals(tree, assets[k + 1..], bundling)
  {
    hide GateAssetRefusal, One;
    assert assets[k..][1..] == assets[k + 1..];
  }

  lemma {:induction false} ImageRefusalsAppend(a: seq<Found>, b: seq<Found>)
    requires NonEmptyPaths(a) && NonEmptyPaths(b)
    ensures NonEmptyPaths(a + b) && ImageRefusals(a + b) == ImageRefusals(a) + ImageRefusals(b)
  {
    hide ImageRefusal, ImageRefusals, One;
    if a == [] {
      assert a + b == b;
      NoImageRefusalsOfNothing();
    } else {
      assert (a + b)[0] == a[0] && (a + b)[1..] == a[1..] + b;
      ImageRefusalsAppend(a[1..], b);
      ImageRefusalsStep(a + b);
      ImageRefusalsStep(a);
      ghost var first := One(a[0].path, ImageRefusal(a[0]));
      assert first + (ImageRefusals(a[1..]) + ImageRefusals(b)) == first + ImageRefusals(a[1..]) + ImageRefusals(b);
    }
  }

  lemma ImageRefusalsStep(report: seq<Found>)
    requires report != [] && NonEmptyPaths(report)
    ensures ImageRefusals(report) == One(report[0].path, ImageRefusal(report[0])) + ImageRefusals(report[1..])
  {
    hide ImageRefusal;
  }

  lemma NoImageRefusalsOfNothing()
    ensures NonEmptyPaths([]) && ImageRefusals([]) == []
  {
  }

  // ── An empty list of refusals, entry by entry ────────────────────────────────

  lemma {:induction false} NoTaskRefusals(report: seq<Found>, dirs: seq<Path>)
    requires NonEmptyPaths(report)
    ensures TaskRefusals(report, dirs) == [] <==> forall k :: 0 <= k < |report| ==> GateRefusal(report[k], dirs).None?
  {
    hide GateRefusal;
    if report != [] {
      NoTaskRefusals(report[1..], dirs);
      assert forall k :: 0 < k < |report| ==> report[k] == report[1..][k - 1];
      assert forall k :: 0 <= k < |report[1..]| ==> report[1..][k] == report[k + 1];
    }
  }

  lemma {:induction false} NoImageRefusals(report: seq<Found>)
    requires NonEmptyPaths(report)
    ensures ImageRefusals(report) == [] <==> forall k :: 0 <= k < |report| ==> ImageRefusal(report[k]).None?
  {
    hide ImageRefusal;
    if report != [] {
      NoImageRefusals(report[1..]);
      assert forall k :: 0 < k < |report| ==> report[k] == report[1..][k - 1];
      assert forall k :: 0 <= k < |report[1..]| ==> report[1..][k] == report[k + 1];
    }
  }

  lemma {:induction false} NoCopyRefusals(report: seq<Found>)
    requires NonEmptyPaths(report)
    ensures CopyRefusals(report) == [] <==> forall k :: 0 <= k < |report| ==> CopyRefusal(report[k]).None?
  {
    hide CopyRefusal;
    if report != [] {
      NoCopyRefusals(report[1..]);
      assert forall k :: 0 < k < |report| ==> report[k] == report[1..][k - 1];
      assert forall k :: 0 <= k < |report[1..]| ==> report[1..][k] == report[k + 1];
    }
  }

  lemma {:induction false} NoStrayRefusals(report: seq<Found>, dirs: seq<Path>)
    requires NonEmptyPaths(report)
    ensures StrayRefusals(report, dirs) == [] <==> forall k :: 0 <= k < |report| ==> !IsStray(report[k], dirs)
  {
    hide IsStray;
    if report != [] {
      NoStrayRefusals(report[1..], dirs);
      assert forall k :: 0 < k < |report| ==> report[k] == report[1..][k - 1];
      assert forall k :: 0 <= k < |report[1..]| ==> report[1..][k] == report[k + 1];
    }
  }

  lemma {:induction false} NoGateAssetRefusals(tree: Node, assets: seq<Asset>, bundling: bool)
    ensures GateAssetRefusals(tree, assets, bundling) == [] <==>
      forall k :: 0 <= k < |assets| ==> GateAssetRefusal(tree, assets[k], bundling).None?
  {
    hide GateAssetRefusal;
    if assets != [] {
      NoGateAssetRefusals(tree, assets[1..], bundling);
      assert forall k :: 0 < k < |assets| ==> assets[k] == assets[1..][k - 1];
      assert forall k :: 0 <= k < |assets[1..]| ==> assets[1..][k] == assets[k + 1];
    }
  }

  lemma {:induction false} NoAssetRefusals(tree: Node, assets: seq<Asset>, bundling: bool)
    ensures AssetRefusals(tree, assets, bundling) == [] <==>
      forall k :: 0 <= k < |assets| ==> !AssetSpec(tree, assets[k], bundling).Refused?
  {
    hide AssetSpec;
    if assets != [] {
      NoAssetRefusals(tree, assets[1..], bundling);
      assert forall k :: 0 < k < |assets| ==> assets[k] == assets[1..][k - 1];
      assert forall k :: 0 <= k < |assets[1..]| ==> assets[1..][k] == assets[k + 1];
    }
  }

  // ── The two programs agree ───────────────────────────────────────────────────

  /** A task directory the gate never enters: it, or its family directory, is itself dropped by the classifier. */
  predicate Pruned(dir: Path) { DirectoryDropped(dir) || (|dir| > 2 && DirectoryDropped(dir[..2])) }

  predicate TaskDirsKept(tree: Node) { forall k :: 0 <= k < |TaskDirs(tree)| ==> !Pruned(TaskDirs(tree)[k]) }

  /** What the packager meets in such directories, it does not refuse. */
  predicate PrunedTasksAreClean(tree: Node)
    requires Proper(tree)
  {
    forall k :: 0 <= k < |TaskDirs(tree)| && Pruned(TaskDirs(tree)[k]) ==> CopyRefusals(Report(tree, TaskDirs(tree)[k])) == []
  }

  /** images/ holds no special file. */
  predicate NoSpecialImages(tree: Node)
    requires Proper(tree)
  {
    forall f :: f in Reports(tree, ROOT_DIRS) ==> !f.kind.IsOther?
  }

  /** What must be there when dependencies are bundled is there. */
  predicate NoticesAreThere(tree: Node) {
    forall k :: 0 <= k < |ROOT_ASSETS| && ROOT_ASSETS[k].requiredWhenBundling ==> Exists(NodeAt(tree, [ROOT_ASSETS[k].name]))
  }

  /** A file that ships, were it not out of the repository. */
  predicate ShipsAway(f: Found)
    requires f.path != []
  {
    f.kind.IsAway? && Classify(f.path) == Ship
  }

  predicate NoneAway(report: seq<Found>)
    requires NonEmptyPaths(report)
  {
    forall k :: 0 <= k < |report| ==> !ShipsAway(report[k])
  }

  /** No root asset and no file that ships is really out of the repository. */
  predicate NothingIsAway(tree: Node)
    requires Proper(tree)
  {
    && NoneAway(Reports(tree, TaskDirs(tree))) && NoneAway(Reports(tree, ROOT_DIRS))
    && AssetsAreHere(tree)
  }

  predicate AssetsAreHere(tree: Node) {
    forall k :: 0 <= k < |ROOT_ASSETS| ==> NodeAt(tree, [ROOT_ASSETS[k].name]) != Some(Away)
  }

  /** images/ holds neither special files nor a node_modules directory that ships. */
  predicate PlainImages(tree: Node)
    requires Proper(tree)
  {
    forall f :: f in Reports(tree, ROOT_DIRS) ==> !f.kind.IsOther? && (f.path != [] ==> !InNodeModules(f.path))
  }

  /** A root asset that is there is a file or a link. */
  predicate AssetsAreFiles(tree: Node) {
    forall k :: 0 <= k < |ROOT_ASSETS| ==>
      var node := NodeAt(tree, [ROOT_ASSETS[k].name]); Exists(node) ==> node.value.File? || node.value.Away? || node.value.Symlink?
  }

  predicate Layout(tree: Node)
    requires Proper(tree)
  {
    TaskDirsKept(tree) && PlainImages(tree) && AssetsAreFiles(tree) && NothingIsAway(tree)
  }

  /** What the packager meets in a task directory, the gate has met under Tasks/. */
  lemma TaskEntryIsGateEntry(tree: Node, k: nat, f: Found)
    requires Proper(tree) && k < |TaskDirs(tree)| && !Pruned(TaskDirs(tree)[k])
    requires Reported(tree, TaskDirs(tree)[k], Kept(), f)
    ensures Reported(tree, TASKS, Kept(), f) && InsideTaskDir(f.path, TaskDirs(tree))
  {
    hide TaskDirs, Proper, NodeAt, DirectoryDropped;
    var d := TaskDirs(tree)[k];
    TaskDirsExact(tree, d);
    assert d <= f.path && f.path[..3] == d && f.path[..2] == d[..2];
    assert TASKS <= f.path by { assert f.path[0] == d[0]; }
    forall j | |TASKS| < j < |f.path| ensures Kept()(f.path[..j]) {
      if j > 3 { assert Kept()(f.path[..j]); }
    }
  }

  /** A file below Tasks/ is neither a task directory nor an ancestor of one. */
  lemma FileIsNoAncestor(tree: Node, f: Found)
    requires Proper(tree) && (NodeAt(tree, f.path) == Some(File) || NodeAt(tree, f.path) == Some(Away))
    ensures !AncestorOfTaskDir(f.path, TaskDirs(tree)) && f.path !in TaskDirs(tree)
  {
    hide TaskDirs, Proper;
    var dirs := TaskDirs(tree);
    forall k | 0 <= k < |dirs| ensures !(f.path <= dirs[k]) {
      TaskDirsExact(tree, dirs[k]);
      if f.path <= dirs[k] {
        assert dirs[k] == f.path + dirs[k][|f.path|..];
        NodeAtAppend(tree, f.path, dirs[k][|f.path|..]);
        FileHasNothingBelow(NodeAt(tree, f.path).value, dirs[k][|f.path|..]);
        assert false;
      }
    }
    forall k | 0 <= k < |dirs| ensures dirs[k] != f.path { assert f.path <= f.path; }
  }

  lemma FileHasNothingBelow(file: Node, path: Path)
    requires file.File? || file.Away?
    ensures var node := NodeAt(file, path); node.None? || node == Some(file)
  {
  }

  lemma TaskEntryComposes(tree: Node, k: nat, f: Found)
    requires Proper(tree) && k < |TaskDirs(tree)| && !Pruned(TaskDirs(tree)[k])
    requires f in Report(tree, TaskDirs(tree)[k]) && f.path != []
    requires TaskRefusals(Report(tree, TASKS), TaskDirs(tree)) == []
    ensures CopyRefusal(f).None? <==> !ShipsAway(f)
    ensures IsBundled(f) ==> GateBundles(Report(tree, TASKS), TaskDirs(tree))
  {
    hide TaskDirs, Proper, Reported, Classify, WalkTreeSpec, InsideTaskDir, InNodeModules, AncestorOfTaskDir, Increasing, Pruned, Last,
         Reports, TaskRefusals;
    var dirs := TaskDirs(tree);
    ReportIsExact(tree, dirs[k], Kept());
    TaskEntryIsGateEntry(tree, k, f);
    ReportIsExact(tree, TASKS, Kept());
    NoTaskRefusals(Report(tree, TASKS), dirs);
    assert f in Report(tree, TASKS);
    var i :| 0 <= i < |Report(tree, TASKS)| && Report(tree, TASKS)[i] == f;
    assert GateRefusal(Report(tree, TASKS)[i], dirs).None?;
  }

  /** Nothing in the task directories is refused exactly when nothing in the pruned ones is. */
  lemma TasksComposeExactly(tree: Node)
    requires Proper(tree) && TaskRefusals(Report(tree, TASKS), TaskDirs(tree)) == []
    ensures CopyRefusals(Reports(tree, TaskDirs(tree))) == [] <==> PrunedTasksAreClean(tree) && NoneAway(Reports(tree, TaskDirs(tree)))
  {
    hide Proper, TaskDirs, Report, Reports, Reported, Pruned, CopyRefusal, CopyRefusals, TaskRefusals, ShipsAway;
    var dirs, report := TaskDirs(tree), Reports(tree, TaskDirs(tree));
    NoCopyRefusals(report);
    if PrunedTasksAreClean(tree) && NoneAway(report) {
      forall i | 0 <= i < |report| ensures CopyRefusal(report[i]).None? {
        assert report[i] in report;
        var k := InOneReport(tree, dirs, report[i]);
        if Pruned(dirs[k]) { NoneOfCopyRefusals(Report(tree, dirs[k]), report[i]); } else { TaskEntryComposes(tree, k, report[i]); }
      }
    }
    if CopyRefusals(report) == [] {
      forall i | 0 <= i < |report| ensures !ShipsAway(report[i]) { AwayIsRefused(report[i]); }
      forall k | 0 <= k < |dirs| ensures CopyRefusals(Report(tree, dirs[k])) == [] {
        NoCopyRefusals(Report(tree, dirs[k]));
        forall i | 0 <= i < |Report(tree, dirs[k])| ensures CopyRefusal(Report(tree, dirs[k])[i]).None? {
          InAllReports(tree, dirs, k, Report(tree, dirs[k])[i]);
          NoneOfCopyRefusals(report, Report(tree, dirs[k])[i]);
        }
      }
    }
  }

  lemma AwayIsRefused(f: Found)
    requires f.path != []
    ensures ShipsAway(f) ==> CopyRefusal(f) == Some(Escapes)
  {
  }

  lemma NoneOfCopyRefusals(report: seq<Found>, f: Found)
    requires NonEmptyPaths(report) && CopyRefusals(report) == [] && f in report
    ensures CopyRefusal(f).None?
  {
    hide CopyRefusal, CopyRefusals;
    NoCopyRefusals(report);
  }

  lemma {:induction false} InOneReport(tree: Node, dirs: seq<Path>, f: Found) returns (k: nat)
    requires Proper(tree) && f in Reports(tree, dirs)
    ensures k < |dirs| && f in Report(tree, dirs[k])
    decreases |dirs|
  {
    hide Proper, Report;
    if f in Report(tree, dirs[0]) {
      k := 0;
    } else {
      var j := InOneReport(tree, dirs[1..], f);
      k := j + 1;
    }
  }

  lemma {:induction false} InAllReports(tree: Node, dirs: seq<Path>, k: nat, f: Found)
    requires Proper(tree) && k < |dirs| && f in Report(tree, dirs[k])
    ensures f in Reports(tree, dirs)
    decreases |dirs|
  {
    hide Proper, Report;
    if k > 0 { InAllReports(tree, dirs[1..], k - 1, f); }
  }

  lemma NoStrays(tree: Node)
    requires Proper(tree) && TaskRefusals(Report(tree, TASKS), TaskDirs(tree)) == []
    ensures StrayRefusals(StrayReport(tree, TaskDirs(tree)), TaskDirs(tree)) == []
  {
    hide TaskDirs, Proper, Reported, Classify, WalkTreeSpec, InsideTaskDir, AncestorOfTaskDir, Increasing, DirectoryDropped, Last, KeptOutside,
         GateRefusal, IsStray, TaskRefusals, StrayRefusals, NoRepeat;
    var dirs := TaskDirs(tree);
    var strays := StrayReport(tree, dirs);
    NoStrayRefusals(strays, dirs);
    NoTaskRefusals(Report(tree, TASKS), dirs);
    ReportIsExact(tree, TASKS, Kept());
    ReportIsExact(tree, TASKS, KeptOutside(dirs));
    forall j | 0 <= j < |strays| ensures !IsStray(strays[j], dirs) {
      var f := strays[j];
      assert f in strays;
      StrayIsReported(tree, dirs, f);
      assert f in Report(tree, TASKS);
      StrayWouldBeRefused(f, dirs, Report(tree, TASKS));
    }
  }

  lemma StrayWouldBeRefused(f: Found, dirs: seq<Path>, report: seq<Found>)
    requires NonEmptyPaths(report) && f in report && forall k :: 0 <= k < |report| ==> GateRefusal(report[k], dirs).None?
    requires IsRegular(f.kind) ==> !AncestorOfTaskDir(f.path, dirs) && f.path !in dirs
    ensures f.path != [] && !IsStray(f, dirs)
  {
    hide InsideTaskDir, AncestorOfTaskDir, Classify, Last;
    var i :| 0 <= i < |report| && report[i] == f;
    assert GateRefusal(report[i], dirs).None?;
  }

  /** The stray walk prunes more, so the gate has met whatever it reports. */
  lemma StrayIsReported(tree: Node, dirs: seq<Path>, f: Found)
    requires Proper(tree) && dirs == TaskDirs(tree) && Reported(tree, TASKS, KeptOutside(dirs), f)
    ensures Reported(tree, TASKS, Kept(), f)
    ensures IsRegular(f.kind) ==> !AncestorOfTaskDir(f.path, dirs) && f.path !in dirs
  {
    hide TaskDirs, Proper, InsideTaskDir, AncestorOfTaskDir, DirectoryDropped;
    assert forall j :: |TASKS| < j < |f.path| ==> KeptOutside(dirs)(f.path[..j]);
    if IsRegular(f.kind) { FileIsNoAncestor(tree, f); }
  }

  lemma RootDirsComposeExactly(tree: Node)
    requires Proper(tree) && ImageRefusals(Reports(tree, ROOT_DIRS)) == []
    ensures CopyRefusals(Reports(tree, ROOT_DIRS)) == [] <==> NoSpecialImages(tree) && NoneAway(Reports(tree, ROOT_DIRS))
  {
    hide Proper, Classify, Reports;
    var report := Reports(tree, ROOT_DIRS);
    NoImageRefusals(report);
    NoCopyRefusals(report);
    forall k | 0 <= k < |report| ensures CopyRefusal(report[k]).None? <==> !report[k].kind.IsOther? && !ShipsAway(report[k]) {
      assert ImageRefusal(report[k]).None?;
    }
    forall f | f in report && f.kind.IsOther? ensures CopyRefusals(report) != [] {
      var k :| 0 <= k < |report| && report[k] == f;
      assert CopyRefusal(report[k]).Some?;
    }
  }

  lemma AssetsComposeExactly(tree: Node, gate: bool, packager: bool)
    requires GateAssetRefusals(tree, ROOT_ASSETS, gate) == []
    ensures AssetRefusals(tree, ROOT_ASSETS, packager) == [] <==> (packager ==> NoticesAreThere(tree)) && AssetsAreHere(tree)
    ensures gate ==> NoticesAreThere(tree)
  {
    hide NodeAt, GateAssetRefusals, AssetRefusals;
    var assets := ROOT_ASSETS;
    NoGateAssetRefusals(tree, assets, gate);
    NoAssetRefusals(tree, assets, packager);
    forall k | 0 <= k < |assets|
      ensures AssetSpec(tree, assets[k], packager).Refused?
              <==> (packager && IsMissing(tree, assets[k])) || NodeAt(tree, [assets[k].name]) == Some(Away)
      ensures gate ==> !IsMissing(tree, assets[k])
    {
      assert GateAssetRefusal(tree, assets[k], gate).None?;
    }
    hide AssetSpec, Exists;
    assert AssetRefusals(tree, assets, packager) == [] <==> forall k :: 0 <= k < |assets| ==> !(packager && IsMissing(tree, assets[k])) && NodeAt(tree, [assets[k].name]) != Some(Away);
    assert NoticesAreThere(tree) <==> forall k :: 0 <= k < |assets| ==> !IsMissing(tree, assets[k]);
  }

  /** An asset that bundled dependencies make necessary, and that is not there. */
  predicate IsMissing(tree: Node, a: Asset) { a.requiredWhenBundling && !Exists(NodeAt(tree, [a.name])) }

  lemma ThrowsExactly(tree: Node)
    ensures PackagerThrows(tree) <==> !TreesReadable(tree) || !AssetsAreFiles(tree)
    ensures !PackagerThrows(tree) ==> Handled(tree, ROOT_ASSETS) == ROOT_ASSETS
  {
    hide NodeAt, TreesReadable;
    var assets := ROOT_ASSETS;
    HandledIsPrefix(tree, assets);
    forall k | 0 <= k < |assets|
      ensures CannotCopy(tree, assets[k]) <==> !(var node := NodeAt(tree, [assets[k].name]); Exists(node) ==> node.value.File? || node.value.Away? || node.value.Symlink?) {}
  }

  /** The copy phase refuses nothing and gets to its end. */
  predicate Composes(tree: Node)
    requires Proper(tree)
  {
    PackagerRefusals(tree) == [] && !PackagerThrows(tree)
  }

  /**
   A tree the gate passes is composed if and only if five things hold that the gate does not look at: what is in
   a pruned task directory is not refused, images/ holds no special file, the root assets are files, nothing that
   ships is really elsewhere, and the notices are there when what is composed bundles dependencies.
   */
  lemma PassedGateComposesExactly(tree: Node)
    requires Proper(tree) && GatePasses(tree)
    ensures Composes(tree)
            <==> (PrunedTasksAreClean(tree) && NoSpecialImages(tree) && AssetsAreFiles(tree) && NothingIsAway(tree)
                  && (Bundles(ComposedReport(tree)) ==> NoticesAreThere(tree)))
  {
    hide NodeAt, Proper, TaskDirs, Report, Reports, TaskRefusals, ImageRefusals, GateAssetRefusals, StrayRefusals, StrayReport, CopyRefusals,
         AssetRefusals, GateBundles, Bundles, ComposedReport, PrunedTasksAreClean, NoSpecialImages, AssetsAreFiles, NoticesAreThere, Handled,
         PackagerThrows, TreesReadable;
    TasksComposeExactly(tree);
    NoStrays(tree);
    RootDirsComposeExactly(tree);
    ThrowsExactly(tree);
    AssetsComposeExactly(tree, GateBundles(Report(tree, TASKS), TaskDirs(tree)), Bundles(ComposedReport(tree)));
  }

  /** So in the stated layout every tree that the gate passes is composed. */
  lemma PassedGateComposes(tree: Node)
    requires Proper(tree) && Layout(tree) && GatePasses(tree)
    ensures Composes(tree)
  {
    hide NodeAt, Proper, TaskDirs, Report, Reports, Pruned, CopyRefusal, Ships, InNodeModules, AssetsAreFiles, NoticesAreThere,
         TaskRefusals, ImageRefusals, GateAssetRefusals, StrayRefusals, StrayReport, CopyRefusals, AssetRefusals, GateBundles, Composes, TreesReadable;
    PassedGateComposesExactly(tree);
    AssetsComposeExactly(tree, GateBundles(Report(tree, TASKS), TaskDirs(tree)), Bundles(ComposedReport(tree)));
    var dirs, report := TaskDirs(tree), ComposedReport(tree);
    if k :| 0 <= k < |report| && IsBundled(report[k]) {
      var f := report[k];
      assert f in report && f !in Reports(tree, ROOT_DIRS);
      var i := InOneReport(tree, dirs, f);
      TaskEntryComposes(tree, i, f);
    }
  }

  /**
   A directory in the place of a root asset: the copy throws, and ./build is left half composed although there
   are refusals.
   */
  lemma DirectoryAssetLeavesBuild()
    ensures var tree := Dir([Entry("LICENSE", Dir([]))]);
      TreesReadable(tree) && PackagerThrows(tree) && Proper(tree) && PackagerRefusals(tree) != []
  {
    var tree := Dir([Entry("LICENSE", Dir([]))]);
    LicenseIsDirectory(tree);
    ManifestIsAbsent(tree);
    var assets := ROOT_ASSETS;
    assert CannotCopy(tree, assets[1]);
    hide Proper, TaskDirs, Reports, StrayReport, CopyRefusals, StrayRefusals, NodeAt, Bundles, TreesReadable, CannotCopy;
    HandledStep(tree, assets, 0);
    NoAssetRefusals(tree, Handled(tree, assets), Bundles(ComposedReport(tree)));
    assert AssetSpec(tree, Handled(tree, assets)[0], Bundles(ComposedReport(tree))).Refused?;
  }

  lemma LicenseIsDirectory(tree: Node)
    requires tree == Dir([Entry("LICENSE", Dir([]))])
    ensures Proper(tree) && TreesReadable(tree) && ROOT_ASSETS[1].name == "LICENSE" && NodeAt(tree, ["LICENSE"]) == Some(Dir([]))
  {
    assert Child(tree.entries, "LICENSE") == Some(Dir([]));
    assert ["LICENSE"][1..] == [];
    assert IsComponent("LICENSE", '/') && Proper(Dir([]));
    assert [Entry("LICENSE", Dir([]))][1..] == [];
    assert TASKS[0][0] == 'T' && ROOT_DIRS[0][0][0] == 'i' && "LICENSE"[0] == 'L';
  }

  lemma ManifestIsAbsent(tree: Node)
    requires tree == Dir([Entry("LICENSE", Dir([]))])
    ensures NodeAt(tree, [ROOT_ASSETS[0].name]).None? && ROOT_ASSETS[0].required && !CannotCopy(tree, ROOT_ASSETS[0])
  {
    assert "LICENSE"[0] == 'L' && ROOT_ASSETS[0].name[0] == 'a';
    assert [Entry("LICENSE", Dir([]))][1..] == [];
  }

  // ── The layout matters ───────────────────────────────────────────────────────

  /** A task under a family directory named like a source file, holding a link; assets and images are in order. */
  const LINKED_TASK: Node :=
    Dir([Entry("notes", Symlink(true)), Entry("task.json", File)])

  const SHIM_FAMILY: Node := Dir([Entry("T", LINKED_TASK)])

  const SHIM_TREE: Node :=
    Dir([Entry("Tasks", Dir([Entry("x.ts", SHIM_FAMILY)])),
         Entry("azure-devops-extension.json", File), Entry("LICENSE", File), Entry("overview.md", File)])

  lemma ShimNodes()
    ensures NodeAt(SHIM_TREE, ["Tasks"]) == Some(Dir([Entry("x.ts", SHIM_FAMILY)]))
    ensures NodeAt(SHIM_TREE, ["Tasks", "x.ts"]) == Some(SHIM_FAMILY)
    ensures NodeAt(SHIM_TREE, ["Tasks", "x.ts", "T"]) == Some(LINKED_TASK)
    ensures NodeAt(SHIM_TREE, ["Tasks", "x.ts", "T", "notes"]) == Some(Symlink(true))
  {
    var tasks := Dir([Entry("x.ts", SHIM_FAMILY)]);
    assert Child(SHIM_TREE.entries, "Tasks") == Some(tasks);
    assert Child(tasks.entries, "x.ts") == Some(SHIM_FAMILY);
    assert Child(SHIM_FAMILY.entries, "T") == Some(LINKED_TASK);
    assert Child(LINKED_TASK.entries, "notes") == Some(Symlink(true));
    assert ["Tasks"][1..] == [] && ["Tasks", "x.ts"][1..] == ["x.ts"] && ["x.ts"][1..] == [];
    assert ["Tasks", "x.ts", "T"][1..] == ["x.ts", "T"] && ["x.ts", "T"][1..] == ["T"] && ["T"][1..] == [];
    assert ["Tasks", "x.ts", "T", "notes"][1..] == ["x.ts", "T", "notes"];
    assert ["x.ts", "T", "notes"][1..] == ["T", "notes"] && ["T", "notes"][1..] == ["notes"] && ["notes"][1..] == [];
    assert NodeAt(LINKED_TASK, ["notes"]) == Some(Symlink(true));
    assert NodeAt(SHIM_FAMILY, ["T"]) == Some(LINKED_TASK) && NodeAt(SHIM_FAMILY, ["T", "notes"]) == Some(Symlink(true));
    assert NodeAt(tasks, ["x.ts"]) == Some(SHIM_FAMILY) && NodeAt(tasks, ["x.ts", "T"]) == Some(LINKED_TASK);
    assert NodeAt(tasks, ["x.ts", "T", "notes"]) == Some(Symlink(true));
  }

  /** The names at the root differ in their first letters. */
  lemma ShimRootNames()
    ensures forall k :: 0 <= k < |SHIM_TREE.entries| ==> IsComponent(SHIM_TREE.entries[k].name, '/')
    ensures forall i, j :: 0 <= i < j < |SHIM_TREE.entries| ==> SHIM_TREE.entries[i].name != SHIM_TREE.entries[j].name
    ensures forall k :: 0 <= k < |SHIM_TREE.entries| ==> SHIM_TREE.entries[k].name[0] != 'i'
    ensures SHIM_TREE.entries[0].name == "Tasks"
    ensures forall k :: 1 <= k < |SHIM_TREE.entries| ==> SHIM_TREE.entries[k].name[0] != 'T'
  {
    ShimEntries();
    ShimNamesAreComponents();
    hide IsComponent;
    var e := SHIM_TREE.entries;
    assert e[0].name[0] == 'T' && e[1].name[0] == 'a' && e[2].name[0] == 'L' && e[3].name[0] == 'o';
  }

  lemma ShimEntries()
    ensures var e := SHIM_TREE.entries;
      |e| == 4 && e[0].name == "Tasks" && e[1].name == "azure-devops-extension.json" && e[2].name == "LICENSE" && e[3].name == "overview.md"
  {
  }

  lemma ShimNamesAreComponents()
    ensures IsComponent("Tasks", '/') && IsComponent("azure-devops-extension.json", '/') && IsComponent("LICENSE", '/') && IsComponent("overview.md", '/')
  {
  }

  lemma ShimProper()
    ensures Proper(SHIM_TREE)
  {
    hide IsComponent;
    ShimRootNames();
    ShimInnerProper();
    assert forall k :: 0 < k < |SHIM_TREE.entries| ==> Proper(SHIM_TREE.entries[k].node);
    assert SHIM_TREE.entries[0].node == Dir([Entry("x.ts", SHIM_FAMILY)]);
  }

  lemma ShimInnerProper()
    ensures Proper(Dir([Entry("x.ts", SHIM_FAMILY)]))
  {
    assert "notes"[0] == 'n' && "task.json"[0] == 't';
    assert Proper(LINKED_TASK);
    assert Proper(SHIM_FAMILY);
  }

  lemma ShimNames()
    ensures DirectoryDropped(["Tasks", "x.ts"]) && !DirectoryDropped(["Tasks", "x.ts", "T"])
  {
    assert "x.ts"[|"x.ts"| - 3..] == ".ts";
    assert EndsWith("x.ts", DROPPED_SUFFIXES[0]);
    var p := ["Tasks", "x.ts", "T"];
    assert Last(p) == "T";
    assert forall k :: 0 <= k < |DROPPED_NAMES| ==> |DROPPED_NAMES[k]| >= 4;
    assert "Tasks"[1] == 'a' && "Tests"[1] == 'e' && |"Tasks"| == 5;
    assert forall k :: 0 <= k < |DROPPED_NAMES| ==> DROPPED_NAMES[k] != "Tasks" && DROPPED_NAMES[k] != "x.ts" && DROPPED_NAMES[k] != "T";
    assert forall i :: 0 <= i < |p| ==> !DropsAt(p, i);
    assert !DropsName("T");
  }

  /**
   The condition on task directories is needed. The gate prunes `Tasks/x.ts` and passes; the packager
   enumerates the task below it, walks it from there, and refuses its link.
   */
  lemma GateAndPackagerDiffer()
    ensures Proper(SHIM_TREE) && !TaskDirsKept(SHIM_TREE)
    ensures GatePasses(SHIM_TREE) && PackagerRefusals(SHIM_TREE) != []
  {
    hide GateRefusals, PackagerRefusals, TaskDirsKept, Proper, Readable;
    ShimProper();
    ShimIsReadable();
    ShimNodes();
    ShimNames();
    ShimGatePasses();
    ShimPackagerRefuses();
  }

  lemma ShimTaskDir()
    ensures Proper(SHIM_TREE) && ["Tasks", "x.ts", "T"] in TaskDirs(SHIM_TREE)
  {
    ShimProper();
    ShimNodes();
    assert Child(LINKED_TASK.entries, "task.json") == Some(File);
    TaskDirsExact(SHIM_TREE, ["Tasks", "x.ts", "T"]);
  }

  lemma ShimPackagerRefuses()
    requires Proper(SHIM_TREE)
    ensures PackagerRefusals(SHIM_TREE) != [] && !TaskDirsKept(SHIM_TREE)
  {
    hide Proper, NodeAt, TaskDirs, WalkTreeSpec, DirectoryDropped, Reports, CopyRefusals, StrayRefusals, AssetRefusals, StrayReport, Bundles, Increasing;
    ShimTaskDir();
    ShimNodes();
    ShimNames();
    var dirs := TaskDirs(SHIM_TREE);
    var d := ["Tasks", "x.ts", "T"];
    var k :| 0 <= k < |dirs| && dirs[k] == d;
    assert d[..2] == ["Tasks", "x.ts"];
    var f := Found(["Tasks", "x.ts", "T", "notes"], IsSymlink);
    assert f.path[..3] == d;
    assert Reported(SHIM_TREE, d, Kept(), f);
    ReportsMembers(SHIM_TREE, dirs, f);
    NoCopyRefusals(Reports(SHIM_TREE, dirs));
    var i :| 0 <= i < |Reports(SHIM_TREE, dirs)| && Reports(SHIM_TREE, dirs)[i] == f;
    assert CopyRefusal(Reports(SHIM_TREE, dirs)[i]).Some?;
  }

  lemma ShimGatePasses()
    requires Proper(SHIM_TREE)
    ensures GateRefusals(SHIM_TREE) == []
  {
    hide Proper, TaskDirs, WalkTreeSpec, DirectoryDropped, Reports, GateAssetRefusals, TaskRefusals, ImageRefusals, Increasing, Classify;
    var dirs := TaskDirs(SHIM_TREE);
    var report := Report(SHIM_TREE, TASKS);
    ReportIsExact(SHIM_TREE, TASKS, Kept());
    forall k | 0 <= k < |report| ensures GateRefusal(report[k], dirs).None? && !GateBundlesEntry(report[k], dirs) {
      assert report[k] in report;
      ShimReported(report[k]);
    }
    NoTaskRefusals(report, dirs);
    ShimImages();
    ShimAssets();
  }

  /** Under Tasks/, the gate meets the pruned family directory and nothing else. */
  lemma ShimReported(f: Found)
    requires Reported(SHIM_TREE, TASKS, Kept(), f)
    ensures f == Found(["Tasks", "x.ts"], IsDir)
  {
    hide DirectoryDropped;
    ShimNodes();
    ShimNames();
    var tasks := Dir([Entry("x.ts", SHIM_FAMILY)]);
    assert f.path == TASKS + f.path[1..];
    NodeAtAppend(SHIM_TREE, TASKS, f.path[1..]);
    ChildIsEntry(tasks.entries, f.path[1..][0]);
    assert f.path[1] == "x.ts";
    assert f.path[..2] == ["Tasks", "x.ts"];
    assert !Kept()(f.path[..2]);
    assert f.path == ["Tasks", "x.ts"];
  }

  lemma ShimIsReadable()
    ensures TreesReadable(SHIM_TREE)
  {
    hide NodeAt;
    ShimNodes();
    NothingCalled(IMAGES);
  }

  lemma ShimImages()
    requires Proper(SHIM_TREE)
    ensures ImageRefusals(Reports(SHIM_TREE, ROOT_DIRS)) == []
  {
    hide Proper, ImageRefusals, NodeAt;
    NothingCalled(IMAGES);
    EmptyReport(IMAGES, Kept());
    assert Report(SHIM_TREE, IMAGES) == [];
    assert Reports(SHIM_TREE, ROOT_DIRS[1..]) == [];
    assert Reports(SHIM_TREE, ROOT_DIRS) == [];
    NoImages(SHIM_TREE);
  }

  lemma NothingCalled(path: Path)
    requires path != [] && path[0] in ["images", "THIRD_PARTY_NOTICES.md"]
    ensures NodeAt(SHIM_TREE, path).None?
  {
    ShimRootNames();
    ChildIsEntry(SHIM_TREE.entries, path[0]);
    assert "Tasks"[1] == 'a' && "THIRD_PARTY_NOTICES.md"[1] == 'H';
  }

  lemma ShimAssets()
    ensures GateAssetRefusals(SHIM_TREE, ROOT_ASSETS, false) == []
  {
    hide GateAssetRefusals;
    NoGateAssetRefusals(SHIM_TREE, ROOT_ASSETS, false);
    ShimRootNames();
    forall k | 0 <= k < 3 ensures NodeAt(SHIM_TREE, [ROOT_ASSETS[k].name]) == Some(File) {
      var entries := SHIM_TREE.entries;
      assert entries[k + 1].name == ROOT_ASSETS[k].name && entries[k + 1].node == File;
      ChildAt(entries, k + 1);
      assert [ROOT_ASSETS[k].name][1..] == [];
    }
    forall k | 0 <= k < |ROOT_ASSETS| ensures GateAssetRefusal(SHIM_TREE, ROOT_ASSETS[k], false).None? {
      if k == 3 { NothingCalled([ROOT_ASSETS[k].name]); }
    }
  }
}
