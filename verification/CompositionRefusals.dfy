/**
 What the gate and the packager refuse, path by path and for every tree, in terms of the tree and of the classifier's
 verdicts alone (`scripts/check-package-composition.js`, `scripts/copy-build.js`).
 */
module CompositionRefusals {
  import opened JsText
  import opened PackageTree
  import opened PackageContents
  import opened PackageManifest
  import opened PackageComposition
  import opened CompositionGate

  // ── What a walk meets ────────────────────────────────────────────────────────

  /** A walk that starts at the directory comes to the path: it is there, and no directory on the way is dropped. */
  predicate Met(tree: Node, start: Path, path: Path) {
    && start < path && NodeAt(tree, path).Some?
    && forall j :: |start| < j < |path| ==> !DirectoryDropped(path[..j])
  }

  predicate IsRegularNode(node: Node) { node.File? || node.Away? }

  lemma MetIsReported(tree: Node, start: Path, f: Found)
    ensures Reported(tree, start, Kept(), f) <==>
      Met(tree, start, f.path) && f.kind == KindOf(NodeAt(tree, f.path).value)
  {
    hide NodeAt, DirectoryDropped, KindOf;
  }

  lemma KindsOf(node: Node)
    ensures var kind := KindOf(node);
      && (kind.IsSymlink? <==> node.Symlink?) && (kind.IsDir? <==> node.Dir?) && (kind.IsOther? <==> node.Other?)
      && (kind.IsFile? <==> node.File?) && (kind.IsAway? <==> node.Away?) && (IsRegular(kind) <==> IsRegularNode(node))
  {
  }

  // ── The packager ─────────────────────────────────────────────────────────────

  /** Why something that is met may not be packaged. */
  predicate Blamed(node: Node, path: Path, why: Why)
    requires path != []
  {
    match why
    case IsALink => node.Symlink?
    case NotRegular => node.Other?
    case Secret => IsRegularNode(node) && Classify(path) == NeverShip
    case Unlisted => IsRegularNode(node) && Classify(path) == Unknown
    case Escapes => node.Away? && Classify(path) == Ship
    case _ => false
  }

  /** A shippable file or a link under Tasks/ and outside every task directory, no directory above it being dropped. */
  predicate StraysAt(tree: Node, path: Path) {
    && Met(tree, TASKS, path) && Classify(path) != Drop && (IsRegularNode(NodeAt(tree, path).value) || NodeAt(tree, path).value.Symlink?)
    && forall j :: 0 <= j <= |path| ==> !IsTaskDir(tree, path[..j])
  }

  /** Bundled dependencies are met: a regular file below a node_modules directory that ships. */
  predicate BundlesAt(tree: Node, start: Path, path: Path) {
    Met(tree, start, path) && IsRegularNode(NodeAt(tree, path).value) && Classify(path) == Ship && "node_modules" in path
  }

  predicate IsMissingNode(node: Option<Node>) { node.None? || node == Some(Symlink(false)) }

  /** Why a root asset is refused. */
  predicate AssetBlamed(tree: Node, a: Asset, bundling: bool, why: Why) {
    var node := NodeAt(tree, [a.name]);
    match why
    case IsALink => node == Some(Symlink(true))
    case Escapes => node == Some(Away)
    case Absent => IsMissingNode(node) && (a.required || (a.requiredWhenBundling && bundling))
    case _ => false
  }

  ghost predicate PackagerBundles(tree: Node) {
    exists start, path :: (IsTaskDir(tree, start) || start in ROOT_DIRS) && BundlesAt(tree, start, path)
  }

  lemma {:induction false} InCopyRefusals(report: seq<Found>, path: Path, why: Why)
    requires NonEmptyPaths(report)
    ensures Refusal(path, why) in CopyRefusals(report) <==>
      exists k :: 0 <= k < |report| && report[k].path == path && CopyRefusal(report[k]) == Some(why)
  {
    hide CopyRefusal;
    if report != [] {
      InCopyRefusals(report[1..], path, why);
      assert forall k :: 0 < k < |report| ==> report[k] == report[1..][k - 1];
      assert forall k :: 0 <= k < |report[1..]| ==> report[1..][k] == report[k + 1];
    }
  }

  lemma {:induction false} InStrayRefusals(report: seq<Found>, dirs: seq<Path>, path: Path, why: Why)
    requires NonEmptyPaths(report)
    ensures Refusal(path, why) in StrayRefusals(report, dirs) <==>
      why == Stray && exists k :: 0 <= k < |report| && report[k].path == path && IsStray(report[k], dirs)
  {
    hide IsStray;
    if report != [] {
      InStrayRefusals(report[1..], dirs, path, why);
      assert forall k :: 0 < k < |report| ==> report[k] == report[1..][k - 1];
      assert forall k :: 0 <= k < |report[1..]| ==> report[1..][k] == report[k + 1];
    }
  }

  lemma {:induction false} InAssetRefusals(tree: Node, assets: seq<Asset>, bundling: bool, path: Path, why: Why)
    ensures Refusal(path, why) in AssetRefusals(tree, assets, bundling) <==>
      exists k :: 0 <= k < |assets| && path == [assets[k].name] && AssetSpec(tree, assets[k], bundling) == Refused(why)
  {
    hide AssetSpec;
    if assets != [] {
      InAssetRefusals(tree, assets[1..], bundling, path, why);
      assert forall k :: 0 < k < |assets| ==> assets[k] == assets[1..][k - 1];
      assert forall k :: 0 <= k < |assets[1..]| ==> assets[1..][k] == assets[k + 1];
    }
  }

  lemma CopyRefusalIsBlame(tree: Node, f: Found, why: Why)
    requires f.path != [] && NodeAt(tree, f.path).Some? && f.kind == KindOf(NodeAt(tree, f.path).value)
    ensures CopyRefusal(f) == Some(why) <==> Blamed(NodeAt(tree, f.path).value, f.path, why)
  {
    hide NodeAt, Classify;
    KindsOf(NodeAt(tree, f.path).value);
  }

  /** What the packager refuses of the directories it copies. */
  lemma CopiesRefuseExactly(tree: Node, dirs: seq<Path>, path: Path, why: Why)
    requires Proper(tree)
    ensures Refusal(path, why) in CopyRefusals(Reports(tree, dirs)) <==>
      exists k :: 0 <= k < |dirs| && Met(tree, dirs[k], path) && Blamed(NodeAt(tree, path).value, path, why)
  {
    hide Proper, NodeAt, Met, CopyRefusal, CopyRefusals, Blamed, Reports, KindOf;
    InCopyRefusals(Reports(tree, dirs), path, why);
    if i :| 0 <= i < |Reports(tree, dirs)| && Reports(tree, dirs)[i].path == path && CopyRefusal(Reports(tree, dirs)[i]) == Some(why) {
      var k := MetOf(tree, dirs, Reports(tree, dirs)[i]);
      CopyRefusalIsBlame(tree, Reports(tree, dirs)[i], why);
    }
    forall k | 0 <= k < |dirs| && Met(tree, dirs[k], path) ensures path != [] && NodeAt(tree, path).Some? { MetIsThere(tree, dirs[k], path); }
    if k :| 0 <= k < |dirs| && Met(tree, dirs[k], path) && Blamed(NodeAt(tree, path).value, path, why) {
      var i := MetIsRefused(tree, dirs, k, path, why);
    }
  }

  lemma MetIsRefused(tree: Node, dirs: seq<Path>, k: nat, path: Path, why: Why) returns (i: nat)
    requires Proper(tree) && k < |dirs| && Met(tree, dirs[k], path) && path != [] && NodeAt(tree, path).Some?
    requires Blamed(NodeAt(tree, path).value, path, why)
    ensures var report := Reports(tree, dirs); i < |report| && report[i].path == path && CopyRefusal(report[i]) == Some(why)
  {
    hide Proper, NodeAt, Met, CopyRefusal, Blamed, Reports, KindOf, Reported;
    var f := Found(path, KindOf(NodeAt(tree, path).value));
    MetIsReported(tree, dirs[k], f);
    ReportsMembers(tree, dirs, f);
    CopyRefusalIsBlame(tree, f, why);
    i :| 0 <= i < |Reports(tree, dirs)| && Reports(tree, dirs)[i] == f;
  }

  lemma MetIsThere(tree: Node, start: Path, path: Path)
    requires Met(tree, start, path)
    ensures path != [] && NodeAt(tree, path).Some?
  {
    hide NodeAt, DirectoryDropped;
  }

  lemma MetOf(tree: Node, dirs: seq<Path>, f: Found) returns (k: nat)
    requires Proper(tree) && f in Reports(tree, dirs)
    ensures k < |dirs| && Met(tree, dirs[k], f.path) && NodeAt(tree, f.path).Some? && f.kind == KindOf(NodeAt(tree, f.path).value) && f.path != []
  {
    hide Proper, NodeAt, Reports, DirectoryDropped, KindOf, Reported;
    ReportsMembers(tree, dirs, f);
    k :| 0 <= k < |dirs| && Reported(tree, dirs[k], Kept(), f);
    MetIsReported(tree, dirs[k], f);
    MetIsThere(tree, dirs[k], f.path);
  }

  /** The dependencies it bundles. */
  lemma BundlesExactly(tree: Node)
    requires Proper(tree)
    ensures Bundles(ComposedReport(tree)) <==> PackagerBundles(tree)
  {
    hide Proper, NodeAt, BundlesAt, IsBundled, ComposedReport, IsTaskDir;
    var report := ComposedReport(tree);
    if i :| 0 <= i < |report| && IsBundled(report[i]) { var start := BundledIsMet(tree, report[i]); }
    if start, path :| (IsTaskDir(tree, start) || start in ROOT_DIRS) && BundlesAt(tree, start, path) {
      var f := MetIsBundled(tree, start, path);
      var i :| 0 <= i < |report| && report[i] == f;
    }
  }

  lemma BundledIsMet(tree: Node, f: Found) returns (start: Path)
    requires Proper(tree) && f in ComposedReport(tree) && f.path != [] && IsBundled(f)
    ensures (IsTaskDir(tree, start) || start in ROOT_DIRS) && BundlesAt(tree, start, f.path)
  {
    hide Proper, NodeAt, Met, Classify, TaskDirs, IsTaskDir, KindOf, ComposedReport;
    var k := ComposedIsMet(tree, f);
    start := (TaskDirs(tree) + ROOT_DIRS)[k];
    TaskDirsExact(tree, start);
    KindsOf(NodeAt(tree, f.path).value);
  }

  lemma MetIsBundled(tree: Node, start: Path, path: Path) returns (f: Found)
    requires Proper(tree) && (IsTaskDir(tree, start) || start in ROOT_DIRS) && BundlesAt(tree, start, path)
    ensures f in ComposedReport(tree) && f.path != [] && IsBundled(f)
  {
    hide Proper, NodeAt, Met, Classify, TaskDirs, IsTaskDir, KindOf, ComposedReport;
    MetIsThere(tree, start, path);
    TaskDirsExact(tree, start);
    f := Found(path, KindOf(NodeAt(tree, path).value));
    MetIsComposed(tree, start, f);
    KindsOf(NodeAt(tree, path).value);
  }

  lemma ComposedIsMet(tree: Node, f: Found) returns (k: nat)
    requires Proper(tree) && f in ComposedReport(tree)
    ensures k < |TaskDirs(tree) + ROOT_DIRS| && Met(tree, (TaskDirs(tree) + ROOT_DIRS)[k], f.path)
    ensures NodeAt(tree, f.path).Some? && f.kind == KindOf(NodeAt(tree, f.path).value) && f.path != []
  {
    hide Proper, NodeAt, TaskDirs, ComposedReport, Reported, KindOf;
    ComposedMembers(tree, f);
    k :| 0 <= k < |TaskDirs(tree) + ROOT_DIRS| && Reported(tree, (TaskDirs(tree) + ROOT_DIRS)[k], Kept(), f);
    MetIsReported(tree, (TaskDirs(tree) + ROOT_DIRS)[k], f);
    MetIsThere(tree, (TaskDirs(tree) + ROOT_DIRS)[k], f.path);
  }

  lemma MetIsComposed(tree: Node, start: Path, f: Found)
    requires Proper(tree) && start in TaskDirs(tree) + ROOT_DIRS
    requires Met(tree, start, f.path) && f.kind == KindOf(NodeAt(tree, f.path).value)
    ensures f in ComposedReport(tree)
  {
    hide Proper, NodeAt, TaskDirs, ComposedReport, Reported, KindOf, Met;
    MetIsReported(tree, start, f);
    ComposedMembers(tree, f);
    var dirs := TaskDirs(tree) + ROOT_DIRS;
    var k :| 0 <= k < |dirs| && dirs[k] == start;
  }

  lemma AssetBlameIsRefusal(tree: Node, a: Asset, bundling: bool, why: Why)
    ensures AssetSpec(tree, a, bundling) == Refused(why) <==> AssetBlamed(tree, a, bundling, why)
  {
    hide NodeAt;
  }

  /** Being inside a task directory, in terms of the tree. */
  lemma InsideIsBelowATask(tree: Node, path: Path)
    requires Proper(tree)
    ensures InsideTaskDir(path, TaskDirs(tree)) <==> exists j :: 0 <= j <= |path| && IsTaskDir(tree, path[..j])
  {
    hide Proper, TaskDirs, IsTaskDir;
    var dirs := TaskDirs(tree);
    if k :| 0 <= k < |dirs| && dirs[k] <= path {
      TaskDirsExact(tree, dirs[k]);
      assert path[..|dirs[k]|] == dirs[k];
    }
    if j :| 0 <= j <= |path| && IsTaskDir(tree, path[..j]) {
      TaskDirsExact(tree, path[..j]);
      var k :| 0 <= k < |dirs| && dirs[k] == path[..j];
      assert dirs[k] <= path;
    }
  }

  lemma StraysRefuseExactly(tree: Node, path: Path, why: Why)
    requires Proper(tree)
    ensures Refusal(path, why) in StrayRefusals(StrayReport(tree, TaskDirs(tree)), TaskDirs(tree)) <==> why == Stray && StraysAt(tree, path)
  {
    hide Proper, NodeAt, TaskDirs, Classify, WalkTreeSpec, Increasing, IsTaskDir, StrayRefusals, KindOf, DirectoryDropped, NoRepeat;
    var dirs, report := TaskDirs(tree), StrayReport(tree, TaskDirs(tree));
    InStrayRefusals(report, dirs, path, why);
    ReportIsExact(tree, TASKS, KeptOutside(dirs));
    InsideIsBelowATask(tree, path);
    if NodeAt(tree, path).Some? { KindsOf(NodeAt(tree, path).value); }
    if i :| 0 <= i < |report| && report[i].path == path && IsStray(report[i], dirs) {
      assert report[i] in report;
      StrayIsMet(tree, dirs, report[i]);
    }
    if StraysAt(tree, path) {
      var f := Found(path, KindOf(NodeAt(tree, path).value));
      StrayIsMet(tree, dirs, f);
      assert f in report;
      var i :| 0 <= i < |report| && report[i] == f;
      assert IsStray(report[i], dirs);
    }
  }

  lemma PrefixGrows(dir: Path, path: Path, j: nat)
    requires j <= |path|
    ensures dir <= path[..j] ==> dir <= path
  {
  }

  /** Outside every task directory the two walks of Tasks/ are the same. */
  lemma StrayIsMet(tree: Node, dirs: seq<Path>, f: Found)
    requires Proper(tree) && dirs == TaskDirs(tree) && !InsideTaskDir(f.path, dirs)
    ensures Reported(tree, TASKS, KeptOutside(dirs), f) <==> Met(tree, TASKS, f.path) && f.kind == KindOf(NodeAt(tree, f.path).value)
  {
    hide Proper, NodeAt, TaskDirs, DirectoryDropped, KindOf;
    forall j | |TASKS| < j < |f.path| ensures !InsideTaskDir(f.path[..j], dirs) {
      forall k | 0 <= k < |dirs| ensures !(dirs[k] <= f.path[..j]) {
        PrefixGrows(dirs[k], f.path, j);
      }
    }
    assert forall j :: |TASKS| < j < |f.path| ==> (KeptOutside(dirs)(f.path[..j]) <==> !DirectoryDropped(f.path[..j]));
  }

  /**
   The packager, for every tree on which its copy phase ends: a path is refused for a reason exactly when a walk of a
   task directory or of images meets it and the reason is there, it strays under Tasks/, or it is a root asset to blame.
   */
  lemma PackagerRefusesExactly(tree: Node, path: Path, why: Why)
    requires Proper(tree) && !PackagerThrows(tree)
    ensures Refusal(path, why) in PackagerRefusals(tree) <==>
      || (exists start :: (IsTaskDir(tree, start) || start in ROOT_DIRS) && Met(tree, start, path) && Blamed(NodeAt(tree, path).value, path, why))
      || (why == Stray && StraysAt(tree, path))
      || (exists k :: 0 <= k < |ROOT_ASSETS| && path == [ROOT_ASSETS[k].name] && AssetBlamed(tree, ROOT_ASSETS[k], PackagerBundles(tree), why))
  {
    hide Proper, NodeAt, TaskDirs, CopyRefusals, StrayRefusals, AssetRefusals, Reports, StrayReport, Met, Blamed, IsTaskDir, StraysAt,
         ComposedReport, Bundles, PackagerBundles, Handled, PackagerThrows, AssetBlamed, AssetSpec;
    CopiesRefuseExactly(tree, TaskDirs(tree), path, why);
    CopiesRefuseExactly(tree, ROOT_DIRS, path, why);
    StraysRefuseExactly(tree, path, why);
    BundlesExactly(tree);
    ThrowsExactly(tree);
    InAssetRefusals(tree, ROOT_ASSETS, PackagerBundles(tree), path, why);
    forall k | 0 <= k < |ROOT_ASSETS| ensures AssetSpec(tree, ROOT_ASSETS[k], PackagerBundles(tree)) == Refused(why) <==> AssetBlamed(tree, ROOT_ASSETS[k], PackagerBundles(tree), why) {
      AssetBlameIsRefusal(tree, ROOT_ASSETS[k], PackagerBundles(tree), why);
    }
    forall d ensures d in TaskDirs(tree) <==> IsTaskDir(tree, d) { TaskDirsExact(tree, d); }
  }

  /** The manifest, the license and the overview must be there, and the notices when dependencies are bundled. */
  lemma AssetsAreRequiredExactly(tree: Node)
    requires Proper(tree) && !PackagerThrows(tree)
    ensures forall name :: Refusal([name], Absent) in PackagerRefusals(tree) <==>
      && IsMissingNode(NodeAt(tree, [name]))
      && (name in ["azure-devops-extension.json", "LICENSE", "overview.md"] || (name == "THIRD_PARTY_NOTICES.md" && PackagerBundles(tree)))
  {
    hide Proper, NodeAt, IsTaskDir, PackagerThrows, PackagerRefusals, Met, PackagerBundles, IsMissingNode, StraysAt;
    var assets := ROOT_ASSETS;
    forall name
      ensures Refusal([name], Absent) in PackagerRefusals(tree) <==>
        && IsMissingNode(NodeAt(tree, [name]))
        && (name in ["azure-devops-extension.json", "LICENSE", "overview.md"] || (name == "THIRD_PARTY_NOTICES.md" && PackagerBundles(tree)))
    {
      PackagerRefusesExactly(tree, [name], Absent);
      RequiredByName(tree, name, PackagerBundles(tree));
    }
  }

  lemma RequiredByName(tree: Node, name: string, bundling: bool)
    ensures (exists k :: 0 <= k < |ROOT_ASSETS| && [name] == [ROOT_ASSETS[k].name] && AssetBlamed(tree, ROOT_ASSETS[k], bundling, Absent)) <==>
      && IsMissingNode(NodeAt(tree, [name]))
      && (name in ["azure-devops-extension.json", "LICENSE", "overview.md"] || (name == "THIRD_PARTY_NOTICES.md" && bundling))
  {
    hide NodeAt, IsMissingNode;
    var assets, names := ROOT_ASSETS, ["azure-devops-extension.json", "LICENSE", "overview.md"];
    assert assets[0] == Asset(names[0], true, false) && assets[1] == Asset(names[1], true, false) && assets[2] == Asset(names[2], true, false);
    assert assets[3] == Asset("THIRD_PARTY_NOTICES.md", false, true) && |assets| == 4;
    forall k | 0 <= k < 4 ensures [name] == [assets[k].name] <==> name == assets[k].name {
      if [name] == [assets[k].name] { assert [name][0] == [assets[k].name][0]; }
    }
  }

  /** A reachable secret-shaped file, whatever the gate says: when the copy phase ends it is refused, so ./build does not stay. */
  lemma SecretIsNeverPackaged(tree: Node, d: Document, start: Path, path: Path)
    requires Proper(tree) && !PackagerThrows(tree)
    requires (IsTaskDir(tree, start) || start in ROOT_DIRS) && Met(tree, start, path)
    requires IsRegularNode(NodeAt(tree, path).value) && Classify(path) == NeverShip
    ensures !ComposeThrows(tree, d) && Refusal(path, Secret) in ComposeRefusals(tree, d)
  {
    hide Proper, NodeAt, Met, IsTaskDir, PackagerThrows, PackagerRefusals, OutputRefusals, Classify;
    MetIsThere(tree, start, path);
    assert Blamed(NodeAt(tree, path).value, path, Secret);
    PackagerRefusesExactly(tree, path, Secret);
  }

  // ── The gate ─────────────────────────────────────────────────────────────────

  /** In a task directory, or one itself, or on the way to one. */
  ghost predicate OfATask(tree: Node, path: Path) {
    (exists j :: 0 <= j <= |path| && IsTaskDir(tree, path[..j])) || exists d :: IsTaskDir(tree, d) && path <= d
  }

  /** A task.json anywhere but in a task directory itself. */
  predicate IsMisplaced(tree: Node, path: Path)
    requires path != []
  {
    Last(path) == "task.json" && !IsTaskDir(tree, path[..|path| - 1])
  }

  /** Why the gate refuses something it meets under Tasks/. */
  ghost predicate TaskBlamed(tree: Node, node: Node, path: Path, why: Why)
    requires path != []
  {
    match why
    case IsALink => node.Symlink?
    case NotRegular => node.Other?
    case StrayTask => IsRegularNode(node) && IsMisplaced(tree, path)
    case Stray => IsRegularNode(node) && !IsMisplaced(tree, path) && !OfATask(tree, path) && Classify(path) != Drop
    case Secret => IsRegularNode(node) && !IsMisplaced(tree, path) && OfATask(tree, path) && Classify(path) == NeverShip
    case Unlisted => IsRegularNode(node) && !IsMisplaced(tree, path) && OfATask(tree, path) && Classify(path) == Unknown
    case _ => false
  }

  /** Why it refuses something it meets under images/. */
  predicate ImageBlamed(node: Node, path: Path, why: Why)
    requires path != []
  {
    match why
    case IsALink => node.Symlink?
    case Secret => IsRegularNode(node) && Classify(path) == NeverShip
    case Unlisted => IsRegularNode(node) && Classify(path) == Unknown
    case _ => false
  }

  ghost predicate TasksBundle(tree: Node) {
    exists path :: BundlesAt(tree, TASKS, path) && path != [] && !IsMisplaced(tree, path) && OfATask(tree, path)
  }

  lemma PlacedIsOfATask(tree: Node, path: Path)
    requires Proper(tree)
    ensures Placed(path, TaskDirs(tree)) <==> OfATask(tree, path)
  {
    hide Proper, TaskDirs, IsTaskDir, InsideTaskDir;
    InsideIsBelowATask(tree, path);
    var dirs := TaskDirs(tree);
    forall d ensures d in dirs <==> IsTaskDir(tree, d) { TaskDirsExact(tree, d); }
    if d :| IsTaskDir(tree, d) && path <= d {
      var k :| 0 <= k < |dirs| && dirs[k] == d;
      if path == dirs[k] { assert path in dirs; } else { assert path < dirs[k]; }
    }
    if k :| 0 <= k < |dirs| && path < dirs[k] { assert IsTaskDir(tree, dirs[k]); }
  }

  lemma GateRefusalIsBlame(tree: Node, f: Found, why: Why)
    requires Proper(tree) && f.path != [] && NodeAt(tree, f.path).Some? && f.kind == KindOf(NodeAt(tree, f.path).value)
    ensures GateRefusal(f, TaskDirs(tree)) == Some(why) <==> TaskBlamed(tree, NodeAt(tree, f.path).value, f.path, why)
    ensures GateBundlesEntry(f, TaskDirs(tree)) <==>
      && IsRegularNode(NodeAt(tree, f.path).value) && Classify(f.path) == Ship && "node_modules" in f.path
      && !IsMisplaced(tree, f.path) && OfATask(tree, f.path)
  {
    hide Proper, NodeAt, TaskDirs, Classify, IsTaskDir, Placed, OfATask, KindOf;
    PlacedIsOfATask(tree, f.path);
    KindsOf(NodeAt(tree, f.path).value);
    TaskDirsExact(tree, f.path[..|f.path| - 1]);
  }

  lemma {:induction false} InTaskRefusals(report: seq<Found>, dirs: seq<Path>, path: Path, why: Why)
    requires NonEmptyPaths(report)
    ensures Refusal(path, why) in TaskRefusals(report, dirs) <==>
      exists k :: 0 <= k < |report| && report[k].path == path && GateRefusal(report[k], dirs) == Some(why)
  {
    hide GateRefusal;
    if report != [] {
      InTaskRefusals(report[1..], dirs, path, why);
      assert forall k :: 0 < k < |report| ==> report[k] == report[1..][k - 1];
      assert forall k :: 0 <= k < |report[1..]| ==> report[1..][k] == report[k + 1];
    }
  }

  lemma {:induction false} InImageRefusals(report: seq<Found>, path: Path, why: Why)
    requires NonEmptyPaths(report)
    ensures Refusal(path, why) in ImageRefusals(report) <==>
      exists k :: 0 <= k < |report| && report[k].path == path && ImageRefusal(report[k]) == Some(why)
  {
    hide ImageRefusal;
    if report != [] {
      InImageRefusals(report[1..], path, why);
      assert forall k :: 0 < k < |report| ==> report[k] == report[1..][k - 1];
      assert forall k :: 0 <= k < |report[1..]| ==> report[1..][k] == report[k + 1];
    }
  }

  lemma {:induction false} InGateAssetRefusals(tree: Node, assets: seq<Asset>, bundling: bool, path: Path, why: Why)
    ensures Refusal(path, why) in GateAssetRefusals(tree, assets, bundling) <==>
      exists k :: 0 <= k < |assets| && path == [assets[k].name] && GateAssetRefusal(tree, assets[k], bundling) == Some(why)
  {
    hide GateAssetRefusal;
    if assets != [] {
      InGateAssetRefusals(tree, assets[1..], bundling, path, why);
      assert forall k :: 0 < k < |assets| ==> assets[k] == assets[1..][k - 1];
      assert forall k :: 0 <= k < |assets[1..]| ==> assets[1..][k] == assets[k + 1];
    }
  }

  lemma GateAssetBlameIsRefusal(tree: Node, a: Asset, bundling: bool, why: Why)
    ensures GateAssetRefusal(tree, a, bundling) == Some(why) <==> !why.Escapes? && AssetBlamed(tree, a, bundling, why)
  {
    hide NodeAt;
  }

  /** A report of Tasks/ and what is met there. */
  lemma TaskReportIsMet(tree: Node, path: Path)
    requires Proper(tree)
    ensures Met(tree, TASKS, path) <==> path != [] && NodeAt(tree, path).Some? && Found(path, KindOf(NodeAt(tree, path).value)) in Report(tree, TASKS)
    ensures forall f :: f in Report(tree, TASKS) ==> NodeAt(tree, f.path).Some? && f.kind == KindOf(NodeAt(tree, f.path).value)
  {
    hide Proper, NodeAt, WalkTreeSpec, Increasing, NoRepeat, KindOf, DirectoryDropped;
    ReportIsExact(tree, TASKS, Kept());
    if NodeAt(tree, path).Some? { MetIsReported(tree, TASKS, Found(path, KindOf(NodeAt(tree, path).value))); }
  }

  lemma TasksRefuseExactly(tree: Node, path: Path, why: Why)
    requires Proper(tree)
    ensures Refusal(path, why) in TaskRefusals(Report(tree, TASKS), TaskDirs(tree)) <==>
      Met(tree, TASKS, path) && TaskBlamed(tree, NodeAt(tree, path).value, path, why)
  {
    hide Proper, NodeAt, Met, TaskDirs, GateRefusal, TaskRefusals, TaskBlamed, KindOf, Report;
    var report, dirs := Report(tree, TASKS), TaskDirs(tree);
    InTaskRefusals(report, dirs, path, why);
    TaskReportIsMet(tree, path);
    if i :| 0 <= i < |report| && report[i].path == path && GateRefusal(report[i], dirs) == Some(why) {
      assert report[i] in report;
      GateRefusalIsBlame(tree, report[i], why);
    }
    if Met(tree, TASKS, path) {
      var f := Found(path, KindOf(NodeAt(tree, path).value));
      GateRefusalIsBlame(tree, f, why);
      var i :| 0 <= i < |report| && report[i] == f;
    }
  }

  lemma TasksBundleExactly(tree: Node)
    requires Proper(tree)
    ensures GateBundles(Report(tree, TASKS), TaskDirs(tree)) <==> TasksBundle(tree)
  {
    hide Proper, NodeAt, TaskDirs, GateBundlesEntry, KindOf, Report, Classify, OfATask, IsMisplaced, Met;
    var report, dirs := Report(tree, TASKS), TaskDirs(tree);
    if i :| 0 <= i < |report| && GateBundlesEntry(report[i], dirs) {
      assert report[i] in report;
      TaskReportIsMet(tree, report[i].path);
      GateRefusalIsBlame(tree, report[i], Stray);
      assert BundlesAt(tree, TASKS, report[i].path);
    }
    if path :| BundlesAt(tree, TASKS, path) && path != [] && !IsMisplaced(tree, path) && OfATask(tree, path) {
      TaskReportIsMet(tree, path);
      var f := Found(path, KindOf(NodeAt(tree, path).value));
      GateRefusalIsBlame(tree, f, Stray);
      var i :| 0 <= i < |report| && report[i] == f;
      assert GateBundlesEntry(report[i], dirs);
    }
  }

  lemma ImageRefusalIsBlame(tree: Node, f: Found, why: Why)
    requires f.path != [] && NodeAt(tree, f.path).Some? && f.kind == KindOf(NodeAt(tree, f.path).value)
    ensures ImageRefusal(f) == Some(why) <==> ImageBlamed(NodeAt(tree, f.path).value, f.path, why)
  {
    hide NodeAt, Classify;
    KindsOf(NodeAt(tree, f.path).value);
  }

  lemma ImagesRefuseExactly(tree: Node, path: Path, why: Why)
    requires Proper(tree)
    ensures Refusal(path, why) in ImageRefusals(Reports(tree, ROOT_DIRS)) <==>
      exists k :: 0 <= k < |ROOT_DIRS| && Met(tree, ROOT_DIRS[k], path) && ImageBlamed(NodeAt(tree, path).value, path, why)
  {
    hide Proper, NodeAt, Met, ImageRefusal, ImageRefusals, ImageBlamed, Reports, KindOf, Reported;
    var report := Reports(tree, ROOT_DIRS);
    InImageRefusals(report, path, why);
    if i :| 0 <= i < |report| && report[i].path == path && ImageRefusal(report[i]) == Some(why) {
      var k := MetOf(tree, ROOT_DIRS, report[i]);
      ImageRefusalIsBlame(tree, report[i], why);
    }
    forall k | 0 <= k < |ROOT_DIRS| && Met(tree, ROOT_DIRS[k], path) ensures path != [] && NodeAt(tree, path).Some? { MetIsThere(tree, ROOT_DIRS[k], path); }
    if k :| 0 <= k < |ROOT_DIRS| && Met(tree, ROOT_DIRS[k], path) && ImageBlamed(NodeAt(tree, path).value, path, why) {
      var f := Found(path, KindOf(NodeAt(tree, path).value));
      MetIsReported(tree, ROOT_DIRS[k], f);
      ReportsMembers(tree, ROOT_DIRS, f);
      ImageRefusalIsBlame(tree, f, why);
      var i :| 0 <= i < |report| && report[i] == f;
    }
  }

  /** The gate, for every tree: a path is refused for a reason exactly when it is met under Tasks/ or images/ and the reason is there, or it is a root asset to blame. */
  lemma GateRefusesExactly(tree: Node, path: Path, why: Why)
    requires Proper(tree)
    ensures Refusal(path, why) in GateRefusals(tree) <==>
      || (Met(tree, TASKS, path) && TaskBlamed(tree, NodeAt(tree, path).value, path, why))
      || (exists k :: 0 <= k < |ROOT_DIRS| && Met(tree, ROOT_DIRS[k], path) && ImageBlamed(NodeAt(tree, path).value, path, why))
      || (!why.Escapes? && exists k :: 0 <= k < |ROOT_ASSETS| && path == [ROOT_ASSETS[k].name] && AssetBlamed(tree, ROOT_ASSETS[k], TasksBundle(tree), why))
  {
    hide Proper, NodeAt, TaskDirs, TaskRefusals, ImageRefusals, GateAssetRefusals, Reports, Report, Met, TaskBlamed, ImageBlamed, GateBundles, TasksBundle,
         AssetBlamed, GateAssetRefusal;
    TasksRefuseExactly(tree, path, why);
    ImagesRefuseExactly(tree, path, why);
    TasksBundleExactly(tree);
    InGateAssetRefusals(tree, ROOT_ASSETS, TasksBundle(tree), path, why);
    forall k | 0 <= k < |ROOT_ASSETS| ensures GateAssetRefusal(tree, ROOT_ASSETS[k], TasksBundle(tree)) == Some(why) <==> !why.Escapes? && AssetBlamed(tree, ROOT_ASSETS[k], TasksBundle(tree), why) {
      GateAssetBlameIsRefusal(tree, ROOT_ASSETS[k], TasksBundle(tree), why);
    }
  }

  // ── Samples of the verdicts ──────────────────────────────────────────────────

  /** A local key is a secret, and a file of a type nobody listed is unknown. */
  lemma KeysAreSecretsAndUnlistedIsUnknown()
    ensures Classify(["Tasks", "F", "T", "signing.key"]) == NeverShip
    ensures Classify(["Tasks", "F", "T", "run.wasm"]) == Unknown
  {
    KeyEnding();
    WasmEnding();
    SampleIsNotDropped("signing.key");
    SampleIsNotDropped("run.wasm");
    SampleIsNoStem("run.wasm");
    assert Last(["Tasks", "F", "T", "signing.key"]) == "signing.key" && Last(["Tasks", "F", "T", "run.wasm"]) == "run.wasm";
    assert "node_modules"[0] == 'n' && "Tasks"[0] == 'T' && "run.wasm"[0] == 'r';
    hide DropsTree, DropsName, HasSuffix, Allowed;
    assert SecretShaped(["Tasks", "F", "T", "signing.key"]);
    assert !SecretShaped(["Tasks", "F", "T", "run.wasm"]);
  }

  lemma KeyEnding()
    ensures HasSuffix("signing.key", SECRET_SUFFIXES)
  {
    assert "signing.key"[7..] == ".key" == SECRET_SUFFIXES[1];
    assert EndsWith("signing.key", SECRET_SUFFIXES[1]);
  }

  lemma WasmEnding()
    ensures !HasSuffix("run.wasm", SECRET_SUFFIXES) && !Allowed("run.wasm") && "run.wasm" !in SECRET_FILES
  {
    assert "run.wasm"[7] == 'm' && "run.wasm"[6] == 's' && "run.wasm"[0] == 'r';
    assert forall k :: 0 <= k < |SECRET_SUFFIXES| ==> SECRET_SUFFIXES[k][|SECRET_SUFFIXES[k]| - 2..] != "sm";
    assert forall k :: 0 <= k < |SHIPPED_SUFFIXES| ==> SHIPPED_SUFFIXES[k][|SHIPPED_SUFFIXES[k]| - 1] != 'm';
    assert forall k :: 0 <= k < |SHIPPED_FILES| ==> SHIPPED_FILES[k][0] != 'r';
    assert forall k :: 0 <= k < |SECRET_FILES| ==> SECRET_FILES[k][0] == '.';
  }

  lemma SampleIsNotDropped(name: string)
    requires |name| >= 8 && name[0] in "sr" && name[|name| - 1] in "ym"
    ensures !DropsTree(["Tasks", "F", "T", name]) && !DropsName(name)
  {
    var path := ["Tasks", "F", "T", name];
    assert "Tasks"[1] == 'a' && "node_modules"[0] == 'n' && "tsconfig"[0] == 't';
    assert forall k :: 0 <= k < |DROPPED_NAMES| ==> |DROPPED_NAMES[k]| >= 2 && DROPPED_NAMES[k][0] in "Tc." && (DROPPED_NAMES[k][0] == 'T' ==> DROPPED_NAMES[k][1] == 'e');
    forall i | 0 <= i < |path| ensures !DropsAt(path, i) {}
    assert forall k :: 0 <= k < |DROPPED_SUFFIXES| ==> DROPPED_SUFFIXES[k][|DROPPED_SUFFIXES[k]| - 1] in "spo";
    assert forall k :: 0 <= k < |DROPPED_FILES| ==> DROPPED_FILES[k][0] in "eo.";
    assert forall k :: 0 <= k < |DROPPED_PREFIXES| ==> DROPPED_PREFIXES[k][0] == '.';
  }

  lemma SampleIsNoStem(name: string)
    requires |name| >= 8 && name[0] in "sr"
    ensures name !in SECRET_STEMS
    ensures forall i, j :: 0 <= i < 4 && 0 <= j < |SECRET_STEMS| ==> !(SECRET_STEMS[j] + "." <= ["Tasks", "F", "T", name][i])
  {
    assert forall j :: 0 <= j < |SECRET_STEMS| ==> SECRET_STEMS[j] != "" && SECRET_STEMS[j][0] in ".i";
    forall i, j | 0 <= i < 4 && 0 <= j < |SECRET_STEMS| ensures !(SECRET_STEMS[j] + "." <= ["Tasks", "F", "T", name][i]) {
      assert (SECRET_STEMS[j] + ".")[0] == SECRET_STEMS[j][0];
      assert ["Tasks", "F", "T", name][i][0] in "TFsr";
    }
  }
}
