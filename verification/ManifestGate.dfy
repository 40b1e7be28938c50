/**
 The manifest half of the composition gate (`scripts/check-package-composition.js`): what the manifest names
 must be composed, and every task and root asset must be named. With it, the agreement of the whole gate with
 the whole packager.
 */
module ManifestGate {
  import opened JsText
  import opened PackageTree
  import opened PackageContents
  import opened PackageManifest
  import opened PackageComposition
  import opened CompositionGate

  /** What lies at a path that passes through a link. */
  type Beyond = Path -> Option<Kind>

  /** What a complaint is about. */
  datatype Subject =
    | TheDocument | Details | License | IconOf(key: string) | DefaultIcon | Files | FileAt(index: nat)
    | Contributions | ContributionAt(index: nat) | TaskAt(dir: Path) | AssetAt(name: string)

  datatype Fault =
    | NoJson | NoPath | LeavesRoot | NotThere | NotComposed | NotShipped | NoIcon | NoArray | EmptyShipment
    | NoSuchTask | NotContributed | NotCovered | NotNamed

  datatype Complaint = Complaint(subject: Subject, fault: Fault)

  function About(subject: Subject, fault: Option<Fault>): seq<Complaint> {
    if fault.Some? then [Complaint(subject, fault.value)] else []
  }

  // ── Looking a path up ────────────────────────────────────────────────────────

  predicate PassesLink(node: Node, path: Path)
    decreases |path|
  {
    path != [] && (node.Symlink? || (node.Dir? && Child(node.entries, path[0]).Some? && PassesLink(Child(node.entries, path[0]).value, path[1..])))
  }

  /** What is there, if anything. */
  function KindAt(tree: Node, beyond: Beyond, path: Path): Option<Kind> {
    if PassesLink(tree, path) then beyond(path)
    else if Exists(NodeAt(tree, path)) then Some(KindOf(NodeAt(tree, path).value))
    else None
  }

  /** `composedLocation`: the packager looks there. */
  predicate IsComposed(path: Path, dirs: seq<Path>) {
    || IsRootAsset(path)
    || (exists k :: 0 <= k < |ROOT_DIRS| && ROOT_DIRS[k] <= path)
    || (TASKS <= path && (InsideTaskDir(path, dirs) || AncestorOfTaskDir(path, dirs) || path in dirs))
  }

  // ── What is complained of ────────────────────────────────────────────────────

  /** A path of content or of an icon. */
  function PathFault(tree: Node, beyond: Beyond, dirs: seq<Path>, v: Value): Option<Fault> {
    if !v.isText || !v.isTruthy then Some(NoPath)
    else if v.place.Outside? then Some(LeavesRoot)
    else
      var path := v.place.path;
      if KindAt(tree, beyond, path).None? then Some(NotThere)
      else if !IsComposed(path, dirs) then Some(NotComposed)
      else if IsRegular(KindAt(tree, beyond, path).value) && path != [] && Classify(path) != Ship then Some(NotShipped)
      else None
  }

  function IconComplaints(tree: Node, beyond: Beyond, dirs: seq<Path>, icons: seq<Icon>): seq<Complaint> {
    if icons == [] then []
    else
      About(IconOf(icons[0].key), PathFault(tree, beyond, dirs, icons[0].value)) + IconComplaints(tree, beyond, dirs, icons[1..])
  }

  predicate HasDefaultIcon(icons: seq<Icon>) { exists k :: 0 <= k < |icons| && icons[k].key == "default" && icons[k].value.isTruthy }

  predicate Covers(path: Path, dirs: seq<Path>) { exists k :: 0 <= k < |dirs| && path <= dirs[k] }

  /** An entry of files. A path out of the root is composed nowhere. */
  function FileFault(tree: Node, beyond: Beyond, dirs: seq<Path>, v: Value): Option<Fault> {
    if !v.isText || !v.isTruthy then Some(NoPath)
    else if v.place.Outside? then Some(NotComposed)
    else
      var path := v.place.path;
      if KindAt(tree, beyond, path).None? then Some(NotThere)
      else if !IsComposed(path, dirs) then Some(NotComposed)
      else if TASKS <= path && !Covers(path, dirs) then Some(EmptyShipment)
      else None
  }

  function FileComplaints(tree: Node, beyond: Beyond, dirs: seq<Path>, files: seq<Value>): seq<Complaint> {
    if files == [] then []
    else
      var last := |files| - 1;
      FileComplaints(tree, beyond, dirs, files[..last]) + About(FileAt(last), FileFault(tree, beyond, dirs, files[last]))
  }

  /** The places a list of values names. */
  function PathsOf(values: seq<Value>): set<Path> {
    set k | 0 <= k < |values| && values[k].isText && values[k].isTruthy && values[k].place.Within? :: values[k].place.path
  }

  function ContributionFault(dirs: seq<Path>, c: Contribution): Option<Fault> {
    if !c.isTask then None
    else if !c.name.isText || !c.name.isTruthy then Some(NoPath)
    else if c.name.place.Outside? || c.name.place.path !in dirs then Some(NoSuchTask)
    else None
  }

  function ContributionComplaints(dirs: seq<Path>, cs: seq<Contribution>): seq<Complaint> {
    if cs == [] then []
    else
      var last := |cs| - 1;
      ContributionComplaints(dirs, cs[..last]) + About(ContributionAt(last), ContributionFault(dirs, cs[last]))
  }

  /** The task directories the contributions name. */
  function Contributed(dirs: seq<Path>, cs: seq<Contribution>): set<Path> {
    set k | 0 <= k < |cs| && cs[k].isTask && cs[k].name.isTruthy && ContributionFault(dirs, cs[k]).None? && cs[k].name.place.Within?
      :: cs[k].name.place.path
  }

  predicate IsCovered(dir: Path, paths: set<Path>) { exists p :: p in paths && p <= dir }

  function TaskComplaints(dirs: seq<Path>, contributed: set<Path>, paths: set<Path>): seq<Complaint> {
    if dirs == [] then []
    else
      TaskFaults(dirs[0], contributed, paths) + TaskComplaints(dirs[1..], contributed, paths)
  }

  /** A task directory no contribution names, or no entry of files covers. */
  function TaskFaults(dir: Path, contributed: set<Path>, paths: set<Path>): seq<Complaint> {
    About(TaskAt(dir), if dir in contributed then None else Some(NotContributed))
    + About(TaskAt(dir), if IsCovered(dir, paths) then None else Some(NotCovered))
  }

  function AssetFault(tree: Node, beyond: Beyond, named: set<Path>, asset: Asset): Option<Fault> {
    if [asset.name] == MANIFEST || KindAt(tree, beyond, [asset.name]).None? || [asset.name] in named then None else Some(NotNamed)
  }

  function AssetComplaints(tree: Node, beyond: Beyond, named: set<Path>, assets: seq<Asset>): seq<Complaint> {
    if assets == [] then []
    else About(AssetAt(assets[0].name), AssetFault(tree, beyond, named, assets[0])) + AssetComplaints(tree, beyond, named, assets[1..])
  }

  function Items<T>(list: List<T>): seq<T> { if list.Listed? then list.items else [] }

  function PathOfText(v: Value): set<Path> { if v.isText && v.place.Within? then {v.place.path} else {} }

  function IconPaths(icons: seq<Icon>): set<Path> {
    set k | 0 <= k < |icons| && icons[k].value.isText && icons[k].value.place.Within? :: icons[k].value.place.path
  }

  /** What content, icons and files name, which is what is packaged. */
  function Named(m: Manifest): set<Path> {
    PathsOf(Items(m.files)) + PathOfText(m.details) + PathOfText(m.license) + IconPaths(m.icons)
  }

  function ContentComplaints(tree: Node, beyond: Beyond, dirs: seq<Path>, m: Manifest): seq<Complaint> {
    About(Details, PathFault(tree, beyond, dirs, m.details))
    + About(License, PathFault(tree, beyond, dirs, m.license))
    + IconComplaints(tree, beyond, dirs, m.icons)
    + About(DefaultIcon, if HasDefaultIcon(m.icons) then None else Some(NoIcon))
  }

  function ListComplaints(tree: Node, beyond: Beyond, dirs: seq<Path>, m: Manifest): seq<Complaint> {
    About(Files, if m.files.Listed? then None else Some(NoArray))
    + FileComplaints(tree, beyond, dirs, Items(m.files))
    + About(Contributions, if m.contributions.Listed? then None else Some(NoArray))
    + ContributionComplaints(dirs, Items(m.contributions))
  }

  /** All that the gate has to say of the manifest, in order. */
  function ManifestComplaints(tree: Node, beyond: Beyond, d: Document): seq<Complaint> {
    match d
    case NotJson => [Complaint(TheDocument, NoJson)]
    case Null => []
    case Falsy => []
    case Read(m) =>
      var dirs := TaskDirs(tree);
      ContentComplaints(tree, beyond, dirs, m)
      + ListComplaints(tree, beyond, dirs, m)
      + TaskComplaints(dirs, Contributed(dirs, Items(m.contributions)), PathsOf(Items(m.files)))
      + AssetComplaints(tree, beyond, Named(m), ROOT_ASSETS)
  }

  // ── The check ────────────────────────────────────────────────────────────────

  class ManifestCheck {
    const tree: Node
    const beyond: Beyond
    const taskDirs: seq<Path>
    var errors: seq<Complaint>

    constructor (tree: Node, beyond: Beyond, taskDirs: seq<Path>)
      ensures this.tree == tree && this.beyond == beyond && this.taskDirs == taskDirs && errors == []
    {
      this.tree, this.beyond, this.taskDirs, errors := tree, beyond, taskDirs, [];
    }

    method Fail(subject: Subject, fault: Fault)
      modifies this`errors
      ensures errors == old(errors) + [Complaint(subject, fault)]
    {
      errors := errors + [Complaint(subject, fault)];
    }

    method CheckManifestPath(subject: Subject, v: Value)
      modifies this`errors
      ensures errors == old(errors) + About(subject, PathFault(tree, beyond, taskDirs, v))
    {
      hide KindAt, IsComposed, Classify;
      if !v.isText || !v.isTruthy {
        Fail(subject, NoPath);
        return;
      }
      if v.place.Outside? {
        Fail(subject, LeavesRoot);
        return;
      }
      var path := v.place.path;
      var kind := KindAt(tree, beyond, path);
      if kind.None? {
        Fail(subject, NotThere);
        return;
      }
      if !IsComposed(path, taskDirs) {
        Fail(subject, NotComposed);
        return;
      }
      if IsRegular(kind.value) && path != [] && Classify(path) != Ship { Fail(subject, NotShipped); }
    }

    method CheckContent(m: Manifest)
      modifies this`errors
      ensures errors == old(errors) + ContentComplaints(tree, beyond, taskDirs, m)
    {
      hide PathFault, About, IconComplaints, HasDefaultIcon;
      CheckManifestPath(Details, m.details);
      CheckManifestPath(License, m.license);
      ghost var start := errors;
      NoIcons(tree, beyond, taskDirs);
      assert m.icons[0..] == m.icons && m.icons[|m.icons|..] == [];
      for k := 0 to |m.icons|
        invariant errors + IconComplaints(tree, beyond, taskDirs, m.icons[k..]) == start + IconComplaints(tree, beyond, taskDirs, m.icons)
      {
        IconStep(tree, beyond, taskDirs, m.icons, k);
        CheckManifestPath(IconOf(m.icons[k].key), m.icons[k].value);
      }
      assert errors == start + IconComplaints(tree, beyond, taskDirs, m.icons);
      CheckDefaultIcon(m.icons);
    }

    method CheckDefaultIcon(icons: seq<Icon>)
      modifies this`errors
      ensures errors == old(errors) + About(DefaultIcon, if HasDefaultIcon(icons) then None else Some(NoIcon))
    {
      if !HasDefaultIcon(icons) { Fail(DefaultIcon, NoIcon); }
    }

    /** One entry of files, and the path it adds to those that are packaged. */
    method CheckFile(index: nat, v: Value) returns (paths: set<Path>)
      modifies this`errors
      ensures errors == old(errors) + About(FileAt(index), FileFault(tree, beyond, taskDirs, v))
      ensures paths == PathsOf([v])
    {
      hide KindAt, IsComposed;
      PathOfOne(v);
      paths := {};
      if !v.isText || !v.isTruthy {
        Fail(FileAt(index), NoPath);
        return;
      }
      if v.place.Outside? {
        Fail(FileAt(index), NotComposed);
        return;
      }
      var path := v.place.path;
      paths := {path};
      if KindAt(tree, beyond, path).None? {
        Fail(FileAt(index), NotThere);
        return;
      }
      if !IsComposed(path, taskDirs) {
        Fail(FileAt(index), NotComposed);
        return;
      }
      if TASKS <= path {
        var covered := exists k :: 0 <= k < |taskDirs| && path <= taskDirs[k];
        if !covered { Fail(FileAt(index), EmptyShipment); }
      }
    }

    method CheckFiles(files: seq<Value>) returns (paths: set<Path>)
      modifies this`errors
      ensures errors == old(errors) + FileComplaints(tree, beyond, taskDirs, files)
      ensures paths == PathsOf(files)
    {
      hide FileFault, About;
      paths := {};
      for k := 0 to |files|
        invariant errors == old(errors) + FileComplaints(tree, beyond, taskDirs, files[..k])
        invariant paths == PathsOf(files[..k])
      {
        assert files[..k + 1][..k] == files[..k] && files[..k + 1][k] == files[k] && files[..k + 1] == files[..k] + [files[k]];
        PathsSnoc(files[..k], files[k]);
        var more := CheckFile(k, files[k]);
        paths := paths + more;
      }
      assert files[..|files|] == files;
    }

    method CheckContributions(cs: seq<Contribution>) returns (contributed: set<Path>)
      modifies this`errors
      ensures errors == old(errors) + ContributionComplaints(taskDirs, cs)
      ensures contributed == Contributed(taskDirs, cs)
    {
      contributed := {};
      for k := 0 to |cs|
        invariant errors == old(errors) + ContributionComplaints(taskDirs, cs[..k])
        invariant contributed == Contributed(taskDirs, cs[..k])
      {
        assert cs[..k + 1][..k] == cs[..k] && cs[..k + 1][k] == cs[k] && cs[..k + 1] == cs[..k] + [cs[k]];
        ContributedSnoc(taskDirs, cs[..k], cs[k]);
        if !cs[k].isTask { continue; }
        var name := cs[k].name;
        if !name.isText || !name.isTruthy {
          Fail(ContributionAt(k), NoPath);
          continue;
        }
        if name.place.Outside? || name.place.path !in taskDirs {
          Fail(ContributionAt(k), NoSuchTask);
          continue;
        }
        contributed := contributed + {name.place.path};
      }
      assert cs[..|cs|] == cs;
    }

    method CheckCoverage(contributed: set<Path>, paths: set<Path>)
      modifies this`errors
      ensures errors == old(errors) + TaskComplaints(taskDirs, contributed, paths)
    {
      hide IsCovered, TaskFaults, TaskComplaints;
      NoTasks(contributed, paths);
      assert taskDirs[0..] == taskDirs && taskDirs[|taskDirs|..] == [];
      for k := 0 to |taskDirs|
        invariant errors + TaskComplaints(taskDirs[k..], contributed, paths) == old(errors) + TaskComplaints(taskDirs, contributed, paths)
      {
        TaskStep(taskDirs, k, contributed, paths);
        CheckTask(taskDirs[k], contributed, paths);
      }
    }

    method CheckTask(dir: Path, contributed: set<Path>, paths: set<Path>)
      modifies this`errors
      ensures errors == old(errors) + TaskFaults(dir, contributed, paths)
    {
      hide IsCovered;
      if dir !in contributed { Fail(TaskAt(dir), NotContributed); }
      if !IsCovered(dir, paths) { Fail(TaskAt(dir), NotCovered); }
    }

    method CheckNamed(named: set<Path>, assets: seq<Asset>)
      modifies this`errors
      ensures errors == old(errors) + AssetComplaints(tree, beyond, named, assets)
    {
      hide KindAt;
      assert assets[0..] == assets;
      for k := 0 to |assets|
        invariant errors + AssetComplaints(tree, beyond, named, assets[k..]) == old(errors) + AssetComplaints(tree, beyond, named, assets)
      {
        assert assets[k..][1..] == assets[k + 1..];
        var asset := assets[k];
        if [asset.name] == MANIFEST || KindAt(tree, beyond, [asset.name]).None? || [asset.name] in named { continue; }
        Fail(AssetAt(asset.name), NotNamed);
      }
    }

    method CheckLists(m: Manifest) returns (paths: set<Path>, contributed: set<Path>)
      modifies this`errors
      ensures errors == old(errors) + ListComplaints(tree, beyond, taskDirs, m)
      ensures paths == PathsOf(Items(m.files)) && contributed == Contributed(taskDirs, Items(m.contributions))
    {
      hide FileComplaints, ContributionComplaints, PathsOf, Contributed, Items;
      if !m.files.Listed? { Fail(Files, NoArray); }
      paths := CheckFiles(Items(m.files));
      if !m.contributions.Listed? { Fail(Contributions, NoArray); }
      contributed := CheckContributions(Items(m.contributions));
    }

    method Check(d: Document)
      requires taskDirs == TaskDirs(tree) && errors == []
      modifies this`errors
      ensures errors == ManifestComplaints(tree, beyond, d)
    {
      hide TaskDirs, ContentComplaints, ListComplaints, TaskComplaints, AssetComplaints, PathsOf, Contributed, PathOfText, IconPaths, Items;
      if d.NotJson? {
        Fail(TheDocument, NoJson);
        return;
      }
      if !d.Read? { return; }
      var m := d.manifest;
      CheckContent(m);
      var paths, contributed := CheckLists(m);
      CheckCoverage(contributed, paths);
      CheckNamed(paths + PathOfText(m.details) + PathOfText(m.license) + IconPaths(m.icons), ROOT_ASSETS);
    }
  }

  lemma NoIcons(tree: Node, beyond: Beyond, dirs: seq<Path>)
    ensures IconComplaints(tree, beyond, dirs, []) == []
  {
  }

  lemma IconStep(tree: Node, beyond: Beyond, dirs: seq<Path>, icons: seq<Icon>, k: nat)
    requires k < |icons|
    ensures IconComplaints(tree, beyond, dirs, icons[k..]) ==
            About(IconOf(icons[k].key), PathFault(tree, beyond, dirs, icons[k].value)) + IconComplaints(tree, beyond, dirs, icons[k + 1..])
  {
    hide PathFault, About;
    assert icons[k..][1..] == icons[k + 1..];
  }

  lemma NoTasks(contributed: set<Path>, paths: set<Path>)
    ensures TaskComplaints([], contributed, paths) == []
  {
  }

  lemma TaskStep(dirs: seq<Path>, k: nat, contributed: set<Path>, paths: set<Path>)
    requires k < |dirs|
    ensures TaskComplaints(dirs[k..], contributed, paths) ==
            TaskFaults(dirs[k], contributed, paths) + TaskComplaints(dirs[k + 1..], contributed, paths)
  {
    hide TaskFaults;
    assert dirs[k..][1..] == dirs[k + 1..];
  }

  lemma PathOfOne(v: Value)
    ensures PathsOf([v]) == if v.isText && v.isTruthy && v.place.Within? then {v.place.path} else {}
  {
    assert [v][0] == v;
  }

  lemma PathsSnoc(values: seq<Value>, v: Value)
    ensures PathsOf(values + [v]) == PathsOf(values) + PathsOf([v])
  {
    PathOfOne(v);
    var all := values + [v];
    assert forall k :: 0 <= k < |values| ==> all[k] == values[k];
    assert all[|values|] == v;
  }

  lemma ContributedSnoc(dirs: seq<Path>, cs: seq<Contribution>, c: Contribution)
    ensures Contributed(dirs, cs + [c]) ==
            Contributed(dirs, cs) + if c.isTask && ContributionFault(dirs, c).None? then {c.name.place.path} else {}
  {
    var all := cs + [c];
    assert forall k :: 0 <= k < |cs| ==> all[k] == cs[k];
    assert all[|cs|] == c;
  }

  // ── What a passed manifest guarantees ────────────────────────────────────────

  /** Every path is accepted, every task contributed and covered, every root asset named. */
  predicate Accepted(tree: Node, beyond: Beyond, m: Manifest) {
    var dirs, files, contributions := TaskDirs(tree), Items(m.files), Items(m.contributions);
    && PathFault(tree, beyond, dirs, m.details).None? && PathFault(tree, beyond, dirs, m.license).None?
    && (forall k :: 0 <= k < |m.icons| ==> PathFault(tree, beyond, dirs, m.icons[k].value).None?) && HasDefaultIcon(m.icons)
    && m.files.Listed? && (forall k :: 0 <= k < |files| ==> FileFault(tree, beyond, dirs, files[k]).None?)
    && m.contributions.Listed? && (forall k :: 0 <= k < |contributions| ==> ContributionFault(dirs, contributions[k]).None?)
    && (forall k :: 0 <= k < |dirs| ==> dirs[k] in Contributed(dirs, contributions) && IsCovered(dirs[k], PathsOf(files)))
    && forall k :: 0 <= k < |ROOT_ASSETS| ==> AssetFault(tree, beyond, Named(m), ROOT_ASSETS[k]).None?
  }

  lemma PassesExactly(tree: Node, beyond: Beyond, m: Manifest)
    ensures ManifestComplaints(tree, beyond, Read(m)) == [] <==> Accepted(tree, beyond, m)
  {
    hide TaskDirs, PathFault, FileFault, ContributionFault, AssetFault, IconComplaints, FileComplaints, ContributionComplaints, TaskComplaints,
         AssetComplaints, Contributed, PathsOf, Named, IsCovered, HasDefaultIcon;
    var dirs, files, cs := TaskDirs(tree), Items(m.files), Items(m.contributions);
    NoIconComplaints(tree, beyond, dirs, m.icons);
    NoFileComplaints(tree, beyond, dirs, files);
    NoContributionComplaints(dirs, cs);
    NoTaskComplaints(dirs, Contributed(dirs, cs), PathsOf(files));
    NoAssetComplaints(tree, beyond, Named(m), ROOT_ASSETS);
  }

  lemma {:induction false} NoIconComplaints(tree: Node, beyond: Beyond, dirs: seq<Path>, icons: seq<Icon>)
    ensures IconComplaints(tree, beyond, dirs, icons) == [] <==>
      forall k :: 0 <= k < |icons| ==> PathFault(tree, beyond, dirs, icons[k].value).None?
  {
    hide PathFault;
    if icons != [] {
      NoIconComplaints(tree, beyond, dirs, icons[1..]);
      assert forall k :: 0 < k < |icons| ==> icons[k] == icons[1..][k - 1];
      assert forall k :: 0 <= k < |icons[1..]| ==> icons[1..][k] == icons[k + 1];
    }
  }

  lemma {:induction false} NoFileComplaints(tree: Node, beyond: Beyond, dirs: seq<Path>, files: seq<Value>)
    ensures FileComplaints(tree, beyond, dirs, files) == [] <==>
      forall k :: 0 <= k < |files| ==> FileFault(tree, beyond, dirs, files[k]).None?
  {
    hide FileFault;
    if files != [] {
      var last := |files| - 1;
      NoFileComplaints(tree, beyond, dirs, files[..last]);
      assert forall k :: 0 <= k < last ==> files[..last][k] == files[k];
    }
  }

  lemma {:induction false} NoContributionComplaints(dirs: seq<Path>, cs: seq<Contribution>)
    ensures ContributionComplaints(dirs, cs) == [] <==> forall k :: 0 <= k < |cs| ==> ContributionFault(dirs, cs[k]).None?
  {
    hide ContributionFault;
    if cs != [] {
      var last := |cs| - 1;
      NoContributionComplaints(dirs, cs[..last]);
      assert forall k :: 0 <= k < last ==> cs[..last][k] == cs[k];
    }
  }

  lemma {:induction false} NoTaskComplaints(dirs: seq<Path>, contributed: set<Path>, paths: set<Path>)
    ensures TaskComplaints(dirs, contributed, paths) == [] <==>
      forall k :: 0 <= k < |dirs| ==> dirs[k] in contributed && IsCovered(dirs[k], paths)
  {
    hide IsCovered;
    if dirs != [] {
      NoTaskComplaints(dirs[1..], contributed, paths);
      assert forall k :: 0 < k < |dirs| ==> dirs[k] == dirs[1..][k - 1];
      assert forall k :: 0 <= k < |dirs[1..]| ==> dirs[1..][k] == dirs[k + 1];
    }
  }

  lemma {:induction false} NoAssetComplaints(tree: Node, beyond: Beyond, named: set<Path>, assets: seq<Asset>)
    ensures AssetComplaints(tree, beyond, named, assets) == [] <==>
      forall k :: 0 <= k < |assets| ==> AssetFault(tree, beyond, named, assets[k]).None?
  {
    hide AssetFault;
    if assets != [] {
      NoAssetComplaints(tree, beyond, named, assets[1..]);
      assert forall k :: 0 < k < |assets| ==> assets[k] == assets[1..][k - 1];
      assert forall k :: 0 <= k < |assets[1..]| ==> assets[1..][k] == assets[k + 1];
    }
  }

  /** What is composed is packaged: ./build holds nothing but the manifest, what the manifest names or covers, and images. */
  lemma ComposedIsPackaged(tree: Node, beyond: Beyond, m: Manifest, path: Path)
    requires Proper(tree) && ManifestComplaints(tree, beyond, Read(m)) == []
    requires path in PackagerCopies(tree)
    ensures path == MANIFEST || path in Named(m) || IsCovered(path, PathsOf(Items(m.files)))
            || exists k :: 0 <= k < |ROOT_DIRS| && ROOT_DIRS[k] <= path
  {
    hide TaskDirs, Proper, NodeAt, PathFault, FileFault, ContributionFault, Contributed, PathsOf, Named, ManifestComplaints, PackagerCopies,
         HasDefaultIcon, Classify, KindAt;
    PassesExactly(tree, beyond, m);
    CopiesAreThePackage(tree, path);
    var dirs, files := TaskDirs(tree), PathsOf(Items(m.files));
    if a :| 0 <= a < |ROOT_ASSETS| && path == [ROOT_ASSETS[a].name] && NodeAt(tree, path) == Some(File) {
      FileIsThere(tree, beyond, path);
      assert AssetFault(tree, beyond, Named(m), ROOT_ASSETS[a]).None?;
    } else {
      var all := dirs + ROOT_DIRS;
      var k :| 0 <= k < |all| && Reported(tree, all[k], Kept(), Found(path, IsFile));
      if k < |dirs| {
        assert IsCovered(dirs[k], files);
        var p :| p in files && p <= dirs[k];
        assert p <= path;
      } else {
        assert ROOT_DIRS[k - |dirs|] <= path;
      }
    }
  }

  /** A path through real directories passes no link. */
  lemma {:induction false} FileIsThere(tree: Node, beyond: Beyond, path: Path)
    requires NodeAt(tree, path) == Some(File)
    ensures KindAt(tree, beyond, path) == Some(IsFile)
  {
    NoLinkPassed(tree, path);
  }

  lemma {:induction false} NoLinkPassed(node: Node, path: Path)
    requires NodeAt(node, path).Some?
    ensures !PassesLink(node, path)
    decreases |path|
  {
    if path != [] { NoLinkPassed(Child(node.entries, path[0]).value, path[1..]); }
  }

  // ── The whole gate and the whole packager ────────────────────────────────────

  /** Something that ships is at or below the path. */
  ghost predicate Reaches(tree: Node, path: Path)
    requires Proper(tree)
  {
    exists q :: InPackage(tree, q) && path <= q
  }

  ghost predicate KeepsPromises(tree: Node, m: Manifest)
    requires Proper(tree)
  {
    forall place :: place in Promised(m) ==> place.Within? && Reaches(tree, place.path)
  }

  predicate ComposedWell(tree: Node, d: Document)
    requires Proper(tree)
  {
    !ComposeThrows(tree, d) && ComposeRefusals(tree, d) == []
  }

  /** Every promise is a value the gate has looked at: a place, and one that is composed. */
  lemma PromiseIsComposed(tree: Node, beyond: Beyond, m: Manifest, place: Place)
    requires Accepted(tree, beyond, m) && place in Promised(m)
    ensures place.Within? && place.path != [] && IsComposed(place.path, TaskDirs(tree))
  {
    hide TaskDirs, KindAt, Classify, ContributionFault, AssetFault, Contributed, PathsOf, Named, IsCovered, HasDefaultIcon, InsideTaskDir, AncestorOfTaskDir;
    IconPlaced(m.icons, place);
    FilePlaced(Items(m.files), place);
    var dirs := TaskDirs(tree);
    if place in PlaceOfTruthy(m.details) {
      assert PathFault(tree, beyond, dirs, m.details).None?;
    } else if place in PlaceOfTruthy(m.license) {
      assert PathFault(tree, beyond, dirs, m.license).None?;
    } else if place in IconPlaces(m.icons) {
      var k :| 0 <= k < |m.icons| && m.icons[k].value.place == place;
      assert PathFault(tree, beyond, dirs, m.icons[k].value).None?;
    } else {
      var k :| 0 <= k < |Items(m.files)| && Items(m.files)[k].isTruthy && Items(m.files)[k].place == place;
      assert FileFault(tree, beyond, dirs, Items(m.files)[k]).None?;
    }
    ComposedIsNotRoot(place.path, dirs);
  }

  lemma ComposedIsNotRoot(path: Path, dirs: seq<Path>)
    requires IsComposed(path, dirs)
    ensures path != []
  {
    hide InsideTaskDir, AncestorOfTaskDir;
  }

  /**
   A repository that the whole gate passes is composed if and only if the copy phase meets its five conditions, the
   manifest is not null, and at or below each path the manifest promises there is something that ships.
   */
  lemma PassedGateDeliversExactly(tree: Node, beyond: Beyond, d: Document)
    requires Proper(tree) && GatePasses(tree) && ManifestComplaints(tree, beyond, d) == []
    ensures ComposedWell(tree, d)
            <==> (PrunedTasksAreClean(tree) && NoSpecialImages(tree) && AssetsAreFiles(tree) && NothingIsAway(tree)
                  && (Bundles(ComposedReport(tree)) ==> NoticesAreThere(tree))
                  && !d.Null? && (d.Read? ==> KeepsPromises(tree, d.manifest)))
  {
    hide PrunedTasksAreClean, NoSpecialImages, AssetsAreFiles, Bundles, ComposedReport, NoticesAreThere, Proper, GatePasses, KeepsPromises,
         PackagerRefusals, PackagerThrows, PackagerCopies;
    PassedGateComposesExactly(tree);
    if d.Read? {
      hide ManifestComplaints, ComposedWell, Composes;
      ReadManifestDelivers(tree, beyond, d.manifest);
    }
  }

  lemma ReadManifestDelivers(tree: Node, beyond: Beyond, m: Manifest)
    requires Proper(tree) && ManifestComplaints(tree, beyond, Read(m)) == []
    ensures ComposedWell(tree, Read(m)) <==> Composes(tree) && KeepsPromises(tree, m)
  {
    hide Proper, PackagerRefusals, PackagerThrows, PackagerCopies, Accepted, KeepsPromises, IsKept, Promised, ManifestComplaints;
    PassesExactly(tree, beyond, m);
    FilesAreListed(tree, beyond, m);
    NoPromiseRefusals(Promised(m), PackagerCopies(tree));
    if Composes(tree) { PromisesKeptExactly(tree, beyond, m); }
  }

  lemma FilesAreListed(tree: Node, beyond: Beyond, m: Manifest)
    requires Accepted(tree, beyond, m)
    ensures m.files.Listed?
  {
  }

  lemma PromisesKeptExactly(tree: Node, beyond: Beyond, m: Manifest)
    requires Proper(tree) && Composes(tree) && Accepted(tree, beyond, m)
    ensures KeepsPromises(tree, m) <==> forall place :: place in Promised(m) ==> IsKept(place, PackagerCopies(tree))
  {
    hide Proper, PackagerRefusals, PackagerThrows, PackagerCopies, Accepted, Promised, InPackage, IsComposed, InBuild, Reaches;
    forall place | place in Promised(m)
      ensures place.Within? && (Reaches(tree, place.path) <==> InBuild(PackagerCopies(tree), place.path))
    {
      PromiseIsComposed(tree, beyond, m, place);
      ReachedIsInBuild(tree, place.path);
    }
  }

  lemma ReachedIsInBuild(tree: Node, path: Path)
    requires Proper(tree) && !PackagerThrows(tree) && path != []
    ensures Reaches(tree, path) <==> InBuild(PackagerCopies(tree), path)
  {
    hide Proper, PackagerThrows, PackagerCopies, InPackage;
    forall q ensures InPackage(tree, q) <==> q in PackagerCopies(tree) { CopiesAreThePackage(tree, q); }
  }

  /** On the way to the path from the directory the packager starts at, a directory is pruned. */
  predicate PrunedOnTheWay(path: Path) {
    exists j :: |StartOf(path)| < j < |path| && DirectoryDropped(path[..j])
  }

  /** The task directory or the root directory above it. */
  function StartOf(path: Path): Path {
    if path != [] && path[0] == "Tasks" && |path| >= 3 then path[..3] else if path != [] then path[..1] else []
  }

  /** A file that content or an icon may name is composed if and only if nothing on the way to it is pruned. */
  lemma FileReferenceReaches(tree: Node, beyond: Beyond, v: Value)
    requires Proper(tree) && TreesReadable(tree)
    requires PathFault(tree, beyond, TaskDirs(tree), v).None? && NodeAt(tree, v.place.path) == Some(File)
    ensures Reaches(tree, v.place.path) <==> IsRootAsset(v.place.path) || !PrunedOnTheWay(v.place.path)
  {
    hide TaskDirs, Proper, NodeAt, DirectoryDropped, KindAt, Classify, InPackage;
    var path := v.place.path;
    FileIsThere(tree, beyond, path);
    ComposedIsNotRoot(path, TaskDirs(tree));
    FileReachesItself(tree, path);
    FileIsInPackage(tree, path);
  }

  lemma FileReachesItself(tree: Node, path: Path)
    requires Proper(tree) && NodeAt(tree, path) == Some(File)
    ensures Reaches(tree, path) <==> InPackage(tree, path)
  {
    hide TaskDirs, Proper, NodeAt, Classify;
    forall q | InPackage(tree, q) && path <= q ensures q == path {
      assert NodeAt(tree, q) == Some(File);
      assert q == path + q[|path|..];
      NodeAtAppend(tree, path, q[|path|..]);
      NothingBelowFile(q[|path|..]);
    }
    assert path <= path;
  }

  lemma NothingBelowFile(path: Path)
    ensures NodeAt(File, path).Some? ==> path == []
  {
  }

  lemma FileIsInPackage(tree: Node, path: Path)
    requires Proper(tree) && TreesReadable(tree) && path != [] && NodeAt(tree, path) == Some(File)
    requires IsComposed(path, TaskDirs(tree)) && (IsRootAsset(path) || Classify(path) == Ship)
    ensures InPackage(tree, path) <==> IsRootAsset(path) || !PrunedOnTheWay(path)
  {
    hide TaskDirs, Proper, NodeAt, DirectoryDropped, Classify, PrunedOnTheWay, StartOf;
    var dirs := TaskDirs(tree) + ROOT_DIRS;
    var f := Found(path, IsFile);
    forall k | 0 <= k < |dirs|
      ensures Reported(tree, dirs[k], Kept(), f) <==> dirs[k] <= path && !PrunedOnTheWay(path)
    {
      StartIsReal(tree, dirs[k]);
      if dirs[k] <= path {
        StartIs(tree, dirs[k], path);
        assert dirs[k] != path;
        NothingPruned(path);
      }
    }
    FileIsNoAncestor(tree, f);
    assert forall k :: 0 <= k < |TaskDirs(tree)| ==> dirs[k] == TaskDirs(tree)[k];
    assert forall k :: 0 <= k < |ROOT_DIRS| ==> dirs[|TaskDirs(tree)| + k] == ROOT_DIRS[k];
  }

  lemma NothingPruned(path: Path)
    ensures !PrunedOnTheWay(path) <==> forall j :: |StartOf(path)| < j < |path| ==> Kept()(path[..j])
  {
    hide DirectoryDropped;
  }

  lemma StartIsReal(tree: Node, dir: Path)
    requires TreesReadable(tree) && Proper(tree) && dir in TaskDirs(tree) + ROOT_DIRS
    ensures NodeAt(tree, dir) != Some(File)
  {
    hide NodeAt, TaskDirs, Proper;
    if dir in TaskDirs(tree) { TaskDirsExact(tree, dir); }
  }

  lemma StartIs(tree: Node, dir: Path, path: Path)
    requires Proper(tree) && dir in TaskDirs(tree) + ROOT_DIRS && dir <= path
    ensures StartOf(path) == dir
  {
    hide TaskDirs, Proper, NodeAt;
    if dir in TaskDirs(tree) {
      TaskDirsExact(tree, dir);
      assert path[..3] == dir && path[0] == dir[0];
    } else {
      assert dir == ["images"] && path[..1] == dir && path[0] == dir[0];
    }
  }

  // ── When a reference reaches something ───────────────────────────────────────

  /** Where the packager starts its walks. */
  function Starts(tree: Node): seq<Path> { TaskDirs(tree) + ROOT_DIRS }

  /** The packager's walk of the directory copies something. */
  predicate CopiesSome(tree: Node, dir: Path)
    requires Proper(tree)
  {
    Copied(Report(tree, dir)) != {}
  }

  /** Below a start: no directory on the way is pruned, and the file ships, or the walk of the directory copies something. */
  predicate ShipsBelow(tree: Node, start: Path, path: Path)
    requires Proper(tree) && start < path
  {
    && (forall j :: |start| < j < |path| ==> !DirectoryDropped(path[..j]))
    && match NodeAt(tree, path)
       case Some(File) => Classify(path) == Ship
       case Some(Dir(_)) => !DirectoryDropped(path) && CopiesSome(tree, path)
       case _ => false
  }

  /** At or above a start, or below it. */
  predicate ShipsAt(tree: Node, start: Path, path: Path)
    requires Proper(tree)
  {
    if start < path then ShipsBelow(tree, start, path) else path <= start && CopiesSome(tree, start)
  }

  /**
   A path, of a file or a directory, has something that ships at or below it if and only if it is a root asset that
   is a file, or the packager's own walks copy something there.
   */
  lemma ReachesExactly(tree: Node, path: Path)
    requires Proper(tree) && path != []
    ensures Reaches(tree, path)
            <==> (IsRootAsset(path) && NodeAt(tree, path) == Some(File))
                 || exists k :: 0 <= k < |Starts(tree)| && ShipsAt(tree, Starts(tree)[k], path)
  {
    hide TaskDirs, Proper, NodeAt, ShipsAt, InPackage;
    if q :| InPackage(tree, q) && path <= q { ReachedShips(tree, path, q); }
    if IsRootAsset(path) && NodeAt(tree, path) == Some(File) { AssetIsInPackage(tree, path); }
    if k :| 0 <= k < |Starts(tree)| && ShipsAt(tree, Starts(tree)[k], path) {
      var q := ShippedAt(tree, k, path);
    }
  }

  lemma AssetIsInPackage(tree: Node, path: Path)
    requires Proper(tree) && IsRootAsset(path) && NodeAt(tree, path) == Some(File)
    ensures InPackage(tree, path) && path <= path
  {
    hide TaskDirs, NodeAt, Proper;
  }

  /** What is in the package at or below the path lies in one of the walks. */
  lemma ReachedShips(tree: Node, path: Path, q: Path)
    requires Proper(tree) && path != [] && InPackage(tree, q) && path <= q
    ensures (IsRootAsset(path) && NodeAt(tree, path) == Some(File))
            || exists k :: 0 <= k < |Starts(tree)| && ShipsAt(tree, Starts(tree)[k], path)
  {
    hide TaskDirs, Proper, NodeAt, ShipsBelow, Reported, Classify;
    var starts, f := Starts(tree), Found(q, IsFile);
    if k :| 0 <= k < |starts| && Reported(tree, starts[k], Kept(), f) && q != [] && Classify(q) == Ship {
      assert starts[k] < q by { ReportedIsBelow(tree, starts[k], f); }
      CopiedFrom(tree, starts[k], f);
      if starts[k] < path { WalkReaches(tree, starts[k], path, f); }
      assert ShipsAt(tree, starts[k], path);
    } else {
      assert path == q;
    }
  }

  lemma ReportedIsBelow(tree: Node, dir: Path, f: Found)
    requires Reported(tree, dir, Kept(), f)
    ensures dir < f.path && NodeAt(tree, f.path).Some? && KindOf(NodeAt(tree, f.path).value) == f.kind
    ensures forall j :: |dir| < j < |f.path| ==> !DirectoryDropped(f.path[..j])
  {
    hide NodeAt, DirectoryDropped;
    assert forall j :: |dir| < j < |f.path| ==> Kept()(f.path[..j]);
  }

  /** A reported file that ships is copied. */
  lemma CopiedFrom(tree: Node, dir: Path, f: Found)
    requires Proper(tree) && Reported(tree, dir, Kept(), f) && f.kind == IsFile && f.path != [] && Classify(f.path) == Ship
    ensures CopiesSome(tree, dir)
  {
    hide NodeAt, Proper, Reported, WalkTreeSpec, Classify, Increasing;
    ReportIsExact(tree, dir, Kept());
    assert Ships(f) && f.path in Copied(Report(tree, dir));
  }

  /** A shipped file below the path, seen from the path itself. */
  lemma WalkReaches(tree: Node, start: Path, path: Path, f: Found)
    requires Proper(tree) && start < path <= f.path && f.kind == IsFile && Classify(f.path) == Ship
    requires Reported(tree, start, Kept(), f)
    ensures ShipsBelow(tree, start, path)
  {
    hide Proper, NodeAt, DirectoryDropped, Classify, CopiesSome, Reported;
    ReportedIsBelow(tree, start, f);
    assert forall j :: |start| < j < |path| ==> path[..j] == f.path[..j];
    if path == f.path {
      FileKind(NodeAt(tree, path).value);
    } else {
      assert f.path[..|path|] == path;
      DirOnTheWay(tree, path, f.path);
      assert Reported(tree, path, Kept(), f) by { ReportedFrom(tree, path, f); }
      CopiedFrom(tree, path, f);
    }
  }

  lemma FileKind(node: Node)
    requires KindOf(node) == IsFile
    ensures node == File
  {
  }

  lemma DirOnTheWay(tree: Node, path: Path, below: Path)
    requires path < below && NodeAt(tree, below).Some?
    ensures NodeAt(tree, path).Some? && NodeAt(tree, path).value.Dir?
  {
    assert below == path + below[|path|..];
    NodeAtAppend(tree, path, below[|path|..]);
  }

  lemma ReportedFrom(tree: Node, dir: Path, f: Found)
    requires dir < f.path && NodeAt(tree, f.path).Some? && KindOf(NodeAt(tree, f.path).value) == f.kind
    requires forall j :: |dir| < j < |f.path| ==> !DirectoryDropped(f.path[..j])
    ensures Reported(tree, dir, Kept(), f)
  {
    hide NodeAt, DirectoryDropped;
  }

  /** A file that is copied from the walk of a start is in the package. */
  lemma ShippedAt(tree: Node, k: nat, path: Path) returns (q: Path)
    requires Proper(tree) && k < |Starts(tree)| && ShipsAt(tree, Starts(tree)[k], path)
    ensures InPackage(tree, q) && path <= q
  {
    hide Proper, NodeAt, Classify, DirectoryDropped, WalkTreeSpec, Reported, TaskDirs, Increasing;
    var start := Starts(tree)[k];
    var dir := if start < path then path else start;
    if start < path && NodeAt(tree, path) == Some(File) {
      q := path;
      ReportedFrom(tree, start, Found(q, IsFile));
    } else {
      var f: Found :| f in Report(tree, dir) && Ships(f);
      q := f.path;
      ReportIsExact(tree, dir, Kept());
      ReportedIsBelow(tree, dir, f);
      FileKind(NodeAt(tree, q).value);
      if start < path {
        forall j | |start| < j < |q| ensures !DirectoryDropped(q[..j]) {
          if j < |path| { assert q[..j] == path[..j]; } else if j == |path| { assert q[..j] == path; }
        }
        ReportedFrom(tree, start, f);
      }
      assert f == Found(q, IsFile);
    }
  }

  /** So the promises of an accepted manifest are kept exactly when each can be found in those walks. */
  lemma KeepsPromisesExactly(tree: Node, beyond: Beyond, m: Manifest)
    requires Proper(tree) && Accepted(tree, beyond, m)
    ensures KeepsPromises(tree, m) <==> forall place :: place in Promised(m) ==>
      && place.Within?
      && ((IsRootAsset(place.path) && NodeAt(tree, place.path) == Some(File))
          || exists k :: 0 <= k < |Starts(tree)| && ShipsAt(tree, Starts(tree)[k], place.path))
  {
    hide Proper, Accepted, Promised, Reaches, ShipsAt, NodeAt, Starts, IsComposed;
    forall place | place in Promised(m)
      ensures place.Within? && (Reaches(tree, place.path)
                                <==> (IsRootAsset(place.path) && NodeAt(tree, place.path) == Some(File))
                                     || exists k :: 0 <= k < |Starts(tree)| && ShipsAt(tree, Starts(tree)[k], place.path))
    {
      PromiseIsComposed(tree, beyond, m, place);
      ReachesExactly(tree, place.path);
    }
  }
}
