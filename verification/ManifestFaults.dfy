/** What the gate complains of in a manifest, value by value, in terms of the tree alone (`scripts/check-package-composition.js`). */
module ManifestFaults {
  import opened JsText
  import opened PackageTree
  import opened PackageContents
  import opened PackageManifest
  import opened PackageComposition
  import opened CompositionGate
  import opened CompositionRefusals
  import opened ManifestGate

  // ── Paths ────────────────────────────────────────────────────────────────────

  /** The value is the text of a path in the repository. */
  predicate Names(v: Value, path: Path) { v.isText && v.isTruthy && v.place == Within(path) }

  /** Something before the path's last component is a link. */
  lemma {:induction false} PassesLinkExactly(node: Node, path: Path)
    ensures PassesLink(node, path) <==> exists j :: 0 <= j < |path| && NodeAt(node, path[..j]).Some? && NodeAt(node, path[..j]).value.Symlink?
    decreases |path|
  {
    if path != [] {
      assert path[..0] == [];
      if node.Dir? && Child(node.entries, path[0]).Some? {
        var next := Child(node.entries, path[0]).value;
        PassesLinkExactly(next, path[1..]);
        forall j | 0 < j <= |path| ensures path[..j][1..] == path[1..][..j - 1] && path[..j][0] == path[0] {}
        if j :| 0 <= j < |path[1..]| && NodeAt(next, path[1..][..j]).Some? && NodeAt(next, path[1..][..j]).value.Symlink? {
          assert NodeAt(node, path[..j + 1]) == NodeAt(next, path[1..][..j]);
        }
        if j :| 0 <= j < |path| && NodeAt(node, path[..j]).Some? && NodeAt(node, path[..j]).value.Symlink? {
          assert NodeAt(node, path[..j]) == NodeAt(next, path[1..][..j - 1]);
        }
      } else if !node.Symlink? {
        forall j | 0 <= j < |path| ensures !(NodeAt(node, path[..j]).Some? && NodeAt(node, path[..j]).value.Symlink?) {
          if j > 0 { assert path[..j][0] == path[0]; }
        }
      }
    }
  }

  /** Where no link is passed, what is there is what the tree holds: nothing at a dangling link. */
  lemma WithoutLinkTheTreeDecides(tree: Node, beyond: Beyond, path: Path)
    requires !PassesLink(tree, path)
    ensures var node := NodeAt(tree, path);
      && (KindAt(tree, beyond, path).None? <==> IsMissingNode(node))
      && (KindAt(tree, beyond, path).Some? ==>
            (IsRegular(KindAt(tree, beyond, path).value) <==> IsRegularNode(node.value)))
  {
    hide NodeAt, PassesLink;
  }

  /** The packager looks there: a root asset, images or below, or a task directory, something in one or above one. */
  ghost predicate LooksThere(tree: Node, path: Path) {
    || (exists k :: 0 <= k < |ROOT_ASSETS| && path == [ROOT_ASSETS[k].name])
    || ["images"] <= path
    || (["Tasks"] <= path && OfATask(tree, path))
  }

  lemma ComposedIsExact(tree: Node, path: Path)
    requires Proper(tree)
    ensures IsComposed(path, TaskDirs(tree)) <==> LooksThere(tree, path)
  {
    hide Proper, TaskDirs, OfATask, InsideTaskDir, AncestorOfTaskDir;
    PlacedIsOfATask(tree, path);
    assert ROOT_DIRS[0] == ["images"] && |ROOT_DIRS| == 1;
  }

  /** Whatever ends up in ./build at or below a path, the gate knows that the packager looks there. */
  lemma PackagedIsComposed(tree: Node, path: Path, q: Path)
    requires Proper(tree) && InPackage(tree, q) && path <= q && path != []
    ensures LooksThere(tree, path)
  {
    hide Proper, TaskDirs, NodeAt, Classify, IsTaskDir, DirectoryDropped;
    var starts := TaskDirs(tree) + ROOT_DIRS;
    if k :| 0 <= k < |starts| && Reported(tree, starts[k], Kept(), Found(q, IsFile)) {
      var start := starts[k];
      assert start <= q && path[0] == q[0];
      if start in TaskDirs(tree) {
        TaskDirsExact(tree, start);
        TaskBelowTasks(tree, start);
        assert start[0] == q[0];
        if |path| <= |start| { assert path <= start; } else { assert path[..|start|] == start; }
        assert OfATask(tree, path);
      } else {
        assert start == ["images"] && q[0] == "images";
      }
    } else {
      assert path == q;
    }
  }

  lemma TaskBelowTasks(tree: Node, dir: Path)
    requires IsTaskDir(tree, dir)
    ensures |dir| == 3 && dir[0] == "Tasks"
  {
  }

  /** The fault of a path of content or of an icon: the first of five conditions it fails. */
  lemma PathFaultIsExact(tree: Node, beyond: Beyond, v: Value)
    requires Proper(tree)
    ensures var fault := PathFault(tree, beyond, TaskDirs(tree), v);
      if !(v.isText && v.isTruthy) then fault == Some(NoPath)
      else if v.place.Outside? then fault == Some(LeavesRoot)
      else
        var path := v.place.path;
        var kind := KindAt(tree, beyond, path);
        && (fault == Some(NotThere) <==> kind.None?)
        && (fault == Some(NotComposed) <==> kind.Some? && !LooksThere(tree, path))
        && (fault == Some(NotShipped) <==> kind.Some? && LooksThere(tree, path) && path != [] && IsRegular(kind.value) && Classify(path) != Ship)
        && (fault.None? <==> kind.Some? && LooksThere(tree, path) && (path != [] && IsRegular(kind.value) ==> Classify(path) == Ship))
  {
    hide Proper, TaskDirs, KindAt, Classify, IsComposed, LooksThere;
    if v.place.Within? { ComposedIsExact(tree, v.place.path); }
  }

  /** The fault of an entry of files; one below Tasks/ must hold a task directory. */
  lemma FileFaultIsExact(tree: Node, beyond: Beyond, v: Value)
    requires Proper(tree)
    ensures var fault := FileFault(tree, beyond, TaskDirs(tree), v);
      if !(v.isText && v.isTruthy) then fault == Some(NoPath)
      else if v.place.Outside? then fault == Some(NotComposed)
      else
        var path := v.place.path;
        var kind, holds := KindAt(tree, beyond, path), exists d :: IsTaskDir(tree, d) && path <= d;
        && (fault == Some(NotThere) <==> kind.None?)
        && (fault == Some(NotComposed) <==> kind.Some? && !LooksThere(tree, path))
        && (fault == Some(EmptyShipment) <==> kind.Some? && LooksThere(tree, path) && ["Tasks"] <= path && !holds)
        && (fault.None? <==> kind.Some? && LooksThere(tree, path) && (["Tasks"] <= path ==> holds))
  {
    hide Proper, TaskDirs, KindAt, IsComposed, LooksThere, IsTaskDir;
    if v.place.Within? {
      ComposedIsExact(tree, v.place.path);
      CoversIsExact(tree, v.place.path);
    }
  }

  lemma CoversIsExact(tree: Node, path: Path)
    requires Proper(tree)
    ensures Covers(path, TaskDirs(tree)) <==> exists d :: IsTaskDir(tree, d) && path <= d
  {
    hide Proper, TaskDirs, IsTaskDir;
    var dirs := TaskDirs(tree);
    forall d ensures d in dirs <==> IsTaskDir(tree, d) { TaskDirsExact(tree, d); }
    if d :| IsTaskDir(tree, d) && path <= d {
      var k :| 0 <= k < |dirs| && dirs[k] == d;
      assert path <= dirs[k];
    }
    if k :| 0 <= k < |dirs| && path <= dirs[k] { assert IsTaskDir(tree, dirs[k]); }
  }

  // ── The lists ────────────────────────────────────────────────────────────────

  /** Some contribution of a task names the directory. */
  predicate ContributedBy(cs: seq<Contribution>, dir: Path) { exists k :: 0 <= k < |cs| && cs[k].isTask && Names(cs[k].name, dir) }

  /** Some entry of files names the path, or a directory above it. */
  predicate FiledBy(files: seq<Value>, path: Path) {
    exists k :: 0 <= k < |files| && files[k].place.Within? && Names(files[k], files[k].place.path) && files[k].place.path <= path
  }

  /** Content, an icon or an entry of files names exactly this. */
  predicate NamedBy(m: Manifest, path: Path) {
    || (exists k :: 0 <= k < |Items(m.files)| && Names(Items(m.files)[k], path))
    || (m.details.isText && m.details.place == Within(path)) || (m.license.isText && m.license.place == Within(path))
    || exists k :: 0 <= k < |m.icons| && m.icons[k].value.isText && m.icons[k].value.place == Within(path)
  }

  lemma ContributionFaultIsExact(tree: Node, c: Contribution)
    requires Proper(tree)
    ensures var fault := ContributionFault(TaskDirs(tree), c);
      && (fault == Some(NoPath) <==> c.isTask && !(c.name.isText && c.name.isTruthy))
      && (fault == Some(NoSuchTask) <==> c.isTask && c.name.isText && c.name.isTruthy && !(c.name.place.Within? && IsTaskDir(tree, c.name.place.path)))
      && (fault.None? <==> !c.isTask || exists d :: IsTaskDir(tree, d) && Names(c.name, d))
  {
    hide Proper, TaskDirs, IsTaskDir;
    if c.name.place.Within? { TaskDirsExact(tree, c.name.place.path); }
  }

  lemma ContributedIsExact(tree: Node, cs: seq<Contribution>, dir: Path)
    requires Proper(tree) && IsTaskDir(tree, dir)
    ensures dir in Contributed(TaskDirs(tree), cs) <==> ContributedBy(cs, dir)
  {
    hide Proper, TaskDirs, IsTaskDir;
    TaskDirsExact(tree, dir);
  }

  lemma CoveredIsExact(files: seq<Value>, path: Path)
    ensures IsCovered(path, PathsOf(files)) <==> FiledBy(files, path)
  {
    if p :| p in PathsOf(files) && p <= path {
      var k :| 0 <= k < |files| && files[k].isText && files[k].isTruthy && files[k].place.Within? && files[k].place.path == p;
      assert Names(files[k], files[k].place.path);
    }
    if k :| 0 <= k < |files| && files[k].place.Within? && Names(files[k], files[k].place.path) && files[k].place.path <= path {
      assert files[k].place.path in PathsOf(files);
    }
  }

  lemma NamedIsExact(m: Manifest, path: Path)
    ensures path in Named(m) <==> NamedBy(m, path)
  {
    var files := Items(m.files);
    assert path in PathsOf(files) <==> exists k :: 0 <= k < |files| && Names(files[k], path) by {
      if k :| 0 <= k < |files| && Names(files[k], path) { assert files[k].place.path == path; }
    }
    assert path in IconPaths(m.icons) <==> exists k :: 0 <= k < |m.icons| && m.icons[k].value.isText && m.icons[k].value.place == Within(path) by {
      if k :| 0 <= k < |m.icons| && m.icons[k].value.isText && m.icons[k].value.place == Within(path) { assert m.icons[k].value.place.path == path; }
    }
  }

  /**
   A manifest passes exactly when its paths and lists are accepted, every task directory of the tree is contributed and filed, the
   default icon is there, and every root asset that exists, but for the manifest itself, is named.
   */
  lemma ManifestPassesExactly(tree: Node, beyond: Beyond, m: Manifest)
    requires Proper(tree)
    ensures ManifestComplaints(tree, beyond, Read(m)) == [] <==>
      && PathFault(tree, beyond, TaskDirs(tree), m.details).None? && PathFault(tree, beyond, TaskDirs(tree), m.license).None?
      && (forall k :: 0 <= k < |m.icons| ==> PathFault(tree, beyond, TaskDirs(tree), m.icons[k].value).None?)
      && (exists k :: 0 <= k < |m.icons| && m.icons[k].key == "default" && m.icons[k].value.isTruthy)
      && m.files.Listed? && (forall k :: 0 <= k < |m.files.items| ==> FileFault(tree, beyond, TaskDirs(tree), m.files.items[k]).None?)
      && m.contributions.Listed? && (forall k :: 0 <= k < |m.contributions.items| ==> ContributionFault(TaskDirs(tree), m.contributions.items[k]).None?)
      && (forall d :: IsTaskDir(tree, d) ==> ContributedBy(m.contributions.items, d) && FiledBy(m.files.items, d))
      && (forall k :: 1 <= k < |ROOT_ASSETS| && KindAt(tree, beyond, [ROOT_ASSETS[k].name]).Some? ==> NamedBy(m, [ROOT_ASSETS[k].name]))
  {
    hide Proper, TaskDirs, PathFault, FileFault, ContributionFault, Contributed, PathsOf, Named, IsCovered, ManifestComplaints, IsTaskDir, ContributedBy, FiledBy,
         NamedBy, KindAt;
    PassesExactly(tree, beyond, m);
    var dirs := TaskDirs(tree);
    forall d ensures d in dirs <==> IsTaskDir(tree, d) { TaskDirsExact(tree, d); }
    forall d | IsTaskDir(tree, d)
      ensures (d in Contributed(dirs, Items(m.contributions)) <==> ContributedBy(Items(m.contributions), d))
      ensures (IsCovered(d, PathsOf(Items(m.files))) <==> FiledBy(Items(m.files), d))
    {
      ContributedIsExact(tree, Items(m.contributions), d);
      CoveredIsExact(Items(m.files), d);
    }
    AssetsNamedExactly(tree, beyond, m);
  }

  lemma AssetsNamedExactly(tree: Node, beyond: Beyond, m: Manifest)
    ensures (forall k :: 0 <= k < |ROOT_ASSETS| ==> AssetFault(tree, beyond, Named(m), ROOT_ASSETS[k]).None?) <==>
      forall k :: 1 <= k < |ROOT_ASSETS| && KindAt(tree, beyond, [ROOT_ASSETS[k].name]).Some? ==> NamedBy(m, [ROOT_ASSETS[k].name])
  {
    hide Named, NamedBy, KindAt;
    var assets := ROOT_ASSETS;
    assert assets[0].name[0] == 'a' && assets[1].name[0] == 'L' && assets[2].name[0] == 'o' && assets[3].name[0] == 'T';
    forall k | 0 <= k < |assets| ensures [assets[k].name] in Named(m) <==> NamedBy(m, [assets[k].name]) { NamedIsExact(m, [assets[k].name]); }
    forall k | 1 <= k < |assets| ensures [assets[k].name] != MANIFEST { assert [assets[k].name][0] != MANIFEST[0]; }
    assert [assets[0].name] == MANIFEST;
  }

  /** What a manifest promises: its content, its icons and its files, each where its text leads. */
  lemma PromisedIsExact(m: Manifest, place: Place)
    ensures place in Promised(m) <==>
      || (m.details.isTruthy && m.details.place == place) || (m.license.isTruthy && m.license.place == place)
      || (exists k :: 0 <= k < |m.icons| && m.icons[k].value.place == place)
      || (m.files.Listed? && exists k :: 0 <= k < |m.files.items| && m.files.items[k].isTruthy && m.files.items[k].place == place)
  {
    hide IconPlaces, FilePlaces;
    IconPlaced(m.icons, place);
    if m.files.Listed? { FilePlaced(m.files.items, place); }
  }

  // ── The second look ──────────────────────────────────────────────────────────

  /** What the packager finds wrong with a manifest it has packaged: no JSON, a promise out of the package, or one that nothing in ./build keeps. */
  predicate OutputBlamed(d: Document, build: set<Path>, path: Path, why: Why) {
    || (why == Unreadable && d.NotJson? && path == ["azure-devops-extension.json"])
    || (why == Escapes && d.Read? && Outside in Promised(d.manifest) && path == ["azure-devops-extension.json"])
    || (why == Dangling && d.Read? && Within(path) in Promised(d.manifest) && path != [] && forall q :: q in build ==> !(path <= q))
  }

  lemma {:induction false} InPromiseRefusals(places: seq<PackageManifest.Place>, build: set<Path>, path: Path, why: Why)
    ensures Refusal(path, why) in PromiseRefusals(places, build) <==> exists k :: 0 <= k < |places| && Refusal(path, why) in PromiseRefusal(places[k], build)
  {
    hide PromiseRefusal;
    if places != [] {
      InPromiseRefusals(places[1..], build, path, why);
      assert forall k :: 0 < k < |places| ==> places[k] == places[1..][k - 1];
      assert forall k :: 0 <= k < |places[1..]| ==> places[1..][k] == places[k + 1];
    }
  }

  lemma InPromiseRefusal(place: PackageManifest.Place, build: set<Path>, path: Path, why: Why)
    ensures Refusal(path, why) in PromiseRefusal(place, build) <==>
      || (why == Escapes && place == Outside && path == ["azure-devops-extension.json"])
      || (why == Dangling && place == Within(path) && path != [] && forall q :: q in build ==> !(path <= q))
  {
  }

  lemma OutputRefusesExactly(d: Document, build: set<Path>, path: Path, why: Why)
    ensures Refusal(path, why) in OutputRefusals(d, build) <==> OutputBlamed(d, build, path, why)
  {
    hide Promised, PromiseRefusal;
    if d.Read? {
      var places := Promised(d.manifest);
      InPromiseRefusals(places, build, path, why);
      forall k | 0 <= k < |places|
        ensures Refusal(path, why) in PromiseRefusal(places[k], build) <==>
          || (why == Escapes && places[k] == Outside && path == ["azure-devops-extension.json"])
          || (why == Dangling && places[k] == Within(path) && path != [] && forall q :: q in build ==> !(path <= q))
      {
        InPromiseRefusal(places[k], build, path, why);
      }
    }
  }

  /**
   How the whole packager ends: with an exception of the copy phase, or of a manifest that is null or whose files are no list once nothing
   else is refused; and otherwise with what the copy phase refuses or, when that is nothing, with what the second look does.
   */
  lemma ComposeIsExact(tree: Node, d: Document, path: Path, why: Why)
    requires Proper(tree)
    ensures ComposeThrows(tree, d) <==>
      PackagerThrows(tree) || (PackagerRefusals(tree) == [] && (d == Null || (d.Read? && d.manifest.files == NotAList)))
    ensures !ComposeThrows(tree, d) ==>
      (Refusal(path, why) in ComposeRefusals(tree, d) <==>
        Refusal(path, why) in PackagerRefusals(tree) || (PackagerRefusals(tree) == [] && OutputBlamed(d, PackagerCopies(tree), path, why)))
  {
    hide Proper, PackagerThrows, PackagerRefusals, PackagerCopies, OutputRefusals, OutputBlamed;
    OutputRefusesExactly(d, PackagerCopies(tree), path, why);
  }
}
