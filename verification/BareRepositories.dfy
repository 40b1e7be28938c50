/** Repositories that the gate passes and the packager does not compose. */
module BareRepositories {
  import opened JsText
  import opened PackageTree
  import opened PackageContents
  import opened PackageManifest
  import opened PackageComposition
  import opened CompositionGate
  import opened ManifestGate

  /** The required assets and a directory of images. */
  function BareTree(images: seq<Entry>): Node {
    Dir([Entry("images", Dir(images)), Entry("azure-devops-extension.json", File), Entry("LICENSE", File), Entry("overview.md", File)])
  }

  const BARE_TREE: Node := BareTree([])

  function Naming(name: string): Value { Value(true, true, Within([name])) }

  /** The default icon is said to be the directory. */
  const BARE_MANIFEST: Manifest :=
    Manifest(Naming("overview.md"), Naming("LICENSE"), [Icon("default", Naming("images"))], Listed([]), Listed([]))

  /**
   The gate looks for the path in the repository and finds the directory; nothing in it ships, so ./build has no
   such path and the packager refuses its own output.
   */
  lemma EmptyDirectoryDangles(beyond: Beyond)
    ensures Proper(BARE_TREE) && GatePasses(BARE_TREE) && ManifestComplaints(BARE_TREE, beyond, Read(BARE_MANIFEST)) == []
    ensures !ComposeThrows(BARE_TREE, Read(BARE_MANIFEST)) && ComposeRefusals(BARE_TREE, Read(BARE_MANIFEST)) != []
  {
    hide Proper, GatePasses, Composes, Accepted, PackagerRefusals, PackagerThrows, PackagerCopies, ManifestComplaints, Reaches;
    BareComposes();
    BareAccepted(beyond);
    PassesExactly(BARE_TREE, beyond, BARE_MANIFEST);
    PassedGateComposesExactly(BARE_TREE);
    PassedGateDeliversExactly(BARE_TREE, beyond, Read(BARE_MANIFEST));
    BareImagesReachNothing();
    assert IconPlaces(BARE_MANIFEST.icons) == [Within(["images"])];
    assert Within(["images"]) in Promised(BARE_MANIFEST);
    assert !KeepsPromises(BARE_TREE, BARE_MANIFEST);
    assert Composes(BARE_TREE) ==> !ComposeThrows(BARE_TREE, Read(BARE_MANIFEST)) by { ComposesIs(BARE_TREE); }
  }

  /** A manifest that is the JSON text `null` is no manifest to the gate, and ends the packager with an exception. */
  lemma NullManifestThrows(beyond: Beyond)
    ensures Proper(BARE_TREE) && GatePasses(BARE_TREE) && ManifestComplaints(BARE_TREE, beyond, Null) == []
    ensures ComposeThrows(BARE_TREE, Null)
  {
    hide Proper, GatePasses, PackagerRefusals, PackagerThrows;
    BareComposes();
    ComposesIs(BARE_TREE);
  }

  lemma ComposesIs(tree: Node)
    requires Proper(tree) && Composes(tree)
    ensures PackagerRefusals(tree) == [] && !PackagerThrows(tree)
  {
    hide PackagerRefusals, PackagerThrows;
  }

  lemma BareNodes(images: seq<Entry>)
    requires Proper(Dir(images))
    ensures NodeAt(BareTree(images), ["images"]) == Some(Dir(images)) && NodeAt(BareTree(images), TASKS).None?
    ensures forall k :: 0 <= k < 3 ==> NodeAt(BareTree(images), [ROOT_ASSETS[k].name]) == Some(File)
    ensures NodeAt(BareTree(images), [ROOT_ASSETS[3].name]).None?
    ensures Proper(BareTree(images))
  {
    var e := BareTree(images).entries;
    BareEntries(images);
    BareNames(images);
    BareIsProper(images);
    hide IsComponent, Proper, BareTree;
    ChildAt(e, 0);
    ChildAt(e, 1);
    ChildAt(e, 2);
    ChildAt(e, 3);
    ChildIsEntry(e, "Tasks");
    ChildIsEntry(e, "THIRD_PARTY_NOTICES.md");
    forall name: string ensures [name][1..] == [] {}
  }

  /** No two names begin with the same letter, and none with a T. */
  lemma BareNames(images: seq<Entry>)
    ensures var e := BareTree(images).entries;
      (forall i, j :: 0 <= i < j < |e| ==> e[i].name != e[j].name) && forall i :: 0 <= i < |e| ==> e[i].name[..1] != "T"
    ensures "Tasks"[..1] == "T" && "THIRD_PARTY_NOTICES.md"[..1] == "T"
  {
    BareEntries(images);
    hide IsComponent, BareTree;
    var e := BareTree(images).entries;
    assert e[0].name[0] == 'i' && e[1].name[0] == 'a' && e[2].name[0] == 'L' && e[3].name[0] == 'o';
  }

  lemma BareIsProper(images: seq<Entry>)
    requires Proper(Dir(images))
    ensures Proper(BareTree(images))
  {
    BareEntries(images);
    ImagesIsComponent();
    ShimNamesAreComponents();
    BareNames(images);
    assert Proper(File);
    hide IsComponent, Proper, BareTree;
    ProperByParts(BareTree(images).entries);
  }

  lemma ProperByParts(entries: seq<Entry>)
    requires forall i :: 0 <= i < |entries| ==> IsComponent(entries[i].name, '/') && Proper(entries[i].node)
    requires forall i, j :: 0 <= i < j < |entries| ==> entries[i].name != entries[j].name
    ensures Proper(Dir(entries))
  {
    hide IsComponent;
  }

  lemma BareEntries(images: seq<Entry>)
    ensures var tree := BareTree(images);
      && tree.Dir? && |tree.entries| == 4 && tree.entries[0] == Entry("images", Dir(images))
      && tree.entries[1] == Entry("azure-devops-extension.json", File)
      && tree.entries[2] == Entry("LICENSE", File) && tree.entries[3] == Entry("overview.md", File)
  {
  }

  lemma ImagesIsComponent()
    ensures IsComponent("images", '/')
  {
  }

  lemma BareComposes()
    ensures Proper(BARE_TREE) && GatePasses(BARE_TREE) && Composes(BARE_TREE) && TaskDirs(BARE_TREE) == []
  {
    BareNodes([]);
    BareTasks([]);
    BareImages();
    BareAssets([]);
    NoImages(BARE_TREE);
    assert ROOT_DIRS[1..] == [];
    hide *;
    TasklessGate(BareTree([]));
    TasklessPackager(BareTree([]));
  }

  /** A repository without tasks, as the gate sees it. */
  lemma TasklessGate(tree: Node)
    requires Proper(tree) && TaskDirs(tree) == [] && Report(tree, TASKS) == [] && TreesReadable(tree)
    requires ImageRefusals(Reports(tree, ROOT_DIRS)) == [] && GateAssetRefusals(tree, ROOT_ASSETS, false) == []
    ensures GatePasses(tree)
  {
    hide Proper, TaskDirs, Report, Reports, TreesReadable, ImageRefusals, GateAssetRefusals;
  }

  lemma TasklessPackager(tree: Node)
    requires Proper(tree) && TaskDirs(tree) == [] && Reports(tree, []) == [] && GatePasses(tree)
    requires AssetsAreFiles(tree) && AssetsAreHere(tree)
    ensures Reports(tree, ROOT_DIRS) == [] ==> Composes(tree)
    ensures TreesReadable(tree) && !PackagerThrows(tree)
    ensures (exists f :: f in Reports(tree, ROOT_DIRS) && f.path != [] && ShipsAway(f)) ==> PackagerRefusals(tree) != []
  {
    hide Proper, TaskDirs, Report, Reports, AssetsAreFiles, AssetsAreHere, TreesReadable, GateRefusals, PackagerRefusals, PackagerThrows, ShipsAway;
    PassedGateComposesExactly(tree);
    ThrowsExactly(tree);
    var report := Reports(tree, ROOT_DIRS);
    if f :| f in report && f.path != [] && ShipsAway(f) {
      var k :| 0 <= k < |report| && report[k] == f;
      assert !NoneAway(report);
    }
  }

  /** Without Tasks, there is no task directory and nothing to walk. */
  lemma BareTasks(images: seq<Entry>)
    requires Proper(Dir(images))
    ensures var tree := BareTree(images);
      Proper(tree) && TaskDirs(tree) == [] && Report(tree, TASKS) == [] && Reports(tree, []) == [] && TreesReadable(tree)
  {
    BareNodes(images);
    hide Proper, NodeAt, BareTree;
    EmptyReport(TASKS, Kept());
  }

  lemma BareImages()
    ensures Proper(BARE_TREE) && Reports(BARE_TREE, ROOT_DIRS) == []
  {
    BareNodes([]);
    hide Proper, NodeAt, BareTree;
    EmptyReport(["images"], Kept());
    assert Report(BARE_TREE, ROOT_DIRS[0]) == [];
    assert ROOT_DIRS[1..] == [] && Reports(BARE_TREE, ROOT_DIRS[1..]) == [];
  }

  lemma BareAssets(images: seq<Entry>)
    requires Proper(Dir(images))
    ensures var tree := BareTree(images);
      GateAssetRefusals(tree, ROOT_ASSETS, false) == [] && AssetsAreFiles(tree) && AssetsAreHere(tree)
  {
    BareNodes(images);
    hide Proper, NodeAt, BareTree, GateAssetRefusals, BareTree;
    NoGateAssetRefusals(BareTree(images), ROOT_ASSETS, false);
  }

  lemma BareImagesReachNothing()
    ensures Proper(BARE_TREE) && !Reaches(BARE_TREE, ["images"])
  {
    BareNodes([]);
    hide Proper, NodeAt, BareTree, Reaches;
    EmptyReachesNothing(BareTree([]), ["images"]);
  }

  lemma EmptyReachesNothing(tree: Node, dir: Path)
    requires Proper(tree) && NodeAt(tree, dir) == Some(Dir([]))
    ensures !Reaches(tree, dir)
  {
    hide NodeAt, Proper, InPackage;
    forall q | dir <= q ensures NodeAt(tree, q) != Some(File) {
      assert q == dir + q[|dir|..];
      NodeAtAppend(tree, dir, q[|dir|..]);
      NothingInEmpty(q[|dir|..]);
    }
    forall q | InPackage(tree, q) ensures NodeAt(tree, q) == Some(File) { PackagedIsFile(tree, q); }
  }

  lemma PackagedIsFile(tree: Node, path: Path)
    requires Proper(tree) && InPackage(tree, path)
    ensures NodeAt(tree, path) == Some(File)
  {
    hide NodeAt, Proper, TaskDirs, Classify;
  }

  lemma NothingInEmpty(path: Path)
    ensures NodeAt(Dir([]), path) != Some(File)
  {
  }

  lemma BareAccepted(beyond: Beyond)
    ensures Accepted(BARE_TREE, beyond, BARE_MANIFEST)
  {
    BareComposes();
    BareContent(beyond);
    hide TaskDirs, Proper, PathFault, Composes, GatePasses, AssetFault, Contributed, PathsOf;
    assert HasDefaultIcon(BARE_MANIFEST.icons) by { assert BARE_MANIFEST.icons[0].key == "default"; }
    BareNamed(beyond);
  }

  lemma BareContent(beyond: Beyond)
    ensures PathFault(BARE_TREE, beyond, [], Naming("overview.md")).None? && PathFault(BARE_TREE, beyond, [], Naming("LICENSE")).None?
    ensures PathFault(BARE_TREE, beyond, [], Naming("images")).None?
  {
    BareNodes([]);
    ContentIsComposed();
    hide *;
    ContentIsAccepted(BareTree([]), beyond);
  }

  lemma ContentIsAccepted(tree: Node, beyond: Beyond)
    requires NodeAt(tree, ["overview.md"]) == Some(File) && NodeAt(tree, ["LICENSE"]) == Some(File) && NodeAt(tree, ["images"]) == Some(Dir([]))
    ensures PathFault(tree, beyond, [], Naming("overview.md")).None? && PathFault(tree, beyond, [], Naming("LICENSE")).None?
    ensures PathFault(tree, beyond, [], Naming("images")).None?
  {
    PlainNamesShip();
    ContentIsComposed();
    hide NodeAt, Classify, KindAt, PathFault, IsComposed, Naming;
    FileIsThere(tree, beyond, ["overview.md"]);
    FileIsThere(tree, beyond, ["LICENSE"]);
    DirIsThere(tree, beyond, ["images"]);
    NamingIsAccepted(tree, beyond, "overview.md");
    NamingIsAccepted(tree, beyond, "LICENSE");
    NamingIsAccepted(tree, beyond, "images");
  }

  lemma ContentIsComposed()
    ensures IsComposed(["overview.md"], []) && IsComposed(["LICENSE"], []) && IsComposed(["images"], [])
    ensures ["overview.md"] == [ROOT_ASSETS[2].name] && ["LICENSE"] == [ROOT_ASSETS[1].name]
  {
    assert ["overview.md"] == [ROOT_ASSETS[2].name] && ["LICENSE"] == [ROOT_ASSETS[1].name];
    assert ROOT_DIRS[0] <= ["images"];
  }

  lemma NamingIsAccepted(tree: Node, beyond: Beyond, name: string)
    requires KindAt(tree, beyond, [name]).Some? && IsComposed([name], [])
    requires IsRegular(KindAt(tree, beyond, [name]).value) ==> Classify([name]) == Ship
    ensures PathFault(tree, beyond, [], Naming(name)).None?
  {
    hide KindAt, Classify, IsComposed;
  }

  lemma DirIsThere(tree: Node, beyond: Beyond, path: Path)
    requires NodeAt(tree, path).Some? && NodeAt(tree, path).value.Dir?
    ensures KindAt(tree, beyond, path) == Some(IsDir)
  {
    NoLinkPassed(tree, path);
  }

  lemma BareNamed(beyond: Beyond)
    ensures forall k :: 0 <= k < |ROOT_ASSETS| ==> AssetFault(BARE_TREE, beyond, Named(BARE_MANIFEST), ROOT_ASSETS[k]).None?
  {
    BareNodes([]);
    hide Proper, NodeAt, BareTree, Named;
    OneStepPassesNoLink(BARE_TREE, ROOT_ASSETS[3].name);
    DocumentsAreNamed();
  }

  lemma DocumentsAreNamed()
    ensures ["LICENSE"] in Named(BARE_MANIFEST) && ["overview.md"] in Named(BARE_MANIFEST)
  {
  }

  lemma OneStepPassesNoLink(tree: Node, name: string)
    requires tree.Dir?
    ensures !PassesLink(tree, [name])
  {
    assert [name][1..] == [];
  }

  /** A file of the images directory that is really elsewhere: the gate sees a regular file, the packager refuses it. */
  lemma AwayFileIsRefused()
    ensures var tree := BareTree([Entry("LICENSE", Away)]);
      && Proper(tree) && GatePasses(tree) && !PackagerThrows(tree) && PackagerRefusals(tree) != []
  {
    var images := [Entry("LICENSE", Away)];
    var tree := BareTree(images);
    LicenseIsAway(images);
    BareTasks(images);
    BareAssets(images);
    TheAwayFile(images);
    AwayFilePasses(images);
    AwayFileShips();
    hide *;
    TasklessGate(tree);
    TasklessPackager(tree);
  }

  lemma AwayFileShips()
    ensures ShipsAway(Found(["images", "LICENSE"], IsAway)) && ImageRefusal(Found(["images", "LICENSE"], IsAway)).None?
  {
    PlainNamesShip();
    hide Classify;
  }

  lemma AwayFilePasses(images: seq<Entry>)
    requires images == [Entry("LICENSE", Away)] && Proper(Dir(images))
    ensures Proper(BareTree(images)) && ImageRefusals(Reports(BareTree(images), ROOT_DIRS)) == []
  {
    BareNodes(images);
    AwayFileShips();
    hide NodeAt, Proper, BareTree, Reports, ImageRefusal, ImageRefusals;
    var report := Reports(BareTree(images), ROOT_DIRS);
    forall k | 0 <= k < |report| ensures ImageRefusal(report[k]).None? { OnlyTheAwayFile(images, report[k]); }
    NoImageRefusals(report);
  }

  lemma LicenseIsAway(images: seq<Entry>)
    requires images == [Entry("LICENSE", Away)]
    ensures Proper(Dir(images))
  {
    ShimNamesAreComponents();
    hide IsComponent;
    assert Proper(Away);
  }

  lemma TheAwayFile(images: seq<Entry>)
    requires images == [Entry("LICENSE", Away)] && Proper(Dir(images))
    ensures Proper(BareTree(images)) && Found(["images", "LICENSE"], IsAway) in Reports(BareTree(images), ROOT_DIRS)
  {
    var tree, f := BareTree(images), Found(["images", "LICENSE"], IsAway);
    BareNodes(images);
    assert ["images", "LICENSE"] == ["images"] + ["LICENSE"] && ["LICENSE"][1..] == [];
    assert NodeAt(Dir(images), ["LICENSE"]) == Some(Away);
    NodeAtAppend(tree, ["images"], ["LICENSE"]);
    hide NodeAt, Proper, BareTree, Reports;
    assert Reported(tree, ROOT_DIRS[0], Kept(), f);
    ReportsMembers(tree, ROOT_DIRS, f);
  }

  lemma OnlyTheAwayFile(images: seq<Entry>, f: Found)
    requires images == [Entry("LICENSE", Away)] && Proper(Dir(images)) && Proper(BareTree(images))
    requires f in Reports(BareTree(images), ROOT_DIRS)
    ensures f == Found(["images", "LICENSE"], IsAway)
  {
    var tree := BareTree(images);
    BareNodes(images);
    hide Proper, BareTree, Reports;
    ReportsMembers(tree, ROOT_DIRS, f);
    assert Reported(tree, ["images"], Kept(), f);
    assert f.path == ["images"] + f.path[1..];
    NodeAtAppend(tree, ["images"], f.path[1..]);
    BelowImages(images, f.path[1..]);
  }

  lemma BelowImages(images: seq<Entry>, rest: Path)
    requires images == [Entry("LICENSE", Away)] && rest != [] && NodeAt(Dir(images), rest).Some?
    ensures rest == ["LICENSE"] && NodeAt(Dir(images), rest) == Some(Away)
  {
    assert images[1..] == [] && Child(images[1..], rest[0]).None?;
    assert rest[0] == images[0].name && Child(images, rest[0]) == Some(Away);
    if rest[1..] != [] {
      assert NodeAt(Away, rest[1..]).None?;
    } else {
      assert rest == [rest[0]] + rest[1..];
    }
  }

  // ── Plain names ──────────────────────────────────────────────────────────────

  lemma PlainNamesShip()
    ensures Classify(["overview.md"]) == Ship && Classify(["LICENSE"]) == Ship && Classify(["images", "LICENSE"]) == Ship
  {
    assert "overview.md"[|"overview.md"| - 3..] == ".md";
    assert EndsWith("overview.md", SHIPPED_SUFFIXES[7]);
    assert "LICENSE" == SHIPPED_FILES[2];
    hide Classify, Allowed;
    PlainPathShips(["overview.md"]);
    PlainPathShips(["LICENSE"]);
    PlainPathShips(["images", "LICENSE"]);
  }

  /** A name that begins unlike the names of the tables. */
  predicate IsPlain(name: string) { |name| >= 2 && name[0] in "oLi" && name[1] in "vIm" }

  lemma PlainPathShips(path: Path)
    requires path != [] && (forall i :: 0 <= i < |path| ==> IsPlain(path[i]))
    requires var name := Last(path); IsPlain(name) && name[0] in "oL" && name[|name| - 1] in "dE" && Allowed(name)
    ensures Classify(path) == Ship
  {
    hide Allowed, DropsTree, DropsName, SecretShaped;
    PlainPathIsNotDropped(path);
    PlainPathIsNoSecret(path);
  }

  lemma PlainPathIsNotDropped(path: Path)
    requires path != [] && (forall i :: 0 <= i < |path| ==> IsPlain(path[i]))
    requires var name := Last(path); IsPlain(name) && name[0] in "oL" && name[|name| - 1] in "dE"
    ensures !DropsTree(path) && !DropsName(Last(path))
  {
    DroppedNames();
    DroppedFiles();
    assert "tsconfig"[0] == 't';
    forall i | 0 <= i < |path| ensures !DropsAt(path, i) { assert IsPlain(path[i]); }
  }

  lemma DroppedNames()
    ensures forall k :: 0 <= k < |DROPPED_NAMES| ==> DROPPED_NAMES[k] != "" && DROPPED_NAMES[k][0] in "Tc."
    ensures "node_modules"[0] == 'n'
    ensures forall k :: 0 <= k < |DROPPED_SUFFIXES| ==> DROPPED_SUFFIXES[k] != "" && DROPPED_SUFFIXES[k][|DROPPED_SUFFIXES[k]| - 1] in "spo"
  {
  }

  lemma DroppedFiles()
    ensures forall k :: 0 <= k < |DROPPED_FILES| ==> |DROPPED_FILES[k]| >= 2 && (DROPPED_FILES[k][0] in "e." || DROPPED_FILES[k][1] == 's')
    ensures forall k :: 0 <= k < |DROPPED_PREFIXES| ==> DROPPED_PREFIXES[k] != "" && DROPPED_PREFIXES[k][0] == '.'
  {
  }

  lemma PlainPathIsNoSecret(path: Path)
    requires path != [] && (forall i :: 0 <= i < |path| ==> IsPlain(path[i]))
    requires var name := Last(path); IsPlain(name) && name[0] in "oL" && name[|name| - 1] in "dE"
    ensures !SecretShaped(path)
  {
    SecretNames();
    forall i, j | 0 <= i < |path| && 0 <= j < |SECRET_STEMS| ensures !(SECRET_STEMS[j] + "." <= path[i]) {
      assert IsPlain(path[i]);
      assert (SECRET_STEMS[j] + ".")[0] == SECRET_STEMS[j][0] && (SECRET_STEMS[j] + ".")[1] == SECRET_STEMS[j][1];
    }
  }

  lemma SecretNames()
    ensures forall j :: 0 <= j < |SECRET_STEMS| ==> |SECRET_STEMS[j]| >= 2 && SECRET_STEMS[j][0] in ".i" && SECRET_STEMS[j][1] in "ed"
    ensures forall j :: 0 <= j < |SECRET_SUFFIXES| ==> SECRET_SUFFIXES[j] != "" && SECRET_SUFFIXES[j][|SECRET_SUFFIXES[j]| - 1] in "my2xse"
    ensures forall k :: 0 <= k < |SECRET_FILES| ==> SECRET_FILES[k] != "" && SECRET_FILES[k][0] == '.'
  {
  }
}
