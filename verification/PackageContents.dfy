/**
 What may be in the shipped package (`scripts/lib/package-contents.js`): the one rule set that the
 composition gate and the packager share, over path components, and what pruning by it may lose.
 */
module PackageContents {
  import opened JsText
  import opened PackageTree

  datatype Verdict = Ship | Drop | NeverShip | Unknown

  datatype Asset = Asset(name: string, required: bool, requiredWhenBundling: bool)

  const ROOT_ASSETS := [
    Asset("azure-devops-extension.json", true, false),
    Asset("LICENSE", true, false),
    Asset("overview.md", true, false),
    Asset("THIRD_PARTY_NOTICES.md", false, true)]

  const ROOT_DIRS: seq<Path> := [["images"]]

  // ── The pattern tables ───────────────────────────────────────────────────────

  /** The patterns of the form `(^|\/)name(\/|$)`. */
  const DROPPED_NAMES := ["Tests", "coverage", ".nyc_output", ".git"]

  /** The patterns of the form `(^|\/)node_modules\/name(\/|$)`. */
  const DROPPED_IN_MODULES := [".cache", ".bin"]

  const DROPPED_SUFFIXES := [".ts", ".map", ".tsbuildinfo"]

  const DROPPED_FILES := ["eslint.config.mjs", "eslint.base.mjs", ".gitignore", ".gitattributes", "osv-scanner.toml"]

  const DROPPED_PREFIXES := [".eslintrc", ".nycrc"]

  const SECRET_SUFFIXES := [".pem", ".key", ".p12", ".pfx", ".jks", ".keystore"]

  const SECRET_FILES := [".npmrc", ".netrc"]

  /** The patterns of the form `(^|\/)name($|\.)`. */
  const SECRET_STEMS := [".env", "id_rsa", "id_dsa", "id_ecdsa", "id_ed25519"]

  const SHIPPED_SUFFIXES := [".js", ".cjs", ".mjs", ".json", ".resjson", ".png", ".svg", ".md"]

  const SHIPPED_FILES := ["task.json", "task.loc.json", "LICENSE"]

  predicate HasSuffix(name: string, suffixes: seq<string>) { exists i :: 0 <= i < |suffixes| && EndsWith(name, suffixes[i]) }

  predicate HasPrefix(name: string, prefixes: seq<string>) { exists i :: 0 <= i < |prefixes| && prefixes[i] <= name }

  function Last(path: Path): string
    requires path != []
  {
    path[|path| - 1]
  }

  /** The DROP patterns that may match anywhere in the path, and so hold of everything below. */
  predicate DropsTree(path: Path) {
    exists i :: 0 <= i < |path| && DropsAt(path, i)
  }

  predicate DropsAt(path: Path, i: nat)
    requires i < |path|
  {
    path[i] in DROPPED_NAMES || (path[i] == "node_modules" && i + 1 < |path| && path[i + 1] in DROPPED_IN_MODULES)
  }

  /** The DROP patterns anchored at the end of the path. */
  predicate DropsName(name: string) {
    || HasSuffix(name, DROPPED_SUFFIXES)
    || (StartsWith(name, "tsconfig") && EndsWith(name, ".json") && |name| >= |"tsconfig"| + |".json"|)
    || name in DROPPED_FILES
    || HasPrefix(name, DROPPED_PREFIXES)
  }

  predicate SecretShaped(path: Path)
    requires path != []
  {
    || (exists i :: 0 <= i < |path| && exists j :: 0 <= j < |SECRET_STEMS| && SECRET_STEMS[j] + "." <= path[i])
    || Last(path) in SECRET_STEMS
    || HasSuffix(Last(path), SECRET_SUFFIXES)
    || Last(path) in SECRET_FILES
  }

  predicate InNodeModules(path: Path) { "node_modules" in path }

  predicate Allowed(name: string) { HasSuffix(name, SHIPPED_SUFFIXES) || name in SHIPPED_FILES }

  function Classify(path: Path): Verdict
    requires path != []
  {
    if DropsTree(path) || DropsName(Last(path)) then Drop
    else if SecretShaped(path) then NeverShip
    else if InNodeModules(path) then Ship
    else if Allowed(Last(path)) then Ship
    else Unknown
  }

  /** A directory whose path, or whose path with a trailing slash, matches a DROP pattern. */
  predicate DirectoryDropped(path: Path) {
    DropsTree(path) || (path != [] && Classify(path) == Drop)
  }

  // ── What pruning loses ───────────────────────────────────────────────────────

  /** A pattern that matches anywhere keeps matching below. */
  lemma DropsTreeBelow(path: Path, below: Path)
    requires DropsTree(path)
    ensures DropsTree(path + below)
  {
    hide DropsAt;
    var i :| 0 <= i < |path| && DropsAt(path, i);
    DropsAtBelow(path, below, i);
  }

  lemma DropsAtBelow(path: Path, below: Path, i: nat)
    requires i < |path| && DropsAt(path, i)
    ensures DropsAt(path + below, i)
  {
  }

  lemma IndexIsKept(path: Path)
    requires !DropsTree(path)
    ensures Classify(path + ["index.js"]) != Drop
  {
    var p := path + ["index.js"];
    assert Last(p) == "index.js";
    IndexNames();
    forall i | 0 <= i < |p| ensures !DropsAt(p, i) {
      if i < |path| {
        assert !DropsAt(path, i);
        assert i + 1 < |path| || p[i + 1] == "index.js";
      } else {
        assert p[i] == "index.js";
      }
    }
  }

  lemma IndexNames()
    ensures "index.js" !in DROPPED_NAMES && "index.js" !in DROPPED_IN_MODULES && !DropsName("index.js")
  {
    var name := "index.js";
    assert name[0] == 'i';
    assert name[|name| - 3..] == ".js" && name[|name| - 4..] == "x.js";
    assert name[|name| - 5..] == "ex.js";
    assert forall k :: 0 <= k < |DROPPED_NAMES| ==> DROPPED_NAMES[k][0] != 'i';
    assert forall k :: 0 <= k < |DROPPED_IN_MODULES| ==> DROPPED_IN_MODULES[k][0] != 'i';
    assert forall k :: 0 <= k < |DROPPED_FILES| ==> DROPPED_FILES[k][0] != 'i';
    assert forall k :: 0 <= k < |DROPPED_PREFIXES| ==> DROPPED_PREFIXES[k][0] != 'i';
  }

  /**
   Pruning a dropped directory is harmless, in that everything below it is classified DROP, if and
   only if one of the patterns that match anywhere drops it. One dropped only by an end-anchored
   pattern, such as a directory named `shim.ts`, hides files that would be classified otherwise.
   */
  lemma PruningIsHarmlessIff(dir: Path)
    requires dir != [] && DirectoryDropped(dir)
    ensures (forall below: Path :: below != [] ==> Classify(dir + below) == Drop) <==> DropsTree(dir)
  {
    hide Classify, DropsTree, DirectoryDropped;
    if DropsTree(dir) {
      forall below: Path | below != [] ensures Classify(dir + below) == Drop {
        DropsTreeBelow(dir, below);
        DropsTreeIsDrop(dir + below);
      }
    } else {
      IndexIsKept(dir);
    }
  }

  lemma DropsTreeIsDrop(path: Path)
    requires path != [] && DropsTree(path)
    ensures Classify(path) == Drop
  {
  }

  /** Such a directory exists: it is pruned although a runtime file in it would ship. */
  lemma EndAnchoredPruningLoses()
    ensures DirectoryDropped(["shim.ts"]) && !DropsTree(["shim.ts"]) && Classify(["shim.ts", "index.js"]) == Ship
  {
    var dir := ["shim.ts"];
    assert "shim.ts"[|"shim.ts"| - 3..] == ".ts";
    assert EndsWith("shim.ts", DROPPED_SUFFIXES[0]);
    assert "shim.ts"[0] == 's';
    assert forall k :: 0 <= k < |DROPPED_NAMES| ==> DROPPED_NAMES[k][0] != 's';
    assert "node_modules"[0] == 'n';
    assert !DropsAt(dir, 0);
    IndexIsKept(dir);
    IndexShips();
    assert dir + ["index.js"] == ["shim.ts", "index.js"];
  }

  lemma IndexShips()
    ensures !SecretShaped(["shim.ts", "index.js"]) && Allowed("index.js")
  {
    var path := ["shim.ts", "index.js"];
    assert Last(path) == "index.js";
    assert "index.js"[1] == 'n' && "shim.ts"[0] == 's';
    assert forall j :: 0 <= j < |SECRET_STEMS| ==> SECRET_STEMS[j][0] in ['.', 'i'] && (SECRET_STEMS[j][0] == 'i' ==> SECRET_STEMS[j][1] == 'd');
    forall i, j | 0 <= i < |path| && 0 <= j < |SECRET_STEMS| ensures !(SECRET_STEMS[j] + "." <= path[i]) {
      assert (SECRET_STEMS[j] + ".")[0] == SECRET_STEMS[j][0];
      assert (SECRET_STEMS[j] + ".")[1] == SECRET_STEMS[j][1];
    }
    assert forall j :: 0 <= j < |SECRET_SUFFIXES| ==>
      SECRET_SUFFIXES[j] == ".jks" || SECRET_SUFFIXES[j][|SECRET_SUFFIXES[j]| - 1] != 's';
    assert "index.js"[4..] == "x.js" && "index.js"[5..] == ".js";
    assert EndsWith("index.js", SHIPPED_SUFFIXES[0]);
    assert forall k :: 0 <= k < |SECRET_FILES| ==> SECRET_FILES[k][0] == '.';
    assert "index.js" !in SECRET_STEMS;
  }

  // ── The verdicts, spelled out ────────────────────────────────────────────────

  predicate EndsLike(name: string, ends: seq<string>) { exists k :: 0 <= k < |ends| && EndsWith(name, ends[k]) }

  /** A name that is one of these, or one of these with a dot and more. */
  predicate IsStem(path: Path, k: nat, stems: seq<string>)
    requires k < |path|
  {
    exists j :: 0 <= j < |stems| && (stems[j] + "." <= path[k] || (k == |path| - 1 && path[k] == stems[j]))
  }

  /** What is left out, what is a secret, and what ships: the whole classifier, name by name. */
  lemma VerdictIsExact(path: Path)
    requires path != []
    ensures var name := path[|path| - 1];
      var drop :=
        || (exists k :: 0 <= k < |path| && path[k] in ["Tests", "coverage", ".nyc_output", ".git"])
        || (exists k :: 0 <= k < |path| - 1 && path[k] == "node_modules" && path[k + 1] in [".cache", ".bin"])
        || EndsLike(name, [".ts", ".map", ".tsbuildinfo"])
        || (EndsWith(name, ".json") && "tsconfig" <= name && |name| >= 13)
        || name in ["eslint.config.mjs", "eslint.base.mjs", ".gitignore", ".gitattributes", "osv-scanner.toml"]
        || ".eslintrc" <= name || ".nycrc" <= name;
      var secret :=
        || (exists k :: 0 <= k < |path| && IsStem(path, k, [".env", "id_rsa", "id_dsa", "id_ecdsa", "id_ed25519"]))
        || EndsLike(name, [".pem", ".key", ".p12", ".pfx", ".jks", ".keystore"]) || name in [".npmrc", ".netrc"];
      var listed :=
        || EndsLike(name, [".js", ".cjs", ".mjs", ".json", ".resjson", ".png", ".svg", ".md"])
        || name in ["task.json", "task.loc.json", "LICENSE"];
      && (Classify(path) == Drop <==> drop)
      && (Classify(path) == NeverShip <==> !drop && secret)
      && (Classify(path) == Ship <==> !drop && !secret && ("node_modules" in path || listed))
      && (Classify(path) == Unknown <==> !drop && !secret && "node_modules" !in path && !listed)
  {
    DropIsSpelledOut(path);
    SecretIsSpelledOut(path);
    AllowedIsSpelledOut(Last(path));
    hide DropsTree, DropsName, SecretShaped, Allowed, EndsLike, EndsWith, IsStem;
  }

  lemma DropIsSpelledOut(path: Path)
    requires path != []
    ensures DropsTree(path) <==>
      || (exists k :: 0 <= k < |path| && path[k] in ["Tests", "coverage", ".nyc_output", ".git"])
      || (exists k :: 0 <= k < |path| - 1 && path[k] == "node_modules" && path[k + 1] in [".cache", ".bin"])
    ensures var name := Last(path);
      DropsName(name) <==>
        || EndsLike(name, [".ts", ".map", ".tsbuildinfo"])
        || (EndsWith(name, ".json") && "tsconfig" <= name && |name| >= 13)
        || name in ["eslint.config.mjs", "eslint.base.mjs", ".gitignore", ".gitattributes", "osv-scanner.toml"]
        || ".eslintrc" <= name || ".nycrc" <= name
  {
    hide EndsWith;
    assert DROPPED_PREFIXES[0] == ".eslintrc" && DROPPED_PREFIXES[1] == ".nycrc";
    assert |"tsconfig"| + |".json"| == 13;
    if k :| 0 <= k < |path| && path[k] in DROPPED_NAMES { assert DropsAt(path, k); }
    if k :| 0 <= k < |path| - 1 && path[k] == "node_modules" && path[k + 1] in DROPPED_IN_MODULES { assert DropsAt(path, k); }
  }

  lemma SecretIsSpelledOut(path: Path)
    requires path != []
    ensures SecretShaped(path) <==>
      || (exists k :: 0 <= k < |path| && IsStem(path, k, [".env", "id_rsa", "id_dsa", "id_ecdsa", "id_ed25519"]))
      || EndsLike(Last(path), [".pem", ".key", ".p12", ".pfx", ".jks", ".keystore"]) || Last(path) in [".npmrc", ".netrc"]
  {
    hide EndsWith;
    var stems := SECRET_STEMS;
    if Last(path) in stems {
      var j :| 0 <= j < |stems| && stems[j] == Last(path);
      assert IsStem(path, |path| - 1, stems);
    }
    if k, j :| 0 <= k < |path| && 0 <= j < |stems| && stems[j] + "." <= path[k] { assert IsStem(path, k, stems); }
  }

  lemma AllowedIsSpelledOut(name: string)
    ensures Allowed(name) <==>
      EndsLike(name, [".js", ".cjs", ".mjs", ".json", ".resjson", ".png", ".svg", ".md"]) || name in ["task.json", "task.loc.json", "LICENSE"]
  {
    hide EndsWith;
  }
}
