/**
 Symlink-aware containment (`path-containment.ts`) over a file system of directories, files and
 symbolic links. Paths are lists of components below the root; `Render` gives the strings that the
 code compares.
 */
module PathContainment {
  import opened JsText

  type Path = seq<string>

  /** A link's target: its components, read from the root when absolute and from its directory when not. */
  datatype Node = File | Dir(entries: map<string, Node>) | Link(absolute: bool, target: Path)

  /** The root may be absent, as the root of an unmounted drive is. */
  datatype FileSystem = FileSystem(root: Option<Node>, linkLimit: nat)

  // ── What the operating system does with a path ───────────────────────────────

  /** The node at a physical path: no link is followed. */
  function NodeAt(node: Node, path: Path): Option<Node> {
    if path == [] then Some(node)
    else if node.Dir? && path[0] in node.entries then NodeAt(node.entries[path[0]], path[1..])
    else None
  }

  /**
   How a walk ends: at a physical path, in a directory that lacks the next component, below
   something that is not a directory, or after more links than the system follows.
   */
  datatype Walk =
    | Found(physical: Path, budget: nat)
    | Missing(dir: Path, rest: Path)
    | NotDirectory
    | TooManyLinks

  function Parent(path: Path): Path { if path == [] then [] else path[..|path| - 1] }

  /** Path resolution: `rest` remains to be resolved in the directory `cur`. */
  function Resolve(root: Node, cur: Path, rest: Path, budget: nat): Walk
    decreases budget, |rest|
  {
    if rest == [] then Found(cur, budget)
    else
      var here := NodeAt(root, cur);
      if here.None? || !here.value.Dir? then NotDirectory
      else
        var name := rest[0];
        if name == "." then Resolve(root, cur, rest[1..], budget)
        else if name == ".." then Resolve(root, Parent(cur), rest[1..], budget)
        else if name !in here.value.entries then Missing(cur, rest)
        else
          var next := here.value.entries[name];
          if !next.Link? then Resolve(root, cur + [name], rest[1..], budget)
          else if budget == 0 then TooManyLinks
          else Resolve(root, if next.absolute then [] else cur, next.target + rest[1..], budget - 1)
  }

  function Lookup(fs: FileSystem, path: Path): Walk {
    if fs.root.None? then NotDirectory else Resolve(fs.root.value, [], path, fs.linkLimit)
  }

  /** `fs.existsSync`: follows links, and is false for anything that cannot be resolved. */
  predicate Exists(fs: FileSystem, path: Path) { Lookup(fs, path).Found? }

  /** `fs.realpathSync` of an existing path. */
  function RealPath(fs: FileSystem, path: Path): Path
    requires Exists(fs, path)
  {
    Lookup(fs, path).physical
  }

  predicate Plain(path: Path) { "." !in path && ".." !in path }

  /**
   Where opening `path`, or creating it with the directories it lacks, physically lands; `None` when
   it cannot be created: below a file, through too many links, or through a `..` of a missing directory.
   */
  function Landing(fs: FileSystem, path: Path): Option<Path> {
    match Lookup(fs, path)
    case Found(physical, _) => Some(physical)
    case Missing(dir, rest) => if Plain(rest) then Some(dir + rest) else None
    case NotDirectory => None
    case TooManyLinks => None
  }

  // ── The code ─────────────────────────────────────────────────────────────────

  /** The length of the deepest existing prefix of `path`, searching from length `n` down. */
  function ExistingPrefix(fs: FileSystem, path: Path, n: nat): Option<nat>
    requires n <= |path|
  {
    if Exists(fs, path[..n]) then Some(n)
    else if n == 0 then None
    else ExistingPrefix(fs, path, n - 1)
  }

  function RealpathSpec(fs: FileSystem, p: Path): Path {
    match ExistingPrefix(fs, p, |p|)
    case Some(n) => ExistingPrefixExists(fs, p, |p|); RealPath(fs, p[..n]) + p[n..]
    case None => p
  }

  lemma {:induction false} ExistingPrefixExists(fs: FileSystem, path: Path, n: nat)
    requires n <= |path|
    ensures var r := ExistingPrefix(fs, path, n); r.Some? ==> r.value <= n && Exists(fs, path[..r.value])
  {
    hide Exists;
    if !Exists(fs, path[..n]) && n > 0 { ExistingPrefixExists(fs, path, n - 1); }
  }

  method RealpathOfExistingPrefix(fs: FileSystem, p: Path) returns (r: Path)
    ensures r == RealpathSpec(fs, p)
  {
    hide Lookup;
    var existing := p;
    var tail: Path := [];
    ExistingPrefixExists(fs, p, |p|);
    assert p[..|p|] == p;
    while !Exists(fs, existing)
      invariant existing + tail == p
      invariant ExistingPrefix(fs, p, |p|) == ExistingPrefix(fs, p, |existing|)
      invariant p[..|existing|] == existing
      decreases |existing|
    {
      if |existing| == 0 { return p; } // dirname of the root is the root
      var last := |existing| - 1;
      assert p[..last] == existing[..last];
      tail := [existing[last]] + tail;
      existing := existing[..last];
    }
    assert p[|existing|..] == tail;
    r := if |tail| > 0 then RealPath(fs, existing) + tail else RealPath(fs, existing);
  }

  /** The string of an absolute path below a root such as `/` or `C:\`, which ends with the separator. */
  function Render(root: string, path: Path, sep: char): string { root + Join(path, [sep]) }

  function PrefixTest(target: string, base: string, sep: char): bool {
    var prefix := if EndsWith(base, [sep]) then base else base + [sep];
    target == base || StartsWith(target, prefix)
  }

  /** `resolvedPath` and `workingDirectory` as `path.resolve` left them: no `.`, no `..`. */
  method IsWithinWorkingDirectory(fs: FileSystem, root: string, sep: char, resolvedPath: Path, workingDirectory: Path)
    returns (within: bool)
    ensures within == PrefixTest(Render(root, RealpathSpec(fs, resolvedPath), sep),
                                 Render(root, RealpathSpec(fs, workingDirectory), sep), sep)
  {
    var base := RealpathOfExistingPrefix(fs, workingDirectory);
    var target := RealpathOfExistingPrefix(fs, resolvedPath);
    var b, t := Render(root, base, sep), Render(root, target, sep);
    var prefix := if EndsWith(b, [sep]) then b else b + [sep];
    within := t == b || StartsWith(t, prefix);
  }

  // ── The string test is component-list prefix ─────────────────────────────────

  predicate IsRoot(root: string, sep: char) { EndsWith(root, [sep]) }

  /**
   For normalized paths below one root, the string test decides component-list prefix: a sibling
   sharing a name prefix fails it, and every descendant of a file-system root passes it.
   */
  lemma PrefixTestIsPathPrefix(root: string, target: Path, base: Path, sep: char)
    requires IsRoot(root, sep)
    requires forall k :: 0 <= k < |base| ==> IsComponent(base[k], sep)
    requires forall k :: 0 <= k < |target| ==> IsComponent(target[k], sep)
    ensures PrefixTest(Render(root, target, sep), Render(root, base, sep), sep) <==> base <= target
  {
    var t, b := Render(root, target, sep), Render(root, base, sep);
    if base == [] {
      assert b == root;
    } else {
      JoinEnd(base, sep);
      var j := Join(base, [sep]);
      assert b[|b| - 1] == j[|j| - 1];
      assert b[|b| - 1..] == [b[|b| - 1]];
      if base <= target { PrefixPasses(root, target, base, sep); }
      if PrefixTest(t, b, sep) { PassesOnlyPrefix(root, target, base, sep); }
    }
  }

  lemma PrefixPasses(root: string, target: Path, base: Path, sep: char)
    requires base != [] && base <= target
    ensures Render(root, target, sep) == Render(root, base, sep) ||
            Render(root, base, sep) + [sep] <= Render(root, target, sep)
  {
    if |base| == |target| {
      assert base == target;
    } else {
      assert target == base + target[|base|..];
      JoinAppend(base, target[|base|..], sep);
    }
  }

  lemma PassesOnlyPrefix(root: string, target: Path, base: Path, sep: char)
    requires base != []
    requires forall k :: 0 <= k < |base| ==> IsComponent(base[k], sep)
    requires forall k :: 0 <= k < |target| ==> IsComponent(target[k], sep)
    requires Render(root, target, sep) == Render(root, base, sep) ||
             Render(root, base, sep) + [sep] <= Render(root, target, sep)
    ensures base <= target
  {
    hide Join, IsComponent;
    var jt, jb := Join(target, [sep]), Join(base, [sep]);
    assert (root + jt)[|root|..] == jt && (root + jb)[|root|..] == jb;
    assert (root + jb + [sep])[|root|..] == jb + [sep];
    assert jt == jb || jb + [sep] <= jt;
    if target == [] {
      JoinEnd(base, sep);
      JoinEmpty(sep);
    } else {
      assert jb + [sep] <= jt + [sep];
      JoinPrefix(base, target, sep);
    }
  }

  lemma JoinEmpty(sep: char)
    ensures Join([], [sep]) == ""
  {
  }

  // ── What the loop's answer means ─────────────────────────────────────────────

  /** Resolution proceeds component by component: a prefix that resolves can be resolved first. */
  lemma {:induction false} ResolveAppend(root: Node, cur: Path, a: Path, b: Path, budget: nat)
    ensures var w := Resolve(root, cur, a, budget);
      && (w.Found? ==> Resolve(root, cur, a + b, budget) == Resolve(root, w.physical, b, w.budget))
      && (w.Missing? ==> Resolve(root, cur, a + b, budget) == Missing(w.dir, w.rest + b))
      && (w.NotDirectory? || w.TooManyLinks? ==> Resolve(root, cur, a + b, budget) == w)
    decreases budget, |a|
  {
    if a == [] {
      assert a + b == b;
    } else {
      var here := NodeAt(root, cur);
      assert (a + b)[1..] == a[1..] + b;
      if here.Some? && here.value.Dir? {
        var name := a[0];
        if name == "." {
          ResolveAppend(root, cur, a[1..], b, budget);
        } else if name == ".." {
          ResolveAppend(root, Parent(cur), a[1..], b, budget);
        } else if name in here.value.entries {
          var next := here.value.entries[name];
          if !next.Link? {
            ResolveAppend(root, cur + [name], a[1..], b, budget);
          } else if budget > 0 {
            assert next.target + (a[1..] + b) == next.target + a[1..] + b;
            ResolveAppend(root, if next.absolute then [] else cur, next.target + a[1..], b, budget - 1);
          }
        }
      }
    }
  }

  /**
   Where the deepest existing prefix stops: the component after it, in the directory that prefix
   resolves to. This is what `lstat` of the first component that does not exist would report.
   */
  predicate FirstMissingIsLink(fs: FileSystem, path: Path) {
    var n := ExistingPrefix(fs, path, |path|);
    && n.Some? && n.value < |path| && fs.root.Some?
    && (ExistingPrefixExists(fs, path, |path|);
        var dir := NodeAt(fs.root.value, RealPath(fs, path[..n.value]));
        dir.Some? && dir.value.Dir? && path[n.value] in dir.value.entries
        && dir.value.entries[path[n.value]].Link?)
  }

  /** The deepest existing prefix is maximal. */
  lemma {:induction false} ExistingPrefixMaximal(fs: FileSystem, path: Path, n: nat, k: nat)
    requires k <= n <= |path| && Exists(fs, path[..k])
    ensures ExistingPrefix(fs, path, n).Some? && ExistingPrefix(fs, path, n).value >= k
  {
    hide Exists;
    if !Exists(fs, path[..n]) {
      assert k < n;
      ExistingPrefixMaximal(fs, path, n - 1, k);
    }
  }

  /**
   When the path can be opened or created at all, and the first component that does not exist is not
   a (dangling or looping) link, the loop computes exactly where the path physically lands.
   */
  lemma RealpathIsLanding(fs: FileSystem, path: Path)
    requires Plain(path) && Landing(fs, path).Some? && !FirstMissingIsLink(fs, path)
    ensures RealpathSpec(fs, path) == Landing(fs, path).value
  {
    var root := fs.root.value;
    ExistingPrefixMaximal(fs, path, |path|, 0);
    ExistingPrefixExists(fs, path, |path|);
    var n := ExistingPrefix(fs, path, |path|).value;
    assert path == path[..n] + path[n..];
    var w := Lookup(fs, path[..n]);
    ResolveAppend(root, [], path[..n], path[n..], fs.linkLimit);
    assert Lookup(fs, path) == Resolve(root, w.physical, path[n..], w.budget);
    if n == |path| {
      assert path[n..] == [];
    } else {
      StopsAtMissing(fs, path, n);
    }
  }

  /** Just past the deepest existing prefix, a component that is no link is simply missing. */
  lemma StopsAtMissing(fs: FileSystem, path: Path, n: nat)
    requires Plain(path) && fs.root.Some? && n < |path|
    requires ExistingPrefix(fs, path, |path|) == Some(n) && Exists(fs, path[..n])
    requires !FirstMissingIsLink(fs, path)
    ensures var w := Lookup(fs, path[..n]);
      var rest := Resolve(fs.root.value, w.physical, path[n..], w.budget);
      rest == Missing(w.physical, path[n..]) || rest.NotDirectory?
  {
    var root := fs.root.value;
    var w := Lookup(fs, path[..n]);
    var dir := NodeAt(root, w.physical);
    if dir.Some? && dir.value.Dir? && path[n] in dir.value.entries {
      var one := [path[n]];
      assert path[..n + 1] == path[..n] + one;
      ResolveAppend(root, [], path[..n], one, fs.linkLimit);
      assert Resolve(root, w.physical, one, w.budget) == Resolve(root, w.physical + one, one[1..], w.budget);
      assert Exists(fs, path[..n + 1]);
      ExistingPrefixMaximal(fs, path, |path|, n + 1);
    }
  }

  /** Whether the code, given a rendered path, answers yes. */
  predicate Within(fs: FileSystem, root: string, sep: char, path: Path, work: Path) {
    PrefixTest(Render(root, RealpathSpec(fs, path), sep), Render(root, RealpathSpec(fs, work), sep), sep)
  }

  predicate ProperNames(fs: FileSystem, sep: char) {
    fs.root.Some? ==> ProperNode(fs.root.value, sep)
  }

  predicate ProperNode(node: Node, sep: char) {
    node.Dir? ==> forall name :: name in node.entries ==> IsComponent(name, sep) && ProperNode(node.entries[name], sep)
  }

  /**
   Where a link leads: to its target from the root when that is absolute, and else to its target from the directory that
   holds the link, whatever follows it; one more link has then been passed.
   */
  lemma LinkLeadsToItsTarget(root: Node, dir: Path, name: string, rest: Path, budget: nat)
    requires NodeAt(root, dir).Some? && NodeAt(root, dir).value.Dir? && name != "." && name != ".." && budget > 0
    requires name in NodeAt(root, dir).value.entries && NodeAt(root, dir).value.entries[name].Link?
    ensures var link := NodeAt(root, dir).value.entries[name];
      && (link.absolute ==> Resolve(root, dir, [name] + rest, budget) == Resolve(root, [], link.target + rest, budget - 1))
      && (!link.absolute ==> Resolve(root, dir, [name] + rest, budget) == Resolve(root, dir, link.target + rest, budget - 1))
  {
    assert ([name] + rest)[1..] == rest;
  }

  /** A sample of both: links to a sibling, to the root's file and through the parent, in a directory below the root. */
  const SAMPLE_DIR := Dir(map["file" := File, "near" := Link(false, ["file"]), "far" := Link(true, ["file"]), "up" := Link(false, ["..", "file"])])
  const SAMPLE := FileSystem(Some(Dir(map["dir" := SAMPLE_DIR, "file" := File])), 40)

  lemma LinksLead()
    ensures Lookup(SAMPLE, ["dir", "near"]) == Found(["dir", "file"], 39)
    ensures Lookup(SAMPLE, ["dir", "far"]) == Found(["file"], 39)
    ensures Lookup(SAMPLE, ["dir", "up"]) == Found(["file"], 39)
  {
    var root := SAMPLE.root.value;
    SampleLink("near");
    SampleLink("far");
    SampleLink("up");
    SampleFile();
    StepUp(root, ["dir"], ["file"], 39);
    assert ["..", "file"] == [".."] + ["file"] && Parent(["dir"]) == [];
    hide Resolve, NodeAt;
  }

  lemma SampleLink(name: string)
    requires name == "near" || name == "far" || name == "up"
    ensures var link := SAMPLE_DIR.entries[name];
      Lookup(SAMPLE, ["dir", name]) == Resolve(SAMPLE.root.value, if link.absolute then [] else ["dir"], link.target, 39)
  {
    var root := SAMPLE.root.value;
    assert NodeAt(root, ["dir"]) == Some(SAMPLE_DIR) by { assert ["dir"][1..] == []; }
    assert [] + ["dir"] == ["dir"] && ["dir"] + [name] == ["dir", name];
    StepDown(root, [], "dir", [name], 40);
    LinkLeadsToItsTarget(root, ["dir"], name, [], 40);
    var target := SAMPLE_DIR.entries[name].target;
    assert [name] + [] == [name] && target + [] == target;
    hide Resolve, NodeAt;
  }

  lemma SampleFile()
    ensures Resolve(SAMPLE.root.value, ["dir"], ["file"], 39) == Found(["dir", "file"], 39)
    ensures Resolve(SAMPLE.root.value, [], ["file"], 39) == Found(["file"], 39)
  {
    var root := SAMPLE.root.value;
    assert NodeAt(root, ["dir"]) == Some(SAMPLE_DIR) by { assert ["dir"][1..] == []; }
    StepDown(root, ["dir"], "file", [], 39);
    StepDown(root, [], "file", [], 39);
    assert ["file"] + [] == ["file"] && [] + ["file"] == ["file"] && ["dir"] + ["file"] == ["dir", "file"];
    hide Resolve, NodeAt;
  }

  /** Two dots go to the directory above, the root's being the root. */
  lemma StepUp(root: Node, dir: Path, rest: Path, budget: nat)
    requires NodeAt(root, dir).Some? && NodeAt(root, dir).value.Dir?
    ensures Resolve(root, dir, [".."] + rest, budget) == Resolve(root, Parent(dir), rest, budget)
  {
    assert ([".."] + rest)[1..] == rest;
  }

  /** A name that is no link is stepped into. */
  lemma StepDown(root: Node, dir: Path, name: string, rest: Path, budget: nat)
    requires NodeAt(root, dir).Some? && NodeAt(root, dir).value.Dir? && name != "." && name != ".."
    requires name in NodeAt(root, dir).value.entries && !NodeAt(root, dir).value.entries[name].Link?
    ensures Resolve(root, dir, [name] + rest, budget) == Resolve(root, dir + [name], rest, budget)
    ensures Resolve(root, dir + [name], [], budget) == Found(dir + [name], budget)
  {
    assert ([name] + rest)[1..] == rest;
  }

  /** Resolution stays on physical paths: what it returns is in the tree, with no link on the way. */
  lemma {:induction false} ResolveIsPhysical(root: Node, cur: Path, rest: Path, budget: nat)
    requires NodeAt(root, cur).Some?
    ensures var w := Resolve(root, cur, rest, budget);
      && (w.Found? ==> NodeAt(root, w.physical).Some?)
      && (w.Missing? ==> NodeAt(root, w.dir).Some?)
    decreases budget, |rest|
  {
    if rest != [] && NodeAt(root, cur).value.Dir? {
      var entries := NodeAt(root, cur).value.entries;
      var name := rest[0];
      if name == "." {
        ResolveIsPhysical(root, cur, rest[1..], budget);
      } else if name == ".." {
        if cur != [] {
          assert cur == Parent(cur) + [cur[|cur| - 1]];
          NodeAtExtend(root, Parent(cur), cur[|cur| - 1]);
        }
        ResolveIsPhysical(root, Parent(cur), rest[1..], budget);
      } else if name in entries {
        if !entries[name].Link? {
          NodeAtExtend(root, cur, name);
          ResolveIsPhysical(root, cur + [name], rest[1..], budget);
        } else if budget > 0 {
          ResolveIsPhysical(root, if entries[name].absolute then [] else cur, entries[name].target + rest[1..], budget - 1);
        }
      }
    }
  }

  lemma {:induction false} NodeAtExtend(node: Node, path: Path, name: string)
    ensures NodeAt(node, path + [name]) ==
            var here := NodeAt(node, path);
            if here.Some? && here.value.Dir? && name in here.value.entries then Some(here.value.entries[name]) else None
    decreases |path|
  {
    if path == [] {
      assert path + [name] == [name];
      if node.Dir? && name in node.entries { assert NodeAt(node.entries[name], [name][1..]) == Some(node.entries[name]); }
    } else {
      assert (path + [name])[1..] == path[1..] + [name];
      if node.Dir? && path[0] in node.entries { NodeAtExtend(node.entries[path[0]], path[1..], name); }
    }
  }

  lemma {:induction false} NodeAtProper(node: Node, path: Path, sep: char)
    requires ProperNode(node, sep) && NodeAt(node, path).Some?
    ensures forall k :: 0 <= k < |path| ==> IsComponent(path[k], sep)
    decreases |path|
  {
    hide IsComponent;
    if path != [] {
      NodeAtProper(node.entries[path[0]], path[1..], sep);
      assert path == [path[0]] + path[1..];
    }
  }

  /** An existing path has existing prefixes, so the search upwards finds the deepest one. */
  lemma ExistsIsPrefixClosed(fs: FileSystem, path: Path, n: nat)
    requires n <= |path| && Exists(fs, path)
    ensures Exists(fs, path[..n])
  {
    assert path == path[..n] + path[n..];
    ResolveAppend(fs.root.value, [], path[..n], path[n..], fs.linkLimit);
  }

  lemma RealpathIsProper(fs: FileSystem, path: Path, sep: char)
    requires ProperNames(fs, sep)
    requires forall k :: 0 <= k < |path| ==> IsComponent(path[k], sep)
    ensures forall k :: 0 <= k < |RealpathSpec(fs, path)| ==> IsComponent(RealpathSpec(fs, path)[k], sep)
  {
    hide IsComponent, Resolve;
    ExistingPrefixExists(fs, path, |path|);
    var r := ExistingPrefix(fs, path, |path|);
    if r.Some? {
      ResolveIsPhysical(fs.root.value, [], path[..r.value], fs.linkLimit);
      NodeAtProper(fs.root.value, RealPath(fs, path[..r.value]), sep);
    }
  }

  /**
   The containment check is exact: it accepts a path precisely when opening or creating it lands at
   or below the real working directory, unless the first missing component of one is itself a link.
   */
  lemma WithinIffLandsWithin(fs: FileSystem, root: string, sep: char, path: Path, work: Path)
    requires IsRoot(root, sep) && ProperNames(fs, sep) && Plain(path) && Plain(work)
    requires forall k :: 0 <= k < |path| ==> IsComponent(path[k], sep)
    requires forall k :: 0 <= k < |work| ==> IsComponent(work[k], sep)
    requires Landing(fs, path).Some? && !FirstMissingIsLink(fs, path)
    requires Landing(fs, work).Some? && !FirstMissingIsLink(fs, work)
    ensures Within(fs, root, sep, path, work) <==> Landing(fs, work).value <= Landing(fs, path).value
  {
    hide Landing, FirstMissingIsLink, RealpathSpec, PrefixTest, IsComponent, ProperNames;
    RealpathIsLanding(fs, path);
    RealpathIsLanding(fs, work);
    RealpathIsProper(fs, path, sep);
    RealpathIsProper(fs, work, sep);
    PrefixTestIsPathPrefix(root, RealpathSpec(fs, path), RealpathSpec(fs, work), sep);
  }

  lemma {:induction false} NodeAtAppend(node: Node, a: Path, b: Path)
    requires NodeAt(node, a + b).Some?
    ensures NodeAt(node, a).Some?
    ensures b != [] ==> NodeAt(node, a).value.Dir? && b[0] in NodeAt(node, a).value.entries
    decreases |a|
  {
    if a == [] {
      assert a + b == b;
    } else {
      assert (a + b)[1..] == a[1..] + b;
      NodeAtAppend(node.entries[a[0]], a[1..], b);
    }
  }

  /** A walk that reports a missing component names a directory that lacks it. */
  lemma {:induction false} MissingIsMissing(root: Node, cur: Path, rest: Path, budget: nat)
    ensures var w := Resolve(root, cur, rest, budget);
      w.Missing? ==> w.rest != [] && NodeAt(root, w.dir).Some? && NodeAt(root, w.dir).value.Dir?
                     && w.rest[0] !in NodeAt(root, w.dir).value.entries
    decreases budget, |rest|
  {
    if rest != [] && NodeAt(root, cur).Some? && NodeAt(root, cur).value.Dir? {
      var entries := NodeAt(root, cur).value.entries;
      var name := rest[0];
      if name == "." {
        MissingIsMissing(root, cur, rest[1..], budget);
      } else if name == ".." {
        MissingIsMissing(root, Parent(cur), rest[1..], budget);
      } else if name in entries {
        if !entries[name].Link? {
          MissingIsMissing(root, cur + [name], rest[1..], budget);
        } else if budget > 0 {
          MissingIsMissing(root, if entries[name].absolute then [] else cur, entries[name].target + rest[1..], budget - 1);
        }
      }
    }
  }

  /** A place inside the tree up to a link, and a place beyond a missing component, are never the same. */
  lemma LinkPlaceIsNoLanding(root: Node, place: Path, tail: Path, dir: Path, rest: Path)
    requires NodeAt(root, place).Some? && NodeAt(root, place).value.Link?
    requires rest != [] && NodeAt(root, dir).Some? && NodeAt(root, dir).value.Dir?
    requires rest[0] !in NodeAt(root, dir).value.entries
    ensures place + tail != dir + rest
  {
    if place <= dir {
      assert dir == place + dir[|place|..];
      assert |dir| == |place| ==> dir == place;
      NodeAtAppend(root, place, dir[|place|..]);
      assert false;
    }
    if dir <= place && |dir| < |place| {
      assert place == dir + place[|dir|..];
      NodeAtAppend(root, dir, place[|dir|..]);
      assert (place + tail)[|dir|] == place[|dir|] != rest[0] == (dir + rest)[|dir|];
    }
    assert |dir| <= |place| ==> (dir + rest)[..|dir|] == dir && (place + tail)[..|dir|] == place[..|dir|];
    assert |place| <= |dir| ==> (dir + rest)[..|place|] == dir[..|place|] && (place + tail)[..|place|] == place;
  }

  /**
   The exact condition: for a path that can be opened or created, the loop computes where it
   physically lands if and only if the first component that does not exist is not itself a link.
   */
  lemma RealpathIsLandingIff(fs: FileSystem, path: Path)
    requires Plain(path) && Landing(fs, path).Some?
    ensures RealpathSpec(fs, path) == Landing(fs, path).value <==> !FirstMissingIsLink(fs, path)
  {
    if FirstMissingIsLink(fs, path) {
      var root := fs.root.value;
      var n := ExistingPrefix(fs, path, |path|).value;
      ExistingPrefixExists(fs, path, |path|);
      var dir := RealPath(fs, path[..n]);
      assert path[..|path|] == path;
      var w := Lookup(fs, path);
      MissingIsMissing(root, [], path, fs.linkLimit);
      NodeAtExtend(root, dir, path[n]);
      LinkPlaceIsNoLanding(root, dir + [path[n]], path[n + 1..], w.dir, w.rest);
      assert dir + path[n..] == dir + [path[n]] + path[n + 1..];
    } else {
      RealpathIsLanding(fs, path);
    }
  }

  /** When it is a link, the code judges the place of the link and not the place it leads to. */
  lemma MissingLinkIsJudgedByItsOwnPlace(fs: FileSystem, path: Path)
    requires FirstMissingIsLink(fs, path)
    ensures exists n: nat :: (
      && n < |path| && Exists(fs, path[..n]) && !Exists(fs, path[..n + 1])
      && RealpathSpec(fs, path) == RealPath(fs, path[..n]) + path[n..])
  {
    var n := ExistingPrefix(fs, path, |path|).value;
    ExistingPrefixExists(fs, path, |path|);
    if Exists(fs, path[..n + 1]) { ExistingPrefixMaximal(fs, path, |path|, n + 1); }
  }

  /** The directory that holds that link. */
  function LinkDirectory(fs: FileSystem, path: Path): Path
    requires FirstMissingIsLink(fs, path)
  {
    ExistingPrefixExists(fs, path, |path|);
    RealPath(fs, path[..ExistingPrefix(fs, path, |path|).value])
  }

  /** The answer for a path whose first missing component is a link is that for the directory holding the link. */
  lemma LinkAnswerIsItsDirectory(fs: FileSystem, root: string, sep: char, path: Path, work: Path)
    requires IsRoot(root, sep) && ProperNames(fs, sep) && Plain(path) && Plain(work)
    requires forall k :: 0 <= k < |path| ==> IsComponent(path[k], sep)
    requires forall k :: 0 <= k < |work| ==> IsComponent(work[k], sep)
    requires FirstMissingIsLink(fs, path) && Exists(fs, work)
    ensures Within(fs, root, sep, path, work) <==> RealPath(fs, work) <= LinkDirectory(fs, path)
  {
    WorkIsReal(fs, work);
    LinkIsJudgedByItsDirectory(fs, path, work);
    hide FirstMissingIsLink, RealpathSpec, PrefixTest, IsComponent, ProperNames, LinkDirectory, RealPath, Exists;
    RealpathIsProper(fs, path, sep);
    RealpathIsProper(fs, work, sep);
    PrefixTestIsPathPrefix(root, RealpathSpec(fs, path), RealpathSpec(fs, work), sep);
  }

  /**
   So when the answer is right, for a working directory that exists: always if the first missing component is no
   link, and if it is one, exactly when the directory that holds the link and the place it leads to are both
   in the working directory or both outside it.
   */
  lemma AnswerIsRightExactly(fs: FileSystem, root: string, sep: char, path: Path, work: Path)
    requires IsRoot(root, sep) && ProperNames(fs, sep) && Plain(path) && Plain(work)
    requires forall k :: 0 <= k < |path| ==> IsComponent(path[k], sep)
    requires forall k :: 0 <= k < |work| ==> IsComponent(work[k], sep)
    requires Landing(fs, path).Some? && Exists(fs, work)
    ensures var inside := RealPath(fs, work) <= Landing(fs, path).value;
      (Within(fs, root, sep, path, work) <==> inside)
      <==> (FirstMissingIsLink(fs, path) ==> (RealPath(fs, work) <= LinkDirectory(fs, path) <==> inside))
  {
    hide Landing, FirstMissingIsLink, Within, IsComponent, ProperNames, RealPath, Exists, LinkDirectory;
    if FirstMissingIsLink(fs, path) {
      LinkAnswerIsItsDirectory(fs, root, sep, path, work);
    } else {
      WorkIsReal(fs, work);
      WithinIffLandsWithin(fs, root, sep, path, work);
    }
  }

  lemma WorkIsReal(fs: FileSystem, work: Path)
    requires Exists(fs, work)
    ensures RealpathSpec(fs, work) == RealPath(fs, work) && Landing(fs, work) == Some(RealPath(fs, work)) && !FirstMissingIsLink(fs, work)
  {
    assert work[..|work|] == work;
    assert RealPath(fs, work) + [] == RealPath(fs, work);
  }

  lemma LinkIsJudgedByItsDirectory(fs: FileSystem, path: Path, work: Path)
    requires FirstMissingIsLink(fs, path) && Exists(fs, work)
    ensures RealPath(fs, work) <= RealpathSpec(fs, path) <==> RealPath(fs, work) <= LinkDirectory(fs, path)
  {
    var tree, n := fs.root.value, ExistingPrefix(fs, path, |path|).value;
    var dir, physical := LinkDirectory(fs, path), RealPath(fs, work);
    ExistingPrefixExists(fs, path, |path|);
    assert RealpathSpec(fs, path) == dir + path[n..];
    if physical <= dir + path[n..] && |physical| > |dir| {
      assert physical == dir + path[n..][..|physical| - |dir|];
      RootIsNoLink(tree, dir);
      FoundIsNoLink(tree, [], work, fs.linkLimit);
      ResolveIsPhysical(tree, [], work, fs.linkLimit);
      NothingBelowALink(tree, dir, path[n..][..|physical| - |dir|]);
      assert false;
    }
    assert physical <= dir + path[n..] && |physical| <= |dir| ==> physical <= dir;
  }

  lemma RootIsNoLink(root: Node, dir: Path)
    requires NodeAt(root, dir).Some? && NodeAt(root, dir).value.Dir?
    ensures root.Dir?
  {
  }

  /** At and below a link, there is only the link. */
  lemma NothingBelowALink(root: Node, dir: Path, below: Path)
    requires NodeAt(root, dir).Some? && NodeAt(root, dir).value.Dir? && below != []
    requires below[0] in NodeAt(root, dir).value.entries && NodeAt(root, dir).value.entries[below[0]].Link?
    ensures NodeAt(root, dir + below).Some? ==> NodeAt(root, dir + below).value.Link?
  {
    NodeAtExtend(root, dir, below[0]);
    if NodeAt(root, dir + below).Some? && |below| > 1 {
      assert dir + below == (dir + [below[0]]) + below[1..];
      NodeAtAppend(root, dir + [below[0]], below[1..]);
      assert false;
    }
    if |below| == 1 { assert below == [below[0]]; }
  }

  /** What a path resolves to is never itself a link. */
  lemma {:induction false} FoundIsNoLink(root: Node, cur: Path, rest: Path, budget: nat)
    requires root.Dir? && NodeAt(root, cur).Some? && !NodeAt(root, cur).value.Link?
    ensures var w := Resolve(root, cur, rest, budget);
      w.Found? ==> NodeAt(root, w.physical).Some? && !NodeAt(root, w.physical).value.Link?
    decreases budget, |rest|
  {
    if rest != [] && NodeAt(root, cur).value.Dir? {
      var entries := NodeAt(root, cur).value.entries;
      var name := rest[0];
      if name == "." {
        FoundIsNoLink(root, cur, rest[1..], budget);
      } else if name == ".." {
        if cur != [] {
          assert cur == Parent(cur) + [cur[|cur| - 1]];
          NodeAtExtend(root, Parent(cur), cur[|cur| - 1]);
        }
        FoundIsNoLink(root, Parent(cur), rest[1..], budget);
      } else if name in entries {
        if !entries[name].Link? {
          NodeAtExtend(root, cur, name);
          FoundIsNoLink(root, cur + [name], rest[1..], budget);
        } else if budget > 0 {
          FoundIsNoLink(root, if entries[name].absolute then [] else cur, entries[name].target + rest[1..], budget - 1);
        }
      }
    }
  }

  const DANGLING := FileSystem(Some(Dir(map["w" := Dir(map["l" := Link(true, ["t"])])])), 40)

  /** The side condition is needed: a dangling link inside the directory is accepted, and lands outside. */
  lemma DanglingLinkLandsElsewhere()
    ensures FirstMissingIsLink(DANGLING, ["w", "l"])
    ensures Landing(DANGLING, ["w", "l"]) == Some(["t"]) && Landing(DANGLING, ["w"]) == Some(["w"])
    ensures Within(DANGLING, "/", '/', ["w", "l"], ["w"])
  {
    DanglingWalks();
    var fs := DANGLING;
    assert "t"[0] != "."[0];
    assert Plain(["t"]);
    assert [] + ["t"] == ["t"];
    assert ["w", "l"][..2] == ["w", "l"] && ["w", "l"][..1] == ["w"] && ["w"][..1] == ["w"];
    assert ExistingPrefix(fs, ["w", "l"], 2) == Some(1);
    assert RealpathSpec(fs, ["w", "l"]) == ["w"] + ["l"] == ["w", "l"];
    assert RealpathSpec(fs, ["w"]) == ["w"] + [] == ["w"];
    DanglingNames();
  }

  lemma DanglingNames()
    ensures PrefixTest(Render("/", ["w", "l"], '/'), Render("/", ["w"], '/'), '/')
  {
    assert Join(["l"], "/") == "l" && ["w", "l"][1..] == ["l"];
    assert Render("/", ["w", "l"], '/') == "/w/l" && Render("/", ["w"], '/') == "/w";
  }

  lemma DanglingWalks()
    ensures Lookup(DANGLING, ["w"]) == Found(["w"], 40) && NodeAt(DANGLING.root.value, ["w"]).Some?
    ensures Lookup(DANGLING, ["w", "l"]) == Missing([], ["t"])
    ensures NodeAt(DANGLING.root.value, ["w"]) == Some(DANGLING.root.value.entries["w"])
  {
    var root := DANGLING.root.value;
    var w := root.entries["w"];
    assert NodeAt(root, []) == Some(root);
    assert ["w"][1..] == [] && NodeAt(root, ["w"]) == Some(w);
    assert Resolve(root, ["w"], [], 40) == Found(["w"], 40);
    assert [] + ["w"] == ["w"];
    assert Resolve(root, [], ["w"], 40) == Found(["w"], 40);
    assert ["w", "l"][1..] == ["l"];
    assert ["t"] + ["l"][1..] == ["t"];
    assert Resolve(root, [], ["t"], 39) == Missing([], ["t"]);
    assert Resolve(root, ["w"], ["l"], 40) == Missing([], ["t"]);
  }
}
