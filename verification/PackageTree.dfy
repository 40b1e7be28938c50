/**
 The repository as a tree, and the walk both packaging scripts share (`scripts/lib/task-dirs.js`): an
 explicit-stack traversal that reports symbolic links without following them.
 */
module PackageTree {
  import opened JsText

  type Path = seq<string>

  /**
   `resolves` says whether what a link leads to exists. An away file is a regular file whose real path is out of the
   repository, as below a Tasks directory that is a link.
   */
  datatype Node = File | Away | Dir(entries: seq<Entry>) | Symlink(resolves: bool) | Other

  /** One directory entry, in the order `readdir` returns them. */
  datatype Entry = Entry(name: string, node: Node)

  datatype Kind = IsFile | IsAway | IsDir | IsSymlink | IsOther

  /** `isFile()`, which does not see where a file really is. */
  predicate IsRegular(kind: Kind) { kind.IsFile? || kind.IsAway? }

  datatype Found = Found(path: Path, kind: Kind)

  function KindOf(node: Node): Kind {
    match node
    case File => IsFile
    case Away => IsAway
    case Dir(_) => IsDir
    case Symlink(_) => IsSymlink
    case Other => IsOther
  }

  function Child(entries: seq<Entry>, name: string): Option<Node> {
    if entries == [] then None
    else if entries[0].name == name then Some(entries[0].node)
    else Child(entries[1..], name)
  }

  /** The node at a path that passes through real directories only. */
  function NodeAt(node: Node, path: Path): Option<Node>
    decreases |path|
  {
    if path == [] then Some(node)
    else if !node.Dir? then None
    else
      match Child(node.entries, path[0])
      case None => None
      case Some(next) => NodeAt(next, path[1..])
  }

  function DirEntries(node: Option<Node>): seq<Entry> {
    if node.Some? && node.value.Dir? then node.value.entries else []
  }

  /** `fs.existsSync(path)`: follows a link at the last component. */
  predicate Exists(node: Option<Node>) { node.Some? && (node.value.Symlink? ==> node.value.resolves) }

  /**
   Reading it as a directory does not throw: it is one, or there is nothing to read, as at a dangling link. What is
   read is never asked whether it is a link, so a link there to a directory stands here as that directory; a link
   that resolves is one to something else.
   */
  predicate Readable(tree: Node, dir: Path) { Exists(NodeAt(tree, dir)) ==> NodeAt(tree, dir).value.Dir? }

  /** Names are proper components, and no two entries of a directory share one. */
  predicate Proper(node: Node) {
    node.Dir? ==>
      && (forall i :: 0 <= i < |node.entries| ==> IsComponent(node.entries[i].name, '/') && Proper(node.entries[i].node))
      && (forall i, j :: 0 <= i < j < |node.entries| ==> node.entries[i].name != node.entries[j].name)
  }

  /** The repository-relative POSIX path, as reported. */
  function Rel(path: Path): string { Join(path, "/") }

  // ── The order of the report ──────────────────────────────────────────────────

  /** `a < b` on strings. */
  predicate Less(a: string, b: string) {
    b != "" && (a == "" || a[0] < b[0] || (a[0] == b[0] && Less(a[1..], b[1..])))
  }

  predicate Before(a: Found, b: Found) { Less(Rel(a.path), Rel(b.path)) }

  predicate Increasing(s: seq<Found>) { forall i, j :: 0 <= i < j < |s| ==> Before(s[i], s[j]) }

  function Insert(x: Found, s: seq<Found>): seq<Found> {
    if s == [] || Before(x, s[0]) then [x] + s else [s[0]] + Insert(x, s[1..])
  }

  /** `out.sort(...)` by reported path. */
  function Sort(s: seq<Found>): seq<Found> {
    if s == [] then [] else Insert(s[0], Sort(s[1..]))
  }

  lemma {:induction false} LessIsStrict(a: string, b: string)
    ensures !(Less(a, b) && Less(b, a)) && !Less(a, a)
    ensures a != b ==> Less(a, b) || Less(b, a)
  {
    if a != "" && b != "" {
      LessIsStrict(a[1..], b[1..]);
      assert a == [a[0]] + a[1..] && b == [b[0]] + b[1..];
    }
    if a != "" { LessIsStrict(a[1..], a[1..]); }
  }

  /** A text is less than another when it is a proper beginning of it, or has the smaller character where they first differ. */
  lemma {:induction false} LessIsExact(a: string, b: string)
    ensures Less(a, b) <==> exists k :: 0 <= k <= |a| && k < |b| && a[..k] == b[..k] && (k == |a| || a[k] < b[k])
  {
    if a != "" && b != "" && a[0] == b[0] {
      LessIsExact(a[1..], b[1..]);
      if k :| 0 <= k <= |a[1..]| && k < |b[1..]| && a[1..][..k] == b[1..][..k] && (k == |a[1..]| || a[1..][k] < b[1..][k]) {
        LongerHead(a, b, k);
        assert 0 <= k + 1 <= |a| && k + 1 < |b| && a[..k + 1] == b[..k + 1] && (k + 1 == |a| || a[k + 1] < b[k + 1]);
      }
      if k :| 0 <= k <= |a| && k < |b| && a[..k] == b[..k] && (k == |a| || a[k] < b[k]) {
        LongerHead(a, b, k - 1);
        assert 0 <= k - 1 <= |a[1..]| && a[1..][..k - 1] == b[1..][..k - 1];
      }
    } else if b != "" {
      assert a[..0] == b[..0];
      forall k | 0 < k <= |a| && k < |b| ensures a[..k] == b[..k] ==> a[0] == b[0] { HeadsAgree(a, b, k); }
    }
  }

  lemma HeadsAgree(a: string, b: string, k: nat)
    requires 0 < k <= |a| && k <= |b|
    ensures a[..k] == b[..k] ==> a[0] == b[0]
  {
    assert a[..k][0] == a[0] && b[..k][0] == b[0];
  }

  lemma LongerHead(a: string, b: string, k: nat)
    requires a != "" && b != "" && a[0] == b[0] && k < |a| && k < |b|
    ensures a[..k + 1] == b[..k + 1] <==> a[1..][..k] == b[1..][..k]
  {
    assert a[..k + 1] == [a[0]] + a[1..][..k] && b[..k + 1] == [b[0]] + b[1..][..k];
    assert a[1..][..k] == a[..k + 1][1..] && b[1..][..k] == b[..k + 1][1..];
  }

  lemma {:induction false} LessIsTransitive(a: string, b: string, c: string)
    requires Less(a, b) && Less(b, c)
    ensures Less(a, c)
  {
    if a != "" && a[0] == b[0] == c[0] { LessIsTransitive(a[1..], b[1..], c[1..]); }
  }

  predicate DistinctKeys(s: seq<Found>) { forall i, j :: 0 <= i < j < |s| ==> Rel(s[i].path) != Rel(s[j].path) }

  lemma {:induction false} InsertMembers(x: Found, s: seq<Found>)
    ensures multiset(Insert(x, s)) == multiset{x} + multiset(s)
    ensures forall y :: y in Insert(x, s) <==> y == x || y in s
  {
    hide Before;
    if s != [] && !Before(x, s[0]) {
      InsertMembers(x, s[1..]);
      assert s == [s[0]] + s[1..];
    }
  }

  lemma {:induction false} InsertIsSorted(x: Found, s: seq<Found>)
    requires Increasing(s) && forall i :: 0 <= i < |s| ==> Rel(s[i].path) != Rel(x.path)
    ensures Increasing(Insert(x, s)) && multiset(Insert(x, s)) == multiset{x} + multiset(s)
    ensures forall y :: y in Insert(x, s) <==> y == x || y in s
  {
    hide Less, Rel;
    InsertMembers(x, s);
    if s == [] {
    } else if Before(x, s[0]) {
      forall i | 0 < i < |s| ensures Before(x, s[i]) { LessIsTransitive(Rel(x.path), Rel(s[0].path), Rel(s[i].path)); }
    } else {
      InsertIsSorted(x, s[1..]);
      LessIsStrict(Rel(x.path), Rel(s[0].path));
      FirstBefore(x, s, Insert(x, s[1..]));
    }
  }

  lemma FirstBefore(x: Found, s: seq<Found>, rest: seq<Found>)
    requires s != [] && Increasing(s) && Before(s[0], x) && Increasing(rest)
    requires forall y :: y in rest ==> y == x || y in s[1..]
    ensures Increasing([s[0]] + rest)
  {
    hide Before;
    forall j | 0 <= j < |rest| ensures Before(s[0], rest[j]) {
      assert rest[j] in rest;
      if rest[j] != x {
        var k :| 0 <= k < |s[1..]| && s[1..][k] == rest[j];
        assert s[k + 1] == rest[j];
      }
    }
  }

  lemma {:induction false} SortIsSorted(s: seq<Found>)
    requires DistinctKeys(s)
    ensures Increasing(Sort(s)) && multiset(Sort(s)) == multiset(s)
  {
    hide Rel, Insert;
    if s != [] {
      SortIsSorted(s[1..]);
      assert s == [s[0]] + s[1..];
      var rest := Sort(s[1..]);
      forall i | 0 <= i < |rest| ensures Rel(rest[i].path) != Rel(s[0].path) {
        assert rest[i] in multiset(rest);
        assert rest[i] in s[1..];
        var k :| 0 <= k < |s[1..]| && s[1..][k] == rest[i];
        assert s[k + 1] == rest[i];
      }
      InsertIsSorted(s[0], rest);
    }
  }

  /** The first element is the one that nothing in the arrangement precedes. */
  lemma FirstIsLeast(a: seq<Found>, x: Found)
    requires Increasing(a) && x in a
    ensures x == a[0] || Before(a[0], x)
  {
    hide Before;
    var i :| 0 <= i < |a| && a[i] == x;
    if i > 0 { assert Before(a[0], a[i]); }
  }

  /** A strictly increasing arrangement of given entries is unique. */
  lemma {:induction false} IncreasingIsUnique(a: seq<Found>, b: seq<Found>)
    requires Increasing(a) && Increasing(b) && multiset(a) == multiset(b)
    ensures a == b
  {
    hide Less, Rel;
    if a == [] {
      assert |multiset(b)| == 0;
    } else {
      assert a[0] in multiset(b);
      assert b[0] in multiset(a);
      FirstIsLeast(b, a[0]);
      FirstIsLeast(a, b[0]);
      LessIsStrict(Rel(a[0].path), Rel(b[0].path));
      assert a[0] == b[0];
      SameRest(a, b);
      IncreasingIsUnique(a[1..], b[1..]);
      assert a == [a[0]] + a[1..] && b == [b[0]] + b[1..];
    }
  }

  lemma SameRest(a: seq<Found>, b: seq<Found>)
    requires a != [] && b != [] && a[0] == b[0] && multiset(a) == multiset(b)
    ensures multiset(a[1..]) == multiset(b[1..])
  {
    assert a == [a[0]] + a[1..] && b == [b[0]] + b[1..];
    assert multiset(a[1..]) == multiset(a) - multiset{a[0]};
    assert multiset(b[1..]) == multiset(b) - multiset{b[0]};
  }

  // ── What a walk reports ──────────────────────────────────────────────────────

  /** The entries below `path`, recursively, in directory order; pruned where `descend` says no. */
  function Walk(path: Path, entries: seq<Entry>, descend: Path -> bool): seq<Found>
    decreases entries
  {
    if entries == [] then []
    else
      var rel := path + [entries[0].name];
      [Found(rel, KindOf(entries[0].node))]
      + (if entries[0].node.Dir? && descend(rel) then Walk(rel, entries[0].node.entries, descend) else [])
      + Walk(path, entries[1..], descend)
  }

  /** The report: the walk from a directory of the tree, sorted. */
  function WalkTreeSpec(tree: Node, dir: Path, descend: Path -> bool): seq<Found> {
    Sort(Walk(dir, DirEntries(NodeAt(tree, dir)), descend))
  }

  lemma {:induction false} ChildAt(entries: seq<Entry>, k: nat)
    requires k < |entries|
    requires forall i, j :: 0 <= i < j < |entries| ==> entries[i].name != entries[j].name
    ensures Child(entries, entries[k].name) == Some(entries[k].node)
  {
    if k > 0 { ChildAt(entries[1..], k - 1); }
  }

  lemma {:induction false} ChildIsEntry(entries: seq<Entry>, name: string)
    ensures Child(entries, name).Some? ==>
      exists k :: 0 <= k < |entries| && entries[k].name == name && entries[k].node == Child(entries, name).value
  {
    if entries != [] && entries[0].name != name {
      ChildIsEntry(entries[1..], name);
      if Child(entries, name).Some? {
        var k :| 0 <= k < |entries[1..]| && entries[1..][k].name == name && entries[1..][k].node == Child(entries, name).value;
        assert entries[k + 1] == entries[1..][k];
      }
    }
  }

  lemma {:induction false} NodeAtAppend(node: Node, a: Path, b: Path)
    ensures NodeAt(node, a + b) == if NodeAt(node, a).None? then None else NodeAt(NodeAt(node, a).value, b)
    decreases |a|
  {
    if a == [] {
      assert a + b == b;
    } else {
      assert (a + b)[1..] == a[1..] + b;
      if node.Dir? && Child(node.entries, a[0]).Some? { NodeAtAppend(Child(node.entries, a[0]).value, a[1..], b); }
    }
  }

  lemma {:induction false} NodeAtProper(node: Node, path: Path)
    requires Proper(node)
    ensures NodeAt(node, path).Some? ==>
      Proper(NodeAt(node, path).value) && forall k :: 0 <= k < |path| ==> IsComponent(path[k], '/')
    decreases |path|
  {
    hide IsComponent;
    if path != [] && NodeAt(node, path).Some? {
      ChildIsEntry(node.entries, path[0]);
      NodeAtProper(Child(node.entries, path[0]).value, path[1..]);
      assert path == [path[0]] + path[1..];
    }
  }

  /** The node of the k-th entry of a directory of the tree. */
  lemma EntryNode(tree: Node, dir: Path, k: nat)
    requires Proper(tree) && k < |DirEntries(NodeAt(tree, dir))|
    ensures var e := DirEntries(NodeAt(tree, dir))[k]; NodeAt(tree, dir + [e.name]) == Some(e.node)
  {
    var entries := DirEntries(NodeAt(tree, dir));
    var e := entries[k];
    NodeAtProper(tree, dir);
    ChildAt(entries, k);
    NodeAtAppend(tree, dir, [e.name]);
    assert NodeAt(e.node, [e.name][1..]) == Some(e.node);
  }

  // ── Exactly once ─────────────────────────────────────────────────────────────

  predicate NoRepeat(s: seq<Found>) { forall i, j :: 0 <= i < j < |s| ==> s[i].path != s[j].path }

  /** Everything reported lies strictly below, under one of the entries. */
  lemma {:induction false} WalkIsBelow(path: Path, entries: seq<Entry>, descend: Path -> bool)
    ensures forall f :: f in Walk(path, entries, descend) ==>
      && path < f.path
      && exists k :: 0 <= k < |entries| && entries[k].name == f.path[|path|]
    decreases entries
  {
    if entries != [] {
      var rel := path + [entries[0].name];
      if entries[0].node.Dir? && descend(rel) { WalkIsBelow(rel, entries[0].node.entries, descend); }
      WalkIsBelow(path, entries[1..], descend);
      forall f | f in Walk(path, entries[1..], descend)
        ensures exists k :: 0 <= k < |entries| && entries[k].name == f.path[|path|]
      {
        var k :| 0 <= k < |entries[1..]| && entries[1..][k].name == f.path[|path|];
        assert entries[k + 1] == entries[1..][k];
      }
    }
  }

  lemma {:induction false} WalkNoRepeat(path: Path, entries: seq<Entry>, descend: Path -> bool)
    requires Proper(Dir(entries))
    ensures NoRepeat(Walk(path, entries, descend))
    decreases entries
  {
    hide NoRepeat;
    if entries == [] {
      assert NoRepeat([]) by { NothingRepeats(); }
    } else {
      var e, rel := entries[0], path + [entries[0].name];
      var below := if e.node.Dir? && descend(rel) then Walk(rel, e.node.entries, descend) else [];
      ProperEntry(entries);
      assert Proper(Dir(entries[1..]));
      WalkNoRepeat(path, entries[1..], descend);
      if e.node.Dir? && descend(rel) {
        assert e.node == Dir(e.node.entries);
        WalkNoRepeat(rel, e.node.entries, descend);
        WalkIsBelow(rel, e.node.entries, descend);
      } else {
        NothingRepeats();
      }
      WalkIsElsewhere(path, entries, descend);
      var x, rest := Found(rel, KindOf(e.node)), Walk(path, entries[1..], descend);
      assert Walk(path, entries, descend) == [x] + below + rest;
      hide Proper, Walk;
      PartsDoNotRepeat(path, e.name, x, below, rest);
    }
  }

  lemma NothingRepeats()
    ensures NoRepeat([])
  {
  }

  /** What the later entries report lies under other names than the first. */
  lemma WalkIsElsewhere(path: Path, entries: seq<Entry>, descend: Path -> bool)
    requires entries != [] && Proper(Dir(entries))
    ensures forall g :: g in Walk(path, entries[1..], descend) ==> |g.path| > |path| && g.path[|path|] != entries[0].name
  {
    hide Walk;
    WalkIsBelow(path, entries[1..], descend);
    assert forall k :: 0 <= k < |entries[1..]| ==> entries[1..][k] == entries[k + 1];
  }

  /** An entry, what lies below it, and what lies under other names. */
  lemma PartsDoNotRepeat(path: Path, name: string, x: Found, below: seq<Found>, rest: seq<Found>)
    requires x.path == path + [name] && NoRepeat(below) && NoRepeat(rest)
    requires forall f :: f in below ==> x.path < f.path
    requires forall g :: g in rest ==> |g.path| > |path| && g.path[|path|] != name
    ensures NoRepeat([x] + below + rest)
  {
    hide NoRepeat;
    OneDoesNotRepeat(x);
    NoRepeatAppend([x], below);
    forall f: Found, g: Found | f in [x] + below && g in rest ensures f.path != g.path {
      assert f.path == x.path || x.path < f.path;
      assert f.path[|path|] == x.path[|path|] == name;
    }
    NoRepeatAppend([x] + below, rest);
  }

  lemma OneDoesNotRepeat(f: Found)
    ensures NoRepeat([f])
  {
  }

  lemma NoRepeatAppend(a: seq<Found>, b: seq<Found>)
    requires NoRepeat(a) && NoRepeat(b)
    requires forall f: Found, g: Found :: f in a && g in b ==> f.path != g.path
    ensures NoRepeat(a + b)
  {
  }

  // ── What exactly is reported ─────────────────────────────────────────────────

  /** `f` is `e` itself or lies below it, through directories that are descended into. */
  predicate BelowEntry(path: Path, e: Entry, descend: Path -> bool, f: Found) {
    && path + [e.name] <= f.path
    && NodeAt(e.node, f.path[|path| + 1..]).Some?
    && KindOf(NodeAt(e.node, f.path[|path| + 1..]).value) == f.kind
    && forall j :: |path| < j < |f.path| ==> descend(f.path[..j])
  }

  lemma {:induction false} WalkMembers(path: Path, entries: seq<Entry>, descend: Path -> bool, f: Found)
    requires Proper(Dir(entries))
    ensures f in Walk(path, entries, descend) <==> exists k :: 0 <= k < |entries| && BelowEntry(path, entries[k], descend, f)
    decreases entries, 1
  {
    hide BelowEntry;
    if entries != [] {
      assert Proper(Dir(entries[1..]));
      WalkMembers(path, entries[1..], descend, f);
      FirstEntryMembers(path, entries, descend, f);
      assert forall k :: 0 < k < |entries| ==> entries[k] == entries[1..][k - 1];
      assert forall k :: 0 <= k < |entries[1..]| ==> entries[1..][k] == entries[k + 1];
    }
  }

  lemma {:induction false} FirstEntryMembers(path: Path, entries: seq<Entry>, descend: Path -> bool, f: Found)
    requires entries != [] && Proper(Dir(entries))
    ensures var e := entries[0];
      var rel := path + [e.name];
      f in [Found(rel, KindOf(e.node))] + (if e.node.Dir? && descend(rel) then Walk(rel, e.node.entries, descend) else [])
      <==> BelowEntry(path, e, descend, f)
    decreases entries, 0
  {
    hide Proper, Walk;
    var e := entries[0];
    var rel := path + [e.name];
    assert Proper(e.node) by { ProperEntry(entries); }
    if f.path == rel {
      assert f.path[|path| + 1..] == [];
      if e.node.Dir? { WalkIsBelow(rel, e.node.entries, descend); }
    } else if e.node.Dir? {
      assert e.node == Dir(e.node.entries);
      WalkMembers(rel, e.node.entries, descend, f);
      if BelowEntry(path, e, descend, f) { EnterDirectory(path, e, descend, f); }
      forall k | 0 <= k < |e.node.entries| && BelowEntry(rel, e.node.entries[k], descend, f) && descend(rel)
        ensures BelowEntry(path, e, descend, f)
      {
        LeaveDirectory(path, e, k, descend, f);
      }
    }
  }

  lemma ProperEntry(entries: seq<Entry>)
    requires entries != [] && Proper(Dir(entries))
    ensures Proper(entries[0].node)
  {
    assert Dir(entries).entries[0] == entries[0];
  }

  lemma EnterDirectory(path: Path, e: Entry, descend: Path -> bool, f: Found)
    requires e.node.Dir? && BelowEntry(path, e, descend, f) && f.path != path + [e.name]
    ensures descend(path + [e.name])
    ensures exists k :: 0 <= k < |e.node.entries| && BelowEntry(path + [e.name], e.node.entries[k], descend, f)
  {
    var rel := path + [e.name];
    var rest := f.path[|path| + 1..];
    assert f.path == rel + rest && f.path[..|path| + 1] == rel;
    ChildIsEntry(e.node.entries, rest[0]);
    var k :| 0 <= k < |e.node.entries| && e.node.entries[k].name == rest[0]
             && e.node.entries[k].node == Child(e.node.entries, rest[0]).value;
    assert rest[1..] == f.path[|rel| + 1..];
    assert BelowEntry(rel, e.node.entries[k], descend, f);
  }

  lemma LeaveDirectory(path: Path, e: Entry, k: nat, descend: Path -> bool, f: Found)
    requires e.node.Dir? && Proper(e.node) && k < |e.node.entries|
    requires BelowEntry(path + [e.name], e.node.entries[k], descend, f) && descend(path + [e.name])
    ensures BelowEntry(path, e, descend, f)
  {
    var rel := path + [e.name];
    ChildAt(e.node.entries, k);
    var rest := f.path[|path| + 1..];
    assert rest[0] == f.path[|rel|] == e.node.entries[k].name;
    assert rest[1..] == f.path[|rel| + 1..];
    assert f.path[..|rel|] == rel;
  }

  /** What the tree itself says about a reported entry: no link on the way, every ancestor descended into. */
  predicate Reported(tree: Node, dir: Path, descend: Path -> bool, f: Found) {
    && dir < f.path
    && NodeAt(tree, f.path).Some? && f.kind == KindOf(NodeAt(tree, f.path).value)
    && forall j :: |dir| < j < |f.path| ==> descend(f.path[..j])
  }

  lemma DirEntriesProper(tree: Node, dir: Path)
    requires Proper(tree)
    ensures Proper(Dir(DirEntries(NodeAt(tree, dir))))
  {
    NodeAtProper(tree, dir);
    var here := NodeAt(tree, dir);
    if here.Some? && here.value.Dir? { assert here.value == Dir(here.value.entries); }
  }

  lemma WalkIsReported(tree: Node, dir: Path, descend: Path -> bool, f: Found)
    requires Proper(tree)
    ensures f in Walk(dir, DirEntries(NodeAt(tree, dir)), descend) <==> Reported(tree, dir, descend, f)
  {
    hide Walk, Proper, NodeAt, BelowEntry, Reported;
    var entries := DirEntries(NodeAt(tree, dir));
    DirEntriesProper(tree, dir);
    WalkMembers(dir, entries, descend, f);
    if Reported(tree, dir, descend, f) { ReportedIsBelow(tree, dir, descend, f); }
    forall k | 0 <= k < |entries| && BelowEntry(dir, entries[k], descend, f) ensures Reported(tree, dir, descend, f) {
      BelowIsReported(tree, dir, k, descend, f);
    }
  }

  lemma ReportedIsBelow(tree: Node, dir: Path, descend: Path -> bool, f: Found)
    requires Reported(tree, dir, descend, f)
    ensures var entries := DirEntries(NodeAt(tree, dir));
      exists k :: 0 <= k < |entries| && BelowEntry(dir, entries[k], descend, f)
  {
    var entries := DirEntries(NodeAt(tree, dir));
    var rest := f.path[|dir|..];
    assert f.path == dir + rest && f.path[|dir| + 1..] == rest[1..];
    NodeAtAppend(tree, dir, rest);
    ChildIsEntry(entries, rest[0]);
    var k :| 0 <= k < |entries| && entries[k].name == rest[0] && entries[k].node == Child(entries, rest[0]).value;
    assert BelowEntry(dir, entries[k], descend, f);
  }

  lemma BelowIsReported(tree: Node, dir: Path, k: nat, descend: Path -> bool, f: Found)
    requires Proper(tree) && k < |DirEntries(NodeAt(tree, dir))|
    requires BelowEntry(dir, DirEntries(NodeAt(tree, dir))[k], descend, f)
    ensures Reported(tree, dir, descend, f)
  {
    var entries := DirEntries(NodeAt(tree, dir));
    var rest := f.path[|dir|..];
    DirEntriesProper(tree, dir);
    ChildAt(entries, k);
    assert rest[0] == entries[k].name;
    assert f.path == dir + rest && f.path[|dir| + 1..] == rest[1..];
    NodeAtAppend(tree, dir, rest);
  }

  /** The report: every such entry, exactly once, in strictly increasing order of its path. */
  lemma ReportIsExact(tree: Node, dir: Path, descend: Path -> bool)
    requires Proper(tree)
    ensures var out := WalkTreeSpec(tree, dir, descend);
      Increasing(out) && NoRepeat(out) && forall f :: f in out <==> Reported(tree, dir, descend, f)
  {
    hide Walk, Sort, Increasing;
    var walk := Walk(dir, DirEntries(NodeAt(tree, dir)), descend);
    var out := Sort(walk);
    WalkKeysDistinct(tree, dir, descend);
    SortIsSorted(walk);
    forall f ensures f in out <==> Reported(tree, dir, descend, f) {
      assert f in out <==> f in multiset(out);
      WalkIsReported(tree, dir, descend, f);
    }
    IncreasingHasNoRepeat(out);
  }

  lemma IncreasingHasNoRepeat(out: seq<Found>)
    requires Increasing(out)
    ensures NoRepeat(out)
  {
    hide Less, Rel;
    forall i, j | 0 <= i < j < |out| ensures out[i].path != out[j].path {
      assert Before(out[i], out[j]);
      LessIsStrict(Rel(out[i].path), Rel(out[j].path));
    }
  }

  lemma WalkKeysDistinct(tree: Node, dir: Path, descend: Path -> bool)
    requires Proper(tree)
    ensures DistinctKeys(Walk(dir, DirEntries(NodeAt(tree, dir)), descend))
  {
    hide Walk, IsComponent;
    var entries := DirEntries(NodeAt(tree, dir));
    var walk := Walk(dir, entries, descend);
    DirEntriesProper(tree, dir);
    WalkNoRepeat(dir, entries, descend);
    forall i, j | 0 <= i < j < |walk| ensures Rel(walk[i].path) != Rel(walk[j].path) {
      WalkIsReported(tree, dir, descend, walk[i]);
      WalkIsReported(tree, dir, descend, walk[j]);
      NodeAtProper(tree, walk[i].path);
      NodeAtProper(tree, walk[j].path);
      if Rel(walk[i].path) == Rel(walk[j].path) { JoinInjective(walk[i].path, walk[j].path, '/'); }
    }
  }

  // ── The loop ─────────────────────────────────────────────────────────────────

  /** What the directories still on the stack will contribute. */
  function Pending(tree: Node, stack: seq<Path>, descend: Path -> bool): multiset<Found> {
    if stack == [] then multiset{}
    else
      var last := stack[|stack| - 1];
      multiset(Walk(last, DirEntries(NodeAt(tree, last)), descend)) + Pending(tree, stack[..|stack| - 1], descend)
  }

  lemma PendingPush(tree: Node, stack: seq<Path>, dir: Path, descend: Path -> bool)
    ensures Pending(tree, stack + [dir], descend) ==
            multiset(Walk(dir, DirEntries(NodeAt(tree, dir)), descend)) + Pending(tree, stack, descend)
  {
    assert (stack + [dir])[..|stack|] == stack;
  }

  lemma NothingPending(tree: Node, descend: Path -> bool)
    ensures Pending(tree, [], descend) == multiset{}
  {
  }

  lemma Regroup(out: seq<Found>, x: Found, below: multiset<Found>, pending: multiset<Found>, rest: multiset<Found>)
    ensures multiset(out + [x]) + (below + pending) + rest == multiset(out) + pending + (multiset([x]) + below + rest)
    ensures multiset{} + pending == pending
  {
  }

  /** What one entry contributes: itself, and what lies below it if it is descended into. */
  ghost function Contribution(rel: Path, node: Node, descend: Path -> bool): multiset<Found> {
    multiset([Found(rel, KindOf(node))]) + if node.Dir? && descend(rel) then multiset(Walk(rel, node.entries, descend)) else multiset{}
  }

  /** One entry: reported, and pushed when it is a directory to descend into. */
  method ReadEntry(tree: Node, rel: Path, node: Node, descend: Path -> bool, out0: seq<Found>, stack0: seq<Path>)
    returns (out: seq<Found>, stack: seq<Path>)
    requires NodeAt(tree, rel) == Some(node)
    ensures multiset(out) + Pending(tree, stack, descend) == multiset(out0) + Pending(tree, stack0, descend) + Contribution(rel, node, descend)
    ensures |out| == |out0| + 1
  {
    hide Walk, NodeAt, Pending;
    out, stack := out0, stack0;
    PendingPush(tree, stack, rel, descend);
    ghost var below := if node.Dir? && descend(rel) then multiset(Walk(rel, node.entries, descend)) else multiset{};
    Regroup(out, Found(rel, KindOf(node)), below, Pending(tree, stack, descend), multiset{});
    if node.Symlink? {
      out := out + [Found(rel, IsSymlink)];
    } else if node.Dir? {
      out := out + [Found(rel, IsDir)];
      if descend(rel) { stack := stack + [rel]; }
    } else if node.File? {
      out := out + [Found(rel, IsFile)];
    } else if node.Away? {
      out := out + [Found(rel, IsAway)];
    } else {
      out := out + [Found(rel, IsOther)];
    }
  }

  /** One turn of the loop: report the entries of `current`, and push those to descend into. */
  method ReadDirectory(tree: Node, current: Path, descend: Path -> bool, out0: seq<Found>, stack0: seq<Path>)
    returns (out: seq<Found>, stack: seq<Path>)
    requires Proper(tree)
    ensures multiset(out) + Pending(tree, stack, descend) ==
            multiset(out0) + multiset(Walk(current, DirEntries(NodeAt(tree, current)), descend)) + Pending(tree, stack0, descend)
    ensures |out| == |out0| + |DirEntries(NodeAt(tree, current))| && (|out| == |out0| ==> stack == stack0)
  {
    hide Walk, Proper, NodeAt, Pending, Contribution;
    out, stack := out0, stack0;
    var entries := DirEntries(NodeAt(tree, current));
    assert entries[0..] == entries;
    for k := 0 to |entries|
      invariant multiset(out) + Pending(tree, stack, descend) + multiset(Walk(current, entries[k..], descend)) ==
                multiset(out0) + multiset(Walk(current, entries, descend)) + Pending(tree, stack0, descend)
      invariant |out| == |out0| + k && (k == 0 ==> stack == stack0)
    {
      var rel := current + [entries[k].name];
      EntryNode(tree, current, k);
      WalkNext(current, entries, k, descend);
      out, stack := ReadEntry(tree, rel, entries[k].node, descend, out, stack);
    }
    EmptyReport(current, descend);
    assert entries[|entries|..] == [];
  }

  /** None is the exception of reading something that is no directory. */
  method WalkTree(tree: Node, dir: Path, descend: Path -> bool) returns (report: Option<seq<Found>>)
    requires Proper(tree)
    ensures report == if Readable(tree, dir) then Some(WalkTreeSpec(tree, dir, descend)) else None
  {
    hide Walk, Sort, Proper, NodeAt, Pending;
    var out: seq<Found> := [];
    ghost var all := multiset(Walk(dir, DirEntries(NodeAt(tree, dir)), descend));
    if !Exists(NodeAt(tree, dir)) {
      EmptyReport(dir, descend);
      return Some([]);
    }
    if !NodeAt(tree, dir).value.Dir? { return None; }
    var stack := [dir];
    PendingPush(tree, [], dir, descend);
    NothingPending(tree, descend);
    assert [] + [dir] == [dir];
    while |stack| > 0
      invariant multiset(out) + Pending(tree, stack, descend) == all
      decreases |all| - |out|, |stack|
    {
      var current := stack[|stack| - 1];
      assert stack == stack[..|stack| - 1] + [current];
      stack := stack[..|stack| - 1];
      PendingPush(tree, stack, current, descend);
      out, stack := ReadDirectory(tree, current, descend, out, stack);
    }
    NothingPending(tree, descend);
    SortedTheSame(tree, dir, descend, out);
    report := Some(Sort(out));
  }

  lemma WalkNext(path: Path, entries: seq<Entry>, k: nat, descend: Path -> bool)
    requires k < |entries|
    ensures multiset(Walk(path, entries[k..], descend)) ==
            Contribution(path + [entries[k].name], entries[k].node, descend) + multiset(Walk(path, entries[k + 1..], descend))
  {
    assert entries[k..][1..] == entries[k + 1..];
  }

  /** Sorting makes the stack's order of discovery irrelevant. */
  lemma SortedTheSame(tree: Node, dir: Path, descend: Path -> bool, out: seq<Found>)
    requires Proper(tree)
    requires multiset(out) == multiset(Walk(dir, DirEntries(NodeAt(tree, dir)), descend))
    ensures Sort(out) == WalkTreeSpec(tree, dir, descend)
  {
    hide Walk, Sort, Proper, Increasing;
    var walk := Walk(dir, DirEntries(NodeAt(tree, dir)), descend);
    WalkKeysDistinct(tree, dir, descend);
    DistinctKeysOf(walk, out);
    SortIsSorted(walk);
    SortIsSorted(out);
    IncreasingIsUnique(Sort(out), Sort(walk));
  }

  /** Having distinct keys does not depend on the arrangement. */
  lemma DistinctKeysOf(a: seq<Found>, b: seq<Found>)
    requires DistinctKeys(a) && multiset(a) == multiset(b)
    ensures DistinctKeys(b)
  {
    hide Rel;
    forall i, j | 0 <= i < j < |b| ensures Rel(b[i].path) != Rel(b[j].path) {
      if Rel(b[i].path) == Rel(b[j].path) {
        assert b[i] in multiset(a) && b[j] in multiset(a);
        var x :| 0 <= x < |a| && a[x] == b[i];
        var y :| 0 <= y < |a| && a[y] == b[j];
        assert x == y;
        Twice(b, i, j);
        Once(a, x);
        assert false;
      }
    }
  }

  lemma Twice(s: seq<Found>, i: nat, j: nat)
    requires i < j < |s| && s[i] == s[j]
    ensures multiset(s)[s[i]] >= 2
  {
    assert s == s[..i] + [s[i]] + s[i + 1..j] + [s[j]] + s[j + 1..];
  }

  lemma Once(s: seq<Found>, x: nat)
    requires DistinctKeys(s) && x < |s|
    ensures multiset(s)[s[x]] == 1
  {
    hide Rel;
    assert s == s[..x] + [s[x]] + s[x + 1..];
    assert s[x] !in s[..x] && s[x] !in s[x + 1..];
  }

  lemma EmptyReport(dir: Path, descend: Path -> bool)
    ensures Walk(dir, [], descend) == [] && Sort([]) == []
  {
  }
}
