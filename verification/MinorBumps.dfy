/**
 The release Minor bumps (`scripts/check-minor-bumps.js`, `scripts/bump-minor-versions.js`): which tasks
 need one, and what repeated bump runs come to.
 */
module MinorBumps {
  import opened JsText

  // ── What counts as a change ──────────────────────────────────────────────────

  /** A lockfile entry: whether only devDependencies reach it, and its version if it has one. */
  datatype LockEntry = LockEntry(dev: bool, version: Option<string>)

  /** The dependencies text and the lockfile packages at the two references. */
  datatype Manifests = Manifests(prevDependencies: string, currDependencies: string,
                                 prev: map<string, LockEntry>, curr: map<string, LockEntry>)

  /** The version of an entry that ships, else nothing. */
  function ShippedVersion(packages: map<string, LockEntry>, key: string): Option<string> {
    if key in packages && !packages[key].dev then packages[key].version else None
  }

  /** What the lockfile ships: every package but the root project, with its version. */
  function Shipped(packages: map<string, LockEntry>): map<string, string> {
    map key | key in packages && key != "" && ShippedVersion(packages, key).Some? :: ShippedVersion(packages, key).value
  }

  predicate ProductionChanged(m: Manifests) {
    m.prevDependencies != m.currDependencies || Shipped(m.prev) != Shipped(m.curr)
  }

  /**
   The loop over the keys of both lockfiles, in any order: the production surface changed exactly when the
   dependencies text or the shipped packages differ, whatever else the lockfiles hold.
   */
  method ProductionDependenciesChanged(m: Manifests) returns (changed: bool)
    ensures changed == ProductionChanged(m)
  {
    if m.prevDependencies != m.currDependencies { return true; }
    var keys := m.prev.Keys + m.curr.Keys;
    var todo := keys;
    while todo != {}
      invariant todo <= keys
      invariant forall key :: key in keys - todo && key != "" ==> ShippedVersion(m.prev, key) == ShippedVersion(m.curr, key)
      decreases |todo|
    {
      var key :| key in todo;
      todo := todo - {key};
      if key == "" { continue; }
      if ShippedVersion(m.prev, key) != ShippedVersion(m.curr, key) {
        ShippedAt(m.prev, key);
        ShippedAt(m.curr, key);
        return true;
      }
    }
    SameShipped(m.prev, m.curr);
    return false;
  }

  lemma ShippedAt(packages: map<string, LockEntry>, key: string)
    requires key != ""
    ensures ShippedVersion(packages, key) == if key in Shipped(packages) then Some(Shipped(packages)[key]) else None
  {
  }

  lemma SameShipped(prev: map<string, LockEntry>, curr: map<string, LockEntry>)
    requires forall key :: key in prev.Keys + curr.Keys && key != "" ==> ShippedVersion(prev, key) == ShippedVersion(curr, key)
    ensures Shipped(prev) == Shipped(curr)
  {
    forall key ensures key in Shipped(prev) <==> key in Shipped(curr)
      ensures key in Shipped(prev) ==> Shipped(prev)[key] == Shipped(curr)[key]
    {
      assert key != "" && key in prev.Keys + curr.Keys ==> ShippedVersion(prev, key) == ShippedVersion(curr, key);
    }
  }

  /** The package is in the lockfile with this version, and something besides devDependencies reaches it. */
  predicate ShipsAs(packages: map<string, LockEntry>, key: string, version: string) {
    key in packages && !packages[key].dev && packages[key].version == Some(version)
  }

  /** The production surface changed exactly when the dependencies text did, or some package ships at one reference as it does not at the other. */
  lemma ProductionIsExact(m: Manifests)
    ensures ProductionChanged(m) <==>
      || m.prevDependencies != m.currDependencies
      || exists key, version :: key != "" && (ShipsAs(m.prev, key, version) != ShipsAs(m.curr, key, version))
  {
    ShippedIsExact(m.prev);
    ShippedIsExact(m.curr);
    hide Shipped, ShippedVersion, ShipsAs;
    var a, b := Shipped(m.prev), Shipped(m.curr);
    if a != b {
      if key :| key in a && !(key in b && b[key] == a[key]) {
        assert ShipsAs(m.prev, key, a[key]) && !ShipsAs(m.curr, key, a[key]);
      } else {
        var key :| key in b && key !in a;
        assert ShipsAs(m.curr, key, b[key]) && !ShipsAs(m.prev, key, b[key]);
      }
    }
  }

  lemma ShippedIsExact(packages: map<string, LockEntry>)
    ensures forall key, version :: (key in Shipped(packages) && Shipped(packages)[key] == version) <==> (key != "" && ShipsAs(packages, key, version))
  {
    forall key, version
      ensures (key in Shipped(packages) && Shipped(packages)[key] == version) <==> (key != "" && ShipsAs(packages, key, version))
    {
      assert ShippedVersion(packages, key) == Some(version) <==> ShipsAs(packages, key, version);
    }
  }

  /** So entries that only devDependencies reach, and the root project's own, make no difference. */
  lemma DevEntriesDoNotCount(m: Manifests)
    requires m.prevDependencies == m.currDependencies
    requires forall key: string, entry: LockEntry :: key != "" && !entry.dev && entry.version.Some? ==>
      ((key in m.prev && m.prev[key] == entry) <==> (key in m.curr && m.curr[key] == entry))
    ensures !ProductionChanged(m)
  {
    ProductionIsExact(m);
    hide ProductionChanged;
    forall key, version | key != "" ensures ShipsAs(m.prev, key, version) == ShipsAs(m.curr, key, version) {
      if key in m.prev { assert m.prev[key] == m.prev[key]; }
      var entry := LockEntry(false, Some(version));
      assert (key in m.prev && m.prev[key] == entry) <==> (key in m.curr && m.curr[key] == entry);
      EntryShips(m.prev, key, version);
      EntryShips(m.curr, key, version);
    }
  }

  lemma EntryShips(packages: map<string, LockEntry>, key: string, version: string)
    ensures ShipsAs(packages, key, version) <==> key in packages && packages[key] == LockEntry(false, Some(version))
  {
  }

  // ── The analysis ─────────────────────────────────────────────────────────────

  /** A Minor as read and parsed. */
  datatype Reading = Unreadable | NotANumber | Minor(n: int)

  /** Whether the sources, and whether the dependency files, differ between the two references. */
  datatype Diff = Diff(sources: bool, dependencyFiles: bool)

  datatype Change = Unchanged | Changed | DiffFailed

  /**
   `diff` is none when git fails, `manifests` when a manifest does not parse; `locatable` is whether the
   bump's pattern finds the Minor in the text of task.json.
   */
  datatype Task = Task(diff: Option<Diff>, manifests: Option<Manifests>, prev: Reading, current: Reading, locatable: bool)

  datatype Verdict = NoChange | DiffError | VersionError | AlreadyBumped | NeedsBump

  /** The manifests are read only when the sources are unchanged and the dependency files are not. */
  function ChangeOf(t: Task): Change {
    if t.diff.None? then DiffFailed
    else if t.diff.value.sources then Changed
    else if !t.diff.value.dependencyFiles then Unchanged
    else if t.manifests.None? then DiffFailed
    else if ProductionChanged(t.manifests.value) then Changed
    else Unchanged
  }

  function Analyze(t: Task): Verdict {
    match ChangeOf(t)
    case DiffFailed => DiffError
    case Unchanged => NoChange
    case Changed =>
      if t.prev.Unreadable? || t.current.Unreadable? then VersionError
      else if t.prev.Minor? && t.current.Minor? && t.current.n > t.prev.n then AlreadyBumped
      else NeedsBump
  }

  predicate IsError(v: Verdict) { v.DiffError? || v.VersionError? }

  /** What the two references show: a source, or what ships, is another one. */
  predicate ShowsChange(t: Task) {
    t.diff.Some? && (t.diff.value.sources || (t.diff.value.dependencyFiles && t.manifests.Some? && ProductionChanged(t.manifests.value)))
  }

  /** Whether there is a change cannot be told: git fails, or a manifest that must be read does not parse. */
  predicate CannotTell(t: Task) {
    t.diff.None? || (!t.diff.value.sources && t.diff.value.dependencyFiles && t.manifests.None?)
  }

  /** The verdicts, each by what is read: a bump is needed exactly for a change whose Minor, if both are numbers, has not grown. */
  lemma VerdictIsExact(t: Task)
    ensures var readable := !t.prev.Unreadable? && !t.current.Unreadable?;
      var grown := t.prev.Minor? && t.current.Minor? && t.current.n > t.prev.n;
      && (Analyze(t) == DiffError <==> CannotTell(t))
      && (Analyze(t) == NoChange <==> !CannotTell(t) && !ShowsChange(t))
      && (Analyze(t) == VersionError <==> ShowsChange(t) && !readable)
      && (Analyze(t) == AlreadyBumped <==> ShowsChange(t) && readable && grown)
      && (Analyze(t) == NeedsBump <==> ShowsChange(t) && readable && !grown)
  {
    hide ProductionChanged;
  }

  /** `bumpFile`; `None` where it throws. */
  function BumpFile(t: Task): Option<Task> {
    if t.locatable && t.current.Minor? then Some(t.(current := Minor(t.current.n + 1))) else None
  }

  /** How a run ends: normally, with exit code 1 after an error verdict, or with an exception. */
  datatype Exit = Passed | Failed | Threw

  function After(v: Verdict, rest: Exit): Exit { if IsError(v) && rest.Passed? then Failed else rest }

  /** One run: the tasks after it, and how it ended. */
  function Run(tasks: seq<Task>): (seq<Task>, Exit)
    decreases |tasks|
  {
    if tasks == [] then ([], Passed)
    else if Blocked(tasks[0]) then (tasks, Threw)
    else
      var (rest, exit) := Run(tasks[1..]);
      ([Step(tasks[0])] + rest, After(Analyze(tasks[0]), exit))
  }

  /** A task at which the run throws. */
  predicate Blocked(t: Task) { Analyze(t) == NeedsBump && BumpFile(t).None? }

  /** The task after a run that gets to it and does not throw there. */
  function Step(t: Task): Task { if Analyze(t) == NeedsBump && BumpFile(t).Some? then BumpFile(t).value else t }

  class Repository {
    const tasks: array<Task>

    constructor (tasks: array<Task>)
      ensures this.tasks == tasks
    {
      this.tasks := tasks;
    }

    method AnalyzeTask(t: Task) returns (v: Verdict)
      ensures v == Analyze(t)
    {
      if t.diff.None? { return DiffError; }
      var changed := t.diff.value.sources;
      if !changed && t.diff.value.dependencyFiles {
        if t.manifests.None? { return DiffError; }
        changed := ProductionDependenciesChanged(t.manifests.value);
      }
      if !changed { return NoChange; }
      if t.prev.Unreadable? || t.current.Unreadable? { return VersionError; }
      if t.prev.Minor? && t.current.Minor? && t.current.n > t.prev.n { return AlreadyBumped; }
      return NeedsBump;
    }

    method AnalyzeAll() returns (results: seq<Verdict>)
      ensures |results| == tasks.Length && forall k :: 0 <= k < |results| ==> results[k] == Analyze(tasks[k])
    {
      hide Analyze;
      results := [];
      for i := 0 to tasks.Length
        invariant |results| == i && forall k :: 0 <= k < i ==> results[k] == Analyze(tasks[k])
      {
        var verdict := AnalyzeTask(tasks[i]);
        results := results + [verdict];
      }
    }

    /** The bump run: every verdict is taken first, then the files are rewritten one after the other. */
    method BumpMinorVersions() returns (exit: Exit)
      modifies tasks
      ensures (tasks[..], exit) == Run(old(tasks[..]))
    {
      hide Analyze, Run, Reached, ProductionChanged;
      var results := AnalyzeAll();
      ghost var start := tasks[..];
      RunIsExact(start);
      var failed := false;
      for i := 0 to tasks.Length
        invariant i <= Reached(start)
        invariant forall k :: 0 <= k < tasks.Length ==> tasks[k] == if k < i then Step(start[k]) else start[k]
        invariant failed <==> exists k :: 0 <= k < i && IsError(results[k])
      {
        assert results[i] == Analyze(start[i]);
        if IsError(results[i]) {
          failed := true;
        } else if results[i] == NeedsBump {
          var bumped := BumpFile(tasks[i]);
          if bumped.None? {
            assert Blocked(start[i]) && Reached(start) == i;
            assert Run(start).1 == Threw && tasks[..] == Run(start).0;
            return Threw;
          }
          tasks[i] := bumped.value;
        }
        assert !Blocked(start[i]);
      }
      assert tasks[..] == Run(start).0;
      return if failed then Failed else Passed;
    }
  }

  // ── How a run ends ───────────────────────────────────────────────────────────

  /** How many tasks a run gets through before the first it throws at. */
  function Reached(tasks: seq<Task>): (n: nat)
    ensures n <= |tasks| && (n < |tasks| ==> Blocked(tasks[n]))
    ensures forall k :: 0 <= k < n ==> !Blocked(tasks[k])
    decreases |tasks|
  {
    if tasks == [] || Blocked(tasks[0]) then 0 else 1 + Reached(tasks[1..])
  }

  /**
   Every task before the first the run throws at takes its step, that one and all after it stay as they were;
   the run throws exactly when there is one, and fails exactly when there is none and some verdict is an error.
   */
  lemma {:induction false} RunIsExact(tasks: seq<Task>)
    ensures var (after, exit) := Run(tasks);
      && |after| == |tasks|
      && (forall k :: 0 <= k < |tasks| ==> after[k] == if k < Reached(tasks) then Step(tasks[k]) else tasks[k])
      && (exit == Threw <==> Reached(tasks) < |tasks|)
      && (exit == Passed <==> Reached(tasks) == |tasks| && forall k :: 0 <= k < |tasks| ==> !IsError(Analyze(tasks[k])))
    decreases |tasks|
  {
    hide Blocked, Step, Analyze;
    if tasks != [] && !Blocked(tasks[0]) {
      RunIsExact(tasks[1..]);
      assert forall k :: 1 <= k < |tasks| ==> tasks[k] == tasks[1..][k - 1];
    }
  }

  /** The exits by the tasks alone: an exception for a bump that cannot be written, else code 1 for one task that could not be told or read. */
  lemma ExitIsExact(tasks: seq<Task>)
    ensures var exit, cannotWrite, unknown := Run(tasks).1,
                exists k :: 0 <= k < |tasks| && Analyze(tasks[k]) == NeedsBump && !(tasks[k].locatable && tasks[k].current.Minor?),
                exists k :: 0 <= k < |tasks| && (Analyze(tasks[k]) == DiffError || Analyze(tasks[k]) == VersionError);
      && (exit == Threw <==> cannotWrite)
      && (exit == Failed <==> !cannotWrite && unknown)
  {
    RunIsExact(tasks);
    hide Run, Analyze, Reached;
  }

  // ── Repeated runs ────────────────────────────────────────────────────────────

  function StepTimes(t: Task, runs: nat): Task
    decreases runs
  {
    if runs == 0 then t else StepTimes(Step(t), runs - 1)
  }

  function AfterRuns(tasks: seq<Task>, runs: nat): seq<Task>
    decreases runs
  {
    if runs == 0 then tasks else AfterRuns(Run(tasks).0, runs - 1)
  }

  predicate Unblocked(tasks: seq<Task>) { forall k :: 0 <= k < |tasks| ==> !Blocked(tasks[k]) }

  lemma StepStaysUnblocked(t: Task)
    requires !Blocked(t)
    ensures !Blocked(Step(t))
  {
  }

  lemma {:induction false} RunsArePointwise(tasks: seq<Task>, runs: nat)
    requires Unblocked(tasks)
    ensures |AfterRuns(tasks, runs)| == |tasks| && forall k :: 0 <= k < |tasks| ==> AfterRuns(tasks, runs)[k] == StepTimes(tasks[k], runs)
    decreases runs
  {
    if runs > 0 {
      RunIsExact(tasks);
      hide Run, Step;
      forall k | 0 <= k < |tasks| ensures !Blocked(Step(tasks[k])) { StepStaysUnblocked(tasks[k]); }
      assert Reached(tasks) == |tasks|;
      hide Blocked, Reached;
      RunsArePointwise(Run(tasks).0, runs - 1);
    }
  }

  /** So many runs bring the task past its previous Minor; against one that is no number none do. */
  predicate Enough(t: Task, runs: nat) {
    Analyze(t) == NeedsBump && t.current.Minor? ==> t.prev.Minor? && t.prev.n - t.current.n + 1 <= runs
  }

  /** How far so many runs move a task that needs a bump. */
  function Moved(t: Task, runs: nat): int
    requires t.current.Minor?
  {
    if t.prev.Minor? && t.prev.n - t.current.n + 1 < runs then t.prev.n - t.current.n + 1 else runs
  }

  /** Every run moves a task that needs it by one, up to one past the previous Minor, and never further. */
  lemma {:induction false} TaskConverges(t: Task, runs: nat)
    requires !Blocked(t)
    ensures StepTimes(t, runs) == if Analyze(t) == NeedsBump then t.(current := Minor(t.current.n + Moved(t, runs))) else t
    ensures Analyze(StepTimes(t, runs)) == NeedsBump <==> !Enough(t, runs)
    decreases runs
  {
    hide ProductionChanged;
    if runs > 0 {
      StepStaysUnblocked(t);
      TaskConverges(Step(t), runs - 1);
    }
  }

  /**
   From any state no run throws on: after `runs` runs the analysis reports no missing bump exactly when that
   many were enough for every task, and then further runs change nothing; tasks without need are never touched.
   */
  lemma RepeatedRunsConverge(tasks: seq<Task>, runs: nat)
    requires Unblocked(tasks)
    ensures |AfterRuns(tasks, runs)| == |tasks|
    ensures (forall k :: 0 <= k < |tasks| ==> Analyze(AfterRuns(tasks, runs)[k]) != NeedsBump) <==> forall k :: 0 <= k < |tasks| ==> Enough(tasks[k], runs)
    ensures forall k :: 0 <= k < |tasks| && Analyze(tasks[k]) != NeedsBump ==> AfterRuns(tasks, runs)[k] == tasks[k]
    ensures (forall k :: 0 <= k < |tasks| ==> Enough(tasks[k], runs)) ==> AfterRuns(tasks, runs + 1) == AfterRuns(tasks, runs)
  {
    RunsArePointwise(tasks, runs);
    RunsArePointwise(tasks, runs + 1);
    hide AfterRuns, Unblocked, ProductionChanged;
    forall k | 0 <= k < |tasks|
      ensures Analyze(AfterRuns(tasks, runs)[k]) == NeedsBump <==> !Enough(tasks[k], runs)
      ensures Analyze(tasks[k]) != NeedsBump ==> AfterRuns(tasks, runs)[k] == tasks[k]
      ensures Enough(tasks[k], runs) ==> AfterRuns(tasks, runs + 1)[k] == AfterRuns(tasks, runs)[k]
    {
      assert !Blocked(tasks[k]) by { assert Unblocked(tasks); }
      TaskConverges(tasks[k], runs);
      TaskConverges(tasks[k], runs + 1);
    }
  }

  /** A task that needs a bump has a previous Minor that is a number, and is not behind it. */
  predicate Level(t: Task) {
    Analyze(t) == NeedsBump ==> t.prev.Minor? && t.current.Minor? && t.current.n >= t.prev.n
  }

  /** "A second run makes no further change" holds exactly when every task the run gets to is level. */
  lemma SecondRunIsIdleExactly(tasks: seq<Task>)
    ensures Run(Run(tasks).0).0 == Run(tasks).0
            <==> forall k :: 0 <= k < Reached(tasks) ==> Level(tasks[k])
  {
    RunIsExact(tasks);
    var once := Run(tasks).0;
    ReachedAgain(tasks);
    RunIsExact(once);
    var twice := Run(once).0;
    hide Run, Reached, Level, Step, Blocked;
    forall k | 0 <= k < Reached(tasks) ensures twice[k] == once[k] <==> Level(tasks[k]) {
      StepTwice(tasks[k]);
    }
    assert twice == once <==> forall k :: 0 <= k < |tasks| ==> twice[k] == once[k];
  }

  lemma ReachedAgain(tasks: seq<Task>)
    ensures Reached(Run(tasks).0) == Reached(tasks)
  {
    RunIsExact(tasks);
    hide Run, Step, Blocked;
    var once := Run(tasks).0;
    forall k | 0 <= k < |tasks| ensures Blocked(once[k]) <==> k >= Reached(tasks) && Blocked(tasks[k]) {
      if k < Reached(tasks) { StepStaysUnblocked(tasks[k]); }
    }
  }

  lemma StepTwice(t: Task)
    requires !Blocked(t)
    ensures Step(Step(t)) == Step(t) <==> Level(t)
  {
    hide ProductionChanged;
  }

  /** A second run that bumps again: the sources changed, and Minor 3 is behind the previous release's 5. */
  lemma SecondRunBumpsAgain()
    ensures var t := Task(Some(Diff(true, false)), None, Minor(5), Minor(3), true);
      && Run([t]) == ([t.(current := Minor(4))], Passed)
      && Run([t.(current := Minor(4))]) == ([t.(current := Minor(5))], Passed)
      && Run([t.(current := Minor(5))]) == ([t.(current := Minor(6))], Passed)
      && Run([t.(current := Minor(6))]) == ([t.(current := Minor(6))], Passed)
  {
    var t := Task(Some(Diff(true, false)), None, Minor(5), Minor(3), true);
    OneTask(t);
    OneTask(t.(current := Minor(4)));
    OneTask(t.(current := Minor(5)));
    OneTask(t.(current := Minor(6)));
  }

  lemma OneTask(t: Task)
    requires !Blocked(t)
    ensures Run([t]) == ([Step(t)], After(Analyze(t), Passed))
  {
    assert [t][1..] == [] && [Step(t)] + [] == [Step(t)];
  }

  /** Against a previous Minor that is no number, every run bumps again. */
  lemma NeverSettles(t: Task, runs: nat)
    requires ChangeOf(t).Changed? && t.prev.NotANumber? && t.current.Minor? && t.locatable
    ensures StepTimes(t, runs) == t.(current := Minor(t.current.n + runs)) && Analyze(StepTimes(t, runs)) == NeedsBump
  {
    TaskConverges(t, runs);
  }
}
