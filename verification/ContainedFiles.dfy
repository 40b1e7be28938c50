/**
 The variable files of a command against the file system: the containment check of
 `base-packer-command-handler.ts` is the one of `path-containment.ts`.
 */
module ContainedFiles {
  import opened JsText
  import opened CommandLine
  import P = PathContainment

  /** The agent: its file system, the working directory, and where `path.resolve` places a listed file. */
  datatype Agent = Agent(fs: P.FileSystem, root: string, sep: char, work: P.Path, resolve: string -> P.Path)

  predicate IsNormal(path: P.Path, sep: char) { P.Plain(path) && forall k :: 0 <= k < |path| ==> IsComponent(path[k], sep) }

  /** The working directory exists, and `path.resolve` leaves neither dots nor separators in components. */
  ghost predicate Sound(a: Agent) {
    && P.IsRoot(a.root, a.sep) && P.ProperNames(a.fs, a.sep) && IsNormal(a.work, a.sep) && P.Exists(a.fs, a.work)
    && forall file :: IsNormal(a.resolve(file), a.sep)
  }

  /** The request is checked against that agent. */
  ghost predicate Checked(a: Agent, r: Request) {
    forall file :: r.vars.contained(file) <==> P.Within(a.fs, a.root, a.sep, a.resolve(file), a.work)
  }

  /** Where opening or creating the file physically lands, if it can be, is at or below the real working directory. */
  predicate LandsInside(a: Agent, file: string)
    requires P.Exists(a.fs, a.work)
  {
    var landing := P.Landing(a.fs, a.resolve(file));
    landing.Some? && P.RealPath(a.fs, a.work) <= landing.value
  }

  /** The file's first missing component is a link. */
  predicate IsMissingLink(a: Agent, file: string) { P.FirstMissingIsLink(a.fs, a.resolve(file)) }

  /** The file can be opened or created, or is such a link. */
  predicate IsReachable(a: Agent, file: string) { IsMissingLink(a, file) || P.Landing(a.fs, a.resolve(file)).Some? }

  /** It lands inside; for a link whose target is missing, the directory that holds the link is inside. */
  predicate IsInside(a: Agent, file: string)
    requires P.Exists(a.fs, a.work)
  {
    if IsMissingLink(a, file) then P.RealPath(a.fs, a.work) <= P.LinkDirectory(a.fs, a.resolve(file)) else LandsInside(a, file)
  }

  lemma FileIsJudged(a: Agent, file: string)
    requires Sound(a) && IsReachable(a, file)
    ensures P.Within(a.fs, a.root, a.sep, a.resolve(file), a.work) <==> IsInside(a, file)
  {
    hide P.Within, P.FirstMissingIsLink, P.RealPath, P.LinkDirectory, P.ProperNames, P.Landing, IsComponent, P.Exists;
    assert IsNormal(a.resolve(file), a.sep);
    if IsMissingLink(a, file) {
      P.LinkAnswerIsItsDirectory(a.fs, a.root, a.sep, a.resolve(file), a.work);
    } else {
      P.AnswerIsRightExactly(a.fs, a.root, a.sep, a.resolve(file), a.work);
    }
  }

  /**
   End to end: a listed file that can be opened and lands outside the working directory stops the command; and when
   every listed file can be opened or created, the files let it run if and only if all of them are inside.
   */
  lemma OutsideFileStopsTheRun(a: Agent, r: Request)
    requires Sound(a) && Checked(a, r)
    ensures Runs(r) ==> forall k :: 0 <= k < |VariableFiles(r.vars)| && IsReachable(a, VariableFiles(r.vars)[k]) ==> IsInside(a, VariableFiles(r.vars)[k])
    ensures (forall k :: 0 <= k < |VariableFiles(r.vars)| ==> IsReachable(a, VariableFiles(r.vars)[k])) ==>
      (Runs(r) <==> r.providerVars.Some? && forall k :: 0 <= k < |VariableFiles(r.vars)| ==> IsInside(a, VariableFiles(r.vars)[k]))
  {
    hide VariableFiles, P.Within, IsReachable, IsInside, IsNormal, P.ProperNames, P.IsRoot, P.Exists;
    var files := VariableFiles(r.vars);
    forall k | 0 <= k < |files| && IsReachable(a, files[k]) ensures r.vars.contained(files[k]) <==> IsInside(a, files[k]) {
      FileIsJudged(a, files[k]);
    }
  }
}
