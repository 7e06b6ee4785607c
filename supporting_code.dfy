/** The repository detector: is the checked path governed by git or by
    Mercurial? The git2 calls and the `hg` process are inputs (Oracles);
    what remains is the decision rule over their answers. */
module SupportingCode {
  import opened Wrappers
  import opened Oracles

  /** Why the `hg` probe did not succeed. */
  datatype ProcessError = CouldNotSpawn(reason: string) | UnsuccessfulExit(exitCode: Option<int>)

  /** HgRepo::discover: run `hg --cwd <path> root` and succeed when the
      process exits with status 0; its output is not looked at. */
  function HgDiscover(probe: ProcessOutcome): Result<(), ProcessError> {
    match probe
    case SpawnFailed(reason) => Err(CouldNotSpawn(reason))
    case Finished(code, _, _) => if code == Some(0) then Ok(()) else Err(UnsuccessfulExit(code))
  }

  /** in_git_repo: git discovery succeeded and either the path is the
      repository's working directory, or the ignore query does not say the
      path is ignored (a failed query counts as "not ignored"). */
  function InGitRepo(path: Path, git: Option<GitRepository>): bool {
    match git
    case None => false
    case Some(repo) =>
      var isWorkdir := match repo.workdir
        case None => false
        case Some(workdir) => workdir == path;
      if isWorkdir then true
      else
        var ignored := match repo.isPathIgnored
          case Ok(b) => b
          case Err(_) => false;
        !ignored
  }

  /** existing_vcs_repo: a git repository that does not ignore the path,
      or else a Mercurial repository; hg is asked only when git says no. */
  function ExistingVcsRepo(path: Path, env: Environment): bool {
    InGitRepo(path, env.git) || HgDiscover(env.hg).Ok?
  }

  /** The hg probe succeeds exactly when the process ran and exited with 0. */
  lemma HgFoundExactlyOnZeroExit(probe: ProcessOutcome)
    ensures HgDiscover(probe).Ok? <==> probe.Finished? && probe.exitCode == Some(0)
  {
  }

  /** What hg prints does not matter, only how it exits. */
  lemma HgOutputIrrelevant(code: Option<int>, out1: seq<bv8>, err1: seq<bv8>, out2: seq<bv8>, err2: seq<bv8>)
    ensures HgDiscover(Finished(code, out1, err1)) == HgDiscover(Finished(code, out2, err2))
  {
  }

  /** Without a discovered git repository, the path is not in a git repository. */
  lemma NoDiscoveryNoGitRepo(path: Path)
    ensures !InGitRepo(path, None)
  {
  }

  /** The working directory itself is never treated as ignored: whatever the
      ignore query answers, the repository root counts as in git. */
  lemma WorkdirOverridesIgnore(path: Path, repo: GitRepository)
    requires repo.workdir == Some(path)
    ensures InGitRepo(path, Some(repo))
    ensures forall answer: Result<bool, string> :: InGitRepo(path, Some(repo.(isPathIgnored := answer)))
  {
  }

  /** Away from the working directory (or in a bare repository) the ignore
      query decides, and only a successful "ignored" answer says no. */
  lemma IgnoreQueryDecides(path: Path, repo: GitRepository)
    requires repo.workdir != Some(path)
    ensures InGitRepo(path, Some(repo)) <==> repo.isPathIgnored != Ok(true)
    ensures repo.isPathIgnored.Err? ==> InGitRepo(path, Some(repo))
  {
  }

  /** Once git accepts the path, the hg probe cannot change the answer. */
  lemma HgConsultedOnlyWhenGitSaysNo(path: Path, env: Environment, hg: ProcessOutcome)
    requires InGitRepo(path, env.git)
    ensures ExistingVcsRepo(path, env)
    ensures ExistingVcsRepo(path, env.(hg := hg))
  {
  }

  /** A path that git ignores is still accepted when it is in a Mercurial
      repository, and rejected otherwise. */
  lemma IgnoredPathFallsBackToHg(path: Path, env: Environment)
    requires env.git.Some? && env.git.value.workdir != Some(path)
    requires env.git.value.isPathIgnored == Ok(true)
    ensures ExistingVcsRepo(path, env) <==> env.hg.Finished? && env.hg.exitCode == Some(0)
  {
  }
}
