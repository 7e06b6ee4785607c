/** check_version_control: decide whether a directory is safe for
    destructive operations. A fixed chain of short-circuits on the options
    and the detector, then a pass over git's status enumeration that sorts
    files into a staged list and a dirty list, then the verdict. */
module Check {
  import opened Wrappers
  import opened Oracles
  import SupportingCode

  /** Which checks are run; all three flags are independent. */
  datatype CheckOptions = CheckOptions(allowDirty: bool, allowNoVcs: bool, allowStaged: bool)

  /** CheckOptions::new, the default: nothing allowed. */
  function New(): (opts: CheckOptions)
    ensures !opts.allowDirty && !opts.allowNoVcs && !opts.allowStaged
  {
    CheckOptions(false, false, false)
  }

  datatype VcsError =
    | NoVcs
    | NotAllowedFilesFound(dirtyFiles: seq<string>, stagedFiles: seq<string>)
    | GitError(message: string)

  type VcsResult = Result<(), VcsError>

  /** The five statuses the staged arm of the classification matches: one
      index bit and nothing else. */
  const StagedStatuses: set<Status> :=
    {{IndexNew}, {IndexModified}, {IndexDeleted}, {IndexRenamed}, {IndexTypechange}}

  datatype StatusClass = Unchanged | Staged | Dirty

  /** The classification match: the whole status word is compared with
      CURRENT and with the five index singletons; everything else, including
      an index bit combined with any other bit, is dirty. */
  function Classify(s: Status): StatusClass {
    if s == Current then Unchanged
    else if s in StagedStatuses then Staged
    else Dirty
  }

  /** The staged list built by the loop over `entries`, in loop order. */
  function StagedFiles(entries: seq<StatusEntry>, opts: CheckOptions): (files: seq<string>)
    ensures |files| <= |entries|
  {
    if entries == [] then []
    else
      var e := entries[|entries| - 1];
      StagedFiles(entries[..|entries| - 1], opts)
        + if e.path.Some? && Classify(e.status) == Staged && !opts.allowStaged then [e.path.value] else []
  }

  /** The dirty list built by the loop over `entries`, in loop order. */
  function DirtyFiles(entries: seq<StatusEntry>, opts: CheckOptions): (files: seq<string>)
    ensures |files| <= |entries|
  {
    if entries == [] then []
    else
      var e := entries[|entries| - 1];
      DirtyFiles(entries[..|entries| - 1], opts)
        + if e.path.Some? && Classify(e.status) == Dirty && !opts.allowDirty then [e.path.value] else []
  }

  /** The final verdict on the two lists. */
  function Verdict(dirtyFiles: seq<string>, stagedFiles: seq<string>): VcsResult {
    if dirtyFiles == [] && stagedFiles == [] then Ok(())
    else Err(NotAllowedFilesFound(dirtyFiles, stagedFiles))
  }

  /** The outcome of check_version_control against `env`. Both git discovery
      calls (the detector's and the enumeration's) see the same `env.git`;
      when git discovery fails (a Mercurial-only repository) both lists stay
      empty. */
  function CheckOutcome(path: Path, opts: CheckOptions, env: Environment): VcsResult {
    if opts.allowNoVcs then Ok(())
    else if !SupportingCode.ExistingVcsRepo(path, env) then Err(NoVcs)
    else if opts.allowDirty && opts.allowStaged then Ok(())
    else
      match env.git
      case None => Verdict([], [])
      case Some(repo) =>
        match repo.statuses
        case Err(message) => Err(GitError(message))
        case Ok(entries) => Verdict(DirtyFiles(entries, opts), StagedFiles(entries, opts))
  }

  /** check_version_control, step by step as the source runs it. */
  method CheckVersionControl(path: Path, opts: CheckOptions, env: Environment) returns (r: VcsResult)
    ensures r == CheckOutcome(path, opts, env)
  {
    if opts.allowNoVcs {
      return Ok(());
    }
    if !SupportingCode.ExistingVcsRepo(path, env) {
      return Err(NoVcs);
    }
    if opts.allowDirty && opts.allowStaged {
      return Ok(());
    }
    var dirtyFiles: seq<string> := [];
    var stagedFiles: seq<string> := [];
    if env.git.Some? {
      var statuses := env.git.value.statuses;
      if statuses.Err? {
        return Err(GitError(statuses.error));
      }
      var entries := statuses.value;
      for i := 0 to |entries|
        invariant dirtyFiles == DirtyFiles(entries[..i], opts)
        invariant stagedFiles == StagedFiles(entries[..i], opts)
      {
        var entry := entries[i];
        assert entries[..i + 1][..i] == entries[..i];
        if entry.path.Some? {
          var p := entry.path.value;
          if entry.status == Current {
          } else if entry.status in StagedStatuses {
            if !opts.allowStaged {
              stagedFiles := stagedFiles + [p];
            }
          } else {
            if !opts.allowDirty {
              dirtyFiles := dirtyFiles + [p];
            }
          }
        }
      }
      assert entries[..|entries|] == entries;
    }
    if dirtyFiles == [] && stagedFiles == [] {
      r := Ok(());
    } else {
      r := Err(NotAllowedFilesFound(dirtyFiles, stagedFiles));
    }
  }
}
