/** The values check_version_control receives from git (through the git2
    library) and from the `hg` executable. Their behaviour is outside this model: each
    call's answer is an input. */
module Oracles {
  import opened Wrappers

  /** A filesystem path, compared only for equality. */
  type Path(==)

  /** The named bits of a git2 status word. */
  datatype Flag =
    | IndexNew | IndexModified | IndexDeleted | IndexRenamed | IndexTypechange
    | WtNew | WtModified | WtDeleted | WtTypechange | WtRenamed
    | Ignored | Conflicted

  /** A status word is the set of its bits. */
  type Status = set<Flag>

  /** git2's CURRENT: no bit set, the file is unchanged. */
  const Current: Status := {}

  predicate IsIndexFlag(f: Flag) {
    f.IndexNew? || f.IndexModified? || f.IndexDeleted? || f.IndexRenamed? || f.IndexTypechange?
  }

  /** One entry of a status enumeration; `path` is None when git2 cannot
      give the path as UTF-8 text. */
  datatype StatusEntry = StatusEntry(path: Option<string>, status: Status)

  /** What git2 answers about the repository discovered from the checked
      path: its working directory (None for a bare repository), the answer
      to the ignore query for the path, and the status enumeration
      (untracked files included, ignored files excluded). */
  datatype GitRepository = GitRepository(
    workdir: Option<Path>,
    isPathIgnored: Result<bool, string>,
    statuses: Result<seq<StatusEntry>, string>)

  /** How the `hg --cwd <path> root` process ended: it could not be started,
      or it finished with an exit code (None when a signal ended it) and
      some output. */
  datatype ProcessOutcome =
    | SpawnFailed(reason: string)
    | Finished(exitCode: Option<int>, stdout: seq<bv8>, stderr: seq<bv8>)

  /** The world the check runs against: git discovery from the path either
      fails (None) or yields a repository, and the hg probe's outcome. */
  datatype Environment = Environment(git: Option<GitRepository>, hg: ProcessOutcome)
}
