# version-control-clean-check, modelled in Dafny

The library answers one question for a tool that is about to rewrite files
in a directory: is that directory under version control, and is its
working tree in a state the caller accepts? `check_version_control(path,
opts)` runs a fixed chain of short-circuits and then classifies git's
per-file statuses:

1. `allow_no_vcs` set: pass, nothing else is looked at.
2. The repository detector (`existing_vcs_repo`) says no: fail with `NoVCS`.
3. Both `allow_dirty` and `allow_staged` set: pass without enumerating files.
4. Otherwise enumerate git's statuses (untracked included, ignored excluded)
   and push each entry's path onto `staged_files` (its status is exactly one
   `INDEX_*` bit) or onto `dirty_files` (any other non-`CURRENT` status),
   unless that category is allowed. A failing enumeration is returned as a
   git error. When git discovery fails here (the repository was found by
   `hg`), nothing is enumerated.
5. Pass when both lists are empty, else fail with `NotAllowedFilesFound`
   carrying both lists.

The detector accepts a path when git discovery succeeds and either the path
is the repository's working directory or git's ignore query does not say
"ignored" (a failed query counts as not ignored); failing that, when
`hg --cwd <path> root` exits with status 0.

Files:

- `wrappers.dfy` — `Option` and `Result`.
- `oracles.dfy` — what git2 and the `hg` process answer, as input values:
  an opaque `Path`, a git status word as a set of `Flag`s (`Current` is the
  empty set), a `StatusEntry`, a `GitRepository` (working directory, ignore
  query answer, status enumeration) and the `hg` process outcome, gathered
  in one `Environment`.
- `supporting_code.dfy` — the detector: `HgDiscover`, `InGitRepo`,
  `ExistingVcsRepo`, and lemmas for its edge cases.
- `check.dfy` — `CheckOptions`, the error type, the classification
  (`Classify`), the two lists as functions of the enumeration (`StagedFiles`,
  `DirtyFiles`), the outcome as a function (`CheckOutcome`), and
  `CheckVersionControl`, the imperative loop that pushes onto the two lists,
  proved to compute `CheckOutcome`.
- `check_properties.dfy` — what the outcome and the lists satisfy.

## Model

| member | source | states |
|---|---|---|
| Check.New | src/check.rs:21-26 | the default options allow nothing: no dirty files, no missing VCS, no staged files |
| Check.StagedFiles | src/check.rs:52-60 | the staged list holds at most one path per enumerated entry |
| Check.DirtyFiles | src/check.rs:61-65 | the dirty list holds at most one path per enumerated entry |
| Check.CheckVersionControl | src/check.rs:30-79 | the loop over the statuses, with its early returns, produces exactly the outcome `CheckOutcome` defines: the lists it pushes onto are `DirtyFiles`/`StagedFiles` of the enumeration |
| SupportingCode.HgFoundExactlyOnZeroExit | src/check/supporting_code.rs:37-46 | the hg probe succeeds exactly when the process started and exited with status 0 |
| SupportingCode.HgOutputIrrelevant | src/check/supporting_code.rs:38-45 | what hg prints never changes the probe's answer |
| SupportingCode.NoDiscoveryNoGitRepo | src/check/supporting_code.rs:11-21 | a failed git discovery means "not in a git repository" |
| SupportingCode.WorkdirOverridesIgnore | src/check/supporting_code.rs:13-15 | when the path is the repository's working directory it is in git, whatever the ignore query answers |
| SupportingCode.IgnoreQueryDecides | src/check/supporting_code.rs:14-18 | away from the working directory, or in a bare repository, the path is in git exactly when the ignore query does not successfully answer "ignored"; a failed query counts as not ignored |
| SupportingCode.HgConsultedOnlyWhenGitSaysNo | src/check/supporting_code.rs:24 | once git accepts the path the detector says yes whatever hg would answer |
| SupportingCode.IgnoredPathFallsBackToHg | src/check/supporting_code.rs:5-25 | a path git ignores is accepted exactly when the hg probe succeeds |
| CheckProperties.StagedIsExactlyOneIndexBit | src/check.rs:50-60 | a status is classed staged exactly when it has one bit and that bit is an INDEX_* bit |
| CheckProperties.CombinedStatusIsDirty | src/check.rs:50-66 | a status with two or more bits (e.g. INDEX_MODIFIED with WT_MODIFIED) is classed dirty |
| CheckProperties.AllowedListIsEmpty | src/check.rs:57-64 | allow_staged leaves the staged list empty and allow_dirty the dirty list |
| CheckProperties.StagedFilesIgnoreOtherOptions | src/check.rs:56-60 | the staged list depends on the options only through allow_staged |
| CheckProperties.DirtyFilesIgnoreOtherOptions | src/check.rs:61-65 | the dirty list depends on the options only through allow_dirty |
| CheckProperties.StagedMembership | src/check.rs:49-60 | a path is in the staged list iff staged files are not allowed and some entry with that path (path present) has a staged status |
| CheckProperties.DirtyMembership | src/check.rs:49-65 | a path is in the dirty list iff dirty files are not allowed and some entry with that path (path present) has a dirty status |
| CheckProperties.ListsInEnumerationOrder | src/check.rs:42-68 | each list is a subsequence of the enumerated paths, in enumeration order |
| CheckProperties.SubsequenceOfClassBounded | src/check.rs:48-65 | a list whose every path comes, in order, from a distinct entry of one category is no longer than the number of such entries |
| CheckProperties.FullSubsequenceOfClassIsUnique | src/check.rs:48-65 | two such lists as long as the number of entries of their category are equal: order and repeat count are fixed, one path per entry |
| CheckProperties.ListsAreTheirClassEntries | src/check.rs:48-65 | unless its category is allowed, each list takes its paths in order from entries of its own category and is as long as the number of such entries (with a path), so it pushes once per entry and skips none |
| CheckProperties.SubsequenceOfClassIsInEnumerationOrder | src/check.rs:48-65 | a list drawn in order from the entries of one category is in particular a subsequence of the enumerated paths: the category-aware order implies the plain one |
| CheckProperties.ListsDistribute | src/check.rs:48-68 | the lists are built entry by entry: the lists of a concatenated enumeration are the concatenated lists |
| CheckProperties.EntryInAtMostOneList | src/check.rs:50-66 | one entry contributes to at most one of the lists, at most one path |
| CheckProperties.ListsTogetherBounded | src/check.rs:42-68 | the two lists together are no longer than the enumeration |
| CheckProperties.ListsEmptyIffAllPermitted | src/check.rs:48-71 | both lists are empty iff every entry lacks a path, is CURRENT, or is in an allowed category |
| CheckProperties.AllowNoVcsAlwaysPasses | src/check.rs:31-33 | with allow_no_vcs the result is a pass whatever the environment |
| CheckProperties.UndetectedIsNoVcs | src/check.rs:34-36 | without allow_no_vcs, an undetected repository gives exactly NoVCS |
| CheckProperties.AllowBothSkipsEnumeration | src/check.rs:38-40 | with both categories allowed the result does not depend on the status enumeration, even one that would fail; it is a pass whenever a repository is detected (by git or by hg), and never anything but a pass or NoVCS |
| CheckProperties.MercurialOnlyPasses | src/check.rs:42-72 | when git discovery fails the result is a pass if allow_no_vcs or the hg probe succeeds, else NoVCS |
| CheckProperties.EnumerationErrorPropagates | src/check.rs:48 | a failing status enumeration, once reached, is the result, as a git error |
| CheckProperties.PassesIffEveryEntryPermitted | src/check.rs:42-78 | in a detected git repository with a successful enumeration the check passes iff every entry is permitted |
| CheckProperties.NotAllowedFilesFoundDescribesEntries | src/check.rs:71-78 | a NotAllowedFilesFound failure comes from a detected git repository, has a non-empty list, an empty list for each allowed category; each list holds exactly its category's paths, and a list whose category is not allowed is the full subsequence of that category: one path per entry of the category, in enumeration order |
| CheckProperties.MoreAllowedNeverFails | src/check.rs:30-79 | setting more flags never turns a pass into a failure |
| CheckProperties.DefaultIsStrictest | src/check.rs:21-26 | whatever passes with the default options passes with any options |
| CheckProperties.NonExistentFolder | tests/checks.rs:70-84 | a path outside any repository gives NoVCS with the defaults and a pass with allow_no_vcs |
| CheckProperties.StagedThenModifiedIsDirty | src/check.rs:50-66 | on a concrete enumeration a staged-then-modified file is reported dirty, a path-less entry and a CURRENT entry are not reported, and allow_dirty drops the dirty list |

## Left out

- The git2 calls (`Repository::discover`, `workdir`, `is_path_ignored`, `statuses`) and the `hg` process are not modelled: their answers are fields of `Environment`. Both git discovery calls of `check_version_control` (inside the detector and before the enumeration) read the same `Environment.git`, i.e. the repository is assumed not to change during one call.
- Paths are an opaque type compared by equality; path canonicalisation and `Path`'s component-wise comparison are not modelled. The `cwd` argument of `existing_vcs_repo` (always the checked path) disappears with the `hg` process it configures.
- A git status word is modelled as the set of its named bits (INDEX_*, WT_NEW/MODIFIED/DELETED/TYPECHANGE/RENAMED, IGNORED, CONFLICTED). Every status word other than `CURRENT` and the five `INDEX_*` singletons is classed dirty, in particular every word with two or more bits; bits that `git2::Status` does not name (e.g. libgit2's WT_UNREADABLE) are not modelled.
- The error type's module is not part of this model; its three kinds are defined here as `NoVcs`, `NotAllowedFilesFound` and `GitError` with an opaque message. The `Anyhow` variant cannot come out of `check_version_control` (the `hg` error is only tested with `is_ok()`), so it is not modelled.
- Repeated calls on an unchanged repository give the same outcome because the model is a function of its inputs; there is no separate lemma for it.
- Command-line argument parsing (clap attributes) and derived trait implementations are not modelled; the test helpers in `tests/` serve only as evidence for `NonExistentFolder`.
